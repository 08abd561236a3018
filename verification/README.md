# supply-chain-security, modelled in Dafny

This project models the pure core of a Go command-line tool that rates the
supply-chain risk of a GitHub repository. The core covers five areas:

- Lockfile extraction. Package URLs ("purls", `pkg:<ecosystem>/<name>@<version>`)
  are read from `go.sum`, `requirements.txt` and `package-lock.json`.
  Above the extractors sit the dispatcher, the repository-path splitter and
  the lockfile selector.
- Purl construction and parsing. `makePURL` builds purls. Two different
  purl splitters exist: the front of `CompareLatestVersion` and `ParsePURL`.
  Also modelled are the SBOM package filter and the lockfile-to-ecosystem
  table.
- Commit risk:
  - `EvaluateRiskByCommit` concatenates severity vectors.
  - `GetRiskRating` tokenises them again.
  - `scoreRiskVector`, `assignWeight` and `calculateRiskScore` compute the
    score.
  - The code-level path extracts introducing commits from OSV responses
    (`GetVulnerabilityIntroducerCommitRisk`, `contains`), accumulates and
    groups them by commit, and merges them into the per-commit list.
- Author risk. `EvaluateRiskByAuthor` folds commit risks into one string;
  the contributor test is a membership check.
- The lockfile-history walk of the `repository` command. It threads the
  previous revision's package list through a file's commits. One set of
  purls already reported is shared by all files.

## Modules

| file | module | contents |
|---|---|---|
| wrappers.dfy | Wrappers | `Option` and `Result` |
| strings.dfy | GoStrings | the Go `strings`/`bufio` operations the code uses, on `seq<char>` |
| seqs.dfy | Seqs | duplicate-freedom, first occurrences, filter-map, flat-map, map-iteration orders |
| types.dfy | Types | the records of types/types.go plus typed OSV records |
| purl.dfy | Purl | util/purl.go |
| sbom.dfy | SbomUtil | util/sbom-util.go |
| scoring.dfy | Scoring | the rating functions of util/commit.go; util/commit-authors.go has verbatim copies of them |
| commit.dfy | Commits | the rest of util/commit.go |
| authors.dfy | Authors | util/commit-authors.go |
| history.dfy | History | the commit walk of cmd/repository.go |

### Modelling conventions

- **Calls the model cannot see are parameters.** Network and GitHub calls,
  OSV look-ups, JSON decoding, `time.Parse`, the go-cvss parsers,
  `math.Log` and `DiffPkgLists` are all passed in as function values.
  Every result is about all possible such functions.
- **Go map iteration order is an input.** Where the code ranges over a map
  (npm `packages`, the lockfile table, the grouping by commit), the
  iteration is an explicit key order. For npm `packages`
  (`Purl.NpmOrderIndependent`) and the grouping by commit
  (`Commits.GroupedCommitRisksOrder`), a lemma shows that the result does not
  depend on that order, up to rearrangement. For the lockfile table
  (util/sbom-util.go:37-42) the detected ecosystem does depend on the order
  when several lockfiles exist; `SbomUtil.DetectEcosystemFromLockfile` states
  only that it is the ecosystem of some existing lockfile.
- **OSV documents are typed records.** A field that is absent or of the
  wrong JSON type becomes `None` or an empty sequence, which is how the code
  treats it.
- **Panics are preconditions.** The code's unchecked type assertions on the
  last severity entry (util/commit.go:358-359) panic when that entry has no
  string score. `EvaluateRiskByCommit` requires that no such vulnerability
  is reached.
- **Numbers.** `float64` is `real`, and timestamps are `int`.
  `strconv.FormatFloat` formatting is not modelled. `Rating` is either
  `NoData`, for the literal `"0"`, or `Rated(x)`.
- **`supportedFiles`.** cmd/repository.go:14-18 declares the same list, in
  the same order, as util/purl.go:16-20. Both use `Purl.SupportedFiles`.
- **go.sum versions.** The go.sum purl keeps the version's leading `v`
  (`pkg:golang/m@v1.2.3`), because the second field is emitted verbatim.
- **The code-level pipeline.** `Commits.VulnerableCommitsByRepoAsWritten`
  composes `GetAllVulnerableCommitsinOSVByRepo` as the code runs it, on the
  re-appending accumulation. `Commits.VulnerableCommitsByRepo` composes it
  on the corrected accumulation (see Findings).

## Model

| member | source | states |
|---|---|---|
| Purl.ParseRepoPath | util/purl.go:28-33 | Error exactly when the slash-trimmed path has no `/`; otherwise the owner is non-empty and neither owner nor repo contains `/` |
| Purl.ParseRepoPathSegments | util/purl.go:28-33 | For `owner/repo/extra…`, with or without leading and trailing slashes, the result is the owner and the repo minus one `.git` suffix; extra segments are ignored |
| Purl.FindLockfile | util/purl.go:176-189 | Returns the first existing file in the order go.sum, package-lock.json, requirements.txt, and errors exactly when none exists; the result does not depend on `jsonFlag` |
| Purl.GoLinePurl | util/purl.go:87-92 | A go.sum line yields a purl exactly when it has at least two whitespace fields, and that purl starts `pkg:golang/` |
| Purl.GoLineFirstTwoFields | util/purl.go:87-92 | For `<module> <version><rest>`, the purl is built from the module and the version minus one `/go.mod` suffix; the hash column is ignored |
| Purl.GoModLineSamePurl | util/purl.go:88-92 | A `<version>` line and a `<version>/go.mod` line of the same module give the same purl |
| Purl.KeepUnseen | util/purl.go:93-96 | A purl is kept exactly when it is in the input and not in the seen set |
| Purl.KeepUnseenNoDuplicates | util/purl.go:93-96 | The kept purls contain no repeats |
| Purl.KeepUnseenExtends | util/purl.go:93-96 | Scanning with a seen set equal to the elements of a prefix continues the prefix's first-occurrence list |
| Purl.ExtractGoPackages | util/purl.go:82-100 | Output has no duplicates, holds exactly the purls of the lines, and every purl is `pkg:golang/` |
| Purl.GoExtractionKeepsFirstOccurrences | util/purl.go:82-100 | Output equals the line-by-line purls with every repeat removed, each kept at its first line |
| Purl.GoSumPairYieldsOnePurl | util/purl.go:82-100 | The usual go.sum pair (`v` line and `v/go.mod` line) yields exactly one purl |
| Purl.GoSumPairPurls | util/purl.go:88-92 | Both lines of a go.sum pair map to the same purl |
| Purl.GoSameLinePurls | util/purl.go:93-96 | Two lines with the same purl contribute it once |
| Purl.KeepUnseenRepeat | util/purl.go:93-96 | A repeated purl is kept once |
| Purl.PythonLinePurl | util/purl.go:132-142 | Blank and `#` lines (after trimming) yield nothing; any purl is `pkg:pypi/` |
| Purl.ExtractPythonPackages | util/purl.go:127-147 | At most one purl per line, all `pkg:pypi/`; a purl is produced exactly when some line yields it |
| Purl.PythonOfLines | util/purl.go:127-147 | For a file of plain lines, the output is each usable line's purl, in line order, with repeats kept |
| Purl.PythonPinnedLine | util/purl.go:132-142 | `name==version` yields `pkg:pypi/<lower-cased trimmed name>@<trimmed version>` |
| Purl.PythonRejectsChainedPins | util/purl.go:137-138 | `a==b==c` splits into three parts and yields nothing |
| Purl.PythonRequiresPin | util/purl.go:137-138 | A line without `==` (for example `a>=1`) yields nothing |
| Purl.PythonKeepsDuplicates | util/purl.go:127-147 | A repeated requirement line yields its purl twice |
| Purl.NpmEntryPurl | util/purl.go:109-118 | The keys `""` and `"node_modules"` and non-object entries yield nothing; any purl is `pkg:npm/` |
| Purl.ExtractNpmPackages | util/purl.go:102-125 | Undecodable content, or no `packages` object, yields nothing; every purl is `pkg:npm/` |
| Purl.NpmOrderIndependent | util/purl.go:108-120 | Any two iteration orders of `packages` give the same purls, rearranged |
| Purl.NpmMembership | util/purl.go:107-120 | A purl is produced exactly when some `packages` entry yields it |
| Purl.NpmNameStripsOnePrefix | util/purl.go:113-117 | Only one leading `node_modules/` is removed from the key |
| Purl.NpmNeedsStringVersion | util/purl.go:114-115 | A missing, non-string or empty `version` skips the entry |
| Purl.ExtractPackages | util/purl.go:149-166 | Dispatch on the exact file name: `go.sum`, `requirements.txt` and `package-lock.json` give exactly their extractor's output; any other name yields nothing |
| SbomUtil.MakePurl | util/sbom-util.go:21-28 | Starts with `pkg:`, and its length is the trimmed parts' lengths plus the six separator characters |
| SbomUtil.MakePurlRoundTrip | util/sbom-util.go:21-28 | Round trip on raw parts: splitting `makePURL(t, n, v)` gives the trimmed, lower-cased type and the trimmed name and version, with the name's case kept |
| SbomUtil.SplitPurl | util/sbom-util.go:155-175 | Each error exactly in its case (no `pkg:`, no `/`, no `@` after the first `/`); on success the purl is `pkg:eco/name@version`, with no `/` in eco and no `@` in version |
| SbomUtil.SplitPurlUnique | util/sbom-util.go:159-175 | `pkg:e/n@v`, with no `/` in `e` and no `@` in `v`, splits back to `(e, n, v)` |
| SbomUtil.ScopedNameKeepsAt | util/sbom-util.go:166-175 | A scoped npm name `@scope/x` keeps its `@`, because the split is at the last `@` |
| SbomUtil.RegistryFor | util/sbom-util.go:177-186 | Unsupported exactly for anything other than `npm`, `pypi` or `golang`, and the error carries the ecosystem |
| SbomUtil.RegistryForName | util/sbom-util.go:177-186 | Each registry's ecosystem name selects that registry |
| SbomUtil.EcosystemNameCanonical | util/sbom-util.go:23 | The three ecosystem names are unchanged by trimming and lower-casing, and contain no `/`, `:` or `@` |
| SbomUtil.CompareLatestVersion | util/sbom-util.go:154-187 | Split errors pass through; an unsupported ecosystem is reported with its name; success only for a split purl with a supported ecosystem, and then the result is that registry's check of exactly the split name and version, its failure reported as a lookup error |
| SbomUtil.CompareLatestVersionOfMakePurl | util/sbom-util.go:21-28 | Round trip: splitting `makePURL(t,n,v)` gives back `(t,n,v)`, and the version check receives exactly `n` and `v` |
| SbomUtil.PackagePurl | util/sbom-util.go:72-76 | A package is kept exactly when its name neither equals the repo name up to case nor contains it |
| SbomUtil.DependencyPurls | util/sbom-util.go:70-77 | At most one purl per package, all `pkg:` |
| SbomUtil.DependencyPurlsMember | util/sbom-util.go:70-77 | A purl is produced exactly when some package that is not the repository maps to it through `makePURL` |
| SbomUtil.DependencyPurlsKeepsOthers | util/sbom-util.go:70-77 | When no package is the repository, the output maps the packages one for one, in order |
| SbomUtil.DependencyPurlsEmptyRepo | util/sbom-util.go:72 | An empty repository name is contained in every name, so nothing is kept |
| SbomUtil.DetectIn | util/sbom-util.go:37-42 | Returns the table entry of the first existing file in the given order, and nothing exactly when none exists |
| SbomUtil.DetectEcosystemFromLockfile | util/sbom-util.go:30-45 | For any iteration order, returns the ecosystem of some existing lockfile, and errors exactly when none exists |
| SbomUtil.DetectedEcosystemSupported | util/sbom-util.go:31-35 | Every detected ecosystem is one the version check supports |
| SbomUtil.FetchDependenciesViaSbom | util/sbom-util.go:48-81 | Fails (the panic) exactly when no lockfile exists; the SBOM error is reported exactly when a lockfile exists and the fetch failed; otherwise the package filter's output for some existing lockfile's ecosystem |
| Scoring.SelectParser | util/commit.go:403-430 | The 4.0, 2.0 and 3.0 parsers are chosen exactly for their prefixes, tried in that order; everything else goes to 3.1 |
| Scoring.SelectParserOfLabel | util/commit.go:404-423 | A vector labelled with a version is parsed by that version's parser |
| Scoring.ScoreRiskVector | util/commit.go:403-430 | Reports the selected version; the score is present exactly when the selected parser succeeds, and is then its result |
| Scoring.AssignWeight | util/commit.go:438-448 | The weight is 1.5 exactly at 9 or more, 1.2 exactly in [7, 9), 1.0 exactly in [4, 7), and 0.8 exactly below 4 |
| Scoring.AssignWeightMonotone | util/commit.go:438-448 | The weight never decreases as the score increases |
| Scoring.TotalWeight | util/commit.go:460-466 | The total weight is at least 0.8 per score |
| Scoring.HighRiskCount | util/commit.go:461-470 | `HR` is between 0 and N; it equals N exactly when all scores reach the threshold, and 0 exactly when none does |
| Scoring.CalculateRiskScore | util/commit.go:454-458 | No scores give 0 |
| Scoring.BonusMultiplierBounds | util/commit.go:476-478 | For c ≥ 0 the bonus lies in [1, 1+c(N−1)]; it is 1 for N = 1 or HR = 0, and the top value when HR = N |
| Scoring.WeightedAverageBetween | util/commit.go:460-474 | The weighted average lies within the bounds of the scores |
| Scoring.RiskScoreSingle | util/commit.go:454-482 | One score s rates s·ln 2 |
| Scoring.RiskScoreBetween | util/commit.go:454-482 | For scores in [lo, hi] the risk lies in [lo·ln(1+N), hi·ln(1+N)·(1+c(N−1))] |
| Scoring.ParsedScores | util/commit.go:389-397 | At most one score per token |
| Scoring.ParsedScoresKeepsParsed | util/commit.go:389-397 | The scores are those of the tokens whose parser succeeds, in token order; failed parses are dropped |
| Scoring.GetRiskRating | util/commit.go:381-401 | `"0"` exactly for the empty collation |
| Scoring.RatingWhenNothingParses | util/commit.go:384-399 | A non-empty collation in which no vector parses rates 0 (`"0.00"`, not `"0"`) |
| Scoring.TokenizeOfConcat | util/commit.go:388 | Whitespace-free `CVSS:` vectors concatenated without separator tokenise back to exactly those vectors, in order |
| Scoring.RatingOfCollated | util/commit.go:381-401 | The rating of such a concatenation is the risk score of the vectors' parsed scores, in order |
| Scoring.RatingOfSingleVector | util/commit.go:381-401 | A single vector with score s rates s·ln 2 |
| Commits.ParsePurl | util/commit.go:23-27 | No `@` gives the format error |
| Commits.ParsePurlOfSegments | util/commit.go:23-47 | `pkg:eco/seg1/…/segn@version` parses to name `segn` (the last segment only), that version, and ecosystem `eco` |
| Commits.ParsePurlOfMakePurl | util/commit.go:23-47 | On a `makePURL` purl, `ParsePURL` keeps only the last name segment while `CompareLatestVersion`'s split keeps the whole name |
| Commits.ParsePurlRejectsTwoAts | util/commit.go:24-27 | Two or more `@` give the format error |
| Commits.ParsePurlRequiresSlash | util/commit.go:30-34 | No `/` before the `@` gives the package-format error |
| Commits.ParsePurlRequiresColon | util/commit.go:36-39 | A first segment without `:` gives the ecosystem-format error |
| Commits.ParsePurlRejectsTwoColons | util/commit.go:36-39 | A first segment with two `:` gives the ecosystem-format error |
| Commits.ContainsEntry | util/commit.go:254-261 | True exactly when some entry matches both the commit sha and the vulnerability id |
| Commits.SeverityScoreNone | util/commit.go:226-233 | Without any string score the risk score stays as it was (`""` for a new entry) |
| Commits.SeverityScoreLast | util/commit.go:226-233 | The risk score is the last string `score` of the severity array |
| Commits.RangeShasMember | util/commit.go:212-221 | A range contributes a sha exactly when its type is `GIT`, the sha is not `"0"`, and the sha is an `introduced` event |
| Commits.VulnShasMember | util/commit.go:209-221 | A vulnerability contributes exactly the shas introduced in its `GIT` ranges |
| Commits.VulnEntries | util/commit.go:222-235 | One candidate entry per introduced sha |
| Commits.CandidatesMember | util/commit.go:200-235 | A candidate is exactly an introducing commit of some vulnerability of the response, keyed by its id and carrying its risk score |
| Commits.AppendNew | util/commit.go:222-235 | The list only grows: the input list is an unchanged prefix |
| Commits.AppendNewFrom | util/commit.go:222-235 | Every appended entry is a candidate |
| Commits.AppendNewKeys | util/commit.go:222-235 | A (sha, id) pair is present afterwards exactly when it was present before or among the candidates |
| Commits.AppendNewUnique | util/commit.go:222-235 | Appending keeps (sha, id) pairs unique |
| Commits.IntroducerCommitRisk | util/commit.go:174-252 | The input list is an unchanged prefix of the result; on error the result is the input list |
| Commits.IntroducerSound | util/commit.go:198-251 | Every appended entry comes from the response for that sha |
| Commits.IntroducerKeys | util/commit.go:198-251 | Uniqueness of (sha, id) pairs is preserved, and every introducing pair of the response is present |
| Commits.ReappendDuplicates | util/commit.go:269-277 | As written, the accumulator repeats pairs as soon as one query found something and another succeeds |
| Commits.CollectAsWritten | util/commit.go:269-277 | The re-appending accumulation only extends the list |
| Commits.CollectAsWrittenKeys | util/commit.go:269-277 | The re-appending accumulation still records every reported pair |
| Commits.CollectAsWrittenSound | util/commit.go:269-277 | The re-appending accumulation records only entries that some successful response produced |
| Commits.Collect | util/commit.go:269-277 | The corrected accumulation only extends the list |
| Commits.CollectKeys | util/commit.go:269-277 | The corrected accumulation records every reported pair, and none twice |
| Commits.CollectSound | util/commit.go:269-277 | The corrected accumulation records only entries that some successful response produced |
| Commits.GroupByShaSpec | util/commit.go:279-283 | A commit is a key exactly when it has entries, and its group holds those entries in list order |
| Commits.GroupedCommitRisksSpec | util/commit.go:285-294 | One risk per distinct commit; each risk's score is its entries' scores concatenated |
| Commits.GroupedCommitRisksOrder | util/commit.go:285-294 | Any two iteration orders give the same risks, rearranged |
| Commits.GroupedCovers | util/commit.go:279-294 | Every commit with a recorded entry gets a risk |
| Commits.GroupedReported | util/commit.go:279-294 | When every entry came from a response, each risk belongs to a commit some response names as introducing a vulnerability |
| Commits.GroupedExactly | util/commit.go:279-294 | Over entries that come from responses and record every reported pair, a risk exists exactly for the reported commits |
| Commits.VulnerableCommitsByRepoAsWrittenCovers | util/commit.go:263-297 | In the program as written, every commit named as introducing in some response gets a risk, scored from the entries the re-appending loop recorded |
| Commits.VulnerableCommitsByRepoAsWrittenExactly | util/commit.go:263-297 | In the program as written, a risk is in the result if and only if it belongs to a commit that some successfully queried response names as introducing a vulnerability, scored from the entries the re-appending loop recorded |
| Commits.ReappendRepeatsEntry | util/commit.go:269-294 | As written, once a first query found something and a later one succeeds, the first entry's commit group holds that entry twice, so its combined score repeats the vector |
| Commits.VulnerableCommitsByRepoCovers | util/commit.go:263-297 | In the corrected pipeline, every commit named as introducing in some response gets a risk scored from its entries, each recorded once |
| Commits.VulnerableCommitsByRepoExactly | util/commit.go:263-297 | In the corrected pipeline, a risk is in the result if and only if it belongs to a commit that some successfully queried response names as introducing a vulnerability, scored from its entries |
| Commits.InnerAsWrittenUnchanged | util/commit.go:303-307 | The inner loop as written leaves the list unchanged |
| Commits.MergeAsWrittenUnchanged | util/commit.go:299-311 | As written, the result equals `allRepoCommitRisk` element for element |
| Commits.MergeAsWrittenLosesRisk | util/commit.go:299-311 | A matching code-level risk is lost as written but kept by the corrected merge |
| Commits.Merge | util/commit.go:299-311 | The corrected merge keeps the list length |
| Commits.MergeSpec | util/commit.go:302-307 | Each element gains, in order, `score + ";"` of every code-level risk with the same commit; nothing else changes |
| Commits.AppendedScoresNonEmpty | util/commit.go:304-305 | A matching code-level risk always appends something |
| Commits.ScorePurls | util/commit.go:325-375 | Fails exactly when some purl's lookup fails |
| Commits.EvaluateRiskByCommit | util/commit.go:313-379 | Errors exactly when the date does not parse or a lookup fails; the zero risk on error, otherwise the given commit |
| Commits.ScorePurlsSpec | util/commit.go:325-375 | The score is the in-order, separator-free concatenation of the last severity scores of the vulnerabilities published strictly before the commit |
| Commits.EvaluateRiskByCommitScore | util/commit.go:313-379 | The whole result on success: that concatenation, and the commit |
| Commits.ScorePurlsIgnoresJsonFlag | util/commit.go:330-339 | `jsonFlag` changes only printing |
| Commits.EvaluateRiskByCommitIgnoresJsonFlag | util/commit.go:330-339 | `jsonFlag` changes only printing, in the error cases too |
| Commits.UnqualifiedAddsNothing | util/commit.go:341-355 | A vulnerability that does not qualify contributes nothing |
| Commits.NotBeforeAddsNothing | util/commit.go:355 | The time comparison is strict: publication at or after the commit time contributes nothing |
| Commits.UnpublishedAddsNothing | util/commit.go:343-352 | A missing, non-string or unparseable `published` is skipped |
| Commits.BeforeAddsLastScore | util/commit.go:355-359 | An earlier vulnerability contributes the score of its last severity entry |
| Commits.CommitRating | util/commit.go:381-401 | End to end: the rating of an evaluated commit is the risk score of its contributions' parsed scores |
| Authors.CheckAuthorInContributors | util/commit-authors.go:105-113 | True exactly when some contributor has the same ID and the same name, that is, when the author is among the contributors |
| Authors.EvaluateRiskByAuthor | util/commit-authors.go:125-137 | The author is kept, and an empty list gives `""` |
| Authors.AuthorScoreAllMatch | util/commit-authors.go:128-136 | When every commit is the author's, each score and `;` is appended to the accumulator in order |
| Authors.AllByAuthor | util/commit-authors.go:129-131 | When every commit is the author's, the result is each `score;` in order |
| Authors.LastMismatchResets | util/commit-authors.go:128-136 | The result is `"No-Risk"` followed by `score;` for each commit after the last one by someone else |
| Authors.EndsWithOtherAuthor | util/commit-authors.go:132-133 | A list ending with someone else's commit gives exactly `"No-Risk"` |
| Authors.EvaluateRiskByAuthorCorrected | util/commit-authors.go:125-137 | The corrected fold keeps the author, and an empty list gives `""` |
| Authors.CorrectedScoresAuthorsCommits | util/commit-authors.go:125-137 | The corrected result is `score;` for exactly the author's commits, in order |
| Authors.OverwriteDiscardsRisk | util/commit-authors.go:130-134 | The author's commit followed by someone else's: `"No-Risk"` as written, the author's score when corrected |
| History.UniqueDependencies | cmd/repository.go:48-93 | Every purl in the final set was reported as "Added" exactly once |
| History.ReportSpec | cmd/repository.go:75-80 | Reporting a diff adds all its purls to the seen set and reports, in order, those not seen before |
| History.ReportConsistent | cmd/repository.go:75-80 | No purl is ever reported twice, and the reported purls are exactly the seen set |
| History.WalkCommitsSpec | cmd/repository.go:63-82 | Each successfully fetched revision is diffed against the previous successfully fetched one; failed fetches leave `lastPkgs` alone |
| History.FirstRevisionAgainstEmpty | cmd/repository.go:63-81 | After any number of failed fetches, a file's first fetched revision is diffed against the empty list |
| History.WalkFilesSpec | cmd/repository.go:50-85 | The file loop reports the diffs of all files in turn, sharing one seen set |
| History.SkippedFileAddsNothing | cmd/repository.go:51-61 | A missing file, or one whose commit list fails, contributes nothing |
| History.UniqueSetIsUnionOfDiffs | cmd/repository.go:48-93 | The final set is exactly the union of the diff outputs over the fetched revisions of the existing files |
| History.ReportedInFirstAppearanceOrder | cmd/repository.go:75-80 | The "Added" lines are the diff outputs with repeats removed, in order of first appearance |

## Left out

- HTTP, GitHub, OSV and registry calls, with their pagination loops, are left
  out: `GetOSVDataByDependencyPurl`, `GetAllCommitSHAByRepo`,
  `GetAllCommitChangesBySHA`, `GetAllRepos`, `GetAuthorsByRepo`,
  `GetLockFileCommits`, `FetchFileAtCommit`, `fileExists`, the SBOM request,
  and `checkNpm`/`checkPyPI`/`checkGo` with `compareVersions`. Their results
  are parameters.
- `url.Parse` is left out. `ParseGitHubURL` is modelled from the parsed
  URL's path onward.
- The go-cvss vector parsers are left out. Only the prefix dispatch of
  `scoreRiskVector` is modelled; parsing plus base score is a parameter.
- Floating point is left out. The formula is exact over `real` with `ln` as
  a parameter, and `strconv.FormatFloat` rounding to two decimals is not
  modelled.
- `time.Parse` is left out. Commit dates and publication times are integer
  timestamps, parsed by parameters.
- JSON decoding into `map[string]interface{}` is left out. OSV responses
  and npm lockfiles are typed records; decoding is a parameter.
- `DiffPkgLists` is a parameter: its definition is not part of this model.
- `GetReposByAuthor`, the `allPublicRepositories` global, and
  `SaveSlice`/`LoadSlice` file I/O are left out. The Cobra command set-up
  and all printing are left out too.
- Commits.EvaluateRiskByCommit: has a precondition the code lacks. The type
  assertions at util/commit.go:358-359 panic on a qualifying vulnerability
  whose last severity entry has no string score. The model excludes such
  inputs (`NoPanic`) instead of modelling the crash.
- SbomUtil.FetchDependenciesViaSbom: returns an error where the code panics when no
  lockfile is found (util/sbom-util.go:53-54).
- Commits.IntroducerCommitRisk: the unchecked `vuln["id"].(string)` assertion
  (util/commit.go:206) is modelled as a well-typed `id` field. The panic on a
  non-string id is not modelled.
- GoStrings.ToLower: folds ASCII letters only, and GoStrings.EqualFold
  compares under that folding. Go's `strings.ToLower` and `strings.EqualFold`
  follow Unicode, so for a non-ASCII upper-case name the model differs: the
  SBOM filter (util/sbom-util.go:72) can keep a package the code drops, and
  a requirements.txt name (util/purl.go:139) keeps upper-case letters that the
  code lower-cases.
- GoStrings.Lines: has no token-size limit. `bufio.Scanner` (util/purl.go:85
  and 130) stops at a line longer than 64 KiB, and the extractors then return
  only the purls of the lines before it.
- Scoring.CalculateRiskScore: is stated over `real`. It does not model
  float64 rounding or the `NaN` a zero total weight could produce; all
  weights are positive, so that case cannot arise.
- The duplicated scoring functions in util/commit-authors.go:159-260 are
  verbatim copies of util/commit.go:381-482 and are modelled once, in
  `Scoring`.

## Findings

| source | as written | input that shows it | evidently intended | confidence | as-written member | corrected member |
|---|---|---|---|---|---|---|
| util/commit.go:302-307 | The score update assigns to the range variable `dependencyCommitRisk`, which is a copy, so the list is never changed | any `allRepoCommitRisk` with an element whose commit equals a code-level risk's commit | that element's score gains the code-level score followed by `;` | high, not executed | Commits.MergeAsWrittenLosesRisk | Commits.MergeSpec |
| util/commit.go:271-275 | The callee returns the accumulated list with new entries appended, and the caller appends that whole list to the accumulator again | two shas where the first query reports an introducing commit and the second query succeeds | the accumulator becomes the returned list, with each (sha, id) pair once | high, not executed | Commits.ReappendDuplicates | Commits.CollectKeys |
| util/commit-authors.go:130-134 | Any commit by another author replaces the accumulated scores with `"No-Risk"` | the author's commit followed by another author's commit gives `"No-Risk"` | other authors' commits leave the author's accumulated scores alone | medium, not executed | Authors.OverwriteDiscardsRisk | Authors.CorrectedScoresAuthorsCommits |

The corrected definitions are `Commits.Merge`, `Commits.Collect` (used by
`Commits.VulnerableCommitsByRepo`) and
`Authors.EvaluateRiskByAuthorCorrected`. The as-written definitions are
`Commits.MergeAsWritten`, `Commits.CollectAsWritten` (used by
`Commits.VulnerableCommitsByRepoAsWritten`) and
`Authors.EvaluateRiskByAuthor`.
