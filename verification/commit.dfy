/** The pure logic of util/commit.go: `ParsePURL`, the code-level path
    (`GetVulnerabilityIntroducerCommitRisk`, `contains`, the per-commit
    accumulation and sha grouping of `GetAllVulnerableCommitsinOSVByRepo`,
    `FormCompleteCombinedCommitRisksByRepo`) and the dependency path
    (`EvaluateRiskByCommit`). The OSV, GitHub and time-parsing calls are
    function parameters; the scoring functions live in module `Scoring`. */
module Commits {
  import opened Wrappers
  import opened GoStrings
  import opened Seqs
  import opened Types
  import SbomUtil
  import Scoring

  // ---------------------------------------------------------------------
  // ParsePURL

  function Last<T>(s: seq<T>): T
    requires |s| > 0
  {
    s[|s| - 1]
  }

  datatype ParseError = InvalidPurlFormat | InvalidPackageFormat | InvalidEcosystemFormat

  /** `ParsePURL`: exactly one `@`; at least one `/` before it; the first
      `/` segment holds exactly one `:`. The ecosystem follows that `:`, and
      the name is only the last `/` segment. */
  function ParsePurl(purl: string): (r: Result<Package, ParseError>)
    ensures !Contains(purl, "@") ==> r == Err(InvalidPurlFormat)
  {
    var parts := Split(purl, "@");
    if |parts| != 2 then Err(InvalidPurlFormat)
    else
      var nameParts := Split(parts[0], "/");
      if |nameParts| < 2 then Err(InvalidPackageFormat)
      else
        var ecosystemParts := Split(nameParts[0], ":");
        if |ecosystemParts| != 2 then Err(InvalidEcosystemFormat)
        else Ok(Package(Last(nameParts), parts[1], ecosystemParts[1]))
  }

  /** A character that is neither in the separator nor in any piece is not
      in their join. */
  lemma {:induction false} NotInJoin(ws: seq<string>, sep: string, c: char)
    requires c !in sep
    requires forall i | 0 <= i < |ws| :: c !in ws[i]
    ensures c !in Join(ws, sep)
    decreases |ws|
  {
    if |ws| > 1 {
      NotInJoin(ws[1..], sep, c);
    }
  }

  lemma {:induction false} JoinPair(a: string, b: string, c: char)
    ensures Join([a, b], [c]) == a + [c] + b
  {
    assert [a, b][1..] == [b];
  }

  /** Splitting `a<c>b` on `c` gives back `a` and `b` when neither holds `c`. */
  lemma {:induction false} SplitPair(a: string, b: string, c: char)
    requires c !in a && c !in b
    ensures Split(a + [c] + b, [c]) == [a, b]
  {
    JoinPair(a, b, c);
    SplitOfJoin([a, b], c);
  }

  lemma {:induction false} SplitSegments(head: string, segs: seq<string>)
    requires '/' !in head && |segs| >= 1
    requires forall i | 0 <= i < |segs| :: '/' !in segs[i]
    ensures Split(head + "/" + Join(segs, "/"), "/") == [head] + segs
  {
    var names := [head] + segs;
    JoinCons(head, segs, "/");
    assert forall i | 1 <= i < |names| :: names[i] == segs[i - 1];
    SplitOfJoin(names, '/');
  }

  lemma {:induction false} LastOfCons<T>(x: T, s: seq<T>)
    requires |s| >= 1
    ensures Last([x] + s) == Last(s)
  {
  }

  /** Round trip: `pkg:<eco>/<seg>/.../<seg>@<version>` parses to the last
      segment, the version and the ecosystem, whatever the earlier segments
      (a Go module path such as `github.com/x/y` keeps only `y`). */
  lemma {:induction false} ParsePurlOfSegments(eco: string, segs: seq<string>, version: string)
    requires ':' !in eco && '/' !in eco && '@' !in eco
    requires |segs| >= 1
    requires forall i | 0 <= i < |segs| :: '/' !in segs[i] && '@' !in segs[i]
    requires '@' !in version
    ensures ParsePurl("pkg:" + eco + "/" + Join(segs, "/") + "@" + version)
      == Ok(Package(Last(segs), version, eco))
  {
    HeadClean(eco, segs);
    SplitPair("pkg:" + eco + "/" + Join(segs, "/"), version, '@');
    SplitSegments("pkg:" + eco, segs);
    LastOfCons("pkg:" + eco, segs);
    SplitHead(eco);
  }

  lemma {:induction false} HeadClean(eco: string, segs: seq<string>)
    requires '/' !in eco && '@' !in eco
    requires forall i | 0 <= i < |segs| :: '@' !in segs[i]
    ensures '/' !in "pkg:" + eco
    ensures '@' !in "pkg:" + eco + "/" + Join(segs, "/")
  {
    NotInJoin(segs, "/", '@');
  }

  lemma {:induction false} SplitHead(eco: string)
    requires ':' !in eco
    ensures Split("pkg:" + eco, ":") == ["pkg", eco]
  {
    assert "pkg:" + eco == "pkg" + ":" + eco;
    SplitPair("pkg", eco, ':');
  }

  /** The program's two purl parsers disagree on names with a `/`: of a
      purl `makePURL` builds from a Go module path, the split of
      `CompareLatestVersion` recovers the whole path, `ParsePURL` only its
      last segment. */
  lemma {:induction false} ParsePurlOfMakePurl(reg: SbomUtil.Registry, segs: seq<string>, version: string)
    requires |segs| >= 1
    requires forall i | 0 <= i < |segs| :: '/' !in segs[i] && '@' !in segs[i]
    requires TrimSpace(Join(segs, "/")) == Join(segs, "/") && TrimSpace(version) == version && '@' !in version
    ensures ParsePurl(SbomUtil.MakePurl(SbomUtil.EcosystemName(reg), Join(segs, "/"), version))
      == Ok(Package(Last(segs), version, SbomUtil.EcosystemName(reg)))
    ensures SbomUtil.SplitPurl(SbomUtil.MakePurl(SbomUtil.EcosystemName(reg), Join(segs, "/"), version))
      == Ok(SbomUtil.PurlParts(SbomUtil.EcosystemName(reg), Join(segs, "/"), version))
  {
    var eco := SbomUtil.EcosystemName(reg);
    SbomUtil.EcosystemNameCanonical(reg);
    assert SbomUtil.MakePurl(eco, Join(segs, "/"), version) == "pkg:" + eco + "/" + Join(segs, "/") + "@" + version;
    ParsePurlOfSegments(eco, segs, version);
    SbomUtil.SplitPurlUnique(eco, Join(segs, "/"), version);
  }

  /** Two or more `@`s are rejected before anything else is looked at:
      `c` may hold further `@`s. */
  lemma {:induction false} ParsePurlRejectsTwoAts(a: string, b: string, c: string)
    requires '@' !in a && '@' !in b
    ensures ParsePurl(a + "@" + b + "@" + c) == Err(InvalidPurlFormat)
  {
    assert a + "@" + b + "@" + c == a + "@" + (b + "@" + c);
    SplitFirst(a, "@", b + "@" + c);
    SplitFirst(b, "@", c);
  }

  /** Without a `/` before the `@` the package format is invalid. */
  lemma {:induction false} ParsePurlRequiresSlash(name: string, version: string)
    requires '@' !in name && '@' !in version && '/' !in name
    ensures ParsePurl(name + "@" + version) == Err(InvalidPackageFormat)
  {
    JoinPair(name, version, '@');
    SplitOfJoin([name, version], '@');
    ContainsChar(name, '/');
  }

  /** With one `@` and a `/` before it, the verdict rests on the first
      `/` segment alone. */
  lemma {:induction false} FirstSegment(first: string, rest: string, version: string)
    requires '@' !in first && '@' !in rest && '@' !in version && '/' !in first
    ensures var parts := Split(first + "/" + rest + "@" + version, "@");
      && |parts| == 2 && parts[0] == first + "/" + rest
      && |Split(parts[0], "/")| >= 2 && Split(parts[0], "/")[0] == first
  {
    var pre := first + "/" + rest;
    assert '@' !in pre;
    JoinPair(pre, version, '@');
    SplitOfJoin([pre, version], '@');
    SplitFirst(first, "/", rest);
  }

  /** A first segment without a `:` is an invalid ecosystem. */
  lemma {:induction false} ParsePurlRequiresColon(first: string, rest: string, version: string)
    requires '@' !in first && '@' !in rest && '@' !in version && '/' !in first && ':' !in first
    ensures ParsePurl(first + "/" + rest + "@" + version) == Err(InvalidEcosystemFormat)
  {
    FirstSegment(first, rest, version);
    ContainsChar(first, ':');
  }

  /** A first segment with two `:` is an invalid ecosystem too. */
  lemma {:induction false} ParsePurlRejectsTwoColons(x: string, y: string, z: string, rest: string, version: string)
    requires ':' !in x
    requires '@' !in x + ":" + y + ":" + z && '/' !in x + ":" + y + ":" + z
    requires '@' !in rest && '@' !in version
    ensures ParsePurl(x + ":" + y + ":" + z + "/" + rest + "@" + version) == Err(InvalidEcosystemFormat)
  {
    FirstSegment(x + ":" + y + ":" + z, rest, version);
    ColonCount(x, y, z);
  }

  lemma {:induction false} ColonCount(x: string, y: string, z: string)
    requires ':' !in x
    ensures |Split(x + ":" + y + ":" + z, ":")| >= 3
  {
    assert x + ":" + y + ":" + z == x + ":" + (y + ":" + z);
    SplitFirst(x, ":", y + ":" + z);
    assert (y + ":" + z)[|y|] == ':';
    ContainsChar(y + ":" + z, ':');
  }

  // ---------------------------------------------------------------------
  // contains

  /** `c` records commit `sha` as introducing vulnerability `id`. */
  predicate SameKey(c: VulnerableCommit, sha: string, id: string) {
    c.commitSha == sha && c.vulnerabilityId == id
  }

  predicate HasEntry(list: seq<VulnerableCommit>, sha: string, id: string) {
    exists k | 0 <= k < |list| :: SameKey(list[k], sha, id)
  }

  /** No two entries record the same (commit, vulnerability) pair. */
  predicate UniqueKeys(list: seq<VulnerableCommit>) {
    forall i, j | 0 <= i < j < |list| :: !SameKey(list[j], list[i].commitSha, list[i].vulnerabilityId)
  }

  /** `contains`: a linear scan that stops at the first entry matching both
      the commit sha and the vulnerability id. */
  method ContainsEntry(list: seq<VulnerableCommit>, sha: string, id: string) returns (found: bool)
    ensures found <==> HasEntry(list, sha, id)
  {
    for i := 0 to |list|
      invariant forall k | 0 <= k < i :: !SameKey(list[k], sha, id)
    {
      if list[i].commitSha == sha && list[i].vulnerabilityId == id {
        return true;
      }
    }
    return false;
  }

  // ---------------------------------------------------------------------
  // GetVulnerabilityIntroducerCommitRisk

  /** The severity loop: each entry whose `score` is a string overwrites the
      value so far. */
  function SeverityScore(sev: seq<Severity>, current: string): string
    decreases |sev|
  {
    if |sev| == 0 then current
    else SeverityScore(sev[1..], sev[0].score.GetOr(current))
  }

  /** The `RiskScore` an entry for `v` gets: `""` unless some severity
      entry has a string score. */
  function RiskScoreOf(v: Vuln): string {
    SeverityScore(v.severity, "")
  }

  /** With no string score left, the value so far stands. */
  lemma {:induction false} SeverityScoreNone(sev: seq<Severity>, current: string)
    requires forall j | 0 <= j < |sev| :: sev[j].score.None?
    ensures SeverityScore(sev, current) == current
    decreases |sev|
  {
    if |sev| > 0 {
      assert forall j | 0 <= j < |sev| - 1 :: sev[1..][j] == sev[j + 1];
      SeverityScoreNone(sev[1..], current);
    }
  }

  /** The score is the last string score of the array. */
  lemma {:induction false} SeverityScoreLast(sev: seq<Severity>, current: string, k: nat)
    requires k < |sev| && sev[k].score.Some?
    requires forall j | k < j < |sev| :: sev[j].score.None?
    ensures SeverityScore(sev, current) == sev[k].score.value
    decreases |sev|
  {
    assert forall j | 0 <= j < |sev| - 1 :: sev[1..][j] == sev[j + 1];
    if k == 0 {
      SeverityScoreNone(sev[1..], sev[0].score.value);
    } else {
      SeverityScoreLast(sev[1..], sev[0].score.GetOr(current), k - 1);
    }
  }

  /** An event's introducing commit: an `introduced` string other than `"0"`. */
  function IntroducedSha(e: Event): Option<string> {
    match e.introduced
    case Some(s) => if s != "0" then Some(s) else None
    case None => None
  }

  /** The introducing commits of one range; only `GIT` ranges count. */
  function RangeShas(r: Range): seq<string> {
    if r.rangeType == Some("GIT") then FilterMap(IntroducedSha, r.events) else []
  }

  function AffectedShas(a: Affected): seq<string> {
    FlatMap(RangeShas, a.ranges)
  }

  /** The introducing commits of a vulnerability, in document order. */
  function VulnShas(v: Vuln): seq<string> {
    FlatMap(AffectedShas, v.affected)
  }

  /** `v` names `sha` as introduced in one of its `GIT` ranges. */
  ghost predicate IntroducedBy(v: Vuln, sha: string) {
    && sha != "0"
    && exists a, r :: a in v.affected && r in a.ranges && r.rangeType == Some("GIT") && Event(Some(sha)) in r.events
  }

  lemma {:induction false} RangeShasMember(r: Range, sha: string)
    ensures sha in RangeShas(r) <==> r.rangeType == Some("GIT") && sha != "0" && Event(Some(sha)) in r.events
  {
    FilterMapMember(IntroducedSha, r.events, sha);
    assert forall e :: IntroducedSha(e) == Some(sha) <==> e == Event(Some(sha)) && sha != "0";
  }

  lemma {:induction false} VulnShasMember(v: Vuln, sha: string)
    ensures sha in VulnShas(v) <==> IntroducedBy(v, sha)
  {
    FlatMapMember(AffectedShas, v.affected, sha);
    forall a ensures sha in AffectedShas(a) <==> exists r :: r in a.ranges && sha in RangeShas(r) {
      FlatMapMember(RangeShas, a.ranges, sha);
    }
    forall r ensures sha in RangeShas(r) <==> r.rangeType == Some("GIT") && sha != "0" && Event(Some(sha)) in r.events {
      RangeShasMember(r, sha);
    }
  }

  /** The entries the loops build for one vulnerability, before `contains`
      filters them: one per introducing commit, in order. */
  function VulnEntries(v: Vuln): (es: seq<VulnerableCommit>)
    ensures |es| == |VulnShas(v)|
  {
    var shas := VulnShas(v);
    seq(|shas|, i requires 0 <= i < |shas| => VulnerableCommit(v.id, shas[i], RiskScoreOf(v)))
  }

  /** The entries of all vulnerabilities of a response, in order. */
  function Candidates(vulns: seq<Vuln>): seq<VulnerableCommit> {
    FlatMap(VulnEntries, vulns)
  }

  /** A candidate is an introducing commit of some vulnerability of the
      response, keyed by that vulnerability's id and carrying its score. */
  ghost predicate FromResponse(c: VulnerableCommit, vulns: seq<Vuln>) {
    exists v :: v in vulns && c == VulnerableCommit(v.id, c.commitSha, RiskScoreOf(v)) && IntroducedBy(v, c.commitSha)
  }

  lemma {:induction false} CandidatesMember(vulns: seq<Vuln>, c: VulnerableCommit)
    ensures c in Candidates(vulns) <==> FromResponse(c, vulns)
  {
    FlatMapMember(VulnEntries, vulns, c);
    forall v ensures c in VulnEntries(v) <==> c == VulnerableCommit(v.id, c.commitSha, RiskScoreOf(v)) && IntroducedBy(v, c.commitSha) {
      VulnShasMember(v, c.commitSha);
      var shas := VulnShas(v);
      if c in VulnEntries(v) {
        var i :| 0 <= i < |shas| && VulnEntries(v)[i] == c;
        assert shas[i] in shas;
      }
      if c == VulnerableCommit(v.id, c.commitSha, RiskScoreOf(v)) && c.commitSha in shas {
        var i :| 0 <= i < |shas| && shas[i] == c.commitSha;
        assert VulnEntries(v)[i] == c;
      }
    }
  }

  /** The `contains`-guarded append: a candidate is appended unless the list
      so far, appended entries included, already records its pair. */
  function AppendNew(acc: seq<VulnerableCommit>, cands: seq<VulnerableCommit>): (r: seq<VulnerableCommit>)
    ensures |acc| <= |r| && r[..|acc|] == acc
    decreases |cands|
  {
    if |cands| == 0 then acc
    else
      var c := cands[0];
      var next := if HasEntry(acc, c.commitSha, c.vulnerabilityId) then acc else acc + [c];
      var r := AppendNew(next, cands[1..]);
      assert r[..|acc|] == r[..|next|][..|acc|];
      r
  }

  lemma {:induction false} HasEntrySnoc(acc: seq<VulnerableCommit>, c: VulnerableCommit, sha: string, id: string)
    ensures HasEntry(acc + [c], sha, id) <==> HasEntry(acc, sha, id) || SameKey(c, sha, id)
  {
    assert forall k | 0 <= k < |acc| :: (acc + [c])[k] == acc[k];
    assert (acc + [c])[|acc|] == c;
  }

  lemma {:induction false} HasEntryCons(cands: seq<VulnerableCommit>, sha: string, id: string)
    requires |cands| > 0
    ensures HasEntry(cands, sha, id) <==> SameKey(cands[0], sha, id) || HasEntry(cands[1..], sha, id)
  {
    assert forall k | 1 <= k < |cands| :: cands[1..][k - 1] == cands[k];
  }

  /** Every appended entry is one of the candidates. */
  lemma {:induction false} AppendNewFrom(acc: seq<VulnerableCommit>, cands: seq<VulnerableCommit>)
    ensures forall k | |acc| <= k < |AppendNew(acc, cands)| :: AppendNew(acc, cands)[k] in cands
    decreases |cands|
  {
    if |cands| > 0 {
      var c := cands[0];
      var next := if HasEntry(acc, c.commitSha, c.vulnerabilityId) then acc else acc + [c];
      AppendNewFrom(next, cands[1..]);
      var r := AppendNew(next, cands[1..]);
      assert forall x | x in cands[1..] :: x in cands;
      if next != acc {
        assert r[|acc|] == r[..|next|][|acc|];
      }
    }
  }

  /** A pair is recorded in the result exactly when it was recorded before
      or some candidate carries it. */
  lemma {:induction false} AppendNewKeys(acc: seq<VulnerableCommit>, cands: seq<VulnerableCommit>, sha: string, id: string)
    ensures HasEntry(AppendNew(acc, cands), sha, id) <==> HasEntry(acc, sha, id) || HasEntry(cands, sha, id)
    decreases |cands|
  {
    if |cands| > 0 {
      var c := cands[0];
      var next := if HasEntry(acc, c.commitSha, c.vulnerabilityId) then acc else acc + [c];
      AppendNewKeys(next, cands[1..], sha, id);
      HasEntryCons(cands, sha, id);
      HasEntrySnoc(acc, c, sha, id);
    }
  }

  lemma {:induction false} UniqueKeysSnoc(acc: seq<VulnerableCommit>, c: VulnerableCommit)
    requires UniqueKeys(acc) && !HasEntry(acc, c.commitSha, c.vulnerabilityId)
    ensures UniqueKeys(acc + [c])
  {
    assert forall k | 0 <= k < |acc| :: (acc + [c])[k] == acc[k];
  }

  /** The guard keeps every pair recorded at most once. */
  lemma {:induction false} AppendNewUnique(acc: seq<VulnerableCommit>, cands: seq<VulnerableCommit>)
    requires UniqueKeys(acc)
    ensures UniqueKeys(AppendNew(acc, cands))
    decreases |cands|
  {
    if |cands| > 0 {
      var c := cands[0];
      if !HasEntry(acc, c.commitSha, c.vulnerabilityId) {
        UniqueKeysSnoc(acc, c);
      }
      var next := if HasEntry(acc, c.commitSha, c.vulnerabilityId) then acc else acc + [c];
      AppendNewUnique(next, cands[1..]);
    }
  }

  /** The decoded OSV answer to a commit query: `Err` when building, sending
      or decoding the request fails; `Ok(None)` when `vulns` is absent or not
      an array. */
  type CommitQuery = string -> Result<Option<seq<Vuln>>, string>

  /** The `([]VulnerableCommit, error)` pair the function returns. */
  datatype Introduced = Introduced(commits: seq<VulnerableCommit>, err: Option<string>)

  /** `GetVulnerabilityIntroducerCommitRisk`: on an error the input list comes
      back unchanged; otherwise the guarded candidates of the response are
      appended to it. */
  function IntroducerCommitRisk(sha: string, prior: seq<VulnerableCommit>, query: CommitQuery): (r: Introduced)
    ensures |prior| <= |r.commits| && r.commits[..|prior|] == prior
    ensures r.err.Some? ==> r.commits == prior
  {
    match query(sha)
    case Err(e) => Introduced(prior, Some(e))
    case Ok(None) => Introduced(prior, None)
    case Ok(Some(vulns)) => Introduced(AppendNew(prior, Candidates(vulns)), None)
  }

  /** Every appended entry comes from a `GIT` range of a vulnerability of the
      response whose `introduced` is a string other than `"0"`, keyed by that
      vulnerability's id and carrying its last severity score. */
  lemma {:induction false} IntroducerSound(sha: string, prior: seq<VulnerableCommit>, query: CommitQuery)
    ensures var r := IntroducerCommitRisk(sha, prior, query);
      forall k | |prior| <= k < |r.commits| ::
        query(sha).Ok? && query(sha).value.Some? && FromResponse(r.commits[k], query(sha).value.value)
  {
    var r := IntroducerCommitRisk(sha, prior, query);
    if query(sha).Ok? && query(sha).value.Some? {
      var vulns := query(sha).value.value;
      AppendNewFrom(prior, Candidates(vulns));
      forall k | |prior| <= k < |r.commits| ensures FromResponse(r.commits[k], vulns) {
        CandidatesMember(vulns, r.commits[k]);
      }
    }
  }

  /** Every (commit, vulnerability) pair the response names ends up recorded
      exactly once, and nothing else is added. */
  lemma {:induction false} IntroducerKeys(sha: string, prior: seq<VulnerableCommit>, vulns: seq<Vuln>, query: CommitQuery)
    requires query(sha) == Ok(Some(vulns))
    ensures UniqueKeys(prior) ==> UniqueKeys(IntroducerCommitRisk(sha, prior, query).commits)
    ensures forall v, s | v in vulns && IntroducedBy(v, s) :: HasEntry(IntroducerCommitRisk(sha, prior, query).commits, s, v.id)
  {
    var cands := Candidates(vulns);
    if UniqueKeys(prior) {
      AppendNewUnique(prior, cands);
    }
    forall v, s | v in vulns && IntroducedBy(v, s)
      ensures HasEntry(AppendNew(prior, cands), s, v.id)
    {
      var c := VulnerableCommit(v.id, s, RiskScoreOf(v));
      CandidatesMember(vulns, c);
      var k :| 0 <= k < |cands| && cands[k] == c;
      assert SameKey(cands[k], s, v.id);
      AppendNewKeys(prior, cands, s, v.id);
    }
  }

  // ---------------------------------------------------------------------
  // GetAllVulnerableCommitsinOSVByRepo: the per-commit accumulation

  /** A recorded pair stays recorded after appending to either side. */
  lemma {:induction false} HasEntryAppend(a: seq<VulnerableCommit>, b: seq<VulnerableCommit>, sha: string, id: string)
    requires HasEntry(b, sha, id)
    ensures HasEntry(a + b, sha, id)
  {
    var k :| 0 <= k < |b| && SameKey(b[k], sha, id);
    assert (a + b)[|a| + k] == b[k];
  }

  /** A recorded pair stays recorded in any extension of the list. */
  lemma {:induction false} HasEntryExtends(list: seq<VulnerableCommit>, ext: seq<VulnerableCommit>, sha: string, id: string)
    requires |list| <= |ext| && ext[..|list|] == list
    requires HasEntry(list, sha, id)
    ensures HasEntry(ext, sha, id)
  {
    var k :| 0 <= k < |list| && SameKey(list[k], sha, id);
    assert ext[k] == ext[..|list|][k];
  }

  /** The loop as written: each successful call's whole result, which already
      begins with the list passed in, is appended to that list again. */
  function CollectAsWritten(shas: seq<string>, acc: seq<VulnerableCommit>, query: CommitQuery): (r: seq<VulnerableCommit>)
    ensures |acc| <= |r| && r[..|acc|] == acc
    decreases |shas|
  {
    if |shas| == 0 then acc
    else
      var res := IntroducerCommitRisk(shas[0], acc, query);
      var next := if res.err.Some? then acc else acc + res.commits;
      var r := CollectAsWritten(shas[1..], next, query);
      assert r[..|acc|] == r[..|next|][..|acc|];
      r
  }

  /** The re-append records a pair twice as soon as one commit has added an
      entry and the query for a later commit succeeds. */
  lemma {:induction false} ReappendDuplicates(s1: string, s2: string, query: CommitQuery)
    requires IntroducerCommitRisk(s1, [], query).commits != []
    requires query(s2).Ok?
    ensures !UniqueKeys(CollectAsWritten([s1, s2], [], query))
  {
    var a1 := IntroducerCommitRisk(s1, [], query).commits;
    var res := IntroducerCommitRisk(s2, a1, query);
    var a2 := a1 + res.commits;
    assert [] + a1 == a1;
    assert [s1, s2][1..] == [s2];
    assert CollectAsWritten([s1, s2], [], query) == CollectAsWritten([s2], a1, query);
    assert CollectAsWritten([s2], a1, query) == a2;
    assert a2[|a1|] == res.commits[..|a1|][0];
    assert SameKey(a2[|a1|], a2[0].commitSha, a2[0].vulnerabilityId);
  }

  /** The re-appending loop still records every reported pair (some of them
      more than once). */
  lemma {:induction false} CollectAsWrittenKeys(shas: seq<string>, acc: seq<VulnerableCommit>, query: CommitQuery)
    ensures forall sha, id | Reported(shas, query, sha, id) :: HasEntry(CollectAsWritten(shas, acc, query), sha, id)
    decreases |shas|
  {
    if |shas| > 0 {
      var s := shas[0];
      var res := IntroducerCommitRisk(s, acc, query);
      var next := if res.err.Some? then acc else acc + res.commits;
      CollectAsWrittenKeys(shas[1..], next, query);
      var r := CollectAsWritten(shas, acc, query);
      assert r == CollectAsWritten(shas[1..], next, query);
      forall sha, id | Reported(shas, query, sha, id) ensures HasEntry(r, sha, id) {
        var s', vulns: seq<Vuln>, v: Vuln :| s' in shas && query(s') == Ok(Some(vulns)) && v in vulns && v.id == id && IntroducedBy(v, sha);
        if s' == s {
          IntroducerKeys(s, acc, vulns, query);
          HasEntryAppend(acc, res.commits, sha, id);
          HasEntryExtends(next, r, sha, id);
        } else {
          assert s' in shas[1..];
        }
      }
    }
  }

  /** Entry `e` was produced by the response to some successfully queried
      commit of `all`. */
  ghost predicate FromSomeResponse(all: seq<string>, query: CommitQuery, e: VulnerableCommit) {
    exists s, vulns: seq<Vuln> :: s in all && query(s) == Ok(Some(vulns)) && FromResponse(e, vulns)
  }

  /** Every entry of `list` was produced by some response. */
  ghost predicate AllFromResponses(all: seq<string>, query: CommitQuery, list: seq<VulnerableCommit>) {
    forall k | 0 <= k < |list| :: FromSomeResponse(all, query, list[k])
  }

  /** An entry from some response is a reported pair. */
  lemma {:induction false} FromSomeResponseReported(all: seq<string>, query: CommitQuery, e: VulnerableCommit)
    requires FromSomeResponse(all, query, e)
    ensures Reported(all, query, e.commitSha, e.vulnerabilityId)
  {
    var s, vulns: seq<Vuln> :| s in all && query(s) == Ok(Some(vulns)) && FromResponse(e, vulns);
    var v :| v in vulns && e == VulnerableCommit(v.id, e.commitSha, RiskScoreOf(v)) && IntroducedBy(v, e.commitSha);
    assert v.id == e.vulnerabilityId;
  }

  /** One query adds only entries from that commit's response. */
  lemma {:induction false} IntroducerFromResponses(s: string, acc: seq<VulnerableCommit>, query: CommitQuery, all: seq<string>)
    requires s in all && AllFromResponses(all, query, acc)
    ensures AllFromResponses(all, query, IntroducerCommitRisk(s, acc, query).commits)
  {
    var next := IntroducerCommitRisk(s, acc, query).commits;
    IntroducerSound(s, acc, query);
    forall k | 0 <= k < |next| ensures FromSomeResponse(all, query, next[k]) {
      if k < |acc| {
        assert next[k] == next[..|acc|][k];
      } else {
        var vulns := query(s).value.value;
        assert s in all && query(s) == Ok(Some(vulns)) && FromResponse(next[k], vulns);
      }
    }
  }

  /** Provenance survives concatenation. */
  lemma {:induction false} AllFromResponsesAppend(all: seq<string>, query: CommitQuery, a: seq<VulnerableCommit>, b: seq<VulnerableCommit>)
    requires AllFromResponses(all, query, a) && AllFromResponses(all, query, b)
    ensures AllFromResponses(all, query, a + b)
  {
    forall k | 0 <= k < |a + b| ensures FromSomeResponse(all, query, (a + b)[k]) {
      if k >= |a| {
        assert (a + b)[k] == b[k - |a|];
      }
    }
  }

  /** The re-appending loop records nothing that no response produced. */
  lemma {:induction false} CollectAsWrittenSound(shas: seq<string>, acc: seq<VulnerableCommit>, query: CommitQuery, all: seq<string>)
    requires forall s | s in shas :: s in all
    requires AllFromResponses(all, query, acc)
    ensures AllFromResponses(all, query, CollectAsWritten(shas, acc, query))
    decreases |shas|
  {
    if |shas| > 0 {
      var s := shas[0];
      var res := IntroducerCommitRisk(s, acc, query);
      var next := if res.err.Some? then acc else acc + res.commits;
      IntroducerFromResponses(s, acc, query, all);
      AllFromResponsesAppend(all, query, acc, res.commits);
      assert forall t | t in shas[1..] :: t in shas;
      CollectAsWrittenSound(shas[1..], next, query, all);
      assert CollectAsWritten(shas, acc, query) == CollectAsWritten(shas[1..], next, query);
    }
  }

  /** The loop as evidently intended: the returned list replaces the list
      passed in. */
  function Collect(shas: seq<string>, acc: seq<VulnerableCommit>, query: CommitQuery): (r: seq<VulnerableCommit>)
    ensures |acc| <= |r| && r[..|acc|] == acc
    decreases |shas|
  {
    if |shas| == 0 then acc
    else
      var next := IntroducerCommitRisk(shas[0], acc, query).commits;
      var r := Collect(shas[1..], next, query);
      assert r[..|acc|] == r[..|next|][..|acc|];
      r
  }

  /** Some successfully queried commit reports vulnerability `id` as
      introduced by `sha`. */
  ghost predicate Reported(shas: seq<string>, query: CommitQuery, sha: string, id: string) {
    exists s, vulns: seq<Vuln>, v: Vuln :: s in shas && query(s) == Ok(Some(vulns)) && v in vulns && v.id == id && IntroducedBy(v, sha)
  }

  /** The corrected accumulation records every reported pair exactly once. */
  lemma {:induction false} CollectKeys(shas: seq<string>, acc: seq<VulnerableCommit>, query: CommitQuery)
    requires UniqueKeys(acc)
    ensures UniqueKeys(Collect(shas, acc, query))
    ensures forall sha, id | Reported(shas, query, sha, id) :: HasEntry(Collect(shas, acc, query), sha, id)
    decreases |shas|
  {
    if |shas| > 0 {
      var s := shas[0];
      var next := IntroducerCommitRisk(s, acc, query).commits;
      if query(s).Ok? && query(s).value.Some? {
        IntroducerKeys(s, acc, query(s).value.value, query);
      }
      CollectKeys(shas[1..], next, query);
      var r := Collect(shas, acc, query);
      forall sha, id | Reported(shas, query, sha, id) ensures HasEntry(r, sha, id) {
        var s', vulns: seq<Vuln>, v: Vuln :| s' in shas && query(s') == Ok(Some(vulns)) && v in vulns && v.id == id && IntroducedBy(v, sha);
        if s' == s {
          var k :| 0 <= k < |next| && SameKey(next[k], sha, id);
          assert r[k] == r[..|next|][k];
        } else {
          assert s' in shas[1..];
        }
      }
    }
  }

  /** The corrected loop records nothing that no response produced. */
  lemma {:induction false} CollectSound(shas: seq<string>, acc: seq<VulnerableCommit>, query: CommitQuery, all: seq<string>)
    requires forall s | s in shas :: s in all
    requires AllFromResponses(all, query, acc)
    ensures AllFromResponses(all, query, Collect(shas, acc, query))
    decreases |shas|
  {
    if |shas| > 0 {
      var next := IntroducerCommitRisk(shas[0], acc, query).commits;
      IntroducerFromResponses(shas[0], acc, query, all);
      assert forall t | t in shas[1..] :: t in shas;
      CollectSound(shas[1..], next, query, all);
      assert Collect(shas, acc, query) == Collect(shas[1..], next, query);
    }
  }

  // ---------------------------------------------------------------------
  // GetAllVulnerableCommitsinOSVByRepo: grouping by commit

  /** The `groupedByCommitSha` map: entries appended under their sha, in list
      order. */
  function GroupBySha(entries: seq<VulnerableCommit>): map<string, seq<VulnerableCommit>>
    decreases |entries|
  {
    if |entries| == 0 then map[]
    else
      var m := GroupBySha(entries[..|entries| - 1]);
      var e := entries[|entries| - 1];
      m[e.commitSha := (if e.commitSha in m then m[e.commitSha] else []) + [e]]
  }

  function WithSha(sha: string): VulnerableCommit -> Option<VulnerableCommit> {
    (e: VulnerableCommit) => if e.commitSha == sha then Some(e) else None
  }

  /** The entries of `entries` recorded for commit `sha`, in list order. */
  function EntriesFor(entries: seq<VulnerableCommit>, sha: string): seq<VulnerableCommit> {
    FilterMap(WithSha(sha), entries)
  }

  /** The grouping has a key for exactly the shas that occur, and under each
      the entries with that sha, in list order. */
  lemma {:induction false} GroupByShaSpec(entries: seq<VulnerableCommit>, sha: string)
    ensures sha in GroupBySha(entries) <==> EntriesFor(entries, sha) != []
    ensures sha in GroupBySha(entries) ==> GroupBySha(entries)[sha] == EntriesFor(entries, sha)
    decreases |entries|
  {
    if |entries| > 0 {
      var init, e := entries[..|entries| - 1], entries[|entries| - 1];
      GroupByShaSpec(init, sha);
      assert entries == init + [e];
      FilterMapAppend(WithSha(sha), init, [e]);
      assert FilterMap(WithSha(sha), [e]) == if e.commitSha == sha then [e] else [];
    }
  }

  /** The score loop of one group: the risk scores concatenated in order,
      with no separator. */
  function CombinedScore(group: seq<VulnerableCommit>): string
    decreases |group|
  {
    if |group| == 0 then "" else group[0].riskScore + CombinedScore(group[1..])
  }

  /** The `CommitRisk` the loop builds for one key of the grouping;
      `fetchCommit` stands for `GetAllCommitChangesBySHA`. */
  function GroupRisk(grouped: map<string, seq<VulnerableCommit>>, fetchCommit: string -> Commit): string -> Option<CommitRisk> {
    (sha: string) => if sha in grouped then Some(CommitRisk(CombinedScore(grouped[sha]), fetchCommit(sha))) else None
  }

  /** `GetAllVulnerableCommitsinOSVByRepo` after the accumulation: one
      `CommitRisk` per key of the grouping, in the map iteration order
      `order` gives. */
  function GroupedCommitRisks(entries: seq<VulnerableCommit>, order: map<string, seq<VulnerableCommit>> -> seq<string>,
                              fetchCommit: string -> Commit): seq<CommitRisk>
  {
    var grouped := GroupBySha(entries);
    FilterMap(GroupRisk(grouped, fetchCommit), order(grouped))
  }

  /** `GetAllVulnerableCommitsinOSVByRepo` with the accumulation corrected
      (`Collect`); `shas` is what `GetAllCommitSHAByRepo` returned. */
  function VulnerableCommitsByRepo(shas: seq<string>, query: CommitQuery,
                                   order: map<string, seq<VulnerableCommit>> -> seq<string>,
                                   fetchCommit: string -> Commit): seq<CommitRisk>
  {
    GroupedCommitRisks(Collect(shas, [], query), order, fetchCommit)
  }

  /** `GetAllVulnerableCommitsinOSVByRepo` as written, on the re-appending
      accumulation. */
  function VulnerableCommitsByRepoAsWritten(shas: seq<string>, query: CommitQuery,
                                            order: map<string, seq<VulnerableCommit>> -> seq<string>,
                                            fetchCommit: string -> Commit): seq<CommitRisk>
  {
    GroupedCommitRisks(CollectAsWritten(shas, [], query), order, fetchCommit)
  }

  /** With a genuine iteration order, the result holds one risk per distinct
      commit, whose score is that commit's scores concatenated in list order. */
  lemma {:induction false} GroupedCommitRisksSpec(entries: seq<VulnerableCommit>,
                                                  order: map<string, seq<VulnerableCommit>> -> seq<string>,
                                                  fetchCommit: string -> Commit, cr: CommitRisk)
    requires IsEnumeration(order(GroupBySha(entries)), GroupBySha(entries).Keys)
    ensures |GroupedCommitRisks(entries, order, fetchCommit)| == |GroupBySha(entries).Keys|
    ensures cr in GroupedCommitRisks(entries, order, fetchCommit) <==>
      exists sha :: EntriesFor(entries, sha) != [] && cr == CommitRisk(CombinedScore(EntriesFor(entries, sha)), fetchCommit(sha))
  {
    var grouped := GroupBySha(entries);
    var f := GroupRisk(grouped, fetchCommit);
    var keys := order(grouped);
    FilterMapAllSome(f, keys);
    NoDuplicatesCardinality(keys, grouped.Keys);
    FilterMapMember(f, keys, cr);
    forall sha ensures sha in grouped <==> EntriesFor(entries, sha) != [] {
      GroupByShaSpec(entries, sha);
    }
    forall sha | sha in grouped ensures grouped[sha] == EntriesFor(entries, sha) {
      GroupByShaSpec(entries, sha);
    }
  }

  /** Two iteration orders give the same risks, rearranged. */
  lemma {:induction false} GroupedCommitRisksOrder(entries: seq<VulnerableCommit>,
                                                   order1: map<string, seq<VulnerableCommit>> -> seq<string>,
                                                   order2: map<string, seq<VulnerableCommit>> -> seq<string>,
                                                   fetchCommit: string -> Commit)
    requires IsEnumeration(order1(GroupBySha(entries)), GroupBySha(entries).Keys)
    requires IsEnumeration(order2(GroupBySha(entries)), GroupBySha(entries).Keys)
    ensures multiset(GroupedCommitRisks(entries, order1, fetchCommit)) == multiset(GroupedCommitRisks(entries, order2, fetchCommit))
  {
    var grouped := GroupBySha(entries);
    EnumerationsArePermutations(order1(grouped), order2(grouped), grouped.Keys);
    FilterMapPermutation(GroupRisk(grouped, fetchCommit), order1(grouped), order2(grouped));
  }

  /** Every commit that some queried sha's response names as introducing a
      vulnerability gets a risk, scored with the entries recorded for it. */
  lemma {:induction false} VulnerableCommitsByRepoCovers(shas: seq<string>, query: CommitQuery,
                                                         order: map<string, seq<VulnerableCommit>> -> seq<string>,
                                                         fetchCommit: string -> Commit, sha: string, id: string)
    requires ValidOrder(order)
    requires Reported(shas, query, sha, id)
    ensures var entries := Collect(shas, [], query);
      EntriesFor(entries, sha) != []
      && CommitRisk(CombinedScore(EntriesFor(entries, sha)), fetchCommit(sha)) in VulnerableCommitsByRepo(shas, query, order, fetchCommit)
  {
    var entries := Collect(shas, [], query);
    CollectHasReported(shas, query, sha, id);
    assert IsEnumeration(order(GroupBySha(entries)), GroupBySha(entries).Keys);
    GroupedCovers(entries, order, fetchCommit, sha, id);
  }

  /** The program as written covers the same commits, but scores each with
      the entries its re-appending loop recorded. */
  lemma {:induction false} VulnerableCommitsByRepoAsWrittenCovers(shas: seq<string>, query: CommitQuery,
                                                                  order: map<string, seq<VulnerableCommit>> -> seq<string>,
                                                                  fetchCommit: string -> Commit, sha: string, id: string)
    requires ValidOrder(order)
    requires Reported(shas, query, sha, id)
    ensures var entries := CollectAsWritten(shas, [], query);
      EntriesFor(entries, sha) != []
      && CommitRisk(CombinedScore(EntriesFor(entries, sha)), fetchCommit(sha)) in VulnerableCommitsByRepoAsWritten(shas, query, order, fetchCommit)
  {
    var entries := CollectAsWritten(shas, [], query);
    CollectAsWrittenKeys(shas, [], query);
    assert IsEnumeration(order(GroupBySha(entries)), GroupBySha(entries).Keys);
    GroupedCovers(entries, order, fetchCommit, sha, id);
  }

  /** As written, the first entry recorded for a commit is recorded again
      once a later query succeeds, so that commit's combined score repeats
      the entry's vector. */
  lemma {:induction false} ReappendRepeatsEntry(s1: string, s2: string, query: CommitQuery)
    requires IntroducerCommitRisk(s1, [], query).commits != []
    requires query(s2).Ok?
    ensures var e := IntroducerCommitRisk(s1, [], query).commits[0];
      var g := EntriesFor(CollectAsWritten([s1, s2], [], query), e.commitSha);
      |g| >= 2 && g[0] == e && e in g[1..]
  {
    var a1 := IntroducerCommitRisk(s1, [], query).commits;
    var res := IntroducerCommitRisk(s2, a1, query);
    assert [] + a1 == a1;
    assert [s1, s2][1..] == [s2];
    assert CollectAsWritten([s1, s2], [], query) == CollectAsWritten([s2], a1, query);
    assert CollectAsWritten([s2], a1, query) == a1 + res.commits;
    PrefixRepeatsEntry(a1, res.commits);
  }

  /** A list followed by a list that begins with it holds the first entry's
      commit group twice over. */
  lemma {:induction false} PrefixRepeatsEntry(a: seq<VulnerableCommit>, b: seq<VulnerableCommit>)
    requires |a| > 0 && |a| <= |b| && b[..|a|] == a
    ensures var g := EntriesFor(a + b, a[0].commitSha);
      |g| >= 2 && g[0] == a[0] && a[0] in g[1..]
  {
    var e := a[0];
    var w := WithSha(e.commitSha);
    FilterMapAppend(w, a, b);
    assert a == [e] + a[1..];
    FilterMapAppend(w, [e], a[1..]);
    assert FilterMap(w, [e]) == [e];
    assert b[0] == b[..|a|][0];
    FilterMapMember(w, b, e);
    var f1, f2 := FilterMap(w, a), FilterMap(w, b);
    assert (f1 + f2)[1..] == f1[1..] + f2;
  }

  /** A commit with entries is reported, when every entry came from a
      response; `id` is one vulnerability it introduced. */
  lemma {:induction false} EntriesForReported(entries: seq<VulnerableCommit>, all: seq<string>, query: CommitQuery, sha: string)
    returns (id: string)
    requires AllFromResponses(all, query, entries)
    requires EntriesFor(entries, sha) != []
    ensures Reported(all, query, sha, id)
  {
    var g := EntriesFor(entries, sha);
    FilterMapMember(WithSha(sha), entries, g[0]);
    var x :| x in entries && WithSha(sha)(x) == Some(g[0]);
    var k :| 0 <= k < |entries| && entries[k] == x;
    assert FromSomeResponse(all, query, entries[k]);
    FromSomeResponseReported(all, query, x);
    id := x.vulnerabilityId;
  }

  /** Each grouped risk belongs to a reported commit `sha`, which introduced
      vulnerability `id`. */
  lemma {:induction false} GroupedReported(entries: seq<VulnerableCommit>, order: map<string, seq<VulnerableCommit>> -> seq<string>,
                                           fetchCommit: string -> Commit, all: seq<string>, query: CommitQuery, cr: CommitRisk)
    returns (sha: string, id: string)
    requires IsEnumeration(order(GroupBySha(entries)), GroupBySha(entries).Keys)
    requires AllFromResponses(all, query, entries)
    requires cr in GroupedCommitRisks(entries, order, fetchCommit)
    ensures Reported(all, query, sha, id) && cr == CommitRisk(CombinedScore(EntriesFor(entries, sha)), fetchCommit(sha))
  {
    GroupedCommitRisksSpec(entries, order, fetchCommit, cr);
    sha :| EntriesFor(entries, sha) != [] && cr == CommitRisk(CombinedScore(EntriesFor(entries, sha)), fetchCommit(sha));
    id := EntriesForReported(entries, all, query, sha);
  }

  /** Over entries that all come from responses and record every reported
      pair, the grouping holds a risk exactly for the reported commits. */
  lemma {:induction false} GroupedExactly(entries: seq<VulnerableCommit>, order: map<string, seq<VulnerableCommit>> -> seq<string>,
                                          fetchCommit: string -> Commit, all: seq<string>, query: CommitQuery, cr: CommitRisk)
    requires IsEnumeration(order(GroupBySha(entries)), GroupBySha(entries).Keys)
    requires AllFromResponses(all, query, entries)
    requires forall sha, id | Reported(all, query, sha, id) :: HasEntry(entries, sha, id)
    ensures cr in GroupedCommitRisks(entries, order, fetchCommit) <==>
      exists sha, id :: Reported(all, query, sha, id) && cr == CommitRisk(CombinedScore(EntriesFor(entries, sha)), fetchCommit(sha))
  {
    if cr in GroupedCommitRisks(entries, order, fetchCommit) {
      var sha, id := GroupedReported(entries, order, fetchCommit, all, query, cr);
    }
    if exists sha, id :: Reported(all, query, sha, id) && cr == CommitRisk(CombinedScore(EntriesFor(entries, sha)), fetchCommit(sha)) {
      var sha, id :| Reported(all, query, sha, id) && cr == CommitRisk(CombinedScore(EntriesFor(entries, sha)), fetchCommit(sha));
      assert HasEntry(entries, sha, id);
      GroupedCovers(entries, order, fetchCommit, sha, id);
    }
  }

  /** The corrected pipeline holds a risk exactly for each commit some
      successfully queried response names as introducing a vulnerability,
      scored from that commit's entries. */
  lemma {:induction false} VulnerableCommitsByRepoExactly(shas: seq<string>, query: CommitQuery,
                                                          order: map<string, seq<VulnerableCommit>> -> seq<string>,
                                                          fetchCommit: string -> Commit, cr: CommitRisk)
    requires ValidOrder(order)
    ensures cr in VulnerableCommitsByRepo(shas, query, order, fetchCommit) <==>
      exists sha, id :: Reported(shas, query, sha, id)
        && cr == CommitRisk(CombinedScore(EntriesFor(Collect(shas, [], query), sha)), fetchCommit(sha))
  {
    var entries := Collect(shas, [], query);
    CollectSound(shas, [], query, shas);
    CollectKeys(shas, [], query);
    assert IsEnumeration(order(GroupBySha(entries)), GroupBySha(entries).Keys);
    GroupedExactly(entries, order, fetchCommit, shas, query, cr);
  }

  /** The same holds of the program as written, with each commit scored from
      the entries its re-appending loop recorded. */
  lemma {:induction false} VulnerableCommitsByRepoAsWrittenExactly(shas: seq<string>, query: CommitQuery,
                                                                   order: map<string, seq<VulnerableCommit>> -> seq<string>,
                                                                   fetchCommit: string -> Commit, cr: CommitRisk)
    requires ValidOrder(order)
    ensures cr in VulnerableCommitsByRepoAsWritten(shas, query, order, fetchCommit) <==>
      exists sha, id :: Reported(shas, query, sha, id)
        && cr == CommitRisk(CombinedScore(EntriesFor(CollectAsWritten(shas, [], query), sha)), fetchCommit(sha))
  {
    var entries := CollectAsWritten(shas, [], query);
    CollectAsWrittenSound(shas, [], query, shas);
    CollectAsWrittenKeys(shas, [], query);
    assert IsEnumeration(order(GroupBySha(entries)), GroupBySha(entries).Keys);
    GroupedExactly(entries, order, fetchCommit, shas, query, cr);
  }

  lemma {:induction false} CollectHasReported(shas: seq<string>, query: CommitQuery, sha: string, id: string)
    requires Reported(shas, query, sha, id)
    ensures HasEntry(Collect(shas, [], query), sha, id)
  {
    CollectKeys(shas, [], query);
  }

  /** A recorded pair's commit gets a risk in the grouping. */
  lemma {:induction false} GroupedCovers(entries: seq<VulnerableCommit>, order: map<string, seq<VulnerableCommit>> -> seq<string>,
                                         fetchCommit: string -> Commit, sha: string, id: string)
    requires IsEnumeration(order(GroupBySha(entries)), GroupBySha(entries).Keys)
    requires HasEntry(entries, sha, id)
    ensures EntriesFor(entries, sha) != []
    ensures CommitRisk(CombinedScore(EntriesFor(entries, sha)), fetchCommit(sha)) in GroupedCommitRisks(entries, order, fetchCommit)
  {
    var k :| 0 <= k < |entries| && SameKey(entries[k], sha, id);
    var e := entries[k];
    assert e in entries && WithSha(sha)(e) == Some(e);
    FilterMapMember(WithSha(sha), entries, e);
    assert e in EntriesFor(entries, sha);
    var cr := CommitRisk(CombinedScore(EntriesFor(entries, sha)), fetchCommit(sha));
    GroupedCommitRisksSpec(entries, order, fetchCommit, cr);
  }

  // ---------------------------------------------------------------------
  // FormCompleteCombinedCommitRisksByRepo

  /** The update the inner loop applies to its range variable. */
  function MergeOne(code: CommitRisk, dep: CommitRisk): CommitRisk {
    if code.commit == dep.commit then dep.(score := dep.score + code.score + ";") else dep
  }

  /** The inner loop as written: each element is copied into the range
      variable and the copy is updated; the list is never written. */
  function InnerAsWritten(code: CommitRisk, list: seq<CommitRisk>, i: nat): (r: seq<CommitRisk>)
    requires i <= |list|
    ensures |r| == |list|
    decreases |list| - i
  {
    if i == |list| then list
    else
      var copy := MergeOne(code, list[i]);
      InnerAsWritten(code, list, i + 1)
  }

  /** `FormCompleteCombinedCommitRisksByRepo` as written, given the
      code-level risks. */
  function MergeAsWritten(codeLevel: seq<CommitRisk>, all: seq<CommitRisk>): (r: seq<CommitRisk>)
    ensures |r| == |all|
    decreases |codeLevel|
  {
    if |codeLevel| == 0 then all
    else MergeAsWritten(codeLevel[1..], InnerAsWritten(codeLevel[0], all, 0))
  }

  lemma {:induction false} InnerAsWrittenUnchanged(code: CommitRisk, list: seq<CommitRisk>, i: nat)
    requires i <= |list|
    ensures InnerAsWritten(code, list, i) == list
    decreases |list| - i
  {
    if i < |list| {
      InnerAsWrittenUnchanged(code, list, i + 1);
    }
  }

  /** The merge returns its dependency-level input unchanged, whatever the
      code-level risks. */
  lemma {:induction false} MergeAsWrittenUnchanged(codeLevel: seq<CommitRisk>, all: seq<CommitRisk>)
    ensures MergeAsWritten(codeLevel, all) == all
    decreases |codeLevel|
  {
    if |codeLevel| > 0 {
      InnerAsWrittenUnchanged(codeLevel[0], all, 0);
      MergeAsWrittenUnchanged(codeLevel[1..], all);
    }
  }

  /** The inner loop as evidently intended: every element is updated in place. */
  function InnerMerged(code: CommitRisk, list: seq<CommitRisk>): seq<CommitRisk> {
    seq(|list|, i requires 0 <= i < |list| => MergeOne(code, list[i]))
  }

  function Merge(codeLevel: seq<CommitRisk>, all: seq<CommitRisk>): (r: seq<CommitRisk>)
    ensures |r| == |all|
    decreases |codeLevel|
  {
    if |codeLevel| == 0 then all
    else Merge(codeLevel[1..], InnerMerged(codeLevel[0], all))
  }

  /** What the intended merge appends to the score of `commit`: `score;` of
      every code-level risk for that commit, in order. */
  function AppendedScores(codeLevel: seq<CommitRisk>, commit: Commit): string
    decreases |codeLevel|
  {
    if |codeLevel| == 0 then ""
    else (if codeLevel[0].commit == commit then codeLevel[0].score + ";" else "") + AppendedScores(codeLevel[1..], commit)
  }

  /** The intended merge keeps every commit in place and extends its score by
      the code-level scores of the same commit. */
  lemma {:induction false} MergeSpec(codeLevel: seq<CommitRisk>, all: seq<CommitRisk>)
    ensures |Merge(codeLevel, all)| == |all|
    ensures forall i | 0 <= i < |all| ::
      Merge(codeLevel, all)[i] == all[i].(score := all[i].score + AppendedScores(codeLevel, all[i].commit))
    decreases |codeLevel|
  {
    if |codeLevel| > 0 {
      var c, next := codeLevel[0], InnerMerged(codeLevel[0], all);
      MergeSpec(codeLevel[1..], next);
      forall i | 0 <= i < |all|
        ensures Merge(codeLevel, all)[i] == all[i].(score := all[i].score + AppendedScores(codeLevel, all[i].commit))
      {
        var here := if c.commit == all[i].commit then c.score + ";" else "";
        assert next[i] == all[i].(score := all[i].score + here);
        assert all[i].score + here + AppendedScores(codeLevel[1..], all[i].commit)
            == all[i].score + (here + AppendedScores(codeLevel[1..], all[i].commit));
      }
    }
  }

  lemma {:induction false} AppendedScoresNonEmpty(codeLevel: seq<CommitRisk>, commit: Commit, k: nat)
    requires k < |codeLevel| && codeLevel[k].commit == commit
    ensures AppendedScores(codeLevel, commit) != ""
    decreases k
  {
    if k > 0 {
      AppendedScoresNonEmpty(codeLevel[1..], commit, k - 1);
    }
  }

  /** The range copy loses every code-level risk: where the intended merge
      extends a score, the written one leaves it as it was. */
  lemma {:induction false} MergeAsWrittenLosesRisk(codeLevel: seq<CommitRisk>, all: seq<CommitRisk>, i: nat, k: nat)
    requires i < |all| && k < |codeLevel| && codeLevel[k].commit == all[i].commit
    ensures MergeAsWritten(codeLevel, all)[i].score == all[i].score
    ensures Merge(codeLevel, all)[i].score != all[i].score
  {
    MergeAsWrittenUnchanged(codeLevel, all);
    MergeSpec(codeLevel, all);
    AppendedScoresNonEmpty(codeLevel, all[i].commit, k);
  }

  // ---------------------------------------------------------------------
  // EvaluateRiskByCommit

  /** The outside calls `EvaluateRiskByCommit` makes: the commit date parsed
      with the layout `2006-01-02 15:04:05 -0700 MST`, a `published` value
      parsed as RFC 3339 (both as instants on one integer time line), and
      `GetOSVDataByDependencyPurl`. */
  datatype CommitEnv = CommitEnv(
    parseCommitDate: string -> Result<int, string>,
    parsePublished: string -> Option<int>,
    lookup: string -> Result<seq<Vuln>, string>)

  /** The `(CommitRisk, error)` pair. */
  datatype Evaluation = Evaluation(risk: CommitRisk, err: Option<string>)

  /** `types.CommitRisk{}`, returned with every error. */
  const ZeroCommitRisk: CommitRisk := CommitRisk("", Commit("", "", Author(0, ""), ""))

  /** `commitTime.After(published)`: a missing, non-string or unparseable
      `published` disqualifies the vulnerability. */
  predicate PublishedBefore(v: Vuln, t: int, parsePublished: string -> Option<int>) {
    && v.published.Some?
    && parsePublished(v.published.value).Some?
    && t > parsePublished(v.published.value).value
  }

  /** The unchecked assertions on the last severity entry fail. */
  predicate Panics(v: Vuln, t: int, parsePublished: string -> Option<int>) {
    PublishedBefore(v, t, parsePublished) && |v.severity| > 0 && Last(v.severity).score.None?
  }

  /** What one vulnerability adds to the score: the score of its last
      severity entry, when it was published before the commit and has a
      non-empty severity array. (The `""` for a missing score is never used:
      the program panics there, and `EvaluateRiskByCommit` excludes it.) */
  function Contribution(t: int, parsePublished: string -> Option<int>): Vuln -> Option<string> {
    (v: Vuln) =>
      if PublishedBefore(v, t, parsePublished) && |v.severity| > 0 then Some(Last(v.severity).score.GetOr(""))
      else None
  }

  /** No lookup the loop reaches yields a vulnerability it would panic on. */
  predicate NoPanic(purls: seq<string>, t: int, env: CommitEnv)
    decreases |purls|
  {
    || |purls| == 0
    || match env.lookup(purls[0])
       case Err(_) => true
       case Ok(vulns) => (forall v | v in vulns :: !Panics(v, t, env.parsePublished)) && NoPanic(purls[1..], t, env)
  }

  /** The purl loop: the first failing lookup aborts the evaluation;
      otherwise each purl's contributions are appended in order. Without
      `jsonFlag` a purl with no vulnerabilities is skipped early. */
  function ScorePurls(purls: seq<string>, t: int, env: CommitEnv, jsonFlag: bool): (r: Result<string, string>)
    ensures r.Err? <==> exists p | p in purls :: env.lookup(p).Err?
    decreases |purls|
  {
    if |purls| == 0 then Ok("")
    else
      assert forall p | p in purls :: p == purls[0] || p in purls[1..];
      match env.lookup(purls[0])
      case Err(e) => Err(e)
      case Ok(vulns) =>
        var here := if !jsonFlag && |vulns| == 0 then "" else Concat(FilterMap(Contribution(t, env.parsePublished), vulns));
        match ScorePurls(purls[1..], t, env, jsonFlag)
        case Err(e) => Err(e)
        case Ok(rest) => Ok(here + rest)
  }

  /** `EvaluateRiskByCommit`: an unparseable commit date or a failing lookup
      gives the zero `CommitRisk` and the error; otherwise the commit with
      the collated score. `jsonFlag` only chooses what is printed. */
  function EvaluateRiskByCommit(commit: Commit, purls: seq<string>, jsonFlag: bool, env: CommitEnv): (r: Evaluation)
    requires env.parseCommitDate(commit.date).Ok? ==> NoPanic(purls, env.parseCommitDate(commit.date).value, env)
    ensures r.err.Some? <==> env.parseCommitDate(commit.date).Err? || exists p | p in purls :: env.lookup(p).Err?
    ensures r.err.Some? ==> r.risk == ZeroCommitRisk
    ensures r.err.None? ==> r.risk.commit == commit
  {
    match env.parseCommitDate(commit.date)
    case Err(e) => Evaluation(ZeroCommitRisk, Some(e))
    case Ok(t) =>
      match ScorePurls(purls, t, env, jsonFlag)
      case Err(e) => Evaluation(ZeroCommitRisk, Some(e))
      case Ok(score) => Evaluation(CommitRisk(score, commit), None)
  }

  /** The vulnerabilities of all lookups, purl by purl. */
  function LookedUp(purls: seq<string>, env: CommitEnv): seq<Vuln> {
    FlatMap((p: string) => match env.lookup(p) case Ok(vulns) => vulns case Err(_) => [], purls)
  }

  /** The scores that end up in the collation, in order. */
  function Contributions(purls: seq<string>, t: int, env: CommitEnv): seq<string> {
    FilterMap(Contribution(t, env.parsePublished), LookedUp(purls, env))
  }

  /** When every lookup succeeds, the score is the concatenation, with no
      separator, of the last severity scores of the vulnerabilities published
      strictly before the commit, purl by purl and then in response order,
      whatever `jsonFlag` is. */
  lemma {:induction false} ScorePurlsSpec(purls: seq<string>, t: int, env: CommitEnv, jsonFlag: bool)
    requires forall p | p in purls :: env.lookup(p).Ok?
    ensures ScorePurls(purls, t, env, jsonFlag) == Ok(Concat(Contributions(purls, t, env)))
    decreases |purls|
  {
    if |purls| > 0 {
      var f := Contribution(t, env.parsePublished);
      var g := (p: string) => match env.lookup(p) case Ok(vulns) => vulns case Err(_) => [];
      assert forall p | p in purls[1..] :: p in purls;
      ScorePurlsSpec(purls[1..], t, env, jsonFlag);
      var vulns := env.lookup(purls[0]).value;
      assert LookedUp(purls, env) == vulns + LookedUp(purls[1..], env);
      FilterMapAppend(f, vulns, LookedUp(purls[1..], env));
      ConcatAppend(FilterMap(f, vulns), Contributions(purls[1..], t, env));
    }
  }

  /** The evaluation of a commit whose date parses and whose lookups all
      succeed carries exactly the collated contributions. */
  lemma {:induction false} EvaluateRiskByCommitScore(commit: Commit, purls: seq<string>, jsonFlag: bool, env: CommitEnv, t: int)
    requires env.parseCommitDate(commit.date) == Ok(t)
    requires NoPanic(purls, t, env)
    requires forall p | p in purls :: env.lookup(p).Ok?
    ensures EvaluateRiskByCommit(commit, purls, jsonFlag, env)
      == Evaluation(CommitRisk(Concat(Contributions(purls, t, env)), commit), None)
  {
    ScorePurlsSpec(purls, t, env, jsonFlag);
  }

  /** Skipping a purl with no vulnerabilities changes nothing. */
  lemma {:induction false} ScorePurlsIgnoresJsonFlag(purls: seq<string>, t: int, env: CommitEnv)
    ensures ScorePurls(purls, t, env, true) == ScorePurls(purls, t, env, false)
    decreases |purls|
  {
    if |purls| > 0 {
      ScorePurlsIgnoresJsonFlag(purls[1..], t, env);
    }
  }

  /** `jsonFlag` never changes the result. */
  lemma {:induction false} EvaluateRiskByCommitIgnoresJsonFlag(commit: Commit, purls: seq<string>, env: CommitEnv)
    requires env.parseCommitDate(commit.date).Ok? ==> NoPanic(purls, env.parseCommitDate(commit.date).value, env)
    ensures EvaluateRiskByCommit(commit, purls, true, env) == EvaluateRiskByCommit(commit, purls, false, env)
  {
    if env.parseCommitDate(commit.date).Ok? {
      ScorePurlsIgnoresJsonFlag(purls, env.parseCommitDate(commit.date).value, env);
    }
  }

  /** A single vulnerability that is not published strictly before the
      commit leaves the score empty. */
  lemma {:induction false} UnqualifiedAddsNothing(commit: Commit, p: string, v: Vuln, env: CommitEnv, t: int)
    requires env.parseCommitDate(commit.date) == Ok(t)
    requires env.lookup(p) == Ok([v])
    requires !PublishedBefore(v, t, env.parsePublished)
    ensures EvaluateRiskByCommit(commit, [p], false, env) == Evaluation(CommitRisk("", commit), None)
  {
    var f := Contribution(t, env.parsePublished);
    assert f(v).None?;
    assert [v][1..] == [];
    assert FilterMap(f, [v]) == [];
    assert [p][1..] == [];
    assert ScorePurls([p], t, env, false) == Ok("" + "");
  }

  /** The comparison is strict: a vulnerability published at the commit's
      own instant, or later, adds nothing. */
  lemma {:induction false} NotBeforeAddsNothing(commit: Commit, p: string, v: Vuln, env: CommitEnv, t: int, published: int)
    requires env.parseCommitDate(commit.date) == Ok(t)
    requires env.lookup(p) == Ok([v])
    requires v.published.Some? && env.parsePublished(v.published.value) == Some(published) && published >= t
    ensures EvaluateRiskByCommit(commit, [p], false, env) == Evaluation(CommitRisk("", commit), None)
  {
    UnqualifiedAddsNothing(commit, p, v, env, t);
  }

  /** A vulnerability whose `published` is missing, not a string or not a
      timestamp is skipped, whatever its severity. */
  lemma {:induction false} UnpublishedAddsNothing(commit: Commit, p: string, v: Vuln, env: CommitEnv, t: int)
    requires env.parseCommitDate(commit.date) == Ok(t)
    requires env.lookup(p) == Ok([v])
    requires v.published.None? || env.parsePublished(v.published.value).None?
    ensures EvaluateRiskByCommit(commit, [p], false, env) == Evaluation(CommitRisk("", commit), None)
  {
    UnqualifiedAddsNothing(commit, p, v, env, t);
  }

  /** A vulnerability published before the commit adds the score of its last
      severity entry, not of any earlier one. */
  lemma {:induction false} BeforeAddsLastScore(commit: Commit, p: string, v: Vuln, env: CommitEnv, t: int, published: int, score: string)
    requires env.parseCommitDate(commit.date) == Ok(t)
    requires env.lookup(p) == Ok([v])
    requires v.published.Some? && env.parsePublished(v.published.value) == Some(published) && published < t
    requires |v.severity| > 0 && Last(v.severity).score == Some(score)
    ensures EvaluateRiskByCommit(commit, [p], false, env) == Evaluation(CommitRisk(score, commit), None)
  {
    var f := Contribution(t, env.parsePublished);
    assert f(v) == Some(score);
    assert [v][1..] == [];
    assert FilterMap(f, [v]) == [score];
    assert [score][1..] == [];
    assert Concat([score]) == score + "";
    assert ScorePurls([], t, env, false) == Ok("");
    assert [p][1..] == [];
    assert [p][0] == p;
    assert Concat(FilterMap(Contribution(t, env.parsePublished), [v])) == score;
    assert ScorePurls([p], t, env, false) == Ok(score + "");
  }

  /** End to end: when every contribution is a well-formed vector, the
      rating of the evaluated commit is the risk score of those vectors'
      scores, in collation order. */
  lemma {:induction false} CommitRating(commit: Commit, purls: seq<string>, jsonFlag: bool, env: CommitEnv, t: int,
                                        parse: (Scoring.CvssVersion, string) -> Option<real>, ln: real -> real)
    requires env.parseCommitDate(commit.date) == Ok(t)
    requires NoPanic(purls, t, env)
    requires forall p | p in purls :: env.lookup(p).Ok?
    requires |Contributions(purls, t, env)| > 0
    requires forall i | 0 <= i < |Contributions(purls, t, env)| :: Scoring.Collatable(Contributions(purls, t, env)[i])
    ensures Scoring.GetRiskRating(EvaluateRiskByCommit(commit, purls, jsonFlag, env).risk.score, parse, ln)
      == Scoring.Rated(Scoring.CalculateRiskScore(Scoring.ParsedScores(Contributions(purls, t, env), parse),
                                                  Scoring.RiskScoreConstant, Scoring.HighRiskThreshold, ln))
  {
    EvaluateRiskByCommitScore(commit, purls, jsonFlag, env, t);
    Scoring.RatingOfCollated(Contributions(purls, t, env), parse, ln);
  }
}
