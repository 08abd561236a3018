/** Lockfile package extraction (util/purl.go): the three extractors that turn
    `go.sum`, `requirements.txt` and `package-lock.json` text into
    `pkg:<ecosystem>/<name>@<version>` strings, the dispatcher over them, the
    path part of `ParseGitHubURL`, and the lockfile probe of `FindLockfile`. */
module Purl {
  import opened Wrappers
  import opened GoStrings
  import opened Seqs

  /** `supportedFiles`, in the order the program probes them. */
  const SupportedFiles: seq<string> := ["go.sum", "package-lock.json", "requirements.txt"]

  // ---------------------------------------------------------------------
  // ParseGitHubURL, from the parsed URL's path onward

  datatype RepoRef = RepoRef(owner: string, repo: string)

  datatype UrlError = InvalidRepoUrl

  /** Trims every leading and trailing `/`, splits on `/`, and takes the first
      segment as owner and the second, minus one `.git` suffix, as repo. */
  function ParseRepoPath(path: string): (r: Result<RepoRef, UrlError>)
    ensures r.Err? <==> '/' !in TrimChar(path, '/')
    ensures r.Ok? ==> r.value.owner != "" && '/' !in r.value.owner && '/' !in r.value.repo
  {
    var trimmed := TrimChar(path, '/');
    var parts := Split(trimmed, "/");
    ContainsChar(trimmed, '/');
    SplitPiecesOfChar(trimmed, '/');
    if |parts| < 2 then Err(InvalidRepoUrl)
    else Ok(RepoRef(parts[0], TrimSuffix(parts[1], ".git")))
  }

  /** Owner and repo are the first two segments whatever surrounds them:
      leading and trailing slashes and any further segments are ignored, and
      one `.git` suffix is removed from the repo. */
  lemma {:induction false} ParseRepoPathSegments(owner: string, repo: string, extra: seq<string>)
    requires owner != "" && repo != ""
    requires '/' !in owner && '/' !in repo
    requires forall i | 0 <= i < |extra| :: extra[i] != "" && '/' !in extra[i]
    ensures ParseRepoPath(Join([owner, repo] + extra, "/")) == Ok(RepoRef(owner, TrimSuffix(repo, ".git")))
    ensures ParseRepoPath("/" + Join([owner, repo] + extra, "/") + "/") == Ok(RepoRef(owner, TrimSuffix(repo, ".git")))
  {
    var ws := [owner, repo] + extra;
    SegmentsClean(owner, repo, extra);
    JoinTrimmed(ws);
    SplitOfJoin(ws, '/');
  }

  lemma {:induction false} SegmentsClean(owner: string, repo: string, extra: seq<string>)
    requires owner != "" && repo != ""
    requires '/' !in owner && '/' !in repo
    requires forall i | 0 <= i < |extra| :: extra[i] != "" && '/' !in extra[i]
    ensures var ws := [owner, repo] + extra;
      && |ws| >= 2 && ws[0] == owner && ws[1] == repo
      && forall i | 0 <= i < |ws| :: ws[i] != "" && '/' !in ws[i]
  {
    var ws := [owner, repo] + extra;
    assert forall i | 2 <= i < |ws| :: ws[i] == extra[i - 2];
  }

  /** Slash-joined non-empty segments are their own slash-trim, with or
      without one extra slash at each end. */
  lemma {:induction false} JoinTrimmed(ws: seq<string>)
    requires |ws| >= 1
    requires forall i | 0 <= i < |ws| :: ws[i] != "" && '/' !in ws[i]
    ensures TrimChar(Join(ws, "/"), '/') == Join(ws, "/")
    ensures TrimChar("/" + Join(ws, "/") + "/", '/') == Join(ws, "/")
  {
    var joined := Join(ws, "/");
    JoinFirst(ws, "/");
    JoinLast(ws, "/");
    TrimByNoop(joined, x => x == '/');
    TrimByOuter('/', joined, '/', x => x == '/');
    assert "/" + joined + "/" == ['/'] + joined + ['/'];
  }

  // ---------------------------------------------------------------------
  // FindLockfile

  datatype LockfileError = LockfileNotFound

  /** Probes `SupportedFiles` in order and returns the first that exists;
      `jsonFlag` only decides whether a missing file is reported on stdout. */
  method FindLockfile(fileExists: string -> bool, jsonFlag: bool) returns (r: Result<string, LockfileError>)
    ensures r.Ok? ==> exists k | 0 <= k < |SupportedFiles| ::
      SupportedFiles[k] == r.value && fileExists(r.value)
      && forall j | 0 <= j < k :: !fileExists(SupportedFiles[j])
    ensures r.Err? <==> forall k | 0 <= k < |SupportedFiles| :: !fileExists(SupportedFiles[k])
  {
    var i := 0;
    while i < |SupportedFiles|
      invariant 0 <= i <= |SupportedFiles|
      invariant forall j | 0 <= j < i :: !fileExists(SupportedFiles[j])
    {
      var file := SupportedFiles[i];
      if !fileExists(file) {
        if !jsonFlag {
          // "Skipping <file>: not found" is printed here.
        }
      } else {
        return Ok(file);
      }
      i := i + 1;
    }
    return Err(LockfileNotFound);
  }

  // ---------------------------------------------------------------------
  // go.sum

  /** The purl one `go.sum` line yields before deduplication: fields 0 and 1
      (module and version), the version without one `/go.mod` suffix. */
  function GoLinePurl(line: string): (r: Option<string>)
    ensures r.Some? <==> |Fields(line)| >= 2
    ensures r.Some? ==> HasPrefix(r.value, "pkg:golang/")
  {
    var fields := Fields(line);
    if |fields| >= 2 then
      var version := TrimSuffix(fields[1], "/go.mod");
      PurlPrefix("pkg:golang/", fields[0], version);
      Some("pkg:golang/" + fields[0] + "@" + version)
    else None
  }

  /** A purl built as `<head><name>@<version>` starts with its head. */
  lemma {:induction false} PurlPrefix(head: string, name: string, version: string)
    ensures HasPrefix(head + name + "@" + version, head)
  {
  }

  /** The purls of all lines, in line order, duplicates included. */
  function GoCandidates(content: string): seq<string> {
    FilterMap(GoLinePurl, Lines(content))
  }

  /** The loop over the scanner with its `seen` set: a purl is appended only
      the first time it comes up. */
  function KeepUnseen(seen: set<string>, purls: seq<string>): (r: seq<string>)
    ensures forall p :: p in r <==> p in purls && p !in seen
    decreases |purls|
  {
    if |purls| == 0 then []
    else if purls[0] in seen then KeepUnseen(seen, purls[1..])
    else [purls[0]] + KeepUnseen(seen + {purls[0]}, purls[1..])
  }

  /** `extractGoPackages` */
  function ExtractGoPackages(content: string): (pkgs: seq<string>)
    ensures NoDuplicates(pkgs)
    ensures forall p :: p in pkgs <==> p in GoCandidates(content)
    ensures forall p | p in pkgs :: HasPrefix(p, "pkg:golang/")
  {
    forall p | p in GoCandidates(content) ensures HasPrefix(p, "pkg:golang/") {
      FilterMapMember(GoLinePurl, Lines(content), p);
    }
    KeepUnseenNoDuplicates({}, GoCandidates(content));
    KeepUnseen({}, GoCandidates(content))
  }

  lemma {:induction false} KeepUnseenNoDuplicates(seen: set<string>, purls: seq<string>)
    ensures NoDuplicates(KeepUnseen(seen, purls))
    decreases |purls|
  {
    if |purls| > 0 {
      var x := purls[0];
      if x in seen {
        KeepUnseenNoDuplicates(seen, purls[1..]);
      } else {
        KeepUnseenNoDuplicates(seen + {x}, purls[1..]);
        NoDuplicatesCons(x, KeepUnseen(seen + {x}, purls[1..]));
      }
    }
  }

  lemma {:induction false} KeepUnseenExtends(p: seq<string>, seen: set<string>, s: seq<string>)
    requires forall y :: y in seen <==> y in p
    ensures FirstOccurrences(p + s) == FirstOccurrences(p) + KeepUnseen(seen, s)
    decreases |s|
  {
    if |s| == 0 {
      assert p + s == p;
    } else {
      var x, tail := s[0], s[1..];
      SeenSnoc(p, seen, x);
      KeepUnseenExtends(p + [x], seen + {x}, tail);
      SnocThenTail(p, s);
      KeepUnseenStep(p, seen, x, tail);
    }
  }

  lemma {:induction false} SeenSnoc(p: seq<string>, seen: set<string>, x: string)
    requires forall y :: y in seen <==> y in p
    ensures forall y :: y in seen + {x} <==> y in p + [x]
  {
  }

  lemma {:induction false} SnocThenTail(p: seq<string>, s: seq<string>)
    requires |s| > 0
    ensures p + s == (p + [s[0]]) + s[1..]
    ensures s == [s[0]] + s[1..]
  {
  }

  /** Moving one purl from the input to the seen prefix. */
  lemma {:induction false} KeepUnseenStep(p: seq<string>, seen: set<string>, x: string, tail: seq<string>)
    requires forall y :: y in seen <==> y in p
    ensures FirstOccurrences(p + [x]) + KeepUnseen(seen + {x}, tail)
         == FirstOccurrences(p) + KeepUnseen(seen, [x] + tail)
  {
    var rest, fp := KeepUnseen(seen + {x}, tail), FirstOccurrences(p);
    if x in seen {
      assert FirstOccurrences(p + [x]) == fp by {
        FirstOccurrencesSnoc(p, x);
      }
      assert KeepUnseen(seen, [x] + tail) == rest by {
        assert ([x] + tail)[0] == x && ([x] + tail)[1..] == tail;
        assert seen + {x} == seen;
      }
    } else {
      assert FirstOccurrences(p + [x]) == fp + [x] by {
        FirstOccurrencesSnoc(p, x);
      }
      assert KeepUnseen(seen, [x] + tail) == [x] + rest by {
        assert ([x] + tail)[0] == x && ([x] + tail)[1..] == tail;
      }
      assert fp + [x] + rest == fp + ([x] + rest);
    }
  }

  lemma {:induction false} FirstOccurrencesSnoc(p: seq<string>, x: string)
    ensures FirstOccurrences(p + [x]) == FirstOccurrences(p) + (if x in p then [] else [x])
  {
    assert (p + [x])[..|p|] == p;
  }

  /** The output is the candidate list with every repeat removed, each purl
      kept at its first line. */
  lemma {:induction false} GoExtractionKeepsFirstOccurrences(content: string)
    ensures ExtractGoPackages(content) == FirstOccurrences(GoCandidates(content))
  {
    KeepUnseenExtends([], {}, GoCandidates(content));
    assert [] + GoCandidates(content) == GoCandidates(content);
  }

  /** A line `<module> <version><rest>` yields the purl of its first two
      fields; the hash column and anything after it are ignored. */
  lemma {:induction false} GoLineFirstTwoFields(modulePath: string, version: string, rest: string)
    requires modulePath != "" && NoSpace(modulePath)
    requires version != "" && NoSpace(version)
    requires rest == "" || IsSpace(rest[0])
    ensures GoLinePurl(modulePath + " " + version + rest)
      == Some("pkg:golang/" + modulePath + "@" + TrimSuffix(version, "/go.mod"))
  {
    GoLineFields(modulePath, version, rest);
    var fields := [modulePath, version] + Fields(rest);
    assert fields[0] == modulePath && fields[1] == version;
  }

  lemma {:induction false} GoLineFields(modulePath: string, version: string, rest: string)
    requires modulePath != "" && NoSpace(modulePath)
    requires version != "" && NoSpace(version)
    requires rest == "" || IsSpace(rest[0])
    ensures Fields(modulePath + " " + version + rest) == [modulePath, version] + Fields(rest)
  {
    var tail := " " + version + rest;
    FieldsWord(version, rest);
    FieldsLeadingSpace(version, rest);
    FieldsWord(modulePath, tail);
    RegroupWords(modulePath, version, rest);
    ConsTwo(modulePath, version, Fields(rest));
  }

  lemma {:induction false} ConsTwo(a: string, b: string, rest: seq<string>)
    ensures [a] + ([b] + rest) == [a, b] + rest
  {
  }

  lemma {:induction false} RegroupWords(a: string, b: string, c: string)
    ensures a + " " + b + c == a + (" " + b + c)
  {
  }

  lemma {:induction false} FieldsLeadingSpace(a: string, b: string)
    ensures Fields(" " + a + b) == Fields(a + b)
  {
    assert (" " + a + b)[1..] == a + b;
  }

  /** The `/go.mod` line of a module version yields the same purl as its
      source-archive line. */
  lemma {:induction false} GoModLineSamePurl(modulePath: string, version: string, rest1: string, rest2: string)
    requires modulePath != "" && NoSpace(modulePath)
    requires version != "" && NoSpace(version) && !HasSuffix(version, "/go.mod")
    requires rest1 == "" || IsSpace(rest1[0])
    requires rest2 == "" || IsSpace(rest2[0])
    ensures GoLinePurl(modulePath + " " + version + rest1) == Some("pkg:golang/" + modulePath + "@" + version)
    ensures GoLinePurl(modulePath + " " + version + "/go.mod" + rest2) == Some("pkg:golang/" + modulePath + "@" + version)
  {
    GoLineFirstTwoFields(modulePath, version, rest1);
    var v2 := version + "/go.mod";
    GoModVersion(version);
    GoLineFirstTwoFields(modulePath, v2, rest2);
    RegroupLine(modulePath, version, "/go.mod", rest2);
  }

  /** Appending `/go.mod` keeps a version free of spaces, and `TrimSuffix`
      takes it off again. */
  lemma {:induction false} GoModVersion(version: string)
    requires NoSpace(version)
    ensures NoSpace(version + "/go.mod")
    ensures TrimSuffix(version + "/go.mod", "/go.mod") == version
  {
    var v2 := version + "/go.mod";
    assert NoSpace("/go.mod");
    forall i | 0 <= i < |v2| ensures !IsSpace(v2[i]) {
      if i >= |version| {
        assert v2[i] == "/go.mod"[i - |version|];
      }
    }
    assert v2[|v2| - 7..] == "/go.mod";
    assert v2[..|v2| - 7] == version;
  }

  lemma {:induction false} RegroupLine(a: string, b: string, c: string, d: string)
    ensures a + " " + b + c + d == a + " " + (b + c) + d
  {
  }

  /** The usual pair of `go.sum` lines for one module version (archive hash
      and `/go.mod` hash) yields a single purl. */
  lemma {:induction false} GoSumPairYieldsOnePurl(modulePath: string, version: string, hash1: string, hash2: string)
    requires modulePath != "" && NoSpace(modulePath)
    requires version != "" && NoSpace(version) && !HasSuffix(version, "/go.mod")
    requires hash1 != "" && NoSpace(hash1) && hash2 != "" && NoSpace(hash2)
    ensures ExtractGoPackages(Terminated([modulePath + " " + version + " " + hash1,
                                          modulePath + " " + version + "/go.mod " + hash2]))
         == ["pkg:golang/" + modulePath + "@" + version]
  {
    var l1 := modulePath + " " + version + " " + hash1;
    var l2 := modulePath + " " + version + "/go.mod " + hash2;
    GoSumPairLines(l1, l2, hash1, hash2);
    GoSumPairPurls(modulePath, version, hash1, hash2);
    GoSameLinePurls(l1, l2, "pkg:golang/" + modulePath + "@" + version);
  }

  lemma {:induction false} GoSumPairLines(l1: string, l2: string, hash1: string, hash2: string)
    requires hash1 != "" && NoSpace(hash1) && HasSuffix(l1, hash1) && '\n' !in l1
    requires hash2 != "" && NoSpace(hash2) && HasSuffix(l2, hash2) && '\n' !in l2
    ensures Lines(Terminated([l1, l2])) == [l1, l2]
  {
    PlainWords(l1, hash1);
    PlainWords(l2, hash2);
    LinesOfTwo(l1, l2);
  }

  lemma {:induction false} GoSumPairPurls(modulePath: string, version: string, hash1: string, hash2: string)
    requires modulePath != "" && NoSpace(modulePath)
    requires version != "" && NoSpace(version) && !HasSuffix(version, "/go.mod")
    requires hash1 != "" && NoSpace(hash1) && hash2 != "" && NoSpace(hash2)
    ensures GoLinePurl(modulePath + " " + version + " " + hash1) == Some("pkg:golang/" + modulePath + "@" + version)
    ensures GoLinePurl(modulePath + " " + version + "/go.mod " + hash2) == Some("pkg:golang/" + modulePath + "@" + version)
  {
    GoModLineSamePurl(modulePath, version, " " + hash1, " " + hash2);
    assert modulePath + " " + version + " " + hash1 == modulePath + " " + version + (" " + hash1);
    assert modulePath + " " + version + "/go.mod " + hash2 == modulePath + " " + version + "/go.mod" + (" " + hash2);
  }

  lemma {:induction false} GoSameLinePurls(l1: string, l2: string, p: string)
    requires Lines(Terminated([l1, l2])) == [l1, l2]
    requires GoLinePurl(l1) == Some(p) && GoLinePurl(l2) == Some(p)
    ensures ExtractGoPackages(Terminated([l1, l2])) == [p]
  {
    FilterMapPair(GoLinePurl, l1, l2);
    KeepUnseenRepeat(p);
  }

  lemma {:induction false} KeepUnseenRepeat(p: string)
    ensures KeepUnseen({}, [p, p]) == [p]
  {
    assert [p, p][1..] == [p];
    assert [p][1..] == [];
    assert {} + {p} == {p};
    assert KeepUnseen({p}, [p]) == KeepUnseen({p}, []);
  }

  /** A line that ends in a space-free word has no newline or carriage return
      at its end. */
  lemma {:induction false} PlainWords(line: string, last: string)
    requires last != "" && NoSpace(last) && HasSuffix(line, last)
    requires '\n' !in line
    ensures PlainLine(line)
  {
    assert line[|line| - 1] == last[|last| - 1];
  }

  // ---------------------------------------------------------------------
  // requirements.txt

  /** The purl one requirements line yields: blank and `#` lines are skipped,
      and a line is used only when splitting it on `==` gives exactly two
      parts; the name is trimmed and lower-cased, the version trimmed. */
  function PythonLinePurl(raw: string): (r: Option<string>)
    ensures TrimSpace(raw) == "" || HasPrefix(TrimSpace(raw), "#") ==> r == None
    ensures r.Some? ==> HasPrefix(r.value, "pkg:pypi/")
  {
    var line := TrimSpace(raw);
    if line == "" || HasPrefix(line, "#") then None
    else
      var parts := Split(line, "==");
      if |parts| == 2 then
        var name := ToLower(TrimSpace(parts[0]));
        var version := TrimSpace(parts[1]);
        PurlPrefix("pkg:pypi/", name, version);
        Some("pkg:pypi/" + name + "@" + version)
      else None
  }

  /** `extractPythonPackages`: one purl per usable line, in line order, with
      no deduplication. */
  function ExtractPythonPackages(content: string): (pkgs: seq<string>)
    ensures |pkgs| <= |Lines(content)|
    ensures forall p | p in pkgs :: HasPrefix(p, "pkg:pypi/")
    ensures forall p :: p in pkgs <==> exists l | l in Lines(content) :: PythonLinePurl(l) == Some(p)
  {
    forall p ensures p in FilterMap(PythonLinePurl, Lines(content)) <==> exists l | l in Lines(content) :: PythonLinePurl(l) == Some(p) {
      FilterMapMember(PythonLinePurl, Lines(content), p);
    }
    FilterMap(PythonLinePurl, Lines(content))
  }

  /** For a file of plain lines, the purls are exactly those of the usable
      lines, in line order and with repeats kept. */
  lemma {:induction false} PythonOfLines(ls: seq<string>)
    requires forall i | 0 <= i < |ls| :: PlainLine(ls[i])
    ensures ExtractPythonPackages(Terminated(ls)) == FilterMap(PythonLinePurl, ls)
  {
    LinesOfTerminated(ls);
  }

  /** A pinned line `name==version` yields the purl of the lower-cased,
      trimmed name and the trimmed version. */
  lemma {:induction false} PythonPinnedLine(name: string, version: string)
    requires '=' !in name && '=' !in version
    requires name != "" && !IsSpace(name[0]) && name[0] != '#'
    requires version == "" || !IsSpace(version[|version| - 1])
    ensures PythonLinePurl(name + "==" + version)
      == Some("pkg:pypi/" + ToLower(TrimSpace(name)) + "@" + TrimSpace(version))
  {
    PinnedLineTrimmed(name, version);
    PinnedLineSplitParts(name, version);
  }

  lemma {:induction false} PinnedLineSplitParts(name: string, version: string)
    requires '=' !in name && '=' !in version
    ensures var parts := Split(name + "==" + version, "==");
      |parts| == 2 && parts[0] == name && parts[1] == version
  {
    PinnedLineSplit(name, version);
  }

  lemma {:induction false} PinnedLineTrimmed(name: string, version: string)
    requires name != "" && !IsSpace(name[0])
    requires version == "" || !IsSpace(version[|version| - 1])
    requires name[0] != '#'
    ensures TrimSpace(name + "==" + version) == name + "==" + version
    ensures name + "==" + version != "" && !HasPrefix(name + "==" + version, "#")
  {
    var line := name + "==" + version;
    assert line[0] == name[0];
    assert line[|line| - 1] == if version == "" then '=' else version[|version| - 1];
    TrimByNoop(line, IsSpace);
  }

  lemma {:induction false} PinnedLineSplit(name: string, version: string)
    requires '=' !in name && '=' !in version
    ensures Split(name + "==" + version, "==") == [name, version]
  {
    SplitFirst(name, "==", version);
    SplitNone(version, "==");
  }

  /** A line with two `==` separators splits into three parts and is dropped. */
  lemma {:induction false} PythonRejectsChainedPins(a: string, b: string, c: string)
    requires '=' !in a && '=' !in b && '=' !in c
    requires a != "" && !IsSpace(a[0])
    requires c == "" || !IsSpace(c[|c| - 1])
    ensures PythonLinePurl(a + "==" + b + "==" + c) == None
  {
    var line := a + "==" + b + "==" + c;
    assert line[0] == a[0];
    ChainedTrimmed(a, b, c);
    ChainedSplit(a, b, c);
  }

  lemma {:induction false} ChainedTrimmed(a: string, b: string, c: string)
    requires a != "" && !IsSpace(a[0])
    requires c == "" || !IsSpace(c[|c| - 1])
    ensures TrimSpace(a + "==" + b + "==" + c) == a + "==" + b + "==" + c
  {
    var line := a + "==" + b + "==" + c;
    assert line[0] == a[0];
    assert line[|line| - 1] == if c == "" then '=' else c[|c| - 1];
    TrimByNoop(line, IsSpace);
  }

  lemma {:induction false} ChainedSplit(a: string, b: string, c: string)
    requires '=' !in a && '=' !in b && '=' !in c
    ensures Split(a + "==" + b + "==" + c, "==") == [a, b, c]
  {
    assert a + "==" + b + "==" + c == a + "==" + (b + "==" + c);
    SplitFirst(a, "==", b + "==" + c);
    PinnedLineSplit(b, c);
  }

  /** A line without `==` (for example a `>=` range) is dropped. */
  lemma {:induction false} PythonRequiresPin(raw: string)
    requires !Contains(raw, "==")
    ensures PythonLinePurl(raw) == None
  {
    var line := TrimSpace(raw);
    ContainsInSlice(raw, |raw| - |TrimLeftBy(raw, IsSpace)|, |line|, "==");
  }

  /** Repeated lines are all kept. */
  lemma {:induction false} PythonKeepsDuplicates(line: string, p: string)
    requires PlainLine(line) && PythonLinePurl(line) == Some(p)
    ensures ExtractPythonPackages(Terminated([line, line])) == [p, p]
  {
    LinesOfTwo(line, line);
    FilterMapPair(PythonLinePurl, line, line);
  }

  // ---------------------------------------------------------------------
  // package-lock.json

  /** A decoded JSON value, as much of it as the extractor inspects. */
  datatype Json = JString(str: string) | JObject(members: map<string, Json>) | JOther

  /** The decoder and the iteration order the Go runtime gives a map. */
  datatype JsonEnv = JsonEnv(decode: string -> Option<Json>, keyOrder: map<string, Json> -> seq<string>)

  /** The top-level `packages` object, if the document is an object that has one. */
  function PackagesObject(doc: Option<Json>): Option<map<string, Json>> {
    match doc
    case Some(JObject(top)) =>
      if "packages" in top && top["packages"].JObject? then Some(top["packages"].members) else None
    case _ => None
  }

  /** The purl of one `packages` entry: the root entries `""` and
      `"node_modules"` and non-object entries are skipped; the name is the key
      without one leading `node_modules/`; a missing, non-string or empty
      `version` (or an empty name) skips the entry. */
  function NpmEntryPurl(pathKey: string, val: Json): (r: Option<string>)
    ensures pathKey == "" || pathKey == "node_modules" || !val.JObject? ==> r == None
    ensures r.Some? ==> HasPrefix(r.value, "pkg:npm/")
  {
    if pathKey == "" || pathKey == "node_modules" then None
    else
      match val
      case JObject(meta) =>
        var name := TrimPrefix(pathKey, "node_modules/");
        var version := if "version" in meta && meta["version"].JString? then meta["version"].str else "";
        if name != "" && version != "" then Some("pkg:npm/" + name + "@" + version) else None
      case _ => None
  }

  function NpmKeyPurl(packages: map<string, Json>): string -> Option<string> {
    k => if k in packages then NpmEntryPurl(k, packages[k]) else None
  }

  /** `extractNpmPackages`, visiting the `packages` keys in the order `keyOrder` gives. */
  function ExtractNpmPackages(doc: Option<Json>, keyOrder: map<string, Json> -> seq<string>): (pkgs: seq<string>)
    ensures PackagesObject(doc).None? ==> pkgs == []
    ensures forall p | p in pkgs :: HasPrefix(p, "pkg:npm/")
  {
    match PackagesObject(doc)
    case None => []
    case Some(packages) =>
      forall p | p in FilterMap(NpmKeyPurl(packages), keyOrder(packages)) ensures HasPrefix(p, "pkg:npm/") {
        FilterMapMember(NpmKeyPurl(packages), keyOrder(packages), p);
      }
      FilterMap(NpmKeyPurl(packages), keyOrder(packages))
  }

  /** Which purls come out, and how often, does not depend on the map's
      iteration order. */
  lemma {:induction false} NpmOrderIndependent(doc: Option<Json>, order1: map<string, Json> -> seq<string>,
                            order2: map<string, Json> -> seq<string>)
    requires ValidOrder(order1) && ValidOrder(order2)
    ensures multiset(ExtractNpmPackages(doc, order1)) == multiset(ExtractNpmPackages(doc, order2))
  {
    match PackagesObject(doc)
    case None =>
    case Some(packages) =>
      EnumerationsArePermutations(order1(packages), order2(packages), packages.Keys);
      FilterMapPermutation(NpmKeyPurl(packages), order1(packages), order2(packages));
  }

  /** A purl is extracted exactly when some `packages` entry yields it. */
  lemma {:induction false} NpmMembership(doc: Option<Json>, keyOrder: map<string, Json> -> seq<string>, p: string)
    requires ValidOrder(keyOrder)
    requires PackagesObject(doc).Some?
    ensures var packages := PackagesObject(doc).value;
      p in ExtractNpmPackages(doc, keyOrder) <==> exists k | k in packages :: NpmEntryPurl(k, packages[k]) == Some(p)
  {
    var packages := PackagesObject(doc).value;
    FilterMapMember(NpmKeyPurl(packages), keyOrder(packages), p);
    assert IsEnumeration(keyOrder(packages), packages.Keys);
  }

  /** The name is the key with exactly one leading `node_modules/` removed, so
      nested install paths keep their inner `node_modules/` segments. */
  lemma {:induction false} NpmNameStripsOnePrefix(rest: string, meta: map<string, Json>, version: string)
    requires rest != ""
    requires "version" in meta && meta["version"] == JString(version) && version != ""
    ensures NpmEntryPurl("node_modules/" + rest, JObject(meta)) == Some("pkg:npm/" + rest + "@" + version)
  {
    var key := "node_modules/" + rest;
    assert HasPrefix(key, "node_modules/");
    assert key[|"node_modules/"|..] == rest;
  }

  /** An entry whose `version` is missing, not a string, or empty yields nothing. */
  lemma {:induction false} NpmNeedsStringVersion(pathKey: string, meta: map<string, Json>)
    requires "version" !in meta || !meta["version"].JString? || meta["version"].str == ""
    ensures NpmEntryPurl(pathKey, JObject(meta)) == None
  {
  }

  // ---------------------------------------------------------------------
  // ExtractPackages

  /** Dispatches on the exact file name; any other name yields nothing. */
  function ExtractPackages(filename: string, content: string, env: JsonEnv): (pkgs: seq<string>)
    ensures filename !in SupportedFiles ==> pkgs == []
    ensures filename == "go.sum" ==> pkgs == ExtractGoPackages(content)
    ensures filename == "requirements.txt" ==> pkgs == ExtractPythonPackages(content)
    ensures filename == "package-lock.json" ==> pkgs == ExtractNpmPackages(env.decode(content), env.keyOrder)
    ensures filename == "go.sum" ==> NoDuplicates(pkgs) && forall p | p in pkgs :: HasPrefix(p, "pkg:golang/")
    ensures filename == "requirements.txt" ==> forall p | p in pkgs :: HasPrefix(p, "pkg:pypi/")
    ensures filename == "package-lock.json" ==> forall p | p in pkgs :: HasPrefix(p, "pkg:npm/")
  {
    match filename
    case "go.sum" => ExtractGoPackages(content)
    case "requirements.txt" => ExtractPythonPackages(content)
    case "package-lock.json" => ExtractNpmPackages(env.decode(content), env.keyOrder)
    case _ => []
  }
}
