/** The lockfile-history walk of the `repository` command
    (cmd/repository.go): for each supported lockfile, every revision is
    parsed and diffed against the previous successfully parsed one, and each
    purl that shows up in a diff is reported once over the whole walk. */
module History {
  import opened Wrappers
  import opened Seqs
  import Purl

  /** The GitHub calls and the package-list diff the walk relies on. */
  datatype RepoEnv = RepoEnv(
    fileExists: string -> bool,
    listCommits: string -> Result<seq<string>, string>,
    fetch: (string, string) -> Result<string, string>,
    diff: (seq<string>, seq<string>) -> seq<string>,
    json: Purl.JsonEnv)

  /** `seenPURLs`, and the purls in the order "Added:" reports them. */
  datatype WalkState = WalkState(seen: set<string>, reported: seq<string>)

  /** Every reported purl is in the seen set and vice versa, each reported once. */
  predicate Consistent(st: WalkState) {
    && NoDuplicates(st.reported)
    && (forall p | p in st.reported :: p in st.seen)
    && (forall p | p in st.seen :: p in st.reported)
  }

  /** The loop over one diff's output: a purl not seen yet is recorded and
      reported. */
  function Report(st: WalkState, added: seq<string>): WalkState
    decreases |added|
  {
    if |added| == 0 then st
    else
      var a := added[0];
      var next := if a in st.seen then st else WalkState(st.seen + {a}, st.reported + [a]);
      Report(next, added[1..])
  }

  /** The packages of one revision, or `None` when it cannot be fetched. */
  function Revision(env: RepoEnv, file: string): string -> Option<seq<string>> {
    (sha: string) =>
      match env.fetch(file, sha)
      case Err(_) => None
      case Ok(content) => Some(Purl.ExtractPackages(file, content, env.json))
  }

  /** The inner loop over one file's commits; `lastPkgs` is the package list
      of the last revision that was fetched. */
  function WalkCommits(env: RepoEnv, file: string, shas: seq<string>, lastPkgs: seq<string>, st: WalkState): WalkState
    decreases |shas|
  {
    if |shas| == 0 then st
    else match env.fetch(file, shas[0])
      case Err(_) => WalkCommits(env, file, shas[1..], lastPkgs, st)
      case Ok(content) =>
        var pkgs := Purl.ExtractPackages(file, content, env.json);
        WalkCommits(env, file, shas[1..], pkgs, Report(st, env.diff(lastPkgs, pkgs)))
  }

  /** The outer loop: a missing file or a failed commit listing is skipped;
      otherwise the file's commits are walked from an empty `lastPkgs`. */
  function WalkFiles(env: RepoEnv, files: seq<string>, st: WalkState): WalkState
    decreases |files|
  {
    if |files| == 0 then st
    else if !env.fileExists(files[0]) then WalkFiles(env, files[1..], st)
    else match env.listCommits(files[0])
      case Err(_) => WalkFiles(env, files[1..], st)
      case Ok(shas) => WalkFiles(env, files[1..], WalkCommits(env, files[0], shas, [], st))
  }

  /** The whole walk, from an empty `seenPURLs`. */
  function UniqueDependencies(env: RepoEnv): (st: WalkState)
    ensures Consistent(st)
  {
    var st := WalkFiles(env, Purl.SupportedFiles, WalkState({}, []));
    WalkFilesSpec(env, Purl.SupportedFiles, WalkState({}, []));
    ReportConsistent(WalkState({}, []), AllDiffs(env, Purl.SupportedFiles));
    st
  }

  // ---------------------------------------------------------------------
  // Reference definitions: which diffs the walk computes

  /** Each package list diffed against the one before it, the first against
      `prev`. */
  function ConsecutiveDiffs(diff: (seq<string>, seq<string>) -> seq<string>, prev: seq<string>, revs: seq<seq<string>>): seq<string>
    decreases |revs|
  {
    if |revs| == 0 then [] else diff(prev, revs[0]) + ConsecutiveDiffs(diff, revs[0], revs[1..])
  }

  /** The diffs for one file: its fetchable revisions in commit order, diffed
      pairwise starting from the empty list. A missing file or an unlisted
      history contributes nothing. */
  function FileDiffs(env: RepoEnv, file: string): seq<string> {
    if !env.fileExists(file) then []
    else match env.listCommits(file)
      case Err(_) => []
      case Ok(shas) => ConsecutiveDiffs(env.diff, [], FilterMap(Revision(env, file), shas))
  }

  function AllDiffs(env: RepoEnv, files: seq<string>): seq<string> {
    FlatMap((f: string) => FileDiffs(env, f), files)
  }

  // ---------------------------------------------------------------------
  // Properties

  /** Reporting a diff records all its purls and reports, in order, the
      ones not seen before. */
  lemma {:induction false} ReportSpec(st: WalkState, added: seq<string>)
    ensures forall p :: p in Report(st, added).seen <==> p in st.seen || p in added
    ensures Report(st, added).reported == st.reported + Purl.KeepUnseen(st.seen, added)
    decreases |added|
  {
    if |added| > 0 {
      var a, tail := added[0], added[1..];
      var next := if a in st.seen then st else WalkState(st.seen + {a}, st.reported + [a]);
      ReportSpec(next, tail);
      assert forall p :: p in added <==> p == a || p in tail;
      if a in st.seen {
        assert st.seen + {a} == st.seen;
      } else {
        assert st.reported + [a] + Purl.KeepUnseen(st.seen + {a}, tail) == st.reported + ([a] + Purl.KeepUnseen(st.seen + {a}, tail));
      }
    }
  }

  /** No purl is ever reported twice. */
  lemma {:induction false} ReportConsistent(st: WalkState, added: seq<string>)
    requires Consistent(st)
    ensures Consistent(Report(st, added))
    decreases |added|
  {
    if |added| > 0 {
      var a := added[0];
      if a !in st.seen {
        NoDuplicatesSnoc(st.reported, a);
        ReportConsistent(WalkState(st.seen + {a}, st.reported + [a]), added[1..]);
      } else {
        ReportConsistent(st, added[1..]);
      }
    }
  }

  /** Reporting two diffs one after the other is reporting their concatenation. */
  lemma {:induction false} ReportAppend(st: WalkState, a: seq<string>, b: seq<string>)
    ensures Report(Report(st, a), b) == Report(st, a + b)
    decreases |a|
  {
    if |a| == 0 {
      assert a + b == b;
    } else {
      var x := a[0];
      var next := if x in st.seen then st else WalkState(st.seen + {x}, st.reported + [x]);
      ReportAppend(next, a[1..], b);
      assert (a + b)[0] == x && (a + b)[1..] == a[1..] + b;
    }
  }

  /** The commit loop reports exactly the consecutive diffs of the fetchable
      revisions: a failed fetch leaves `lastPkgs` where it was. */
  lemma {:induction false} WalkCommitsSpec(env: RepoEnv, file: string, shas: seq<string>, lastPkgs: seq<string>, st: WalkState)
    ensures WalkCommits(env, file, shas, lastPkgs, st)
         == Report(st, ConsecutiveDiffs(env.diff, lastPkgs, FilterMap(Revision(env, file), shas)))
    decreases |shas|
  {
    var rev := Revision(env, file);
    if |shas| == 0 {
    } else {
      var tail := shas[1..];
      match env.fetch(file, shas[0])
      case Err(_) =>
        assert rev(shas[0]) == None;
        assert FilterMap(rev, shas) == FilterMap(rev, tail);
        WalkCommitsSpec(env, file, tail, lastPkgs, st);
      case Ok(content) =>
        var pkgs := Purl.ExtractPackages(file, content, env.json);
        assert rev(shas[0]) == Some(pkgs);
        assert FilterMap(rev, shas) == [pkgs] + FilterMap(rev, tail);
        var d := env.diff(lastPkgs, pkgs);
        WalkCommitsSpec(env, file, tail, pkgs, Report(st, d));
        ReportAppend(st, d, ConsecutiveDiffs(env.diff, pkgs, FilterMap(rev, tail)));
        ConsecutiveDiffsCons(env.diff, lastPkgs, pkgs, FilterMap(rev, tail));
    }
  }

  lemma {:induction false} ConsecutiveDiffsCons(diff: (seq<string>, seq<string>) -> seq<string>, prev: seq<string>, r: seq<string>, rest: seq<seq<string>>)
    ensures ConsecutiveDiffs(diff, prev, [r] + rest) == diff(prev, r) + ConsecutiveDiffs(diff, r, rest)
  {
    assert ([r] + rest)[0] == r && ([r] + rest)[1..] == rest;
  }

  /** The file loop reports the diffs of all files in order, with one
      `seenPURLs` shared across files. */
  lemma {:induction false} WalkFilesSpec(env: RepoEnv, files: seq<string>, st: WalkState)
    ensures WalkFiles(env, files, st) == Report(st, AllDiffs(env, files))
    decreases |files|
  {
    if |files| > 0 {
      var f, tail := files[0], files[1..];
      var here := FileDiffs(env, f);
      assert AllDiffs(env, files) == here + AllDiffs(env, tail);
      if env.fileExists(f) && env.listCommits(f).Ok? {
        WalkCommitsSpec(env, f, env.listCommits(f).value, [], st);
        WalkFilesSpec(env, tail, Report(st, here));
      } else {
        assert here == [];
        WalkFilesSpec(env, tail, st);
        assert here + AllDiffs(env, tail) == AllDiffs(env, tail);
      }
      ReportAppend(st, here, AllDiffs(env, tail));
    }
  }

  /** The final unique set is the union of every diff output over the
      fetchable revisions of the files that exist and whose history could be
      listed. */
  lemma {:induction false} UniqueSetIsUnionOfDiffs(env: RepoEnv, p: string)
    ensures p in UniqueDependencies(env).seen
        <==> exists f :: f in Purl.SupportedFiles && p in FileDiffs(env, f)
  {
    WalkFilesSpec(env, Purl.SupportedFiles, WalkState({}, []));
    ReportSpec(WalkState({}, []), AllDiffs(env, Purl.SupportedFiles));
    FlatMapMember((f: string) => FileDiffs(env, f), Purl.SupportedFiles, p);
  }

  /** "Added:" lines: each purl of the diffs once, at its first appearance
      across all files. */
  lemma {:induction false} ReportedInFirstAppearanceOrder(env: RepoEnv)
    ensures UniqueDependencies(env).reported == FirstOccurrences(AllDiffs(env, Purl.SupportedFiles))
  {
    var all := AllDiffs(env, Purl.SupportedFiles);
    WalkFilesSpec(env, Purl.SupportedFiles, WalkState({}, []));
    ReportSpec(WalkState({}, []), all);
    Purl.KeepUnseenExtends([], {}, all);
    assert [] + all == all;
  }

  /** Within one file the first fetchable revision is diffed against the
      empty list, and a revision that cannot be fetched is skipped without
      moving `lastPkgs`. */
  lemma {:induction false} FirstRevisionAgainstEmpty(env: RepoEnv, file: string, shas: seq<string>, bad: seq<string>, sha: string, rest: seq<string>)
    requires env.fileExists(file) && env.listCommits(file) == Ok(shas)
    requires shas == bad + [sha] + rest
    requires forall k | 0 <= k < |bad| :: env.fetch(file, bad[k]).Err?
    requires env.fetch(file, sha).Ok?
    ensures var pkgs := Purl.ExtractPackages(file, env.fetch(file, sha).value, env.json);
            FileDiffs(env, file) == env.diff([], pkgs) + ConsecutiveDiffs(env.diff, pkgs, FilterMap(Revision(env, file), rest))
  {
    var rev := Revision(env, file);
    assert forall k | 0 <= k < |bad| :: rev(bad[k]).None?;
    FilterMapFirstKept(rev, bad, sha, rest);
    ConsecutiveDiffsCons(env.diff, [], rev(sha).value, FilterMap(rev, rest));
  }

  /** A file that does not exist, or whose history cannot be listed, adds
      nothing, whatever its revisions hold. */
  lemma {:induction false} SkippedFileAddsNothing(env: RepoEnv, file: string)
    requires !env.fileExists(file) || env.listCommits(file).Err?
    ensures FileDiffs(env, file) == []
    ensures forall st :: WalkFiles(env, [file], st) == st
  {
    forall st ensures WalkFiles(env, [file], st) == st {
      assert [file][1..] == [];
    }
  }
}
