/** The parts of Go's `strings` package and of `bufio.ScanLines` that the
    extractors and the scorers rely on, stated on `string` (= `seq<char>`).
    Each function follows the Go definition for the separators the program
    actually passes (always non-empty). */
module GoStrings {
  import opened Wrappers

  /** `unicode.IsSpace`: the Latin-1 spaces and the Unicode White_Space characters. */
  predicate IsSpace(c: char) {
    var n := c as int;
    (9 <= n <= 13) || n == 32 || n == 0x85 || n == 0xA0 || n == 0x1680
    || (0x2000 <= n <= 0x200A) || n == 0x2028 || n == 0x2029 || n == 0x202F
    || n == 0x205F || n == 0x3000
  }

  predicate NoSpace(s: string) {
    forall i | 0 <= i < |s| :: !IsSpace(s[i])
  }

  predicate HasPrefix(s: string, prefix: string) {
    prefix <= s
  }

  predicate HasSuffix(s: string, suffix: string) {
    |suffix| <= |s| && s[|s| - |suffix|..] == suffix
  }

  /** `strings.TrimPrefix`: removes the prefix once, if present. */
  function TrimPrefix(s: string, prefix: string): (r: string)
    ensures HasPrefix(s, prefix) ==> prefix + r == s
    ensures !HasPrefix(s, prefix) ==> r == s
  {
    if HasPrefix(s, prefix) then s[|prefix|..] else s
  }

  /** `strings.TrimSuffix`: removes the suffix once, if present. */
  function TrimSuffix(s: string, suffix: string): (r: string)
    ensures HasSuffix(s, suffix) ==> r + suffix == s
    ensures !HasSuffix(s, suffix) ==> r == s
  {
    if HasSuffix(s, suffix) then s[..|s| - |suffix|] else s
  }

  /** `strings.TrimLeftFunc` */
  function TrimLeftBy(s: string, drop: char -> bool): (r: string)
    ensures |r| <= |s| && r == s[|s| - |r|..]
    ensures forall i | 0 <= i < |s| - |r| :: drop(s[i])
    ensures r == [] || !drop(r[0])
    decreases |s|
  {
    if s != [] && drop(s[0]) then TrimLeftBy(s[1..], drop) else s
  }

  /** `strings.TrimRightFunc` */
  function TrimRightBy(s: string, drop: char -> bool): (r: string)
    ensures |r| <= |s| && r == s[..|r|]
    ensures forall i | |r| <= i < |s| :: drop(s[i])
    ensures r == [] || !drop(r[|r| - 1])
    decreases |s|
  {
    if s != [] && drop(s[|s| - 1]) then TrimRightBy(s[..|s| - 1], drop) else s
  }

  /** `strings.TrimFunc`: both ends. */
  function TrimBy(s: string, drop: char -> bool): (r: string)
    ensures |r| <= |s|
    ensures r == [] || (!drop(r[0]) && !drop(r[|r| - 1]))
    ensures |r| <= |TrimLeftBy(s, drop)|
    ensures r == s[|s| - |TrimLeftBy(s, drop)|..][..|r|]
  {
    TrimRightBy(TrimLeftBy(s, drop), drop)
  }

  /** `strings.TrimSpace` */
  function TrimSpace(s: string): (r: string)
    ensures |r| <= |s|
    ensures r == [] || (!IsSpace(r[0]) && !IsSpace(r[|r| - 1]))
  {
    TrimBy(s, IsSpace)
  }

  /** `strings.Trim(s, string([c]))`: a one-character cutset. */
  function TrimChar(s: string, c: char): (r: string)
    ensures |r| <= |s|
    ensures r == [] || (r[0] != c && r[|r| - 1] != c)
  {
    TrimBy(s, x => x == c)
  }

  /** A string whose two ends carry nothing to drop is left as it is. */
  lemma {:induction false} TrimByNoop(s: string, drop: char -> bool)
    requires s == [] || (!drop(s[0]) && !drop(s[|s| - 1]))
    ensures TrimBy(s, drop) == s
  {
  }

  /** Dropping a leading or trailing droppable character does not change the trim. */
  lemma {:induction false} TrimByOuter(c: char, s: string, d: char, drop: char -> bool)
    requires drop(c) && drop(d)
    ensures TrimBy([c] + s + [d], drop) == TrimBy(s, drop)
  {
    var x := [c] + s + [d];
    assert x[1..] == s + [d];
    assert TrimLeftBy(x, drop) == TrimLeftBy(s + [d], drop);
    TrimRightOfLeft(s, d, drop);
  }

  lemma {:induction false} TrimRightOfLeft(s: string, d: char, drop: char -> bool)
    requires drop(d)
    ensures TrimRightBy(TrimLeftBy(s + [d], drop), drop) == TrimRightBy(TrimLeftBy(s, drop), drop)
  {
    TrimLeftAppend(s, d, drop);
    if TrimLeftBy(s + [d], drop) != [] {
      TrimRightDrop(TrimLeftBy(s, drop), d, drop);
    }
  }

  /** Appending a droppable character either survives the left trim at the
      end, or everything was dropped anyway. */
  lemma {:induction false} TrimLeftAppend(s: string, d: char, drop: char -> bool)
    requires drop(d)
    ensures || TrimLeftBy(s + [d], drop) == TrimLeftBy(s, drop) + [d]
            || (TrimLeftBy(s + [d], drop) == [] && TrimLeftBy(s, drop) == [])
    decreases |s|
  {
    if s == [] {
      assert [d][1..] == [];
      assert TrimLeftBy([d], drop) == TrimLeftBy([], drop);
    } else if drop(s[0]) {
      assert (s + [d])[1..] == s[1..] + [d];
      TrimLeftAppend(s[1..], d, drop);
    }
  }

  lemma {:induction false} TrimRightDrop(x: string, d: char, drop: char -> bool)
    requires drop(d)
    ensures TrimRightBy(x + [d], drop) == TrimRightBy(x, drop)
  {
    var t := x + [d];
    assert t[..|t| - 1] == x;
  }

  /** `unicode.ToLower` restricted to ASCII letters. */
  function LowerChar(c: char): char {
    if 'A' <= c <= 'Z' then (c as int + 32) as char else c
  }

  /** `strings.ToLower` (ASCII letters only). */
  function ToLower(s: string): (r: string)
    ensures |r| == |s|
    ensures forall i | 0 <= i < |s| :: r[i] == LowerChar(s[i])
  {
    seq(|s|, i requires 0 <= i < |s| => LowerChar(s[i]))
  }

  /** A string without upper-case ASCII letters is its own lower case. */
  lemma {:induction false} ToLowerNoUpper(s: string)
    requires forall i | 0 <= i < |s| :: !('A' <= s[i] <= 'Z')
    ensures ToLower(s) == s
  {
  }

  /** `strings.EqualFold` (ASCII case folding only). */
  predicate EqualFold(a: string, b: string) {
    ToLower(a) == ToLower(b)
  }

  /** `sub` occurs in `s` starting at index `i`. */
  predicate OccursAt(s: string, sub: string, i: int) {
    0 <= i && i + |sub| <= |s| && s[i..i + |sub|] == sub
  }

  /** `strings.Contains` */
  predicate Contains(s: string, sub: string) {
    exists i | 0 <= i <= |s| - |sub| :: OccursAt(s, sub, i)
  }

  /** An occurrence inside `s[k..]` is an occurrence in `s`, shifted by `k`. */
  lemma {:induction false} OccursAtShift(s: string, sub: string, k: nat, j: int)
    requires k <= |s|
    ensures OccursAt(s[k..], sub, j) <==> (0 <= j && OccursAt(s, sub, j + k))
  {
    if 0 <= j && j + |sub| <= |s| - k {
      assert s[k..][j..j + |sub|] == s[j + k..j + k + |sub|];
    }
  }

  /** An occurrence inside the prefix `s[..k]` is an occurrence in `s`. */
  lemma {:induction false} OccursAtPrefix(s: string, sub: string, k: nat, j: int)
    requires k <= |s|
    ensures OccursAt(s[..k], sub, j) <==> (OccursAt(s, sub, j) && j + |sub| <= k)
  {
    if 0 <= j && j + |sub| <= k {
      assert s[..k][j..j + |sub|] == s[j..j + |sub|];
    }
  }

  /** A substring of a slice of `s` is a substring of `s`. */
  lemma {:induction false} ContainsInSlice(s: string, k: nat, n: nat, sub: string)
    requires k <= |s| && n <= |s| - k
    ensures Contains(s[k..][..n], sub) ==> Contains(s, sub)
  {
    if Contains(s[k..][..n], sub) {
      var j :| 0 <= j <= n - |sub| && OccursAt(s[k..][..n], sub, j);
      OccursAtPrefix(s[k..], sub, n, j);
      OccursAtShift(s, sub, k, j);
    }
  }

  /** For a one-character pattern, `Contains` is plain membership. */
  lemma {:induction false} ContainsChar(s: string, c: char)
    ensures Contains(s, [c]) <==> c in s
  {
    if c in s {
      var i :| 0 <= i < |s| && s[i] == c;
      assert OccursAt(s, [c], i);
    }
    if Contains(s, [c]) {
      var i :| 0 <= i <= |s| - 1 && OccursAt(s, [c], i);
      assert s[i..i + 1][0] == s[i];
    }
  }

  /** `strings.Index`: the first occurrence of `sub`. */
  function Index(s: string, sub: string): (r: Option<nat>)
    ensures r.Some? ==> OccursAt(s, sub, r.value)
    ensures r.Some? ==> forall j | 0 <= j < r.value :: !OccursAt(s, sub, j)
    ensures r.None? <==> !Contains(s, sub)
    decreases |s|
  {
    if |s| < |sub| then None
    else if sub <= s then Some(0)
    else
      match Index(s[1..], sub)
      case None =>
        assert forall j | 1 <= j <= |s| - |sub| :: !OccursAt(s, sub, j) by {
          forall j | 1 <= j <= |s| - |sub| ensures !OccursAt(s, sub, j) {
            OccursAtShift(s, sub, 1, j - 1);
          }
        }
        None
      case Some(k) =>
        OccursAtShift(s, sub, 1, k);
        assert forall j | 1 <= j < k + 1 :: !OccursAt(s, sub, j) by {
          forall j | 1 <= j < k + 1 ensures !OccursAt(s, sub, j) {
            OccursAtShift(s, sub, 1, j - 1);
          }
        }
        Some(k + 1)
  }

  /** The first index of character `c`, as `strings.IndexByte`. */
  function IndexChar(s: string, c: char): (r: Option<nat>)
    ensures r.Some? ==> r.value < |s| && s[r.value] == c && c !in s[..r.value]
    ensures r.None? <==> c !in s
    decreases |s|
  {
    if s == [] then None
    else if s[0] == c then Some(0)
    else
      match IndexChar(s[1..], c)
      case None => None
      case Some(k) =>
        assert s[..k + 1] == [s[0]] + s[1..][..k];
        Some(k + 1)
  }

  /** The last index of character `c`, as `strings.LastIndex` with a one-character pattern. */
  function LastIndexChar(s: string, c: char): (r: Option<nat>)
    ensures r.Some? ==> r.value < |s| && s[r.value] == c && c !in s[r.value + 1..]
    ensures r.None? <==> c !in s
    decreases |s|
  {
    if s == [] then None
    else if s[|s| - 1] == c then Some(|s| - 1)
    else
      match LastIndexChar(s[..|s| - 1], c)
      case None =>
        assert s == s[..|s| - 1] + [s[|s| - 1]];
        None
      case Some(k) =>
        assert s[k + 1..] == s[..|s| - 1][k + 1..] + [s[|s| - 1]];
        Some(k)
  }

  /** A position holding `c` with no `c` before it is the first index. */
  lemma {:induction false} IndexCharAt(s: string, c: char, k: nat)
    requires k < |s| && s[k] == c && c !in s[..k]
    ensures IndexChar(s, c) == Some(k)
  {
    assert forall j | 0 <= j < k :: s[..k][j] == s[j];
    var v := IndexChar(s, c).value;
    assert forall j | 0 <= j < v :: s[..v][j] == s[j];
  }

  /** A position holding `c` with no `c` after it is the last index. */
  lemma {:induction false} LastIndexCharAt(s: string, c: char, k: nat)
    requires k < |s| && s[k] == c && c !in s[k + 1..]
    ensures LastIndexChar(s, c) == Some(k)
  {
    assert forall j | k < j < |s| :: s[k + 1..][j - k - 1] == s[j];
    var v := LastIndexChar(s, c).value;
    assert forall j | v < j < |s| :: s[v + 1..][j - v - 1] == s[j];
  }

  /** `strings.Join` */
  function Join(parts: seq<string>, sep: string): string
    decreases |parts|
  {
    if |parts| == 0 then ""
    else if |parts| == 1 then parts[0]
    else parts[0] + sep + Join(parts[1..], sep)
  }

  /** Concatenation of a sequence of strings (a `Join` with an empty separator). */
  function Concat(parts: seq<string>): (r: string)
    ensures |parts| == 0 ==> r == ""
    decreases |parts|
  {
    if |parts| == 0 then "" else parts[0] + Concat(parts[1..])
  }

  lemma {:induction false} ConcatAppend(a: seq<string>, b: seq<string>)
    ensures Concat(a + b) == Concat(a) + Concat(b)
    decreases |a|
  {
    if |a| == 0 {
      assert a + b == b;
    } else {
      assert (a + b)[1..] == a[1..] + b;
      ConcatAppend(a[1..], b);
    }
  }

  /** `strings.Split` with a non-empty separator: the pieces between the
      successive leftmost non-overlapping occurrences of `sep`. */
  function Split(s: string, sep: string): (parts: seq<string>)
    requires |sep| > 0
    ensures |parts| >= 1
    ensures |parts| == 1 <==> !Contains(s, sep)
    decreases |s|
  {
    match Index(s, sep)
    case None => [s]
    case Some(i) => [s[..i]] + Split(s[i + |sep|..], sep)
  }

  lemma {:induction false} JoinCons(x: string, ws: seq<string>, sep: string)
    requires |ws| >= 1
    ensures Join([x] + ws, sep) == x + sep + Join(ws, sep)
  {
    assert ([x] + ws)[1..] == ws;
  }

  /** The pieces of `Split` join back to the input, and none of them holds
      the separator. */
  lemma {:induction false} SplitJoin(s: string, sep: string)
    requires |sep| > 0
    ensures Join(Split(s, sep), sep) == s
    ensures forall piece | piece in Split(s, sep) :: !Contains(piece, sep)
    decreases |s|
  {
    match Index(s, sep)
    case None =>
    case Some(i) =>
      SplitStep(s, sep, i);
      var rest := Split(s[i + |sep|..], sep);
      SplitJoin(s[i + |sep|..], sep);
      JoinCons(s[..i], rest, sep);
      assert forall piece :: piece in [s[..i]] + rest <==> piece == s[..i] || piece in rest;
  }

  lemma {:induction false} SplitStep(s: string, sep: string, i: nat)
    requires |sep| > 0 && Index(s, sep) == Some(i)
    ensures i + |sep| <= |s|
    ensures !Contains(s[..i], sep)
    ensures s == s[..i] + sep + s[i + |sep|..]
  {
    assert OccursAt(s, sep, i);
    assert s == s[..i] + sep + s[i + |sep|..] by {
      assert s[i..i + |sep|] == sep;
      assert s == s[..i] + s[i..i + |sep|] + s[i + |sep|..];
    }
    assert !Contains(s[..i], sep) by {
      forall j | 0 <= j <= i - |sep| ensures !OccursAt(s[..i], sep, j) {
        OccursAtPrefix(s, sep, i, j);
      }
    }
  }

  /** When the first occurrence of `sep` is right after `a`, splitting
      peels `a` off as the first piece. */
  lemma {:induction false} SplitFirst(a: string, sep: string, b: string)
    requires |sep| > 0
    requires sep[0] !in a
    ensures Split(a + sep + b, sep) == [a] + Split(b, sep)
  {
    var s := a + sep + b;
    assert OccursAt(s, sep, |a|) by {
      assert s[|a|..|a| + |sep|] == sep;
    }
    forall j | 0 <= j < |a| ensures !OccursAt(s, sep, j) {
      assert s[j] == a[j];
    }
    assert Index(s, sep) == Some(|a|);
    assert s[..|a|] == a;
    assert s[|a| + |sep|..] == b;
  }

  /** Splitting on a character leaves it in no piece, and a string that does
      not start with it has a non-empty first piece. */
  lemma {:induction false} SplitPiecesOfChar(s: string, c: char)
    requires s == [] || s[0] != c
    ensures var parts := Split(s, [c]);
      && (forall i | 0 <= i < |parts| :: c !in parts[i])
      && (|parts| >= 2 ==> parts[0] != "")
  {
    var parts := Split(s, [c]);
    SplitJoin(s, [c]);
    forall i | 0 <= i < |parts| ensures c !in parts[i] {
      ContainsChar(parts[i], c);
    }
    if |parts| >= 2 {
      assert s == parts[0] + [c] + Join(parts[1..], [c]);
      assert s[|parts[0]|] == c;
    }
  }

  /** A string without the separator's first character is a single piece. */
  lemma {:induction false} SplitNone(s: string, sep: string)
    requires |sep| > 0
    requires sep[0] !in s
    ensures Split(s, sep) == [s]
  {
    forall i | 0 <= i <= |s| - |sep| ensures !OccursAt(s, sep, i) {
      assert s[i..i + |sep|][0] == s[i];
    }
  }

  lemma {:induction false} JoinFirst(ws: seq<string>, sep: string)
    requires |ws| >= 1 && ws[0] != ""
    ensures Join(ws, sep) != "" && Join(ws, sep)[0] == ws[0][0]
  {
  }

  lemma {:induction false} JoinLast(ws: seq<string>, sep: string)
    requires |ws| >= 1 && ws[|ws| - 1] != ""
    ensures var j := Join(ws, sep); j != "" && j[|j| - 1] == ws[|ws| - 1][|ws[|ws| - 1]| - 1]
    decreases |ws|
  {
    if |ws| > 1 {
      JoinLast(ws[1..], sep);
    }
  }

  /** Splitting on a character that none of the pieces contains undoes `Join`. */
  lemma {:induction false} SplitOfJoin(ws: seq<string>, c: char)
    requires |ws| >= 1
    requires forall i | 0 <= i < |ws| :: c !in ws[i]
    ensures Split(Join(ws, [c]), [c]) == ws
    decreases |ws|
  {
    if |ws| == 1 {
      SplitNone(ws[0], [c]);
    } else {
      SplitFirst(ws[0], [c], Join(ws[1..], [c]));
      SplitOfJoin(ws[1..], c);
      assert ws == [ws[0]] + ws[1..];
    }
  }

  /** `strings.ReplaceAll` with a non-empty pattern: leftmost, non-overlapping. */
  function ReplaceAll(s: string, pattern: string, replacement: string): (r: string)
    requires |pattern| > 0
    decreases |s|
  {
    if s == [] then []
    else if pattern <= s then replacement + ReplaceAll(s[|pattern|..], pattern, replacement)
    else [s[0]] + ReplaceAll(s[1..], pattern, replacement)
  }

  /** The number of leading non-space characters. */
  function RunLength(s: string): (n: nat)
    ensures n <= |s|
    ensures forall i | 0 <= i < n :: !IsSpace(s[i])
    ensures n == |s| || IsSpace(s[n])
    decreases |s|
  {
    if s == [] || IsSpace(s[0]) then 0 else 1 + RunLength(s[1..])
  }

  /** `strings.Fields`: the maximal runs of non-space characters. */
  function Fields(s: string): (r: seq<string>)
    ensures forall i | 0 <= i < |r| :: r[i] != [] && NoSpace(r[i])
    decreases |s|
  {
    if s == [] then []
    else if IsSpace(s[0]) then Fields(s[1..])
    else
      var n := RunLength(s);
      [s[..n]] + Fields(s[n..])
  }

  lemma {:induction false} RunLengthWord(w: string, rest: string)
    requires NoSpace(w)
    requires rest == [] || IsSpace(rest[0])
    ensures RunLength(w + rest) == |w|
    decreases |w|
  {
    if w != [] {
      assert (w + rest)[1..] == w[1..] + rest;
      RunLengthWord(w[1..], rest);
    }
  }

  /** A non-empty word followed by a space (or nothing) is the first field. */
  lemma {:induction false} FieldsWord(w: string, rest: string)
    requires w != [] && NoSpace(w)
    requires rest == [] || IsSpace(rest[0])
    ensures Fields(w + rest) == [w] + Fields(rest)
  {
    RunLengthWord(w, rest);
    assert (w + rest)[..|w|] == w;
    assert (w + rest)[|w|..] == rest;
  }

  /** Joining non-empty, space-free words with single spaces and splitting
      them again with `Fields` gives the words back. */
  lemma {:induction false} FieldsOfJoin(ws: seq<string>)
    requires forall i | 0 <= i < |ws| :: ws[i] != [] && NoSpace(ws[i])
    ensures Fields(Join(ws, " ")) == ws
    decreases |ws|
  {
    if |ws| == 0 {
    } else if |ws| == 1 {
      FieldsWord(ws[0], "");
      assert ws[0] + "" == ws[0];
    } else {
      var rest := Join(ws[1..], " ");
      FieldsWord(ws[0], " " + rest);
      assert ws[0] + " " + rest == ws[0] + (" " + rest);
      assert (" " + rest)[1..] == rest;
      FieldsOfJoin(ws[1..]);
      assert ws == [ws[0]] + ws[1..];
    }
  }

  /** `bufio.ScanLines` drops one trailing carriage return from each line. */
  function DropCR(s: string): string {
    if s != [] && s[|s| - 1] == '\r' then s[..|s| - 1] else s
  }

  /** The tokens a `bufio.Scanner` with `ScanLines` yields: the text between
      newlines, a final unterminated line if it is non-empty, and no token
      for the empty tail after a final newline. */
  function Lines(s: string): (r: seq<string>)
    ensures forall i | 0 <= i < |r| :: '\n' !in r[i]
    decreases |s|
  {
    if s == [] then []
    else
      match IndexChar(s, '\n')
      case None => [DropCR(s)]
      case Some(i) => [DropCR(s[..i])] + Lines(s[i + 1..])
  }

  /** A line as a file holds it: no newline inside and no carriage return at its end. */
  predicate PlainLine(l: string) {
    '\n' !in l && (l == [] || l[|l| - 1] != '\r')
  }

  /** Each line followed by a newline. */
  function Terminated(ls: seq<string>): string
    decreases |ls|
  {
    if |ls| == 0 then "" else ls[0] + "\n" + Terminated(ls[1..])
  }

  /** A plain line followed by a newline is scanned as one token. */
  lemma {:induction false} LinesOfTerminatedLine(l: string, rest: string)
    requires PlainLine(l)
    ensures Lines(l + "\n" + rest) == [l] + Lines(rest)
  {
    var s := l + "\n" + rest;
    assert s[..|l|] == l;
    IndexCharAt(s, '\n', |l|);
    assert s[|l| + 1..] == rest;
  }

  /** Scanning newline-terminated plain lines returns exactly those lines. */
  lemma {:induction false} LinesOfTerminated(ls: seq<string>)
    requires forall i | 0 <= i < |ls| :: PlainLine(ls[i])
    ensures Lines(Terminated(ls)) == ls
    decreases |ls|
  {
    if |ls| > 0 {
      LinesOfTerminatedLine(ls[0], Terminated(ls[1..]));
      LinesOfTerminated(ls[1..]);
      assert ls == [ls[0]] + ls[1..];
    }
  }

  lemma {:induction false} LinesOfTwo(a: string, b: string)
    requires PlainLine(a) && PlainLine(b)
    ensures Lines(Terminated([a, b])) == [a, b]
  {
    LinesOfTerminated([a, b]);
  }

  /** A non-empty plain line without a newline is a single token. */
  lemma {:induction false} LinesOfSingle(l: string)
    requires l != [] && PlainLine(l)
    ensures Lines(l) == [l]
  {
  }
}
