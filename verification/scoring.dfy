/** The commit risk rating: `GetRiskRating`, `scoreRiskVector`, `assignWeight`
    and `calculateRiskScore` (util/commit.go, repeated verbatim in
    util/commit-authors.go). CVSS vector parsing and the natural logarithm are
    parameters; float64 arithmetic is exact `real` arithmetic here. */
module Scoring {
  import opened Wrappers
  import opened GoStrings
  import opened Seqs

  /** config.RiskScoreConstant */
  const RiskScoreConstant: real := 0.36
  /** config.HighRiskThreshold */
  const HighRiskThreshold: real := 7.0

  // ---------------------------------------------------------------------
  // scoreRiskVector

  datatype CvssVersion = V40 | V20 | V30 | V31

  /** The version string `scoreRiskVector` reports. */
  function VersionLabel(v: CvssVersion): string {
    match v
    case V40 => "4.0"
    case V20 => "2.0"
    case V30 => "3.0"
    case V31 => "3.1"
  }

  /** The `switch` of `scoreRiskVector`: the first matching prefix among
      `CVSS:4.0/`, `CVSS:2.0/`, `CVSS:3.0/`; everything else, garbage
      included, goes to the 3.1 parser. */
  function SelectParser(vec: string): (v: CvssVersion)
    ensures v == V40 <==> HasPrefix(vec, "CVSS:4.0/")
    ensures v == V20 <==> HasPrefix(vec, "CVSS:2.0/")
    ensures v == V30 <==> HasPrefix(vec, "CVSS:3.0/")
  {
    assert HasPrefix(vec, "CVSS:4.0/") ==> vec[5] == '4';
    assert HasPrefix(vec, "CVSS:2.0/") ==> vec[5] == '2';
    assert HasPrefix(vec, "CVSS:3.0/") ==> vec[5] == '3';
    if HasPrefix(vec, "CVSS:4.0/") then V40
    else if HasPrefix(vec, "CVSS:2.0/") then V20
    else if HasPrefix(vec, "CVSS:3.0/") then V30
    else V31
  }

  /** A vector labelled with a version is sent to that version's parser. */
  lemma {:induction false} SelectParserOfLabel(v: CvssVersion, rest: string)
    ensures SelectParser("CVSS:" + VersionLabel(v) + "/" + rest) == v
  {
    var head := "CVSS:" + VersionLabel(v) + "/";
    var vec := head + rest;
    assert |head| == 9 && vec[..9] == head;
    assert vec[5] == VersionLabel(v)[0] && vec[7] == VersionLabel(v)[2];
    match v
    case V40 => assert head == "CVSS:4.0/";
    case V20 => assert head == "CVSS:2.0/";
    case V30 => assert head == "CVSS:3.0/";
    case V31 =>
  }

  /** The outcome of `scoreRiskVector`: the version it reports, and the score
      unless the parser failed. */
  datatype VectorScore = VectorScore(version: CvssVersion, score: Option<real>)

  /** `scoreRiskVector`; `parse(v, vec)` stands for the go-cvss parser of
      version `v` followed by its base score. */
  function ScoreRiskVector(vec: string, parse: (CvssVersion, string) -> Option<real>): (r: VectorScore)
    ensures r.version == SelectParser(vec)
    ensures r.score.Some? ==> parse(SelectParser(vec), vec) == r.score
    ensures r.score.None? <==> parse(SelectParser(vec), vec).None?
  {
    var v := SelectParser(vec);
    VectorScore(v, parse(v, vec))
  }

  // ---------------------------------------------------------------------
  // assignWeight and calculateRiskScore

  /** `assignWeight`: the severity band weight. */
  function AssignWeight(score: real): (w: real)
    ensures w == 1.5 || w == 1.2 || w == 1.0 || w == 0.8
    ensures w == 1.5 <==> score >= 9.0
    ensures w == 1.2 <==> 7.0 <= score < 9.0
    ensures w == 1.0 <==> 4.0 <= score < 7.0
    ensures w == 0.8 <==> score < 4.0
  {
    if score >= 9.0 then 1.5
    else if score >= 7.0 then 1.2
    else if score >= 4.0 then 1.0
    else 0.8
  }

  /** A higher score never gets a lower weight. */
  lemma {:induction false} AssignWeightMonotone(a: real, b: real)
    requires a <= b
    ensures AssignWeight(a) <= AssignWeight(b)
  {
  }

  function WeightedSum(scores: seq<real>): real
    decreases |scores|
  {
    if |scores| == 0 then 0.0 else scores[0] * AssignWeight(scores[0]) + WeightedSum(scores[1..])
  }

  function TotalWeight(scores: seq<real>): (t: real)
    ensures t >= 0.8 * (|scores| as real)
    decreases |scores|
  {
    if |scores| == 0 then 0.0 else AssignWeight(scores[0]) + TotalWeight(scores[1..])
  }

  /** `HR`: the scores at or above the threshold. */
  function HighRiskCount(scores: seq<real>, threshold: real): (n: nat)
    ensures n <= |scores|
    ensures n == |scores| <==> forall i | 0 <= i < |scores| :: scores[i] >= threshold
    ensures n == 0 <==> forall i | 0 <= i < |scores| :: scores[i] < threshold
    decreases |scores|
  {
    if |scores| == 0 then 0
    else
      assert forall i | 1 <= i < |scores| :: scores[1..][i - 1] == scores[i];
      (if scores[0] >= threshold then 1 else 0) + HighRiskCount(scores[1..], threshold)
  }

  /** `WAvg` */
  function WeightedAverage(scores: seq<real>): real
    requires |scores| > 0
  {
    WeightedSum(scores) / TotalWeight(scores)
  }

  /** `1 + c*(N-1)*(HR/N)` */
  function BonusMultiplier(n: nat, hr: nat, c: real): real
    requires n > 0
  {
    1.0 + c * ((n - 1) as real) * ((hr as real) / (n as real))
  }

  /** `calculateRiskScore`, with `ln` for `math.Log`. */
  function CalculateRiskScore(scores: seq<real>, c: real, threshold: real, ln: real -> real): (r: real)
    ensures |scores| == 0 ==> r == 0.0
  {
    if |scores| == 0 then 0.0
    else
      var n := |scores|;
      RiskProduct(WeightedAverage(scores), ln(1.0 + n as real), BonusMultiplier(n, HighRiskCount(scores, threshold), c))
  }

  /** `WAvg * ln(1+N) * bonus` */
  function RiskProduct(wavg: real, logFactor: real, bonus: real): real {
    wavg * logFactor * bonus
  }

  /** With `0 <= HR <= N` and `c >= 0` the bonus lies between 1 and
      `1 + c*(N-1)`; it is 1 when there is one score or no high-risk one,
      and reaches the top when every score is high-risk. */
  lemma {:induction false} BonusMultiplierBounds(n: nat, hr: nat, c: real)
    requires 0 < n && hr <= n && c >= 0.0
    ensures 1.0 <= BonusMultiplier(n, hr, c) <= 1.0 + c * ((n - 1) as real)
    ensures n == 1 || hr == 0 ==> BonusMultiplier(n, hr, c) == 1.0
    ensures hr == n ==> BonusMultiplier(n, hr, c) == 1.0 + c * ((n - 1) as real)
  {
    var k := c * ((n - 1) as real);
    var f := (hr as real) / (n as real);
    assert BonusMultiplier(n, hr, c) == 1.0 + k * f;
    assert k >= 0.0;
    assert 0.0 <= f <= 1.0;
    MulBetween(k, f);
    if n == 1 {
      assert k == 0.0;
    }
    if hr == 0 {
      assert f == 0.0;
    }
    if hr == n {
      assert f == 1.0;
    }
  }

  lemma {:induction false} MulBetween(k: real, f: real)
    requires k >= 0.0 && 0.0 <= f <= 1.0
    ensures 0.0 <= k * f <= k
  {
  }

  /** `x <= y` and `0 <= z` give `x*z <= y*z`. */
  lemma {:induction false} MulLe(x: real, y: real, z: real)
    requires x <= y && z >= 0.0
    ensures x * z <= y * z
  {
  }

  /** `x` lies between `lo * t` and `hi * t`. */
  predicate ProportionalBounds(lo: real, hi: real, x: real, t: real) {
    lo * t <= x <= hi * t
  }

  /** Bounds on every score bound the weighted sum in proportion to the weights. */
  lemma {:induction false} WeightedSumBetween(scores: seq<real>, lo: real, hi: real)
    requires forall i | 0 <= i < |scores| :: lo <= scores[i] <= hi
    ensures ProportionalBounds(lo, hi, WeightedSum(scores), TotalWeight(scores))
    decreases |scores|
  {
    if |scores| > 0 {
      var rest := scores[1..];
      assert forall i | 0 <= i < |rest| :: rest[i] == scores[i + 1];
      WeightedSumBetween(rest, lo, hi);
      var w, ws, tw := AssignWeight(scores[0]), WeightedSum(rest), TotalWeight(rest);
      WeightedStep(lo, hi, scores[0], w, ws, tw);
      assert TotalWeight(scores) == w + tw;
      assert WeightedSum(scores) == scores[0] * w + ws;
    } else {
      assert TotalWeight(scores) == 0.0 && WeightedSum(scores) == 0.0;
      assert lo * 0.0 == 0.0 && hi * 0.0 == 0.0;
    }
  }

  /** One more score `s` of weight `w` keeps the weighted sum within bounds. */
  lemma {:induction false} WeightedStep(lo: real, hi: real, s: real, w: real, ws: real, tw: real)
    requires lo <= s <= hi && w >= 0.0 && ProportionalBounds(lo, hi, ws, tw)
    ensures ProportionalBounds(lo, hi, s * w + ws, w + tw)
  {
    MulLe(lo, s, w);
    MulLe(s, hi, w);
    assert lo * (w + tw) == lo * w + lo * tw;
    assert hi * (w + tw) == hi * w + hi * tw;
  }

  /** The weighted average stays within the range of the scores. */
  lemma {:induction false} WeightedAverageBetween(scores: seq<real>, lo: real, hi: real)
    requires |scores| > 0
    requires forall i | 0 <= i < |scores| :: lo <= scores[i] <= hi
    ensures lo <= WeightedAverage(scores) <= hi
  {
    WeightedSumBetween(scores, lo, hi);
    var t := TotalWeight(scores);
    assert t > 0.0;
    DivBetween(WeightedSum(scores), t, lo, hi);
  }

  lemma {:induction false} DivBetween(x: real, t: real, lo: real, hi: real)
    requires t > 0.0 && lo * t <= x <= hi * t
    ensures lo <= x / t <= hi
  {
    var q := x / t;
    assert q * t == x;
    MulCancel(lo, q, t);
    MulCancel(q, hi, t);
  }

  /** `a*t <= b*t` with `t > 0` gives `a <= b`. */
  lemma {:induction false} MulCancel(a: real, b: real, t: real)
    requires t > 0.0 && a * t <= b * t
    ensures a <= b
  {
    assert (b - a) * t >= 0.0;
  }

  /** A single score `s` rates `s * ln 2`. */
  lemma {:induction false} RiskScoreSingle(s: real, c: real, threshold: real, ln: real -> real)
    ensures CalculateRiskScore([s], c, threshold, ln) == s * ln(2.0)
  {
    assert [s][1..] == [];
    var w := AssignWeight(s);
    assert WeightedSum([s]) == s * w;
    assert TotalWeight([s]) == w;
    assert WeightedAverage([s]) == s;
    assert BonusMultiplier(1, HighRiskCount([s], threshold), c) == 1.0;
  }

  /** With every score in `[lo, hi]`, `0 <= lo`, `c >= 0` and a non-negative
      logarithm, the risk score lies between `lo * ln(1+N)` and
      `hi * ln(1+N) * (1 + c*(N-1))`. */
  lemma {:induction false} RiskScoreBetween(scores: seq<real>, lo: real, hi: real, c: real, threshold: real, ln: real -> real)
    requires |scores| > 0 && 0.0 <= lo && c >= 0.0
    requires forall i | 0 <= i < |scores| :: lo <= scores[i] <= hi
    requires ln(1.0 + |scores| as real) >= 0.0
    ensures ScaledWithin(CalculateRiskScore(scores, c, threshold, ln), lo, hi,
                         ln(1.0 + |scores| as real), 1.0 + c * ((|scores| - 1) as real))
  {
    var x := CalculateRiskScore(scores, c, threshold, ln);
    var hr := HighRiskCount(scores, threshold);
    RiskFactorBounds(scores, lo, hi, c, hr);
    RiskScoreIsProduct(scores, c, threshold, ln);
    ProductBounds(x, WeightedAverage(scores), ln(1.0 + |scores| as real), BonusMultiplier(|scores|, hr, c),
                  lo, hi, 1.0 + c * ((|scores| - 1) as real));
  }

  /** The average and the bonus lie within their bounds. */
  lemma {:induction false} RiskFactorBounds(scores: seq<real>, lo: real, hi: real, c: real, hr: nat)
    requires |scores| > 0 && 0.0 <= lo && c >= 0.0 && hr <= |scores|
    requires forall i | 0 <= i < |scores| :: lo <= scores[i] <= hi
    ensures 0.0 <= lo <= WeightedAverage(scores) <= hi
    ensures 1.0 <= BonusMultiplier(|scores|, hr, c) <= 1.0 + c * ((|scores| - 1) as real)
  {
    WeightedAverageBetween(scores, lo, hi);
    BonusMultiplierBounds(|scores|, hr, c);
  }

  lemma {:induction false} RiskScoreIsProduct(scores: seq<real>, c: real, threshold: real, ln: real -> real)
    requires |scores| > 0
    ensures CalculateRiskScore(scores, c, threshold, ln)
      == RiskProduct(WeightedAverage(scores), ln(1.0 + |scores| as real),
                     BonusMultiplier(|scores|, HighRiskCount(scores, threshold), c))
  {
  }

  /** `lo * l <= x <= hi * l * bmax` */
  predicate ScaledWithin(x: real, lo: real, hi: real, l: real, bmax: real) {
    lo * l <= x <= hi * l * bmax
  }

  lemma {:induction false} ProductBounds(x: real, a: real, l: real, b: real, lo: real, hi: real, bmax: real)
    requires x == RiskProduct(a, l, b)
    requires 0.0 <= lo <= a <= hi && l >= 0.0 && 1.0 <= b <= bmax
    ensures ScaledWithin(x, lo, hi, l, bmax)
  {
    var al, hl := a * l, hi * l;
    assert x == al * b;
    MulLe(lo, a, l);
    MulLe(a, hi, l);
    MulLe(0.0, a, l);
    assert 0.0 <= al;
    MulLe(1.0, b, al);
    assert al <= b * al;
    MulComm(b, al);
    assert lo * l <= x;
    MulLe(al, hl, b);
    MulLe(b, bmax, hl);
    MulComm(hl, b);
    MulComm(bmax, hl);
    assert x <= hl * bmax;
  }

  lemma {:induction false} MulComm(x: real, y: real)
    ensures x * y == y * x
  {
  }

  // ---------------------------------------------------------------------
  // GetRiskRating

  /** The split of the collated string: a space before every `CVSS:`, then
      `strings.Fields` of the trimmed result. */
  function Tokenize(collated: string): seq<string> {
    Fields(TrimSpace(ReplaceAll(collated, "CVSS:", " CVSS:")))
  }

  /** The scores of the tokens whose parser succeeds, in order. */
  function ParsedScores(tokens: seq<string>, parse: (CvssVersion, string) -> Option<real>): (scores: seq<real>)
    ensures |scores| <= |tokens|
    decreases |tokens|
  {
    if |tokens| == 0 then []
    else
      match ScoreRiskVector(tokens[0], parse).score
      case Some(s) => [s] + ParsedScores(tokens[1..], parse)
      case None => ParsedScores(tokens[1..], parse)
  }

  /** The score of one token, as `GetRiskRating`'s loop sees it. */
  function TokenScore(parse: (CvssVersion, string) -> Option<real>): string -> Option<real> {
    t => ScoreRiskVector(t, parse).score
  }

  /** The loop keeps the score of every token that parses, in token order,
      and drops the others. */
  lemma {:induction false} ParsedScoresKeepsParsed(tokens: seq<string>, parse: (CvssVersion, string) -> Option<real>)
    ensures ParsedScores(tokens, parse) == FilterMap(TokenScore(parse), tokens)
    decreases |tokens|
  {
    if |tokens| > 0 {
      ParsedScoresKeepsParsed(tokens[1..], parse);
    }
  }

  /** `GetRiskRating` before formatting: `NoData` is the `"0"` an empty
      collation yields, `Rated(x)` is `x` printed with two decimals. */
  datatype Rating = NoData | Rated(value: real)

  function GetRiskRating(collated: string, parse: (CvssVersion, string) -> Option<real>, ln: real -> real): (r: Rating)
    ensures r == NoData <==> collated == ""
  {
    if collated == "" then NoData
    else Rated(CalculateRiskScore(ParsedScores(Tokenize(collated), parse), RiskScoreConstant, HighRiskThreshold, ln))
  }

  /** A non-empty collation in which no vector parses rates 0, which prints
      as `"0.00"`, not as the `"0"` of an empty one. */
  lemma {:induction false} RatingWhenNothingParses(collated: string, parse: (CvssVersion, string) -> Option<real>, ln: real -> real)
    requires collated != ""
    requires forall t | t in Tokenize(collated) :: ScoreRiskVector(t, parse).score.None?
    ensures GetRiskRating(collated, parse, ln) == Rated(0.0)
  {
    NoneParsed(Tokenize(collated), parse);
  }

  lemma {:induction false} NoneParsed(tokens: seq<string>, parse: (CvssVersion, string) -> Option<real>)
    requires forall t | t in tokens :: ScoreRiskVector(t, parse).score.None?
    ensures ParsedScores(tokens, parse) == []
    decreases |tokens|
  {
    if |tokens| > 0 {
      assert tokens[0] in tokens;
      assert forall t | t in tokens[1..] :: t in tokens;
      NoneParsed(tokens[1..], parse);
    }
  }

  /** A vector as OSV reports one: it starts with `CVSS:`, has no white
      space, and `CVSS:` occurs nowhere else in it. */
  predicate Collatable(v: string) {
    && HasPrefix(v, "CVSS:")
    && NoSpace(v)
    && forall i | 0 < i <= |v| :: !OccursAt(v, "CVSS:", i)
  }

  /** Concatenating collatable vectors without a separator and tokenising the
      result gives back exactly those vectors, in order. */
  lemma {:induction false} TokenizeOfConcat(vs: seq<string>)
    requires forall i | 0 <= i < |vs| :: Collatable(vs[i])
    ensures Tokenize(Concat(vs)) == vs
  {
    if |vs| > 0 {
      var j := Join(vs, " ");
      assert ReplaceAll(Concat(vs), "CVSS:", " CVSS:") == " " + j by {
        ReplaceCollated(vs);
      }
      assert TrimSpace(" " + j) == j by {
        JoinStart(vs);
        JoinEnd(vs);
        TrimLeadingSpace(j);
      }
      assert Fields(j) == vs by {
        forall i | 0 <= i < |vs| ensures vs[i] != [] && NoSpace(vs[i]) {
        }
        FieldsOfJoin(vs);
      }
    }
  }

  lemma {:induction false} TrimLeadingSpace(j: string)
    requires j != [] && !IsSpace(j[0]) && !IsSpace(j[|j| - 1])
    ensures TrimSpace(" " + j) == j
  {
    assert (" " + j)[1..] == j;
    assert TrimLeftBy(" " + j, IsSpace) == j;
  }

  lemma {:induction false} JoinStart(vs: seq<string>)
    requires |vs| > 0 && vs[0] != []
    ensures Join(vs, " ") != [] && Join(vs, " ")[0] == vs[0][0]
  {
    JoinFirst(vs, " ");
  }

  lemma {:induction false} JoinEnd(vs: seq<string>)
    requires |vs| > 0 && vs[|vs| - 1] != []
    ensures var j := Join(vs, " "); j != [] && j[|j| - 1] == vs[|vs| - 1][|vs[|vs| - 1]| - 1]
  {
    JoinLast(vs, " ");
  }

  /** Inserting the spaces turns the concatenation into a space-led,
      space-separated list. */
  lemma {:induction false} ReplaceCollated(vs: seq<string>)
    requires |vs| > 0
    requires forall i | 0 <= i < |vs| :: Collatable(vs[i])
    ensures ReplaceAll(Concat(vs), "CVSS:", " CVSS:") == " " + Join(vs, " ")
    decreases |vs|
  {
    if |vs| == 1 {
      ReplaceCollatedSingle(vs);
    } else {
      assert forall i | 0 <= i < |vs| - 1 :: vs[1..][i] == vs[i + 1];
      ReplaceCollated(vs[1..]);
      ReplaceCollatedStep(vs);
    }
  }

  lemma {:induction false} ReplaceCollatedSingle(vs: seq<string>)
    requires |vs| == 1 && Collatable(vs[0])
    ensures ReplaceAll(Concat(vs), "CVSS:", " CVSS:") == " " + Join(vs, " ")
  {
    var v := vs[0];
    assert Concat(vs) == v + [] by {
      assert vs[1..] == [];
    }
    ReplaceHead(v, []);
    assert ReplaceAll([], "CVSS:", " CVSS:") == [];
    assert v == "CVSS:" + v[5..];
  }

  /** One more collatable vector in front of a list already handled. */
  lemma {:induction false} ReplaceCollatedStep(vs: seq<string>)
    requires |vs| > 1 && Collatable(vs[0]) && Collatable(vs[1])
    requires ReplaceAll(Concat(vs[1..]), "CVSS:", " CVSS:") == " " + Join(vs[1..], " ")
    ensures ReplaceAll(Concat(vs), "CVSS:", " CVSS:") == " " + Join(vs, " ")
  {
    var v, rest, j := vs[0], Concat(vs[1..]), Join(vs[1..], " ");
    assert Concat(vs) == v + rest;
    assert Join(vs, " ") == v + " " + j;
    assert HasPrefix(rest, "CVSS:") by {
      ConcatStartsWithFirst(vs[1..]);
    }
    ReplaceHead(v, rest);
    SpaceBeforeHead(v, j);
  }

  lemma {:induction false} SpaceBeforeHead(v: string, j: string)
    requires HasPrefix(v, "CVSS:")
    ensures " CVSS:" + (v[5..] + (" " + j)) == " " + (v + " " + j)
  {
    assert v == "CVSS:" + v[5..];
  }

  /** One collatable vector in front: its `CVSS:` gets the space, its body is copied. */
  lemma {:induction false} ReplaceHead(v: string, rest: string)
    requires Collatable(v)
    requires rest == [] || HasPrefix(rest, "CVSS:")
    ensures ReplaceAll(v + rest, "CVSS:", " CVSS:") == " CVSS:" + (v[5..] + ReplaceAll(rest, "CVSS:", " CVSS:"))
  {
    var w := v[5..];
    assert v + rest == "CVSS:" + (w + rest);
    assert (v + rest)[5..] == w + rest;
    NoPatternInTail(v, rest);
    ReplaceSkipsWord(w, rest);
  }

  lemma {:induction false} ConcatStartsWithFirst(vs: seq<string>)
    requires |vs| > 0
    ensures HasPrefix(Concat(vs), vs[0])
  {
  }

  /** No `CVSS:` starts inside the body of a collatable vector, even when the
      next vector follows: the pattern has no proper suffix that is also its
      prefix. */
  lemma {:induction false} NoPatternInTail(v: string, rest: string)
    requires Collatable(v)
    requires rest == [] || HasPrefix(rest, "CVSS:")
    ensures forall i | 0 <= i < |v| - 5 :: !HasPrefix((v[5..] + rest)[i..], "CVSS:")
  {
    var w := v[5..];
    forall i | 0 <= i < |w| ensures !HasPrefix((w + rest)[i..], "CVSS:") {
      if i + 5 <= |w| {
        assert !OccursAt(v, "CVSS:", i + 5);
        assert v[i + 5..i + 10] == (w + rest)[i..][..5];
      } else if rest == [] {
        assert |(w + rest)[i..]| < 5;
      } else {
        var k := |w| - i;
        assert (w + rest)[i..][k] == rest[0] == 'C';
        assert "CVSS:"[k] != 'C';
      }
    }
  }

  /** Text in which no `CVSS:` starts is copied unchanged. */
  lemma {:induction false} ReplaceSkipsWord(x: string, rest: string)
    requires forall i | 0 <= i < |x| :: !HasPrefix((x + rest)[i..], "CVSS:")
    ensures ReplaceAll(x + rest, "CVSS:", " CVSS:") == x + ReplaceAll(rest, "CVSS:", " CVSS:")
    decreases |x|
  {
    if |x| > 0 {
      SkipTail(x, rest);
      ReplaceSkipsWord(x[1..], rest);
      assert !HasPrefix(x + rest, "CVSS:") by {
        assert (x + rest)[0..] == x + rest;
      }
      ReplaceSkipsOne(x, rest);
      assert x == [x[0]] + x[1..];
    } else {
      assert x + rest == rest;
    }
  }

  lemma {:induction false} SkipTail(x: string, rest: string)
    requires |x| > 0
    requires forall i | 0 <= i < |x| :: !HasPrefix((x + rest)[i..], "CVSS:")
    ensures forall i | 0 <= i < |x| - 1 :: !HasPrefix((x[1..] + rest)[i..], "CVSS:")
  {
    forall i | 0 <= i < |x| - 1 ensures !HasPrefix((x[1..] + rest)[i..], "CVSS:") {
      assert (x[1..] + rest)[i..] == (x + rest)[i + 1..];
    }
  }

  lemma {:induction false} ReplaceSkipsOne(x: string, rest: string)
    requires |x| > 0 && !HasPrefix(x + rest, "CVSS:")
    ensures ReplaceAll(x + rest, "CVSS:", " CVSS:") == [x[0]] + ReplaceAll(x[1..] + rest, "CVSS:", " CVSS:")
  {
    assert (x + rest)[1..] == x[1..] + rest;
  }

  /** The rating of collated vectors is the risk score of the scores their
      parsers give, in collation order. */
  lemma {:induction false} RatingOfCollated(vs: seq<string>, parse: (CvssVersion, string) -> Option<real>, ln: real -> real)
    requires |vs| > 0
    requires forall i | 0 <= i < |vs| :: Collatable(vs[i])
    ensures GetRiskRating(Concat(vs), parse, ln)
         == Rated(CalculateRiskScore(ParsedScores(vs, parse), RiskScoreConstant, HighRiskThreshold, ln))
  {
    TokenizeOfConcat(vs);
    assert HasPrefix(Concat(vs), vs[0]) by {
      ConcatStartsWithFirst(vs);
    }
  }

  /** One well-formed vector with score `s` rates `s * ln 2`. */
  lemma {:induction false} RatingOfSingleVector(v: string, s: real, parse: (CvssVersion, string) -> Option<real>, ln: real -> real)
    requires Collatable(v) && parse(SelectParser(v), v) == Some(s)
    ensures GetRiskRating(v, parse, ln) == Rated(s * ln(2.0))
  {
    assert Concat([v]) == v;
    RatingOfCollated([v], parse, ln);
    assert ParsedScores([v], parse) == [s];
    RiskScoreSingle(s, RiskScoreConstant, HighRiskThreshold, ln);
  }
}
