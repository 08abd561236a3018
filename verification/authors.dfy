/** util/commit-authors.go: the contributor test and the fold of commit risks
    into one author's risk string. The scoring helpers that file repeats are
    the ones in `Scoring`. */
module Authors {
  import opened Types

  // ---------------------------------------------------------------------
  // CheckAuthorinRepoContributors

  /** Same ID and same name. */
  predicate SameAuthor(a: Author, b: Author) {
    a.id == b.id && a.name == b.name
  }

  /** The loop of `CheckAuthorinRepoContributors` over the contributor list
      `GetAuthorsByRepo` returned. Comparing both fields is comparing the
      whole record, so this is a membership test. */
  method CheckAuthorInContributors(contributors: seq<Author>, author: Author) returns (found: bool)
    ensures found <==> exists k | 0 <= k < |contributors| :: SameAuthor(author, contributors[k])
    ensures found <==> author in contributors
  {
    for i := 0 to |contributors|
      invariant forall k | 0 <= k < i :: !SameAuthor(author, contributors[k])
    {
      if author.id == contributors[i].id && author.name == contributors[i].name {
        return true;
      }
    }
    return false;
  }

  // ---------------------------------------------------------------------
  // EvaluateRiskByAuthor

  /** Each commit risk's score followed by `;`, in order. */
  function Tagged(risks: seq<CommitRisk>): string
    decreases |risks|
  {
    if |risks| == 0 then "" else risks[0].score + ";" + Tagged(risks[1..])
  }

  /** The commit risks whose commit `author` made (Go struct equality). */
  function ByAuthor(author: Author, risks: seq<CommitRisk>): (r: seq<CommitRisk>)
    ensures forall cr :: cr in r <==> cr in risks && cr.commit.author == author
    decreases |risks|
  {
    if |risks| == 0 then []
    else (if risks[0].commit.author == author then [risks[0]] else []) + ByAuthor(author, risks[1..])
  }

  /** The loop as written: a commit by the author appends `score;`, any other
      commit replaces everything gathered so far with `"No-Risk"`. */
  function AuthorScore(author: Author, acc: string, risks: seq<CommitRisk>): string
    decreases |risks|
  {
    if |risks| == 0 then acc
    else
      var next := if author == risks[0].commit.author then acc + risks[0].score + ";" else "No-Risk";
      AuthorScore(author, next, risks[1..])
  }

  function EvaluateRiskByAuthor(author: Author, risks: seq<CommitRisk>): (r: AuthorRisk)
    ensures r.author == author
    ensures risks == [] ==> r.score == ""
  {
    AuthorRisk(AuthorScore(author, "", risks), author)
  }

  lemma {:induction false} AuthorScoreAllMatch(author: Author, acc: string, risks: seq<CommitRisk>)
    requires forall k | 0 <= k < |risks| :: risks[k].commit.author == author
    ensures AuthorScore(author, acc, risks) == acc + Tagged(risks)
    decreases |risks|
  {
    if |risks| > 0 {
      var tail := risks[1..];
      assert forall k | 0 <= k < |tail| :: tail[k] == risks[k + 1];
      AuthorScoreAllMatch(author, acc + risks[0].score + ";", tail);
    }
  }

  /** When every commit is the author's, the result lists all their scores. */
  lemma {:induction false} AllByAuthor(author: Author, risks: seq<CommitRisk>)
    requires forall k | 0 <= k < |risks| :: risks[k].commit.author == author
    ensures EvaluateRiskByAuthor(author, risks).score == Tagged(risks)
  {
    AuthorScoreAllMatch(author, "", risks);
  }

  lemma {:induction false} AuthorScoreLastMismatch(author: Author, acc: string, risks: seq<CommitRisk>, k: nat)
    requires k < |risks| && risks[k].commit.author != author
    requires forall j | k < j < |risks| :: risks[j].commit.author == author
    ensures AuthorScore(author, acc, risks) == "No-Risk" + Tagged(risks[k + 1..])
    decreases |risks|
  {
    var tail := risks[1..];
    if k == 0 {
      assert forall j | 0 <= j < |tail| :: tail[j] == risks[j + 1];
      AuthorScoreAllMatch(author, "No-Risk", tail);
    } else {
      assert forall j | k - 1 < j < |tail| :: tail[j] == risks[j + 1];
      var next := if author == risks[0].commit.author then acc + risks[0].score + ";" else "No-Risk";
      AuthorScoreLastMismatch(author, next, tail, k - 1);
      assert tail[k..] == risks[k + 1..];
    }
  }

  /** After the last commit that is not the author's, only the scores of the
      author's later commits survive, behind `"No-Risk"`. */
  lemma {:induction false} LastMismatchResets(author: Author, risks: seq<CommitRisk>, k: nat)
    requires k < |risks| && risks[k].commit.author != author
    requires forall j | k < j < |risks| :: risks[j].commit.author == author
    ensures EvaluateRiskByAuthor(author, risks).score == "No-Risk" + Tagged(risks[k + 1..])
  {
    AuthorScoreLastMismatch(author, "", risks, k);
  }

  /** A list that ends with someone else's commit rates the author `"No-Risk"`,
      whatever came before. */
  lemma {:induction false} EndsWithOtherAuthor(author: Author, risks: seq<CommitRisk>)
    requires |risks| > 0 && risks[|risks| - 1].commit.author != author
    ensures EvaluateRiskByAuthor(author, risks).score == "No-Risk"
  {
    AuthorScoreLastMismatch(author, "", risks, |risks| - 1);
    assert risks[|risks|..] == [];
  }

  /** The fold with the overwrite removed: another author's commit leaves the
      gathered scores alone. */
  function AuthorScoreCorrected(author: Author, acc: string, risks: seq<CommitRisk>): string
    decreases |risks|
  {
    if |risks| == 0 then acc
    else
      var next := if author == risks[0].commit.author then acc + risks[0].score + ";" else acc;
      AuthorScoreCorrected(author, next, risks[1..])
  }

  function EvaluateRiskByAuthorCorrected(author: Author, risks: seq<CommitRisk>): (r: AuthorRisk)
    ensures r.author == author
    ensures risks == [] ==> r.score == ""
  {
    AuthorRisk(AuthorScoreCorrected(author, "", risks), author)
  }

  lemma {:induction false} AuthorScoreCorrectedSpec(author: Author, acc: string, risks: seq<CommitRisk>)
    ensures AuthorScoreCorrected(author, acc, risks) == acc + Tagged(ByAuthor(author, risks))
    decreases |risks|
  {
    if |risks| > 0 {
      var cr, tail := risks[0], risks[1..];
      if cr.commit.author == author {
        AuthorScoreCorrectedSpec(author, acc + cr.score + ";", tail);
        assert ByAuthor(author, risks) == [cr] + ByAuthor(author, tail);
        assert ([cr] + ByAuthor(author, tail))[1..] == ByAuthor(author, tail);
      } else {
        AuthorScoreCorrectedSpec(author, acc, tail);
        assert ByAuthor(author, risks) == ByAuthor(author, tail);
      }
    }
  }

  /** The corrected result lists the scores of exactly the author's commits,
      in order. */
  lemma {:induction false} CorrectedScoresAuthorsCommits(author: Author, risks: seq<CommitRisk>)
    ensures EvaluateRiskByAuthorCorrected(author, risks).score == Tagged(ByAuthor(author, risks))
  {
    AuthorScoreCorrectedSpec(author, "", risks);
  }

  /** One commit by the author followed by one by someone else: the loop as
      written discards the author's score; the corrected one keeps it. */
  lemma {:induction false} OverwriteDiscardsRisk(author: Author, mine: CommitRisk, other: CommitRisk)
    requires mine.commit.author == author && other.commit.author != author
    ensures EvaluateRiskByAuthor(author, [mine, other]).score == "No-Risk"
    ensures EvaluateRiskByAuthorCorrected(author, [mine, other]).score == mine.score + ";"
  {
    EndsWithOtherAuthor(author, [mine, other]);
    CorrectedScoresAuthorsCommits(author, [mine, other]);
    assert ByAuthor(author, [mine, other]) == [mine] by {
      assert [mine, other][1..] == [other];
      assert [other][1..] == [];
    }
    assert [mine][1..] == [];
  }
}
