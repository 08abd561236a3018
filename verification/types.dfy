/** The records of types/types.go, and a typed view of the OSV JSON the
    program walks with `map[string]interface{}` look-ups. */
module Types {
  import opened Wrappers

  datatype Repo = Repo(id: int, name: string, owner: string)

  /** A GitHub user; Go compares two of them field by field. */
  datatype Author = Author(id: int, name: string)

  datatype Commit = Commit(sha: string, date: string, author: Author, message: string)

  datatype Package = Package(name: string, version: string, ecosystem: string)

  /** `Score` first holds the collated severity vectors, later a rating. */
  datatype CommitRisk = CommitRisk(score: string, commit: Commit)

  datatype AuthorRisk = AuthorRisk(score: string, author: Author)

  datatype VulnerableCommit = VulnerableCommit(vulnerabilityId: string, commitSha: string, riskScore: string)

  /** One entry of a vulnerability's `severity` array. `score` is `None` when
      the entry is not an object or its `score` is not a string. */
  datatype Severity = Severity(score: Option<string>)

  /** One entry of a range's `events` array. `introduced` is `None` when the
      key is absent or its value is not a string (the program treats both
      alike). An entry that is not an object reads as `Event(None)`. */
  datatype Event = Event(introduced: Option<string>)

  /** One entry of an `affected[].ranges` array. `rangeType` is `None` when
      `type` is absent or not a string; an absent or non-array `events`
      reads as the empty sequence, as does a non-object entry's. */
  datatype Range = Range(rangeType: Option<string>, events: seq<Event>)

  /** One entry of a vulnerability's `affected` array; an absent or
      non-array `ranges` reads as the empty sequence. */
  datatype Affected = Affected(ranges: seq<Range>)

  /** One OSV vulnerability record. `id` is a string (the program asserts it
      unchecked); `published` is `None` when absent or not a string; an
      absent or non-array `severity` or `affected` reads as empty. */
  datatype Vuln = Vuln(id: string, published: Option<string>, severity: seq<Severity>, affected: seq<Affected>)
}
