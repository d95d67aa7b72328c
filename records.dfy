/** The values the bot reads from the platform and keeps in its two
    append-only tables. */
module Records {
  import opened Fingerprint

  datatype Option<T> = None | Some(value: T)

  /** A submission as a platform listing yields it. */
  datatype Post = Post(
    id: string,
    subname: string,
    created: int,
    author: string,
    title: string,
    url: string,
    score: int,
    isSelf: bool)

  /** A row of the submission table (indexed_submissions). */
  datatype SubmissionRow = SubmissionRow(
    id: string,
    subname: string,
    created: int,
    author: string,
    title: string,
    url: string,
    score: int,
    deleted: bool,
    processed: bool)

  /** A row of the fingerprint table (media_storage). */
  datatype MediaRow = MediaRow(hash: Hash, id: string, subname: string)

  /** A stored fingerprint close enough to a candidate, with its score. */
  datatype Match = Match(hash: Hash, id: string, subname: string, similarity: nat)

  /** The author name the platform shows for a deleted account. */
  const DELETED_AUTHOR: string := "[deleted]"

  /** The submission row written for a post: the original (not normalised)
      URL, the deleted flag from the author name, and whether a fingerprint
      was stored. */
  function SubmissionRowOf(p: Post, processed: bool): (r: SubmissionRow)
    ensures r.id == p.id && r.subname == p.subname && r.url == p.url
    ensures r.processed == processed
    ensures r.deleted <==> p.author == DELETED_AUTHOR
  {
    SubmissionRow(p.id, p.subname, p.created, p.author, p.title, p.url, p.score,
                  p.author == DELETED_AUTHOR, processed)
  }

  /** The ids of a submission table. */
  function IdsOf(rows: seq<SubmissionRow>): set<string>
  {
    set r | r in rows :: r.id
  }

  lemma IdsOfAppend(rows: seq<SubmissionRow>, r: SubmissionRow)
    ensures IdsOf(rows + [r]) == IdsOf(rows) + {r.id}
  {
    assert forall x :: x in rows + [r] <==> x in rows || x == r;
  }

  /** No two rows of the submission table share an id. */
  predicate UniqueIds(rows: seq<SubmissionRow>)
  {
    forall i, j :: 0 <= i < j < |rows| ==> rows[i].id != rows[j].id
  }
}
