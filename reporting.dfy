/** The report composer (do_report): each match is looked up in the
    submission table, classified from the platform's live view of the
    original post, and the summary counts the matches and those removed or
    deleted. */
module Reporting {
  import opened Records

  /** What the platform currently says about an original post. */
  datatype LivePost = LivePost(score: int, removed: bool, author: string)

  /** The status column of a report row. */
  datatype Status = Removed | Deleted | Active

  /** One row of the reply table: the original's author, date, link, title
      and id from the submission table, its live score and status, and the
      match's similarity. */
  datatype ReportRow = ReportRow(
    author: string,
    created: int,
    url: string,
    title: string,
    id: string,
    score: int,
    status: Status,
    similarity: nat)

  /** A report the bot issued on a submission: the number of matches, the
      number of them removed or deleted, and the reply's rows. */
  datatype ReportEvent = ReportEvent(
    submissionId: string,
    matchCount: nat,
    removedOrDeleted: nat,
    rows: seq<ReportRow>)

  /** Status of an original post: removal is checked before deletion, and
      only a post that is neither is Active. */
  function Classify(p: LivePost): (s: Status)
    ensures p.removed ==> s == Removed
    ensures !p.removed && p.author == DELETED_AUTHOR ==> s == Deleted
    ensures s == Active <==> !p.removed && p.author != DELETED_AUTHOR
  {
    if p.removed then Removed
    else if p.author == DELETED_AUTHOR then Deleted
    else Active
  }

  /** The first submission row with the given id (fetchone), if any. */
  function FindSubmission(table: seq<SubmissionRow>, id: string): (r: Option<SubmissionRow>)
    ensures r.Some? ==> r.value in table && r.value.id == id
    ensures r.None? <==> forall row :: row in table ==> row.id != id
  {
    if table == [] then None
    else if table[0].id == id then Some(table[0])
    else FindSubmission(table[1..], id)
  }

  /** Appending a row changes the lookup only for an id not found before. */
  lemma {:induction false} FindSubmissionAppend(table: seq<SubmissionRow>, r: SubmissionRow, id: string)
    ensures FindSubmission(table + [r], id) ==
      if FindSubmission(table, id).Some? then FindSubmission(table, id)
      else if r.id == id then Some(r) else None
  {
    if table != [] {
      assert (table + [r])[1..] == table[1..] + [r];
      FindSubmissionAppend(table[1..], r, id);
    } else {
      assert table + [r] == [r];
    }
  }

  /** Every match has its original in the table and a live view on the
      platform; otherwise the composer raises part-way. */
  predicate CanCompose(matches: seq<Match>, table: seq<SubmissionRow>, live: map<string, LivePost>)
  {
    forall m :: m in matches ==> FindSubmission(table, m.id).Some? && m.id in live
  }

  /** The status of every match, in match order. */
  function Statuses(matches: seq<Match>, live: map<string, LivePost>): (ss: seq<Status>)
    requires forall m :: m in matches ==> m.id in live
    ensures |ss| == |matches|
  {
    seq(|matches|, i requires 0 <= i < |matches| => Classify(live[matches[i].id]))
  }

  /** Number of Active entries. */
  function CountActive(ss: seq<Status>): (n: nat)
    ensures n <= |ss|
  {
    if ss == [] then 0 else (if ss[0] == Active then 1 else 0) + CountActive(ss[1..])
  }

  /** Number of entries equal to s. */
  function CountOf(ss: seq<Status>, s: Status): nat
  {
    if ss == [] then 0 else (if ss[0] == s then 1 else 0) + CountOf(ss[1..], s)
  }

  /** The summary's removed/deleted figure, matches minus active ones, is
      exactly the number of Removed plus Deleted entries. */
  lemma {:induction false} RemovedOrDeletedCount(ss: seq<Status>)
    ensures |ss| - CountActive(ss) == CountOf(ss, Removed) + CountOf(ss, Deleted)
  {
    if ss != [] {
      RemovedOrDeletedCount(ss[1..]);
    }
  }

  lemma {:induction false} CountActiveAppend(ss: seq<Status>, s: Status)
    ensures CountActive(ss + [s]) == CountActive(ss) + (if s == Active then 1 else 0)
  {
    if ss != [] {
      assert (ss + [s])[1..] == ss[1..] + [s];
      CountActiveAppend(ss[1..], s);
    } else {
      assert [s][1..] == [];
    }
  }

  /** The row for match m with original orig. */
  function RowFor(m: Match, orig: SubmissionRow, lp: LivePost): (r: ReportRow)
    ensures r.id == orig.id && r.similarity == m.similarity && r.status == Classify(lp)
  {
    ReportRow(orig.author, orig.created, orig.url, orig.title, orig.id, lp.score, Classify(lp), m.similarity)
  }

  /** The reply rows, one per match, in match order. */
  function ReportRows(matches: seq<Match>, table: seq<SubmissionRow>, live: map<string, LivePost>): (rows: seq<ReportRow>)
    requires CanCompose(matches, table, live)
    ensures |rows| == |matches|
  {
    seq(|matches|, i requires 0 <= i < |matches| && CanCompose(matches, table, live) =>
      RowFor(matches[i], FindSubmission(table, matches[i].id).value, live[matches[i].id]))
  }

  /** The report do_report issues for submission id, or None when it raises
      before issuing it: it fails exactly when an original is missing from
      the table or from the platform, and otherwise it reports every match,
      one row per match in match order, with that match's original and
      similarity. */
  function Compose(id: string, matches: seq<Match>, table: seq<SubmissionRow>, live: map<string, LivePost>): (r: Option<ReportEvent>)
    ensures r.Some? <==> CanCompose(matches, table, live)
    ensures r.Some? ==> r.value.submissionId == id && r.value.matchCount == |matches| == |r.value.rows|
    ensures r.Some? ==> forall i :: 0 <= i < |matches| ==>
      r.value.rows[i].id == matches[i].id && r.value.rows[i].similarity == matches[i].similarity
  {
    if CanCompose(matches, table, live) then
      Some(ReportEvent(id, |matches|, |matches| - CountActive(Statuses(matches, live)),
                       ReportRows(matches, table, live)))
    else None
  }

  /** A composed report counts every match, and its removed/deleted figure
      lies between 0 and the number of matches and counts exactly the rows
      whose status is Removed or Deleted. */
  lemma ComposeCounts(id: string, matches: seq<Match>, table: seq<SubmissionRow>, live: map<string, LivePost>)
    requires CanCompose(matches, table, live)
    ensures Compose(id, matches, table, live).Some?
    ensures var ev := Compose(id, matches, table, live).value;
      ev.submissionId == id && ev.matchCount == |matches| == |ev.rows| &&
      ev.removedOrDeleted <= ev.matchCount &&
      ev.removedOrDeleted == CountOf(Statuses(matches, live), Removed) + CountOf(Statuses(matches, live), Deleted)
  {
    RemovedOrDeletedCount(Statuses(matches, live));
  }

  /** The statuses of a prefix of the matches, extended by one. */
  lemma StatusesSnoc(matches: seq<Match>, live: map<string, LivePost>, i: nat)
    requires i < |matches|
    requires forall m :: m in matches[..i + 1] ==> m.id in live
    ensures forall m :: m in matches[..i] ==> m.id in live
    ensures Statuses(matches[..i + 1], live) == Statuses(matches[..i], live) + [Classify(live[matches[i].id])]
  {
    assert forall m :: m in matches[..i] ==> m in matches[..i + 1];
  }

  /** A composable prefix stays composable when the next match's original
      is found. */
  lemma CanComposeSnoc(matches: seq<Match>, table: seq<SubmissionRow>, live: map<string, LivePost>, i: nat)
    requires i < |matches| && CanCompose(matches[..i], table, live)
    requires FindSubmission(table, matches[i].id).Some? && matches[i].id in live
    ensures CanCompose(matches[..i + 1], table, live)
  {
    assert matches[..i + 1] == matches[..i] + [matches[i]];
  }

  /** The rows of a prefix of the matches, extended by one. */
  lemma ReportRowsSnoc(matches: seq<Match>, table: seq<SubmissionRow>, live: map<string, LivePost>, i: nat)
    requires i < |matches|
    requires CanCompose(matches[..i + 1], table, live)
    ensures CanCompose(matches[..i], table, live)
    ensures ReportRows(matches[..i + 1], table, live) == ReportRows(matches[..i], table, live) +
      [RowFor(matches[i], FindSubmission(table, matches[i].id).value, live[matches[i].id])]
  {
    assert forall m :: m in matches[..i] ==> m in matches[..i + 1];
    assert matches[i] in matches[..i + 1];
  }

  /** The loop of do_report: looks each match up, classifies it, counts the
      active originals and collects the rows; ok is false when a lookup
      raises. */
  method ComposeRows(matches: seq<Match>, table: seq<SubmissionRow>, live: map<string, LivePost>)
    returns (ok: bool, active: nat, rows: seq<ReportRow>)
    ensures ok <==> CanCompose(matches, table, live)
    ensures ok ==> active == CountActive(Statuses(matches, live)) && rows == ReportRows(matches, table, live)
  {
    active, rows := 0, [];
    var i := 0;
    while i < |matches|
      invariant 0 <= i <= |matches|
      invariant CanCompose(matches[..i], table, live)
      invariant rows == ReportRows(matches[..i], table, live)
      invariant active == CountActive(Statuses(matches[..i], live))
    {
      var m := matches[i];
      var original := FindSubmission(table, m.id);
      if original.None? || m.id !in live {
        assert m in matches;
        ok := false;
        return;
      }
      var post := live[m.id];
      var status := Classify(post);
      CanComposeSnoc(matches, table, live, i);
      StatusesSnoc(matches, live, i);
      ReportRowsSnoc(matches, table, live, i);
      CountActiveAppend(Statuses(matches[..i], live), status);
      if status == Active {
        active := active + 1;
      }
      rows := rows + [RowFor(m, original.value, post)];
      i := i + 1;
    }
    ok := true;
    assert matches[..i] == matches;
  }
}
