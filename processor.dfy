/** handle_submission as a transition of the bot's store: the in-memory id
    set, the two append-only tables and the log of issued reports. The class
    in module Bot performs this transition in place; Handle and Scan are the
    functions it is proved against. */
module Processor {
  import opened Fingerprint
  import opened Urls
  import opened Records
  import opened Matcher
  import opened Reporting

  /** What fetching and hashing the media gives: not an image (fetch_media
      returned False), an image with its hash, or an exception raised while
      fetching, hashing or querying the fingerprint table. */
  datatype FetchOutcome = NotImage | Image(hash: Hash) | Failure

  /** A submission as handle_submission receives it, with what the outside
      world answers while it is handled: the fetch outcome, the platform's
      live view of original posts, and whether the report and reply calls
      succeed. */
  datatype Arrival = Arrival(
    post: Post,
    fetch: FetchOutcome,
    live: map<string, LivePost>,
    platformOk: bool)

  /** The state handle_submission reads and changes. */
  datatype Store = Store(
    ids: set<string>,
    media: seq<MediaRow>,
    submissions: seq<SubmissionRow>,
    reports: seq<ReportEvent>)

  /** A report is issued only for 1 to this many matches. */
  const MAX_REPORTED_MATCHES: nat := 10

  /** fetch_media: a URL without an accepted extension is not an image and is
      not fetched; otherwise the outcome is whatever the fetch gives. */
  function FetchMedia(url: string, fetched: FetchOutcome): (r: FetchOutcome)
    ensures !HasImageExtension(url) ==> r == NotImage
    ensures HasImageExtension(url) ==> r == fetched
  {
    if !HasImageExtension(url) then NotImage else fetched
  }

  /** The fetch outcome for an arrival, after URL normalisation. */
  function Fetched(a: Arrival): FetchOutcome
  {
    FetchMedia(NormalizeUrl(a.post.url), a.fetch)
  }

  /** The cases where handle_submission returns without writing anything:
      a self post, an id already seen, or media that is not an image. */
  predicate Skipped(st: Store, a: Arrival)
  {
    a.post.isSelf || a.post.id in st.ids || Fetched(a) == NotImage
  }

  /** Whether the match list of a reporting call lies in the report window. */
  predicate InReportWindow(report: bool, ms: seq<Match>)
  {
    report && 1 <= |ms| <= MAX_REPORTED_MATCHES
  }

  /** Writes the submission row and adds the id to the set. */
  function Record(st: Store, p: Post, processed: bool): Store
  {
    st.(submissions := st.submissions + [SubmissionRowOf(p, processed)], ids := st.ids + {p.id})
  }

  /** handle_submission, with report telling whether matches are reported.
      It handles at most the one submission: the id set gains at most its
      id, and each table and the report log gain at most one entry, at the
      end. */
  function Handle(st: Store, a: Arrival, report: bool): (r: Store)
    ensures Extends(st, r)
    ensures r.ids <= st.ids + {a.post.id}
    ensures |r.submissions| <= |st.submissions| + 1 && |r.media| <= |st.media| + 1
    ensures |r.reports| <= |st.reports| + 1
  {
    var p := a.post;
    if p.isSelf || p.id in st.ids then st
    else match Fetched(a)
      case NotImage => st
      case Failure => Record(st, p, false)
      case Image(h) => HandleImage(st, a, h, report)
  }

  /** The image branch of handle_submission: match, maybe report, then store
      the fingerprint; a report that raises leaves the row unprocessed. The
      submission is recorded, marked processed exactly when its fingerprint
      row (h, id, subreddit) was stored, and a report is only ever issued
      together with that row. */
  function HandleImage(st: Store, a: Arrival, h: Hash, report: bool): (r: Store)
    ensures r.ids == st.ids + {a.post.id}
    ensures r.media == st.media || r.media == st.media + [MediaRow(h, a.post.id, a.post.subname)]
    ensures r.submissions == st.submissions + [SubmissionRowOf(a.post, r.media != st.media)]
    ensures r.reports == st.reports || (r.media != st.media && |r.reports| == |st.reports| + 1 && st.reports <= r.reports)
  {
    var p := a.post;
    var ms := FindMatches(h, st.media, p.subname);
    var row := MediaRow(h, p.id, p.subname);
    if InReportWindow(report, ms) then
      var ev := Compose(p.id, ms, st.submissions, a.live);
      if ev.Some? && a.platformOk then
        Record(st.(media := st.media + [row], reports := st.reports + [ev.value]), p, true)
      else
        Record(st, p, false)
    else
      Record(st.(media := st.media + [row]), p, true)
  }

  /** Whether a non-skipped arrival ends with its fingerprint stored: the
      media is an image and, when a report is due, the report is composed
      and issued without raising. */
  predicate Fingerprinted(st: Store, a: Arrival, report: bool)
  {
    Fetched(a).Image? &&
    var ms := FindMatches(Fetched(a).hash, st.media, a.post.subname);
    InReportWindow(report, ms) ==>
      Compose(a.post.id, ms, st.submissions, a.live).Some? && a.platformOk
  }

  /** handle_submission changes nothing exactly in the skipped cases; in every
      other case it writes one submission row, processed exactly when the
      fingerprint is stored, adds the id, and appends at most the one
      fingerprint row (hash, id, subreddit). */
  lemma HandleEffect(st: Store, a: Arrival, report: bool)
    ensures Handle(st, a, report) == st <==> Skipped(st, a)
    ensures !Skipped(st, a) ==>
      var st' := Handle(st, a, report);
      && st'.ids == st.ids + {a.post.id}
      && st'.submissions == st.submissions + [SubmissionRowOf(a.post, Fingerprinted(st, a, report))]
      && st'.media == if Fingerprinted(st, a, report)
                      then st.media + [MediaRow(Fetched(a).hash, a.post.id, a.post.subname)]
                      else st.media
  {
    if !Skipped(st, a) {
      assert |Handle(st, a, report).submissions| == |st.submissions| + 1;
    }
  }

  /** A report is issued exactly when the media is an image, reporting is on,
      there are 1 to 10 matches, and composing and the platform calls do not
      raise; the report then counts those matches. Otherwise the report log
      is unchanged. */
  lemma HandleReports(st: Store, a: Arrival, report: bool)
    ensures
      var st' := Handle(st, a, report);
      if !Skipped(st, a) && Fetched(a).Image? &&
         InReportWindow(report, FindMatches(Fetched(a).hash, st.media, a.post.subname)) &&
         Fingerprinted(st, a, report)
      then
        var ms := FindMatches(Fetched(a).hash, st.media, a.post.subname);
        && st'.reports == st.reports + [Compose(a.post.id, ms, st.submissions, a.live).value]
        && 1 <= st'.reports[|st.reports|].matchCount <= MAX_REPORTED_MATCHES
      else st'.reports == st.reports
  {
  }

  /** More than 10 matches suppress the report, but the fingerprint is
      still stored and the submission recorded as processed. */
  lemma FloodSuppressesReport(st: Store, a: Arrival)
    requires !Skipped(st, a) && Fetched(a).Image?
    requires |FindMatches(Fetched(a).hash, st.media, a.post.subname)| > MAX_REPORTED_MATCHES
    ensures Handle(st, a, true).reports == st.reports
    ensures Handle(st, a, true).media == st.media + [MediaRow(Fetched(a).hash, a.post.id, a.post.subname)]
    ensures Handle(st, a, true).submissions == st.submissions + [SubmissionRowOf(a.post, true)]
  {
  }

  /** Handling the same arrival twice is the same as handling it once. */
  lemma HandleIdempotent(st: Store, a: Arrival, r1: bool, r2: bool)
    ensures Handle(Handle(st, a, r1), a, r2) == Handle(st, a, r1)
  {
  }

  /** One store extends another: the id set only grows and each table and
      the report log only gain rows at the end. */
  predicate Extends(st: Store, st': Store)
  {
    && st.ids <= st'.ids
    && st.media <= st'.media
    && st.submissions <= st'.submissions
    && st.reports <= st'.reports
  }

  lemma ExtendsTransitive(st1: Store, st2: Store, st3: Store)
    requires Extends(st1, st2) && Extends(st2, st3)
    ensures Extends(st1, st3)
  {
  }

  /** The submission ids of a fingerprint table. */
  function MediaIds(media: seq<MediaRow>): set<string>
  {
    set m | m in media :: m.id
  }

  /** Every fingerprint row belongs to a processed submission row of the
      same subreddit. */
  predicate MediaBacked(media: seq<MediaRow>, submissions: seq<SubmissionRow>)
  {
    forall m :: m in media ==>
      var r := FindSubmission(submissions, m.id);
      r.Some? && r.value.subname == m.subname && r.value.processed
  }

  /** Every processed submission row has its fingerprint row. */
  predicate ProcessedHaveMedia(media: seq<MediaRow>, submissions: seq<SubmissionRow>)
  {
    forall r :: r in submissions && r.processed ==> r.id in MediaIds(media)
  }

  /** No two fingerprint rows share a submission id. */
  predicate UniqueMediaIds(media: seq<MediaRow>)
  {
    forall i, j :: 0 <= i < j < |media| ==> media[i].id != media[j].id
  }

  /** The invariant the bot keeps between its id set and its tables: the set
      is the ids of the submission table, ids are unique in both tables,
      each fingerprint row belongs to a submission row of the same
      subreddit marked processed, and each processed row has its
      fingerprint row. */
  predicate Consistent(st: Store)
  {
    && st.ids == IdsOf(st.submissions)
    && UniqueIds(st.submissions)
    && UniqueMediaIds(st.media)
    && MediaBacked(st.media, st.submissions)
    && ProcessedHaveMedia(st.media, st.submissions)
  }

  /** The fingerprint table after writing post p: with its row exactly when
      processed. */
  function MediaAfter(media: seq<MediaRow>, p: Post, processed: bool, h: Hash): seq<MediaRow>
  {
    if processed then media + [MediaRow(h, p.id, p.subname)] else media
  }

  lemma FreshIdNotInTables(st: Store, id: string)
    requires Consistent(st) && id !in st.ids
    ensures forall i :: 0 <= i < |st.submissions| ==> st.submissions[i].id != id
    ensures forall i :: 0 <= i < |st.media| ==> st.media[i].id != id
    ensures FindSubmission(st.submissions, id).None?
  {
    forall i | 0 <= i < |st.submissions|
      ensures st.submissions[i].id != id
    {
      assert st.submissions[i] in st.submissions;
    }
    forall i | 0 <= i < |st.media|
      ensures st.media[i].id != id
    {
      assert st.media[i] in st.media;
    }
  }

  lemma WriteKeepsMediaBacked(st: Store, p: Post, processed: bool, h: Hash)
    requires Consistent(st) && p.id !in st.ids
    ensures MediaBacked(MediaAfter(st.media, p, processed, h), st.submissions + [SubmissionRowOf(p, processed)])
  {
    var row := SubmissionRowOf(p, processed);
    FreshIdNotInTables(st, p.id);
    forall m | m in MediaAfter(st.media, p, processed, h)
      ensures var r := FindSubmission(st.submissions + [row], m.id);
              r.Some? && r.value.subname == m.subname && r.value.processed
    {
      FindSubmissionAppend(st.submissions, row, m.id);
    }
  }

  lemma WriteKeepsProcessedHaveMedia(st: Store, p: Post, processed: bool, h: Hash)
    requires ProcessedHaveMedia(st.media, st.submissions)
    ensures ProcessedHaveMedia(MediaAfter(st.media, p, processed, h), st.submissions + [SubmissionRowOf(p, processed)])
  {
    var media' := MediaAfter(st.media, p, processed, h);
    assert MediaIds(st.media) <= MediaIds(media');
    if processed {
      assert MediaRow(h, p.id, p.subname) in media';
    }
  }

  lemma WriteKeepsUnique(st: Store, p: Post, processed: bool, h: Hash)
    requires Consistent(st) && p.id !in st.ids
    ensures UniqueIds(st.submissions + [SubmissionRowOf(p, processed)])
    ensures UniqueMediaIds(MediaAfter(st.media, p, processed, h))
  {
    FreshIdNotInTables(st, p.id);
    var subs := st.submissions + [SubmissionRowOf(p, processed)];
    forall i, j | 0 <= i < j < |subs|
      ensures subs[i].id != subs[j].id
    {
      if j == |st.submissions| {
        assert subs[i] == st.submissions[i];
      }
    }
    var media := MediaAfter(st.media, p, processed, h);
    forall i, j | 0 <= i < j < |media|
      ensures media[i].id != media[j].id
    {
      if j == |st.media| {
        assert media[i] == st.media[i];
      }
    }
  }

  /** Writing the rows of a post whose id is new keeps the store consistent. */
  lemma WriteConsistent(st: Store, st': Store, p: Post, processed: bool, h: Hash)
    requires Consistent(st) && p.id !in st.ids
    requires st'.ids == st.ids + {p.id}
    requires st'.submissions == st.submissions + [SubmissionRowOf(p, processed)]
    requires st'.media == MediaAfter(st.media, p, processed, h)
    ensures Consistent(st')
  {
    IdsOfAppend(st.submissions, SubmissionRowOf(p, processed));
    FreshIdNotInTables(st, p.id);
    WriteKeepsUnique(st, p, processed, h);
    WriteKeepsMediaBacked(st, p, processed, h);
    WriteKeepsProcessedHaveMedia(st, p, processed, h);
  }

  /** handle_submission keeps the store consistent. */
  lemma HandlePreservesConsistent(st: Store, a: Arrival, report: bool)
    requires Consistent(st)
    ensures Consistent(Handle(st, a, report))
  {
    HandleEffect(st, a, report);
    if !Skipped(st, a) {
      var h := if Fetched(a).Image? then Fetched(a).hash else 0;
      WriteConsistent(st, Handle(st, a, report), a.post, Fingerprinted(st, a, report), h);
    }
  }

  /** In a consistent store every match has its original submission row, so
      composing a report can only raise for want of a live view. */
  lemma ConsistentLookups(st: Store, h: Hash, subname: string, live: map<string, LivePost>)
    requires Consistent(st)
    ensures CanCompose(FindMatches(h, st.media, subname), st.submissions, live) <==>
      forall m :: m in FindMatches(h, st.media, subname) ==> m.id in live
  {
  }

  /** The arrivals of a listing handled one after the other, in listing
      order. A scan only adds: ids join the set and rows are appended. */
  function Scan(st: Store, listing: seq<Arrival>, report: bool): (r: Store)
    ensures Extends(st, r)
    ensures |r.submissions| <= |st.submissions| + |listing|
    decreases |listing|
  {
    if listing == [] then st
    else Handle(Scan(st, listing[..|listing| - 1], report), listing[|listing| - 1], report)
  }

  /** Scanning one more arrival of a listing is handling it after the scan
      of the arrivals before it. */
  lemma ScanSnoc(st: Store, listing: seq<Arrival>, i: nat, report: bool)
    requires i < |listing|
    ensures Scan(st, listing[..i + 1], report) == Handle(Scan(st, listing[..i], report), listing[i], report)
  {
    assert listing[..i + 1][..i] == listing[..i];
  }

  /** Scanning two listings in turn is scanning their concatenation. */
  lemma {:induction false} ScanConcat(st: Store, l1: seq<Arrival>, l2: seq<Arrival>, report: bool)
    ensures Scan(st, l1 + l2, report) == Scan(Scan(st, l1, report), l2, report)
    decreases |l2|
  {
    if l2 == [] {
      assert l1 + l2 == l1;
    } else {
      assert (l1 + l2)[..|l1 + l2| - 1] == l1 + l2[..|l2| - 1];
      ScanConcat(st, l1, l2[..|l2| - 1], report);
    }
  }

  /** A scan with reporting off (the backfill) issues no report. */
  lemma {:induction false} BackfillIssuesNoReport(st: Store, listing: seq<Arrival>)
    ensures Scan(st, listing, false).reports == st.reports
    decreases |listing|
  {
    if listing != [] {
      BackfillIssuesNoReport(st, listing[..|listing| - 1]);
    }
  }

  /** A scan keeps the store consistent. */
  lemma {:induction false} ScanPreservesConsistent(st: Store, listing: seq<Arrival>, report: bool)
    requires Consistent(st)
    ensures Consistent(Scan(st, listing, report))
    decreases |listing|
  {
    if listing != [] {
      ScanPreservesConsistent(st, listing[..|listing| - 1], report);
      HandlePreservesConsistent(Scan(st, listing[..|listing| - 1], report), listing[|listing| - 1], report);
    }
  }

  /** A listing whose every arrival is skipped leaves the store as it is. */
  lemma {:induction false} ScanOfSkipped(st: Store, listing: seq<Arrival>, report: bool)
    requires forall a :: a in listing ==> Skipped(st, a)
    ensures Scan(st, listing, report) == st
    decreases |listing|
  {
    if listing != [] {
      assert forall a :: a in listing[..|listing| - 1] ==> a in listing;
      ScanOfSkipped(st, listing[..|listing| - 1], report);
      assert listing[|listing| - 1] in listing;
    }
  }

  /** After a scan, every arrival of the listing would be skipped. */
  lemma {:induction false} ScanSkipsListing(st: Store, listing: seq<Arrival>, report: bool)
    ensures forall a :: a in listing ==> Skipped(Scan(st, listing, report), a)
    decreases |listing|
  {
    if listing != [] {
      var init := listing[..|listing| - 1];
      var last := listing[|listing| - 1];
      ScanSkipsListing(st, init, report);
      var mid := Scan(st, init, report);
      HandleEffect(mid, last, report);
      assert listing == init + [last];
    }
  }

  /** Scanning a listing again, with or without reporting, changes nothing:
      whatever it wrote is skipped by id, and what it skipped as a self
      post or a non-image is skipped again. */
  lemma ScanIdempotent(st: Store, listing: seq<Arrival>, r1: bool, r2: bool)
    ensures Scan(Scan(st, listing, r1), listing, r2) == Scan(st, listing, r1)
  {
    ScanSkipsListing(st, listing, r1);
    ScanOfSkipped(Scan(st, listing, r1), listing, r2);
  }

  /** The only fingerprint of a subreddit, compared with its own hash, is
      the single match. */
  lemma SoleFingerprintMatches(media: seq<MediaRow>, row: MediaRow)
    requires RowsOf(media, row.subname) == []
    ensures FindMatches(row.hash, media + [row], row.subname) == [MatchOf(row.hash, row)]
    ensures MatchOf(row.hash, row).similarity == 100
  {
    FindMatchesScoped(row.hash, media, row.subname, row);
    SimilarityReflexive(row.hash);
  }

  /** Backfilling an image into a subreddit with no fingerprints stores it
      as the subreddit's only fingerprint, records it and issues no report. */
  lemma BackfillStoresSole(st: Store, a1: Arrival, h: Hash)
    requires RowsOf(st.media, a1.post.subname) == []
    requires !a1.post.isSelf && a1.post.id !in st.ids && Fetched(a1) == Image(h)
    ensures var st1 := Handle(st, a1, false);
      && st1.reports == st.reports
      && st1.ids == st.ids + {a1.post.id}
      && FindSubmission(st1.submissions, a1.post.id).Some?
      && FindMatches(h, st1.media, a1.post.subname) == [MatchOf(h, MediaRow(h, a1.post.id, a1.post.subname))]
      && MatchOf(h, MediaRow(h, a1.post.id, a1.post.subname)).similarity == 100
  {
    var row := MediaRow(h, a1.post.id, a1.post.subname);
    var st1 := Handle(st, a1, false);
    assert st1 == HandleImage(st, a1, h, false);
    assert st1.media == st.media + [row];
    FindSubmissionAppend(st.submissions, SubmissionRowOf(a1.post, true), a1.post.id);
    SoleFingerprintMatches(st.media, row);
  }

  /** A fresh image whose only match is one stored submission, with the
      original live on the platform, is reported once, with that single
      match. */
  lemma SingleMatchReported(st1: Store, a2: Arrival, h: Hash, row: MediaRow)
    requires !a2.post.isSelf && a2.post.id !in st1.ids && Fetched(a2) == Image(h)
    requires FindMatches(h, st1.media, a2.post.subname) == [MatchOf(h, row)]
    requires FindSubmission(st1.submissions, row.id).Some?
    requires row.id in a2.live && a2.platformOk
    ensures var st2 := Handle(st1, a2, true);
      && |st2.reports| == |st1.reports| + 1
      && st2.reports[|st1.reports|].submissionId == a2.post.id
      && st2.reports[|st1.reports|].matchCount == 1
      && |st2.reports[|st1.reports|].rows| == 1
      && st2.reports[|st1.reports|].rows[0].id == row.id
      && st2.reports[|st1.reports|].rows[0].similarity == MatchOf(h, row).similarity
  {
    var ms := FindMatches(h, st1.media, a2.post.subname);
    assert CanCompose(ms, st1.submissions, a2.live);
    var ev := Compose(a2.post.id, ms, st1.submissions, a2.live);
    assert ev.Some?;
    assert Handle(st1, a2, true) == HandleImage(st1, a2, h, true);
    assert ev.value.rows[0] == RowFor(ms[0], FindSubmission(st1.submissions, row.id).value, a2.live[row.id]);
  }

  /** Two image posts of one subreddit with the same hash, the first
      backfilled into a subreddit with no fingerprints yet, the second
      scanned with reporting on: the second gets exactly one match, of
      similarity 100 against the first, and exactly one report. */
  lemma RepostReportedOnce(st: Store, a1: Arrival, a2: Arrival, h: Hash, st1: Store, st2: Store)
    requires RowsOf(st.media, a1.post.subname) == []
    requires a2.post.subname == a1.post.subname && a1.post.id != a2.post.id
    requires !a1.post.isSelf && !a2.post.isSelf
    requires a1.post.id !in st.ids && a2.post.id !in st.ids
    requires Fetched(a1) == Image(h) && Fetched(a2) == Image(h)
    requires a1.post.id in a2.live && a2.platformOk
    requires st1 == Handle(st, a1, false) && st2 == Handle(st1, a2, true)
    ensures |st2.reports| == |st.reports| + 1
    ensures st2.reports[|st.reports|].submissionId == a2.post.id
    ensures st2.reports[|st.reports|].matchCount == 1
    ensures |st2.reports[|st.reports|].rows| == 1
    ensures st2.reports[|st.reports|].rows[0].id == a1.post.id
    ensures st2.reports[|st.reports|].rows[0].similarity == 100
  {
    BackfillStoresSole(st, a1, h);
    SingleMatchReported(st1, a2, h, MediaRow(h, a1.post.id, a1.post.subname));
  }
}
