/** The bot object: its in-memory id set and subreddit list, the three
    database tables it reads and writes through its connection, and the
    reports it has issued on the platform. Each method performs in place
    the transition the functions of Processor, Communities and Inbox
    describe. */
module Bot {
  import opened Fingerprint
  import opened Urls
  import opened Records
  import opened Matcher
  import opened Reporting
  import opened Processor
  import opened Communities
  import opened Inbox

  /** The listings the platform returns for one subreddit during a pass:
      its new posts, and its top posts of all time, the year and the month. */
  datatype Feed = Feed(
    newPosts: seq<Arrival>,
    topAll: seq<Arrival>,
    topYear: seq<Arrival>,
    topMonth: seq<Arrival>)

  /** The backfill of a subreddit: the three top listings, in the order
      scan_new_sub walks them. */
  function Backfill(f: Feed): (l: seq<Arrival>)
    ensures |l| == |f.topAll| + |f.topYear| + |f.topMonth|
    ensures forall a :: a in l <==> a in f.topAll || a in f.topYear || a in f.topMonth
  {
    f.topAll + f.topYear + f.topMonth
  }

  /** The listing the scanning step of run's loop walks for row sub: the
      new posts of an indexed subreddit, the backfill of another. */
  function StepListing(sub: SubData, feed: Feed): seq<Arrival>
  {
    if sub.indexed then feed.newPosts else Backfill(feed)
  }

  /** The subreddit table after the scanning step for row sub: a backfilled
      subreddit is marked indexed. */
  function StepTable(t: seq<SubData>, sub: SubData): seq<SubData>
  {
    if sub.indexed then t else MarkIndexed(t, sub.name)
  }

  /** The unread messages the k-th handle_dms call of a pass finds; a call
      past the end of inbox finds none. */
  function Unread(inbox: seq<seq<Message>>, k: nat): seq<Message>
  {
    if k < |inbox| then inbox[k] else []
  }

  /** Where a pass ends: the store, the subreddit table, and whether a
      message crashed the bot. */
  datatype Outcome = Outcome(store: Store, table: seq<SubData>, crashed: bool)

  /** One step of run's loop at position i, with k handle_dms calls made
      so far: read row i of the table, handle the unread messages, stop on
      a crash, and otherwise scan that row's listing. With no messages left
      there is no crash and the table keeps its length. */
  ghost function Next(st: Store, t: seq<SubData>, i: nat, k: nat, inbox: seq<seq<Message>>,
                      feeds: string -> Feed): (n: Outcome)
    requires i < |t|
    ensures k >= |inbox| ==> !n.crashed && |n.table| == |t|
  {
    var sub := t[i];
    var dms := ApplyDms(t, Unread(inbox, k));
    if dms.1 then Outcome(st, dms.0, true)
    else Outcome(Scan(st, StepListing(sub, feeds(sub.name)), sub.indexed), StepTable(dms.0, sub), false)
  }

  /** The loop of run over the live list, from position i: each step is
      Next, and a step that does not crash goes on at position i + 1 of the
      table as it now is. feeds gives each subreddit's listings. */
  ghost function Loop(st: Store, t: seq<SubData>, i: nat, k: nat, inbox: seq<seq<Message>>,
                      feeds: string -> Feed): Outcome
    decreases (if k < |inbox| then |inbox| - k else 0), |t| - i
  {
    if i >= |t| then Outcome(st, t, false)
    else
      var n := Next(st, t, i, k, inbox, feeds);
      if n.crashed then n else Loop(n.store, n.table, i + 1, k + 1, inbox, feeds)
  }

  /** How many steps the loop from position i takes; a step that crashes
      is the last. */
  ghost function Steps(st: Store, t: seq<SubData>, i: nat, k: nat, inbox: seq<seq<Message>>,
                       feeds: string -> Feed): nat
    decreases (if k < |inbox| then |inbox| - k else 0), |t| - i
  {
    if i >= |t| then 0
    else
      var n := Next(st, t, i, k, inbox, feeds);
      if n.crashed then 1 else 1 + Steps(n.store, n.table, i + 1, k + 1, inbox, feeds)
  }

  /** One step of the loop at a position inside the table. */
  lemma LoopStep(st: Store, t: seq<SubData>, i: nat, k: nat, inbox: seq<seq<Message>>,
                 feeds: string -> Feed)
    requires i < |t|
    ensures var n := Next(st, t, i, k, inbox, feeds);
      && Steps(st, t, i, k, inbox, feeds) >= 1
      && (n.crashed ==> Loop(st, t, i, k, inbox, feeds) == n)
      && (!n.crashed ==>
            && Loop(st, t, i, k, inbox, feeds) == Loop(n.store, n.table, i + 1, k + 1, inbox, feeds)
            && Steps(st, t, i, k, inbox, feeds) == 1 + Steps(n.store, n.table, i + 1, k + 1, inbox, feeds))
  {
  }

  /** One pass of run's loop: the messages first when the initial check is
      still due and the list is empty, then the loop over the list. */
  ghost function Pass(initialDmCheck: bool, st: Store, t: seq<SubData>, inbox: seq<seq<Message>>,
                      feeds: string -> Feed): Outcome
  {
    if initialDmCheck && |t| < 1 then
      var dms := ApplyDms(t, Unread(inbox, 0));
      if dms.1 then Outcome(st, dms.0, true) else Loop(st, dms.0, 0, 1, inbox, feeds)
    else Loop(st, t, 0, 0, inbox, feeds)
  }

  /** One step of the loop only adds to the store, keeps its invariant,
      and keeps subreddit names unique. */
  lemma NextKeeps(st: Store, t: seq<SubData>, i: nat, k: nat, inbox: seq<seq<Message>>,
                  feeds: string -> Feed)
    requires i < |t|
    ensures var n := Next(st, t, i, k, inbox, feeds);
      && Extends(st, n.store)
      && (Consistent(st) ==> Consistent(n.store))
      && (UniqueNames(t) ==> UniqueNames(n.table))
  {
    var sub := t[i];
    var dms := ApplyDms(t, Unread(inbox, k));
    if Consistent(st) {
      ScanPreservesConsistent(st, StepListing(sub, feeds(sub.name)), sub.indexed);
    }
    if UniqueNames(t) {
      ApplyDmsUnique(t, Unread(inbox, k));
      MarkIndexedMonotone(dms.0, sub.name);
    }
  }

  /** The loop only adds to the store. */
  lemma {:induction false} LoopExtends(st: Store, t: seq<SubData>, i: nat, k: nat, inbox: seq<seq<Message>>,
                                       feeds: string -> Feed)
    ensures Extends(st, Loop(st, t, i, k, inbox, feeds).store)
    decreases Steps(st, t, i, k, inbox, feeds)
  {
    if i < |t| {
      var n := Next(st, t, i, k, inbox, feeds);
      LoopStep(st, t, i, k, inbox, feeds);
      NextKeeps(st, t, i, k, inbox, feeds);
      if !n.crashed {
        LoopExtends(n.store, n.table, i + 1, k + 1, inbox, feeds);
        ExtendsTransitive(st, n.store, Loop(n.store, n.table, i + 1, k + 1, inbox, feeds).store);
      }
    }
  }

  /** The loop keeps the store's invariant. */
  lemma {:induction false} LoopConsistent(st: Store, t: seq<SubData>, i: nat, k: nat, inbox: seq<seq<Message>>,
                                          feeds: string -> Feed)
    requires Consistent(st)
    ensures Consistent(Loop(st, t, i, k, inbox, feeds).store)
    decreases Steps(st, t, i, k, inbox, feeds)
  {
    if i < |t| {
      var n := Next(st, t, i, k, inbox, feeds);
      LoopStep(st, t, i, k, inbox, feeds);
      NextKeeps(st, t, i, k, inbox, feeds);
      if !n.crashed {
        LoopConsistent(n.store, n.table, i + 1, k + 1, inbox, feeds);
      }
    }
  }

  /** The loop keeps subreddit names unique. */
  lemma {:induction false} LoopUnique(st: Store, t: seq<SubData>, i: nat, k: nat, inbox: seq<seq<Message>>,
                                      feeds: string -> Feed)
    requires UniqueNames(t)
    ensures UniqueNames(Loop(st, t, i, k, inbox, feeds).table)
    decreases Steps(st, t, i, k, inbox, feeds)
  {
    if i < |t| {
      var n := Next(st, t, i, k, inbox, feeds);
      LoopStep(st, t, i, k, inbox, feeds);
      NextKeeps(st, t, i, k, inbox, feeds);
      if !n.crashed {
        LoopUnique(n.store, n.table, i + 1, k + 1, inbox, feeds);
      }
    }
  }

  /** A pass only adds to the store, keeps its invariant, and keeps
      subreddit names unique. */
  lemma PassKeeps(initialDmCheck: bool, st: Store, t: seq<SubData>, inbox: seq<seq<Message>>,
                  feeds: string -> Feed)
    ensures Extends(st, Pass(initialDmCheck, st, t, inbox, feeds).store)
    ensures Consistent(st) ==> Consistent(Pass(initialDmCheck, st, t, inbox, feeds).store)
    ensures UniqueNames(t) ==> UniqueNames(Pass(initialDmCheck, st, t, inbox, feeds).table)
  {
    if initialDmCheck && |t| < 1 {
      var dms := ApplyDms(t, Unread(inbox, 0));
      LoopExtends(st, dms.0, 0, 1, inbox, feeds);
      if Consistent(st) {
        LoopConsistent(st, dms.0, 0, 1, inbox, feeds);
      }
      if UniqueNames(t) {
        ApplyDmsUnique(t, Unread(inbox, 0));
        LoopUnique(st, dms.0, 0, 1, inbox, feeds);
      }
    } else {
      LoopExtends(st, t, 0, 0, inbox, feeds);
      if Consistent(st) {
        LoopConsistent(st, t, 0, 0, inbox, feeds);
      }
      if UniqueNames(t) {
        LoopUnique(st, t, 0, 0, inbox, feeds);
      }
    }
  }

  /** Table u has the rows of t in the same places, with every indexed
      flag of t still set. */
  predicate KeepsRows(t: seq<SubData>, u: seq<SubData>)
  {
    && |u| == |t|
    && forall j :: 0 <= j < |t| ==> u[j].name == t[j].name && (t[j].indexed ==> u[j].indexed)
  }

  lemma KeepsRowsTransitive(t1: seq<SubData>, t2: seq<SubData>, t3: seq<SubData>)
    requires KeepsRows(t1, t2) && KeepsRows(t2, t3)
    ensures KeepsRows(t1, t3)
  {
  }

  /** Every row of u from position i on is indexed. */
  predicate IndexedFrom(u: seq<SubData>, i: nat)
  {
    forall j :: i <= j < |u| ==> u[j].indexed
  }

  lemma IndexedFromStep(u: seq<SubData>, v: seq<SubData>, i: nat)
    requires i < |u| && u[i].indexed && KeepsRows(u, v) && IndexedFrom(v, i + 1)
    ensures IndexedFrom(v, i)
  {
  }

  /** With no unread messages, one step does not crash, keeps the table's
      rows, and leaves the row it visited indexed. */
  lemma QuietNext(st: Store, t: seq<SubData>, i: nat, k: nat, inbox: seq<seq<Message>>,
                  feeds: string -> Feed)
    requires k >= |inbox| && i < |t|
    ensures var n := Next(st, t, i, k, inbox, feeds);
      !n.crashed && KeepsRows(t, n.table) && n.table[i].indexed
  {
    assert Unread(inbox, k) == [];
  }

  /** With no unread messages, the loop from position i keeps the table's
      rows in place, keeps every indexed flag, and leaves every row from
      position i on indexed: each subreddit not yet indexed is backfilled. */
  lemma {:induction false} QuietLoopIndexes(st: Store, t: seq<SubData>, i: nat, k: nat,
                                            inbox: seq<seq<Message>>, feeds: string -> Feed)
    requires k >= |inbox|
    ensures var r := Loop(st, t, i, k, inbox, feeds);
      && !r.crashed
      && KeepsRows(t, r.table)
      && IndexedFrom(r.table, i)
    decreases Steps(st, t, i, k, inbox, feeds)
  {
    if i < |t| {
      var n := Next(st, t, i, k, inbox, feeds);
      LoopStep(st, t, i, k, inbox, feeds);
      QuietNext(st, t, i, k, inbox, feeds);
      QuietLoopIndexes(n.store, n.table, i + 1, k + 1, inbox, feeds);
      var r := Loop(n.store, n.table, i + 1, k + 1, inbox, feeds);
      KeepsRowsTransitive(t, n.table, r.table);
      IndexedFromStep(n.table, r.table, i);
    }
  }

  /** A pass that finds no unread messages, with the initial check done,
      ends with every tracked subreddit indexed, the same subreddits in the
      same places, and no crash. */
  lemma QuietPassIndexesAll(st: Store, t: seq<SubData>, feeds: string -> Feed)
    ensures var r := Pass(false, st, t, [], feeds);
      && !r.crashed
      && |r.table| == |t|
      && (forall j :: 0 <= j < |t| ==> r.table[j].name == t[j].name && r.table[j].indexed)
  {
    QuietLoopIndexes(st, t, 0, 0, [], feeds);
    var r := Pass(false, st, t, [], feeds);
    assert KeepsRows(t, r.table) && IndexedFrom(r.table, 0);
  }

  /** The ids of the submission table, read row by row
      (SELECT id FROM indexed_submissions). */
  method LoadIds(rows: seq<SubmissionRow>) returns (ids: set<string>)
    ensures ids == IdsOf(rows)
    ensures forall id :: id in ids <==> exists i :: 0 <= i < |rows| && rows[i].id == id
  {
    ids := {};
    var i := 0;
    while i < |rows|
      invariant 0 <= i <= |rows|
      invariant ids == IdsOf(rows[..i])
    {
      IdsOfAppend(rows[..i], rows[i]);
      assert rows[..i + 1] == rows[..i] + [rows[i]];
      ids := ids + {rows[i].id};
      i := i + 1;
    }
    assert rows[..i] == rows;
    forall id | id in ids
      ensures exists i :: 0 <= i < |rows| && rows[i].id == id
    {
      var r :| r in rows && r.id == id;
      var j :| 0 <= j < |rows| && rows[j] == r;
    }
  }

  /** The inner generator of handle_submission: walks the stored rows in
      order and keeps a match for each row scoring above the threshold. */
  method CollectMatches(h: Hash, rows: seq<MediaRow>) returns (ms: seq<Match>)
    ensures ms == GetMatches(h, rows)
    ensures forall m :: m in ms ==> m.similarity > THRESHOLD
    ensures forall r :: r in rows && Similarity(h, r.hash) > THRESHOLD ==> MatchOf(h, r) in ms
  {
    ms := [];
    var i := 0;
    while i < |rows|
      invariant 0 <= i <= |rows|
      invariant ms == GetMatches(h, rows[..i])
    {
      var row := rows[i];
      var compared := Similarity(h, row.hash);
      assert rows[..i + 1] == rows[..i] + [row];
      GetMatchesConcat(h, rows[..i], [row]);
      GetMatchesSingle(h, row);
      if compared > THRESHOLD {
        ms := ms + [Match(row.hash, row.id, row.subname, compared)];
      }
      i := i + 1;
    }
    assert rows[..i] == rows;
  }

  class BotClient {
    /** The ids of every submission handled so far. */
    var indexedSubmissionIds: set<string>
    /** The in-memory copy of the subreddit table. */
    var subreddits: seq<SubData>
    /** media_storage: one fingerprint row per processed submission. */
    var mediaStorage: seq<MediaRow>
    /** indexed_submissions: one row per handled submission. */
    var indexedSubmissions: seq<SubmissionRow>
    /** subreddits: the tracked subreddits and their indexed flags. */
    var subredditTable: seq<SubData>
    /** The reports issued on the platform, in order. */
    ghost var reports: seq<ReportEvent>

    /** The part of the state handle_submission reads and changes. */
    ghost function State(): Store
      reads this
    {
      Store(indexedSubmissionIds, mediaStorage, indexedSubmissions, reports)
    }

    /** The id set mirrors the submission table and the in-memory list
        mirrors the subreddit table. */
    ghost predicate Valid()
      reads this
    {
      indexedSubmissionIds == IdsOf(indexedSubmissions) && subreddits == subredditTable
    }

    /** Connects to an existing database: loads the handled ids, then the
        subreddit list. */
    constructor (submissionTable: seq<SubmissionRow>, mediaTable: seq<MediaRow>, subredditRows: seq<SubData>)
      ensures Valid()
      ensures indexedSubmissions == submissionTable && mediaStorage == mediaTable
      ensures subredditTable == subredditRows && subreddits == subredditRows
      ensures indexedSubmissionIds == IdsOf(submissionTable)
      ensures reports == []
    {
      indexedSubmissions := submissionTable;
      mediaStorage := mediaTable;
      subredditTable := subredditRows;
      reports := [];
      var ids := LoadIds(submissionTable);
      indexedSubmissionIds := ids;
      subreddits := [];
      new;
      UpdateSubs();
    }

    /** update_subs: clears the list and refills it from the table. */
    method UpdateSubs()
      modifies this
      ensures subreddits == subredditTable
      ensures State() == old(State()) && subredditTable == old(subredditTable)
    {
      subreddits := [];
      var rows := subredditTable;
      var i := 0;
      while i < |rows|
        invariant 0 <= i <= |rows|
        invariant subreddits == rows[..i]
        invariant State() == old(State()) && subredditTable == rows
      {
        subreddits := subreddits + [rows[i]];
        i := i + 1;
      }
    }

    /** do_report: composes the reply and issues the report; issued is false
        when a lookup or a platform call raises, and then nothing is
        logged. */
    method DoReport(p: Post, matches: seq<Match>, live: map<string, LivePost>, platformOk: bool)
      returns (issued: bool)
      modifies this
      ensures issued <==> Compose(p.id, matches, indexedSubmissions, live).Some? && platformOk
      ensures reports == old(reports) +
        (if issued then [Compose(p.id, matches, indexedSubmissions, live).value] else [])
      ensures indexedSubmissionIds == old(indexedSubmissionIds) && mediaStorage == old(mediaStorage)
      ensures indexedSubmissions == old(indexedSubmissions)
      ensures subreddits == old(subreddits) && subredditTable == old(subredditTable)
    {
      var ok, active, rows := ComposeRows(matches, indexedSubmissions, live);
      if !ok || !platformOk {
        return false;
      }
      reports := reports + [ReportEvent(p.id, |matches|, |matches| - active, rows)];
      issued := true;
    }

    /** handle_submission. */
    method HandleSubmission(a: Arrival, report: bool)
      requires Valid()
      modifies this
      ensures Valid()
      ensures State() == Handle(old(State()), a, report)
      ensures subredditTable == old(subredditTable)
    {
      ghost var st0 := State();
      var p := a.post;
      if p.isSelf || p.id in indexedSubmissionIds {
        return;
      }
      var imgUrl := NormalizeUrl(p.url);
      var processed := false;
      var media := FetchMedia(imgUrl, a.fetch);
      match media {
        case NotImage =>
          return;
        case Failure =>
          assert Handle(st0, a, report) == Record(st0, p, false);
        case Image(h) =>
          assert Handle(st0, a, report) == HandleImage(st0, a, h, report);
          var rows := RowsOf(mediaStorage, p.subname);
          var matches := CollectMatches(h, rows);
          assert matches == FindMatches(h, st0.media, p.subname);
          var failed := false;
          if report && 1 <= |matches| <= MAX_REPORTED_MATCHES {
            var issued := DoReport(p, matches, a.live, a.platformOk);
            failed := !issued;
          }
          if !failed {
            mediaStorage := mediaStorage + [MediaRow(h, p.id, p.subname)];
            processed := true;
          }
      }
      IdsOfAppend(indexedSubmissions, SubmissionRowOf(p, processed));
      indexedSubmissions := indexedSubmissions + [SubmissionRowOf(p, processed)];
      indexedSubmissionIds := indexedSubmissionIds + {p.id};
    }

    /** Handles the arrivals of one listing in order. */
    method ScanListing(listing: seq<Arrival>, report: bool)
      requires Valid()
      modifies this
      ensures Valid()
      ensures State() == Scan(old(State()), listing, report)
      ensures subredditTable == old(subredditTable)
    {
      var i := 0;
      while i < |listing|
        invariant 0 <= i <= |listing|
        invariant Valid()
        invariant State() == Scan(old(State()), listing[..i], report)
        invariant subredditTable == old(subredditTable)
      {
        HandleSubmission(listing[i], report);
        ScanSnoc(old(State()), listing, i, report);
        i := i + 1;
      }
      assert listing[..i] == listing;
    }

    /** scan_submissions: the new posts of an indexed subreddit, reported. */
    method ScanSubmissions(feed: Feed)
      requires Valid()
      modifies this
      ensures Valid()
      ensures State() == Scan(old(State()), feed.newPosts, true)
      ensures subredditTable == old(subredditTable)
    {
      ScanListing(feed.newPosts, true);
    }

    /** scan_new_sub: backfills the three top listings without reporting,
        then marks the subreddit indexed and reloads the list. */
    method ScanNewSub(sub: SubData, feed: Feed)
      requires Valid()
      modifies this
      ensures Valid()
      ensures State() == Scan(old(State()), Backfill(feed), false)
      ensures reports == old(reports)
      ensures subredditTable == MarkIndexed(old(subredditTable), sub.name)
    {
      ghost var st0 := State();
      ScanListing(feed.topAll, false);
      ScanListing(feed.topYear, false);
      ScanListing(feed.topMonth, false);
      ScanConcat(st0, feed.topAll, feed.topYear, false);
      ScanConcat(st0, feed.topAll + feed.topYear, feed.topMonth, false);
      BackfillIssuesNoReport(st0, Backfill(feed));
      subredditTable := MarkIndexed(subredditTable, sub.name);
      UpdateSubs();
    }

    /** accept_invite: inserts the subreddit unless present, reloads the list. */
    method AcceptInvite(name: string)
      modifies this
      ensures subredditTable == InsertIfAbsent(old(subredditTable), name)
      ensures subreddits == subredditTable
      ensures State() == old(State())
    {
      subredditTable := InsertIfAbsent(subredditTable, name);
      UpdateSubs();
    }

    /** handle_mod_removal: deletes the subreddit's row, reloads the list. */
    method HandleModRemoval(name: string)
      modifies this
      ensures subredditTable == DeleteNamed(old(subredditTable), name)
      ensures subreddits == subredditTable
      ensures State() == old(State())
    {
      subredditTable := DeleteNamed(subredditTable, name);
      UpdateSubs();
    }

    /** handle_dms: routes each unread message; crashed is true when an
        invite without a subreddit raises, which ends the bot. */
    method HandleDms(msgs: seq<Message>) returns (crashed: bool)
      requires Valid()
      modifies this
      ensures Valid()
      ensures (subredditTable, crashed) == ApplyDms(old(subredditTable), msgs)
      ensures UniqueNames(old(subredditTable)) ==> UniqueNames(subredditTable)
      ensures msgs == [] ==> !crashed && subredditTable == old(subredditTable)
      ensures State() == old(State())
    {
      if UniqueNames(subredditTable) {
        ApplyDmsUnique(subredditTable, msgs);
      }
      var i := 0;
      while i < |msgs|
        invariant 0 <= i <= |msgs|
        invariant Valid()
        invariant ApplyDms(old(subredditTable), msgs) == ApplyDms(subredditTable, msgs[i..])
        invariant State() == old(State())
      {
        assert msgs[i..][1..] == msgs[i + 1..];
        crashed := HandleDm(msgs[i]);
        if crashed {
          return;
        }
        i := i + 1;
      }
      crashed := false;
    }

    /** The body of handle_dms's loop for one message: routes it, and
        reports a crash when an invite names no subreddit. */
    method HandleDm(msg: Message) returns (crashed: bool)
      requires Valid()
      modifies this
      ensures Valid()
      ensures crashed <==> ApplyDm(old(subredditTable), msg).Crash?
      ensures crashed ==> subredditTable == old(subredditTable)
      ensures !crashed ==> subredditTable == ApplyDm(old(subredditTable), msg).table
      ensures State() == old(State())
    {
      match RouteOf(msg) {
        case AcceptInvite =>
          if msg.subreddit.None? {
            return true;
          }
          AcceptInvite(msg.subreddit.value);
        case ModRemoval =>
          HandleModRemoval(msg.subreddit.value);
        case Ignore =>
      }
      crashed := false;
    }

    /** The scanning step of run's loop for the row sub read at the start of
        the step: a subreddit not yet indexed is backfilled, an indexed one
        has its new posts scanned with reporting on. */
    method ScanSub(sub: SubData, feed: Feed)
      requires Valid()
      modifies this
      ensures Valid()
      ensures State() == Scan(old(State()), if sub.indexed then feed.newPosts else Backfill(feed), sub.indexed)
      ensures subredditTable == if sub.indexed then old(subredditTable) else MarkIndexed(old(subredditTable), sub.name)
      ensures Extends(old(State()), State())
      ensures Consistent(old(State())) ==> Consistent(State())
      ensures UniqueNames(old(subredditTable)) ==> UniqueNames(subredditTable)
      ensures |subreddits| == old(|subreddits|)
    {
      ghost var st0 := State();
      ghost var l := if sub.indexed then feed.newPosts else Backfill(feed);
      if !sub.indexed {
        ScanNewSub(sub, feed);
        MarkIndexedMonotone(old(subredditTable), sub.name);
      }
      if sub.indexed {
        ScanSubmissions(feed);
      }
      if Consistent(st0) {
        ScanPreservesConsistent(st0, l, sub.indexed);
      }
    }

    /** One step of run's loop: the messages first, then the scan of the
        row sub read at the start of the step. crashed is true when a
        message crashed the bot, and then nothing is scanned and the table
        is as the messages before the crash left it. */
    method VisitSub(sub: SubData, msgs: seq<Message>, feed: Feed) returns (crashed: bool)
      requires Valid()
      modifies this
      ensures Valid()
      ensures crashed == ApplyDms(old(subredditTable), msgs).1
      ensures crashed ==> State() == old(State()) && subredditTable == ApplyDms(old(subredditTable), msgs).0
      ensures !crashed ==> State() == Scan(old(State()), StepListing(sub, feed), sub.indexed)
      ensures !crashed ==> subredditTable == StepTable(ApplyDms(old(subredditTable), msgs).0, sub)
      ensures msgs == [] ==> !crashed && |subreddits| == old(|subreddits|)
    {
      crashed := HandleDms(msgs);
      if crashed {
        return;
      }
      ScanSub(sub, feed);
    }

    /** The for loop of run: walks the live list by position from the
        start, with k handle_dms calls made so far. The list is reloaded in
        place during the walk, so the walk goes on from the same position in
        the list as it now is, and each step acts on the row it read at its
        start. */
    method WalkList(k0: nat, inbox: seq<seq<Message>>, feeds: string -> Feed) returns (crashed: bool)
      requires Valid()
      modifies this
      ensures Valid()
      ensures Outcome(State(), subredditTable, crashed) == Loop(old(State()), old(subredditTable), 0, k0, inbox, feeds)
    {
      ghost var goal := Loop(State(), subredditTable, 0, k0, inbox, feeds);
      var k := k0;
      var i := 0;
      crashed := false;
      ghost var left := Steps(State(), subredditTable, i, k, inbox, feeds);
      while !crashed && i < |subreddits|
        invariant Valid()
        invariant crashed ==> Outcome(State(), subredditTable, true) == goal
        invariant !crashed ==> Loop(State(), subredditTable, i, k, inbox, feeds) == goal
        invariant !crashed ==> left == Steps(State(), subredditTable, i, k, inbox, feeds)
        decreases left
      {
        crashed, left := WalkStep(i, k, inbox, feeds);
        k := k + 1;
        i := i + 1;
      }
    }

    /** The body of the for loop at position i: visits the row there.
        Stated as the one-step unfolding of Loop. */
    method WalkStep(i: nat, k: nat, inbox: seq<seq<Message>>, feeds: string -> Feed)
      returns (crashed: bool, ghost left: nat)
      requires Valid() && i < |subreddits|
      modifies this
      ensures Valid()
      ensures crashed ==> Outcome(State(), subredditTable, true) == Loop(old(State()), old(subredditTable), i, k, inbox, feeds)
      ensures !crashed ==>
        Loop(State(), subredditTable, i + 1, k + 1, inbox, feeds) == Loop(old(State()), old(subredditTable), i, k, inbox, feeds)
      ensures left < Steps(old(State()), old(subredditTable), i, k, inbox, feeds)
      ensures !crashed ==> left == Steps(State(), subredditTable, i + 1, k + 1, inbox, feeds)
    {
      LoopStep(State(), subredditTable, i, k, inbox, feeds);
      var sub := subreddits[i];
      crashed := VisitSub(sub, Unread(inbox, k), feeds(sub.name));
      left := if crashed then 0 else Steps(State(), subredditTable, i + 1, k + 1, inbox, feeds);
    }

    /** One pass of run's loop. inbox holds the unread messages each
        handle_dms call finds, in call order (a call past its end finds
        none); feeds gives each subreddit's listings. The new store, table
        and crash flag are those of Pass; the initial check stays due only
        while passes start with a non-empty list. */
    method RunPass(initialDmCheck: bool, inbox: seq<seq<Message>>, feeds: string -> Feed)
      returns (crashed: bool, dmCheckAfter: bool)
      requires Valid()
      modifies this
      ensures Valid()
      ensures Outcome(State(), subredditTable, crashed) ==
        Pass(initialDmCheck, old(State()), old(subredditTable), inbox, feeds)
      ensures Extends(old(State()), State())
      ensures Consistent(old(State())) ==> Consistent(State())
      ensures UniqueNames(old(subredditTable)) ==> UniqueNames(subredditTable)
      ensures dmCheckAfter <==> initialDmCheck && old(subreddits) != []
      ensures !initialDmCheck && old(subreddits) == [] ==>
        !crashed && State() == old(State()) && subredditTable == old(subredditTable)
    {
      PassKeeps(initialDmCheck, State(), subredditTable, inbox, feeds);
      var k := 0;
      dmCheckAfter := initialDmCheck;
      if dmCheckAfter && |subreddits| < 1 {
        crashed := HandleDms(Unread(inbox, k));
        k := k + 1;
        dmCheckAfter := false;
        if crashed {
          return;
        }
      }
      crashed := WalkList(k, inbox, feeds);
    }
  }
}
