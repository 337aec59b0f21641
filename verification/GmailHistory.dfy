/** Gmail's history pages as change sets, and the cursors that walk them (provider/gmail/model.go). */
module GmailHistory {
  import opened ChangeHistory

  datatype LabelChange = LabelChange(message: string, labelIds: seq<string>)

  datatype Record = Record(id: nat, added: seq<string>, deleted: seq<string>, labelsAdded: seq<LabelChange>,
                           labelsRemoved: seq<LabelChange>)

  /** One page of history.list: more says that it has a next page's token, current is the mailbox's history
      identifier. */
  datatype HistoryPage = HistoryPage(records: seq<Record>, more: bool, current: nat)

  // ---------------------------------------------------------------- what a page notes

  predicate Shown(ids: seq<string>, hidden: set<string>) {
    exists id <- ids :: id !in hidden
  }

  function Each(ids: seq<string>, kind: Kind): seq<Change> {
    seq(|ids|, i requires 0 <= i < |ids| => Change(ids[i], kind))
  }

  function LabelNotes(changes: seq<LabelChange>, hidden: set<string>): seq<Change> {
    if changes == [] then []
    else
      var before, c := LabelNotes(changes[..|changes| - 1], hidden), changes[|changes| - 1];
      if Shown(c.labelIds, hidden) then before + [Change(c.message, Modified)] else before
  }

  function RecordNotes(r: Record, hidden: set<string>): seq<Change> {
    Each(r.added, Added) + Each(r.deleted, Removed) + LabelNotes(r.labelsAdded + r.labelsRemoved, hidden)
  }

  function PageNotes(records: seq<Record>, hidden: set<string>): seq<Change> {
    if records == [] then []
    else PageNotes(records[..|records| - 1], hidden) + RecordNotes(records[|records| - 1], hidden)
  }

  /** Some record of the page adds the identifier, deletes it, or changes a label of it that is not hidden. */
  predicate AddedIn(records: seq<Record>, id: string) {
    exists r <- records :: id in r.added
  }

  predicate DeletedIn(records: seq<Record>, id: string) {
    exists r <- records :: id in r.deleted
  }

  predicate Relabels(records: seq<Record>, hidden: set<string>, id: string) {
    exists r <- records :: ShowsChange(r.labelsAdded, hidden, id) || ShowsChange(r.labelsRemoved, hidden, id)
  }

  /** One of the label changes is of the message and has a label that is not hidden. */
  predicate ShowsChange(changes: seq<LabelChange>, hidden: set<string>, id: string) {
    exists c <- changes :: c.message == id && exists k :: 0 <= k < |c.labelIds| && c.labelIds[k] !in hidden
  }

  lemma {:induction false} LabelNotesShow(changes: seq<LabelChange>, hidden: set<string>, id: string)
    ensures Change(id, Modified) in LabelNotes(changes, hidden) <==> ShowsChange(changes, hidden, id)
    ensures forall c <- LabelNotes(changes, hidden) :: c.kind == Modified
    decreases |changes|
  {
    if changes == [] {
    } else {
      var init, last := changes[..|changes| - 1], changes[|changes| - 1];
      LabelNotesShow(init, hidden, id);
      assert changes == init + [last];
      assert Shown(last.labelIds, hidden) <==> exists k :: 0 <= k < |last.labelIds| && last.labelIds[k] !in hidden;
      hide Shown;
    }
  }

  lemma ShowsJoined(a: seq<LabelChange>, b: seq<LabelChange>, hidden: set<string>, id: string)
    ensures ShowsChange(a + b, hidden, id) <==> ShowsChange(a, hidden, id) || ShowsChange(b, hidden, id)
  {
    assert forall c :: c in a + b <==> c in a || c in b;
  }

  lemma EachHolds(ids: seq<string>, kind: Kind, id: string)
    ensures Change(id, kind) in Each(ids, kind) <==> id in ids
    ensures forall c <- Each(ids, kind) :: c.kind == kind
  {
    if i: nat :| i < |ids| && ids[i] == id {
      assert Each(ids, kind)[i] == Change(id, kind);
    }
  }

  lemma RecordNotesHold(r: Record, hidden: set<string>, id: string)
    ensures Change(id, Added) in RecordNotes(r, hidden) <==> id in r.added
    ensures Change(id, Removed) in RecordNotes(r, hidden) <==> id in r.deleted
    ensures Change(id, Modified) in RecordNotes(r, hidden) <==>
            ShowsChange(r.labelsAdded, hidden, id) || ShowsChange(r.labelsRemoved, hidden, id)
  {
    LabelNotesShow(r.labelsAdded + r.labelsRemoved, hidden, id);
    ShowsJoined(r.labelsAdded, r.labelsRemoved, hidden, id);
    EachHolds(r.added, Added, id);
    EachHolds(r.deleted, Removed, id);
    hide Each, LabelNotes, ShowsChange;
  }

  /** What a page notes, said over its records. */
  lemma {:induction false} PageNotesHold(records: seq<Record>, hidden: set<string>, id: string)
    ensures Change(id, Added) in PageNotes(records, hidden) <==> AddedIn(records, id)
    ensures Change(id, Removed) in PageNotes(records, hidden) <==> DeletedIn(records, id)
    ensures Change(id, Modified) in PageNotes(records, hidden) <==> Relabels(records, hidden, id)
  {
    if records == [] {
    } else {
      var init, last := records[..|records| - 1], records[|records| - 1];
      PageNotesHold(init, hidden, id);
      RecordNotesHold(last, hidden, id);
      hide RecordNotes, ShowsChange;
      assert records == init + [last];
      assert forall r :: r in records <==> r in init || r == last;
    }
  }

  /** What a record deletes is removed, what one adds and none deletes is added, and what is neither is
      modified exactly when some record changes a label of it that is not hidden. */
  predicate SortedByRecords(records: seq<Record>, hidden: set<string>, out: ChangeSet, id: string) {
    && (id in out.removed <==> DeletedIn(records, id))
    && (id in out.added <==> AddedIn(records, id) && !DeletedIn(records, id))
    && (id in out.modified <==> !AddedIn(records, id) && !DeletedIn(records, id) && Relabels(records, hidden, id))
  }

  lemma PageSorts(records: seq<Record>, hidden: set<string>, id: string)
    ensures SortedByRecords(records, hidden, Net(PageNotes(records, hidden)), id)
  {
    NetSorts(PageNotes(records, hidden), id);
    PageNotesHold(records, hidden, id);
    hide PageNotes, Net, AddedIn, DeletedIn, Relabels;
  }

  lemma NoneEach(kind: Kind)
    ensures Each([], kind) == []
  {
  }

  lemma EachMore(start: seq<Change>, before: seq<Change>, ids: seq<string>, i: nat, kind: Kind)
    requires i < |ids| && before == start + Each(ids[..i], kind)
    ensures before + [Change(ids[i], kind)] == start + Each(ids[..i + 1], kind)
  {
    assert Each(ids[..i + 1], kind) == Each(ids[..i], kind) + [Change(ids[i], kind)];
  }

  lemma RecordMore(start: seq<Change>, r: Record, hidden: set<string>)
    ensures ((start + Each(r.added, Added)) + Each(r.deleted, Removed))
              + LabelNotes(r.labelsAdded + r.labelsRemoved, hidden) == start + RecordNotes(r, hidden)
  {
    hide Each, LabelNotes;
  }

  method NoteEach(notes: Notes, ids: seq<string>, kind: Kind)
    requires notes.Valid()
    modifies notes
    ensures notes.Valid() && notes.noted == old(notes.noted) + Each(ids, kind)
  {
    hide Each;
    assert notes.noted == notes.noted + Each(ids[..0], kind) by { NoneEach(kind); }
    for i := 0 to |ids|
      invariant notes.Valid() && notes.noted == old(notes.noted) + Each(ids[..i], kind)
    {
      ghost var before := notes.noted;
      notes.Note(ids[i], kind);
      EachMore(old(notes.noted), before, ids, i, kind);
    }
    assert ids[..|ids|] == ids;
  }

  method NoteLabels(notes: Notes, changes: seq<LabelChange>, hidden: set<string>)
    requires notes.Valid()
    modifies notes
    ensures notes.Valid() && notes.noted == old(notes.noted) + LabelNotes(changes, hidden)
  {
    for i := 0 to |changes|
      invariant notes.Valid() && notes.noted == old(notes.noted) + LabelNotes(changes[..i], hidden)
    {
      assert changes[..i + 1][..i] == changes[..i];
      if exists id <- changes[i].labelIds :: id !in hidden {
        notes.Note(changes[i].message, Modified);
      }
    }
    assert changes[..|changes|] == changes;
  }

  /** The next cursor is the last record's identifier when more pages follow and this one has a record, and the
      mailbox's otherwise. */
  function NextCursor(page: HistoryPage): nat {
    if page.more && page.records != [] then page.records[|page.records| - 1].id else page.current
  }

  method Changes(page: HistoryPage, hidden: set<string>) returns (out: ChangeSet, next: nat)
    ensures out == Net(PageNotes(page.records, hidden))
    ensures next == NextCursor(page)
    ensures forall id :: SortedByRecords(page.records, hidden, out, id)
  {
    hide Each, RecordNotes, LabelNotes, SortedByRecords;
    var notes := new Notes();
    var records := page.records;
    for i := 0 to |records|
      invariant notes.Valid() && fresh(notes) && notes.noted == PageNotes(records[..i], hidden)
    {
      assert records[..i + 1][..i] == records[..i];
      NoteEach(notes, records[i].added, Added);
      NoteEach(notes, records[i].deleted, Removed);
      NoteLabels(notes, records[i].labelsAdded + records[i].labelsRemoved, hidden);
      RecordMore(PageNotes(records[..i], hidden), records[i], hidden);
    }
    assert records[..|records|] == records;
    next := page.current;
    if page.more && |records| > 0 {
      next := records[|records| - 1].id;
    }
    out := notes.Settle();
    forall id ensures SortedByRecords(records, hidden, out, id) { PageSorts(records, hidden, id); }
  }

  // ---------------------------------------------------------------- what Gmail promises of its pages

  predicate IdsIncrease(log: seq<Record>) {
    forall i, j :: 0 <= i < j < |log| ==> log[i].id < log[j].id
  }

  /** How many records have an identifier no greater than the cursor. */
  function Passed(log: seq<Record>, cursor: nat): (n: nat)
    ensures n <= |log|
  {
    if log == [] then 0
    else if log[|log| - 1].id <= cursor then |log|
    else Passed(log[..|log| - 1], cursor)
  }

  function Since(log: seq<Record>, cursor: nat): seq<Record> {
    log[Passed(log, cursor)..]
  }

  /** The page holds the first records after the cursor, says whether others follow, and no record is newer than
      the mailbox's history identifier. */
  predicate Answers(log: seq<Record>, cursor: nat, page: HistoryPage) {
    && |page.records| <= |Since(log, cursor)|
    && page.records == Since(log, cursor)[..|page.records|]
    && (page.more <==> |page.records| < |Since(log, cursor)|)
    && (forall r <- log :: r.id <= page.current)
  }

  lemma {:induction false} PassedExactly(log: seq<Record>, cursor: nat, n: nat)
    requires IdsIncrease(log) && n <= |log|
    requires n > 0 ==> log[n - 1].id <= cursor
    requires n < |log| ==> log[n].id > cursor
    ensures Passed(log, cursor) == n
  {
    if n >= |log| {
    } else {
      assert log[|log| - 1].id > cursor;
      var init := log[..|log| - 1];
      assert IdsIncrease(init);
      assert n < |init| ==> init[n] == log[n];
      PassedExactly(init, cursor, n);
    }
  }

  lemma {:induction false} PassedDivides(log: seq<Record>, cursor: nat)
    requires IdsIncrease(log)
    ensures var n := Passed(log, cursor);
            (n > 0 ==> log[n - 1].id <= cursor) && (n < |log| ==> log[n].id > cursor)
  {
    if log != [] && log[|log| - 1].id > cursor {
      var init := log[..|log| - 1];
      assert IdsIncrease(init);
      PassedDivides(init, cursor);
      assert Passed(init, cursor) < |init| ==> init[Passed(init, cursor)] == log[Passed(init, cursor)];
    }
  }

  lemma NextPassed(log: seq<Record>, cursor: nat, page: HistoryPage)
    requires IdsIncrease(log) && Answers(log, cursor, page)
    ensures Passed(log, NextCursor(page))
            == if page.records != [] || !page.more then Passed(log, cursor) + |page.records| else |log|
  {
    hide Passed;
    var passed, m := Passed(log, cursor), |page.records|;
    var rest := log[passed..];
    assert m == |page.records| <= |rest| == |log| - passed;
    if m > 0 && page.more {
      assert page.records[m - 1] == rest[m - 1] == log[passed + m - 1];
      assert rest[m] == log[passed + m];
      PassedExactly(log, NextCursor(page), passed + m);
    } else {
      assert log != [] ==> log[|log| - 1] in log;
      PassedExactly(log, page.current, |log|);
    }
  }

  /** Asking again from the next cursor continues right after this page, exactly when the page has a record or no
      page follows it. */
  lemma NextContinuesExactly(log: seq<Record>, cursor: nat, page: HistoryPage)
    requires IdsIncrease(log) && Answers(log, cursor, page)
    ensures Since(log, NextCursor(page)) == Since(log, cursor)[|page.records|..] <==> page.records != [] || !page.more
  {
    hide Passed, IdsIncrease, NextCursor;
    NextPassed(log, cursor, page);
    var passed, m := Passed(log, cursor), |page.records|;
    assert log[passed..][m..] == log[passed + m..];
    assert |log[|log|..]| == 0;
  }

  // ---------------------------------------------------------------- a run of pages over a growing log

  /** One request: the log as it stands, the page it answers with, the labels hidden then, and how many records
      since the start there are when the page's changed messages are fetched. */
  datatype Request = Request(log: seq<Record>, page: HistoryPage, hidden: set<string>, fetchedAt: nat)

  function CursorAfter(start: nat, run: seq<Request>): nat {
    if run == [] then start else NextCursor(run[|run| - 1].page)
  }

  predicate Grew(before: Request, now: Request) {
    && |before.log| <= |now.log|
    && before.log == now.log[..|before.log|]
    && before.page.current <= now.page.current
    && forall i | |before.log| <= i < |now.log| :: now.log[i].id > before.page.current
  }

  /** Every request asks from the cursor the last one gave, while records newer than the last history identifier
      join the log. A page that others follow has a record. */
  predicate Run(start: nat, run: seq<Request>) {
    run == [] ||
    (var earlier, now := run[..|run| - 1], run[|run| - 1];
     && Run(start, earlier)
     && IdsIncrease(now.log)
     && Answers(now.log, CursorAfter(start, earlier), now.page)
     && (now.page.records != [] || !now.page.more)
     && (earlier != [] ==> Grew(earlier[|earlier| - 1], now)))
  }

  function Received(run: seq<Request>): seq<Record> {
    if run == [] then [] else Received(run[..|run| - 1]) + run[|run| - 1].page.records
  }

  lemma CursorWithinCurrent(log: seq<Record>, cursor: nat, page: HistoryPage)
    requires IdsIncrease(log) && Answers(log, cursor, page)
    ensures NextCursor(page) <= page.current
  {
    if page.records != [] {
      assert page.records[|page.records| - 1] in Since(log, cursor);
    }
  }

  /** Growing does not move what a cursor within the earlier history identifier has passed. */
  lemma SinceGrows(before: Request, now: Request, cursor: nat)
    requires IdsIncrease(before.log) && IdsIncrease(now.log) && Grew(before, now)
    requires cursor <= before.page.current
    ensures Passed(now.log, cursor) == Passed(before.log, cursor)
  {
    var n := Passed(before.log, cursor);
    PassedDivides(before.log, cursor);
    assert n > 0 ==> now.log[n - 1] == before.log[n - 1];
    assert n < |before.log| ==> now.log[n] == before.log[n];
    PassedExactly(now.log, cursor, n);
  }

  lemma LastAnswered(start: nat, run: seq<Request>)
    requires run != [] && Run(start, run)
    ensures var r := run[|run| - 1];
            IdsIncrease(r.log) && CursorAfter(start, run) <= r.page.current
  {
    var r := run[|run| - 1];
    CursorWithinCurrent(r.log, CursorAfter(start, run[..|run| - 1]), r.page);
  }

  lemma Slices(before: seq<Record>, now: seq<Record>, n: nat)
    requires n <= |before| <= |now| && before == now[..|before|]
    ensures now[n..] == before[n..] + now[|before|..]
  {
  }

  lemma GrownRest(before: Request, now: Request, start: nat, cursor: nat)
    requires IdsIncrease(before.log) && IdsIncrease(now.log) && Grew(before, now)
    requires start <= before.page.current && cursor <= before.page.current
    ensures Since(now.log, start) == Since(before.log, start) + now.log[|before.log|..]
    ensures Since(now.log, cursor) == Since(before.log, cursor) + now.log[|before.log|..]
  {
    hide Passed, IdsIncrease;
    SinceGrows(before, now, start);
    SinceGrows(before, now, cursor);
    Slices(before.log, now.log, Passed(now.log, start));
    Slices(before.log, now.log, Passed(now.log, cursor));
  }

  /** What the pages received so far hold and what is still to come are together every record since the start, in
      order: none is skipped and none comes twice. */
  lemma {:induction false} EveryRecordOnce(start: nat, run: seq<Request>)
    requires run != [] && Run(start, run)
    requires start <= run[0].page.current
    ensures var log := run[|run| - 1].log;
            Received(run) + Since(log, CursorAfter(start, run)) == Since(log, start)
    ensures start <= run[|run| - 1].page.current
  {
    hide Since, NextCursor, IdsIncrease;
    var earlier, now := run[..|run| - 1], run[|run| - 1];
    var cursor := CursorAfter(start, earlier);
    NextContinuesExactly(now.log, cursor, now.page);
    var rest := Since(now.log, cursor);
    assert now.page.records + rest[|now.page.records|..] == rest;
    if earlier == [] {
      assert Received(run) == now.page.records by { assert Received(earlier) == []; }
    } else {
      var last := earlier[|earlier| - 1];
      assert earlier[0] == run[0];
      EveryRecordOnce(start, earlier);
      assert last == run[|run| - 2];
      LastAnswered(start, earlier);
      GrownRest(last, now, start, cursor);
      var joined := now.log[|last.log|..];
      assert Received(earlier) + (Since(last.log, cursor) + joined)
             == (Received(earlier) + Since(last.log, cursor)) + joined;
      assert Received(run) + rest[|now.page.records|..] == Received(earlier) + rest;
    }
  }

  // ---------------------------------------------------------------- the mailbox the records leave

  /** A record leaves what it adds and does not delete. */
  function After(start: set<string>, records: seq<Record>): set<string> {
    if records == [] then start
    else
      var last := records[|records| - 1];
      After(start, records[..|records| - 1]) + Ids(last.added) - Ids(last.deleted)
  }

  predicate MovedIn(records: seq<Record>, id: string) {
    AddedIn(records, id) || DeletedIn(records, id)
  }

  /** What a stretch of records says of one identifier's presence at its end. */
  lemma {:induction false} RecordsDecide(start: set<string>, records: seq<Record>, a: nat, b: nat, id: string)
    requires a <= b <= |records|
    ensures !MovedIn(records[a..b], id) ==> (id in After(start, records[..b]) <==> id in After(start, records[..a]))
    ensures MovedIn(records[a..b], id) && !DeletedIn(records[a..b], id) ==> id in After(start, records[..b])
    decreases b
  {
    if a == b {
    } else {
      var r := records[b - 1];
      assert records[..b][..b - 1] == records[..b - 1];
      RecordsDecide(start, records, a, b - 1, id);
      assert records[a..b] == records[a..b - 1] + [r];
      assert forall o :: o in records[a..b] <==> o in records[a..b - 1] || o == r;
    }
  }

  lemma MovedInSplits(records: seq<Record>, a: nat, b: nat, id: string)
    requires a <= b <= |records|
    ensures MovedIn(records[a..], id) <==> MovedIn(records[a..b], id) || MovedIn(records[b..], id)
  {
    assert records[a..] == records[a..b] + records[b..];
  }

  // ---------------------------------------------------------------- the replica over Gmail's pages

  /** Each page's messages are fetched after the records the pages so far hold. */
  predicate Fetched(run: seq<Request>, total: nat) {
    run == [] ||
    (Fetched(run[..|run| - 1], total) && |Received(run)| <= run[|run| - 1].fetchedAt <= total)
  }

  /** A replica applying each page's change set, the changed messages fetched from the mailbox as it is then. */
  function FollowPages(start: set<string>, records: seq<Record>, run: seq<Request>): set<string>
    requires Fetched(run, |records|)
  {
    if run == [] then start
    else
      var earlier, now := run[..|run| - 1], run[|run| - 1];
      Apply(FollowPages(start, records, earlier), Net(PageNotes(now.page.records, now.hidden)),
            After(start, records[..now.fetchedAt]))
  }

  /** The last page mentioning the identifier deletes it, and yet the mailbox has it where that page ends. */
  predicate LostByPages(start: set<string>, records: seq<Record>, run: seq<Request>, id: string)
    requires Fetched(run, |records|)
  {
    run != [] &&
    (var earlier, now := run[..|run| - 1], run[|run| - 1];
     if Mentioned(PageNotes(now.page.records, now.hidden), id)
     then DeletedIn(now.page.records, id) && id in After(start, records[..|Received(run)|])
     else LostByPages(start, records, earlier, id))
  }

  lemma PageDecides(start: set<string>, records: seq<Record>, from: nat, to: nat, now: Request, id: string)
    requires from <= to <= now.fetchedAt <= |records| && records[from..to] == now.page.records
    requires !MovedIn(records[to..], id)
    ensures var w, page := PageNotes(now.page.records, now.hidden), now.page.records;
            && (Moved(w, id) <==> MovedIn(page, id))
            && (Change(id, Removed) in w <==> DeletedIn(page, id))
            && (!MovedIn(page, id) ==> !MovedIn(records[from..], id))
            && (!MovedIn(page, id) ==> (id in After(start, records[..to]) <==> id in After(start, records[..from])))
            && (MovedIn(page, id) && !DeletedIn(page, id) ==> id in After(start, records[..to]))
    ensures id in After(start, records[..now.fetchedAt]) <==> id in After(start, records[..to])
  {
    hide After, PageNotes, DeletedIn, AddedIn;
    PageNotesHold(now.page.records, now.hidden, id);
    MovedInSplits(records, from, to, id);
    MovedInSplits(records, to, now.fetchedAt, id);
    RecordsDecide(start, records, from, to, id);
    RecordsDecide(start, records, to, now.fetchedAt, id);
  }

  lemma {:induction false} LostByPagesExactly(start: set<string>, records: seq<Record>, run: seq<Request>, id: string)
    requires Fetched(run, |records|) && |Received(run)| <= |records|
    requires Received(run) == records[..|Received(run)|] && !MovedIn(records[|Received(run)|..], id)
    ensures id in FollowPages(start, records, run)
            <==> id in After(start, records[..|Received(run)|]) && !LostByPages(start, records, run, id)
  {
    if run == [] {
      assert records[..0] == [];
    } else {
      hide Net, After, Apply, Mentioned, Moved, PageNotes, DeletedIn, AddedIn;
      var earlier, now := run[..|run| - 1], run[|run| - 1];
      var from, to := |Received(earlier)|, |Received(run)|;
      var w := PageNotes(now.page.records, now.hidden);
      assert records[from..to] == now.page.records;
      assert Received(earlier) == records[..from];
      PageDecides(start, records, from, to, now, id);
      if !MovedIn(records[from..to], id) {
        LostByPagesExactly(start, records, earlier, id);
      }
      SetExactly(w, id in After(start, records[..to]), FollowPages(start, records, earlier),
                 After(start, records[..now.fetchedAt]), LostByPages(start, records, earlier, id), id);
    }
  }

  /** The run has reached the end of the log. */
  predicate Finished(first: nat, run: seq<Request>) {
    && run != []
    && Run(first, run)
    && first <= run[0].page.current
    && Since(run[|run| - 1].log, CursorAfter(first, run)) == []
    && Fetched(run, |Since(run[|run| - 1].log, first)|)
  }

  /** A replica that has followed Gmail's pages to the end of the log, however it grew meanwhile, holds exactly
      what the log leaves, if and only if no identifier's last mention is a page that deletes it and adds it
      again. */
  lemma PagesInStepExactly(start: set<string>, first: nat, run: seq<Request>)
    requires Finished(first, run)
    ensures var all := Since(run[|run| - 1].log, first);
            FollowPages(start, all, run) == After(start, all)
            <==> forall id <- After(start, all) :: !LostByPages(start, all, run, id)
  {
    hide Run, Since, Received, FollowPages, After, LostByPages, Fetched;
    var all := Since(run[|run| - 1].log, first);
    EveryRecordOnce(first, run);
    assert Received(run) == all == all[..|all|];
    forall id
      ensures id in FollowPages(start, all, run) <==> id in After(start, all) && !LostByPages(start, all, run, id)
    {
      LostByPagesExactly(start, all, run, id);
    }
  }

  /** No identifier is added by a record after one that deletes it. */
  predicate NoneAddedAgain(records: seq<Record>) {
    forall i, j, id :: 0 <= i < j < |records| && id in records[i].deleted ==> id !in records[j].added
  }

  lemma {:induction false} DeletedStaysDeleted(start: set<string>, records: seq<Record>, n: nat, id: string)
    requires NoneAddedAgain(records) && n <= |records| && DeletedIn(records[..n], id)
    ensures id !in After(start, records[..n])
    decreases n
  {
    assert records[..n][..|records[..n]| - 1] == records[..n - 1];
    var i: nat :| i < n && id in records[i].deleted;
    if i >= n - 1 {
    } else {
      assert records[..n - 1][i] == records[i];
      DeletedStaysDeleted(start, records, n - 1, id);
    }
  }

  lemma {:induction false} NoneLostByPages(start: set<string>, records: seq<Record>, run: seq<Request>, id: string)
    requires NoneAddedAgain(records) && Fetched(run, |records|) && |Received(run)| <= |records|
    requires Received(run) == records[..|Received(run)|]
    ensures !LostByPages(start, records, run, id)
  {
    if run == [] {
    } else {
      hide After, NoneAddedAgain, PageNotes, Mentioned;
      var earlier, now := run[..|run| - 1], run[|run| - 1];
      var n := |Received(earlier)|;
      assert Received(earlier) == records[..n];
      NoneLostByPages(start, records, earlier, id);
      if DeletedIn(now.page.records, id) {
        var r :| r in now.page.records && id in r.deleted;
        assert r in Received(run);
        DeletedStaysDeleted(start, records, |Received(run)|, id);
      }
    }
  }

  /** It holds exactly that when no identifier is added again after it was deleted. */
  lemma PagesFollowInStep(start: set<string>, first: nat, run: seq<Request>)
    requires Finished(first, run) && NoneAddedAgain(Since(run[|run| - 1].log, first))
    ensures var all := Since(run[|run| - 1].log, first);
            FollowPages(start, all, run) == After(start, all)
  {
    hide Run, Since, Received, FollowPages, After, LostByPages, Fetched, NoneAddedAgain;
    var all := Since(run[|run| - 1].log, first);
    PagesInStepExactly(start, first, run);
    EveryRecordOnce(first, run);
    assert Received(run) == all == all[..|all|];
    forall id <- After(start, all) ensures !LostByPages(start, all, run, id) {
      NoneLostByPages(start, all, run, id);
    }
  }
}
