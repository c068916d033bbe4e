/** The chat window: the last messages appended, the pinned message, and the flag that marks
    its row (src/chat_model.cpp). */
module Chat {
  import opened Options

  const MAX_MESSAGES: nat := 200

  /** A timestamp is a number of milliseconds, or None when it is not a valid time. */
  datatype Entry = Entry(
    steamId: string,
    displayName: string,
    avatar: string,
    message: string,
    isSelf: bool,
    pinned: bool,
    timestamp: Option<int>
  )

  predicate SameMessage(a: Entry, b: Entry) {
    && a.steamId == b.steamId
    && a.message == b.message
    && (a.timestamp.Some? && b.timestamp.Some? ==> a.timestamp == b.timestamp)
  }

  // ----- which row is the pinned one -----

  predicate SameText(e: Entry, pinned: Entry) {
    e.steamId == pinned.steamId && e.message == pinned.message
  }

  predicate Timed(e: Entry, pinned: Entry) {
    e.timestamp.Some? && pinned.timestamp.Some?
  }

  function Distance(e: Entry, pinned: Entry): nat
    requires Timed(e, pinned)
  {
    var d := e.timestamp.value - pinned.timestamp.value;
    if d < 0 then -d else d
  }

  /** Row i is the first row with the pinned text that cannot be compared in time. */
  predicate FirstUntimed(rows: seq<Entry>, pinned: Entry, i: nat) {
    && i < |rows| && SameText(rows[i], pinned) && !Timed(rows[i], pinned)
    && forall j | 0 <= j < i && SameText(rows[j], pinned) :: Timed(rows[j], pinned)
  }

  /** All of the first n rows with the pinned text can be compared in time, and row i is the
      first of those closest to it. */
  predicate FirstClosest(rows: seq<Entry>, pinned: Entry, n: nat, i: nat)
    requires n <= |rows|
  {
    && i < n && SameText(rows[i], pinned)
    && (forall j | 0 <= j < n && SameText(rows[j], pinned) :: Timed(rows[j], pinned))
    && (forall j | 0 <= j < n && SameText(rows[j], pinned) :: Distance(rows[i], pinned) <= Distance(rows[j], pinned))
    && (forall j | 0 <= j < i && SameText(rows[j], pinned) :: Distance(rows[i], pinned) < Distance(rows[j], pinned))
  }

  predicate IsPinnedRow(rows: seq<Entry>, pinned: Option<Entry>, r: Option<nat>) {
    match (pinned, r)
    case (None, _) => r.None?
    case (Some(p), None) => forall j | 0 <= j < |rows| :: !SameText(rows[j], p)
    case (Some(p), Some(i)) => FirstUntimed(rows, p, i) || FirstClosest(rows, p, |rows|, i)
  }

  lemma PinnedRowUnique(rows: seq<Entry>, pinned: Option<Entry>, r: Option<nat>, q: Option<nat>)
    requires IsPinnedRow(rows, pinned, r) && IsPinnedRow(rows, pinned, q)
    ensures r == q
  {}

  /** Row j has the pinned sender and text. */
  ghost predicate Candidate(rows: seq<Entry>, pinned: Entry, j: nat) {
    j < |rows| && rows[j].steamId == pinned.steamId && rows[j].message == pinned.message
  }

  /** Milliseconds between row j and the pinned message, if both have a valid time. */
  ghost function Apart(rows: seq<Entry>, pinned: Entry, j: nat): Option<int>
    requires j < |rows|
  {
    match (rows[j].timestamp, pinned.timestamp)
    case (Some(t), Some(p)) => Some(if t < p then p - t else t - p)
    case _ => None
  }

  /** Row i wins over row j: it comes first and has no distance, or both have one, i's being
      smaller, or equal and i not later. */
  ghost predicate Wins(rows: seq<Entry>, pinned: Entry, i: nat, j: nat)
    requires i < |rows| && j < |rows|
  {
    match (Apart(rows, pinned, i), Apart(rows, pinned, j))
    case (None, None) => i <= j
    case (None, Some(_)) => true
    case (Some(_), None) => false
    case (Some(a), Some(b)) => a < b || (a == b && i <= j)
  }

  /** The row chosen has the pinned sender and text and wins over every other that has; there is
      none only if no row has them, or nothing is pinned. */
  lemma PinnedRowExactly(rows: seq<Entry>, pinned: Entry, i: nat)
    ensures IsPinnedRow(rows, Some(pinned), Some(i)) <==>
              Candidate(rows, pinned, i) && forall j | Candidate(rows, pinned, j) :: Wins(rows, pinned, i, j)
    ensures IsPinnedRow(rows, Some(pinned), None) <==> forall j :: !Candidate(rows, pinned, j)
    ensures IsPinnedRow(rows, None, None) && !IsPinnedRow(rows, None, Some(i))
  {
    forall j: nat | j < |rows| ensures Candidate(rows, pinned, j) <==> SameText(rows[j], pinned) {}
    if Candidate(rows, pinned, i) && forall j | Candidate(rows, pinned, j) :: Wins(rows, pinned, i, j) {
      WinnerIsPinnedRow(rows, pinned, i);
    }
    if IsPinnedRow(rows, Some(pinned), Some(i)) {
      forall j: nat | Candidate(rows, pinned, j) ensures Wins(rows, pinned, i, j) {
        assert SameText(rows[j], pinned);
      }
    }
  }

  lemma WinnerIsPinnedRow(rows: seq<Entry>, pinned: Entry, i: nat)
    requires Candidate(rows, pinned, i) && forall j | Candidate(rows, pinned, j) :: Wins(rows, pinned, i, j)
    ensures IsPinnedRow(rows, Some(pinned), Some(i))
  {
    forall j: nat | j < |rows| && SameText(rows[j], pinned) ensures Wins(rows, pinned, i, j) {
      assert Candidate(rows, pinned, j);
    }
    if Timed(rows[i], pinned) {
      assert FirstClosest(rows, pinned, |rows|, i);
    } else {
      assert FirstUntimed(rows, pinned, i);
    }
  }

  /** Every row with the pinned text can be compared with it in time. */
  predicate AllTimed(rows: seq<Entry>, pinned: Entry) {
    forall j | 0 <= j < |rows| && SameText(rows[j], pinned) :: Timed(rows[j], pinned)
  }

  /** The row has the pinned sender, text and time. */
  predicate SameMoment(e: Entry, pinned: Entry) {
    SameText(e, pinned) && e.timestamp == pinned.timestamp
  }

  /** What the chosen row is: the first row with the pinned text, if the pinned message has no
      valid time. If it has one, the row is the pinned message itself, time included, exactly when
      no row with its text is untimed and one of them has its time. */
  lemma PinFindsItself(rows: seq<Entry>, pinned: Entry, i: nat)
    requires IsPinnedRow(rows, Some(pinned), Some(i))
    ensures i < |rows| && SameText(rows[i], pinned)
    ensures pinned.timestamp.None? ==> forall j | 0 <= j < i :: !SameText(rows[j], pinned)
    ensures pinned.timestamp.Some? ==>
              (SameMoment(rows[i], pinned) <==>
               AllTimed(rows, pinned) && exists j :: 0 <= j < |rows| && SameMoment(rows[j], pinned))
    // what sameMessage compares, which is less when a time is invalid
    ensures SameMessage(rows[i], pinned) <==> exists j | 0 <= j < |rows| :: SameMessage(rows[j], pinned)
  {
    forall j | 0 <= j < |rows| && SameMessage(rows[j], pinned) ensures SameMessage(rows[i], pinned) {
      assert SameText(rows[j], pinned);
    }
    if pinned.timestamp.Some? && AllTimed(rows, pinned) {
      forall j | 0 <= j < |rows| && SameMoment(rows[j], pinned) ensures SameMoment(rows[i], pinned) {
        assert Distance(rows[j], pinned) == 0;
      }
    }
  }

  /** The pinned message has left the window, and a later one with its text is flagged. */
  lemma OtherMomentIsFlagged(pinned: Entry, later: Entry)
    requires SameText(later, pinned) && Timed(later, pinned) && later.timestamp != pinned.timestamp
    ensures var window := Last([pinned] + seq(MAX_MESSAGES, _ => later), MAX_MESSAGES);
            IsPinnedRow(window, Some(pinned), Some(0)) && !SameMoment(window[0], pinned)
  {
    var history := [pinned] + seq(MAX_MESSAGES, _ => later);
    var window := Last(history, MAX_MESSAGES);
    assert window == history[1..];
    assert forall j | 0 <= j < |window| :: window[j] == later;
    assert FirstClosest(window, pinned, |window|, 0);
  }

  /** The pinned message is in the window, but an untimed one with its text is flagged. */
  lemma UntimedLookAlikeIsFlagged(pinned: Entry)
    requires pinned.timestamp.Some?
    ensures var rows := [pinned.(timestamp := None), pinned];
            IsPinnedRow(rows, Some(pinned), Some(0)) && !SameMoment(rows[0], pinned) && SameMoment(rows[1], pinned)
  {
    assert FirstUntimed([pinned.(timestamp := None), pinned], pinned, 0);
  }

  // ----- flags and window -----

  function Unflagged(e: Entry): Entry {
    e.(pinned := false)
  }

  /** Row k of rows and of other differ at most in the flag. */
  predicate SameContent(rows: seq<Entry>, other: seq<Entry>) {
    && |rows| == |other|
    && forall k | 0 <= k < |rows| :: Unflagged(rows[k]) == Unflagged(other[k])
  }

  function Last(history: seq<Entry>, n: nat): seq<Entry> {
    if |history| <= n then history else history[|history| - n..]
  }

  /** The flag is on the pinned row and on no other. */
  ghost predicate Flagged(rows: seq<Entry>, pinned: Option<Entry>) {
    exists r :: IsPinnedRow(rows, pinned, r) && FlagOnly(rows, r)
  }

  predicate FlagOnly(rows: seq<Entry>, r: Option<nat>) {
    forall k: nat | k < |rows| :: rows[k].pinned <==> r == Some(k)
  }

  lemma FlagsDoNotMatter(rows: seq<Entry>, other: seq<Entry>, pinned: Option<Entry>, r: Option<nat>)
    requires SameContent(rows, other)
    ensures IsPinnedRow(rows, pinned, r) <==> IsPinnedRow(other, pinned, r)
  {
    assert forall k | 0 <= k < |rows| :: Unflagged(rows[k]) == Unflagged(other[k]);
    if pinned.Some? {
      forall k | 0 <= k < |rows|
        ensures SameText(rows[k], pinned.value) == SameText(other[k], pinned.value)
        ensures rows[k].timestamp == other[k].timestamp
      {
        assert Unflagged(rows[k]) == Unflagged(other[k]);
      }
    }
  }

  // ----- row ranges -----

  datatype Range = Range(first: nat, last: nat)

  ghost predicate Covers(ranges: seq<Range>, row: nat) {
    exists range :: range in ranges && range.first <= row <= range.last
  }

  /** Ascending, disjoint, and with a gap of at least one row between any two. */
  predicate Coalesced(ranges: seq<Range>) {
    && (forall i | 0 <= i < |ranges| :: ranges[i].first <= ranges[i].last)
    && (forall i, j | 0 <= i < j < |ranges| :: ranges[i].last + 1 < ranges[j].first)
  }

  predicate Ascending(rows: seq<nat>) {
    forall i, j | 0 <= i < j < |rows| :: rows[i] < rows[j]
  }

  lemma CoversLast(ranges: seq<Range>, last: Range, row: nat)
    ensures Covers(ranges + [last], row) <==> Covers(ranges, row) || last.first <= row <= last.last
  {
    assert last in ranges + [last];
    if Covers(ranges, row) {
      var range :| range in ranges && range.first <= row <= range.last;
      assert range in ranges + [last];
    }
  }

  lemma CoalescedLast(ranges: seq<Range>, last: Range)
    ensures Coalesced(ranges + [last]) <==>
            && Coalesced(ranges)
            && last.first <= last.last
            && (ranges != [] ==> ranges[|ranges| - 1].last + 1 < last.first)
  {
    var all := ranges + [last];
    assert all[|ranges|] == last && forall i | 0 <= i < |ranges| :: all[i] == ranges[i];
    if Coalesced(all) {
      forall i, j | 0 <= i < j < |ranges| ensures ranges[i].last + 1 < ranges[j].first {
        assert all[i].last + 1 < all[j].first;
      }
    }
    if Coalesced(ranges) && ranges != [] && ranges[|ranges| - 1].last + 1 < last.first {
      forall i | 0 <= i < |ranges| ensures ranges[i].last + 1 < last.first {
        assert i < |ranges| - 1 ==> ranges[i].last + 1 < ranges[|ranges| - 1].first;
      }
    }
  }

  method Coalesce(rows: seq<nat>) returns (ranges: seq<Range>)
    requires rows != [] && Ascending(rows)
    ensures Coalesced(ranges)
    ensures forall row :: Covers(ranges, row) <==> row in rows
  {
    ranges := [];
    var start, end := rows[0], rows[0];
    var idx := 1;
    CoalescedLast([], Range(start, end));
    forall row ensures Covers([Range(start, end)], row) <==> row in rows[..1] {
      CoversLast([], Range(start, end), row);
    }
    assert [] + [Range(start, end)] == [Range(start, end)];
    while idx < |rows|
      invariant 1 <= idx <= |rows|
      invariant start <= end == rows[idx - 1]
      invariant Coalesced(ranges + [Range(start, end)])
      invariant forall row :: Covers(ranges + [Range(start, end)], row) <==> row in rows[..idx]
    {
      var row := rows[idx];
      ghost var before := ranges + [Range(start, end)];
      CoalescedLast(ranges, Range(start, end));
      assert rows[..idx + 1] == rows[..idx] + [row];
      if row == end + 1 {
        CoalescedLast(ranges, Range(start, row));
        forall x ensures Covers(ranges + [Range(start, row)], x) <==> x in rows[..idx + 1] {
          CoversLast(ranges, Range(start, end), x);
          CoversLast(ranges, Range(start, row), x);
        }
        end := row;
      } else {
        CoalescedLast(before, Range(row, row));
        forall x ensures Covers(before + [Range(row, row)], x) <==> x in rows[..idx + 1] {
          CoversLast(before, Range(row, row), x);
        }
        ranges := ranges + [Range(start, end)];
        start, end := row, row;
      }
      idx := idx + 1;
    }
    ranges := ranges + [Range(start, end)];
    assert rows[..idx] == rows;
  }

  predicate Spans(o: Range, row: nat) {
    o.first <= row <= o.last
  }

  /** A range that covers no row outside a coalesced list spans the start of at most one of
      its ranges. */
  lemma SpansOneStart(ranges: seq<Range>, o: Range, i: nat, j: nat)
    requires Coalesced(ranges) && i < j < |ranges|
    requires forall row | Spans(o, row) :: Covers(ranges, row)
    requires Spans(o, ranges[i].first)
    ensures !Spans(o, ranges[j].first)
  {
    var gap := ranges[i].last + 1;
    forall range | range in ranges ensures !(range.first <= gap <= range.last) {
      var k :| 0 <= k < |ranges| && ranges[k] == range;
      assert k < i ==> ranges[k].last + 1 < ranges[i].first;
      assert k > i ==> gap < ranges[k].first;
    }
    assert !Covers(ranges, gap);
    assert !Spans(o, gap);
  }

  lemma {:induction false} StartsNeedDistinctRanges(ranges: seq<Range>, other: seq<Range>, n: nat) returns (used: set<Range>)
    requires Coalesced(ranges) && n <= |ranges|
    requires forall row :: Covers(ranges, row) <==> Covers(other, row)
    ensures |used| == n
    ensures forall o | o in used :: o in other && exists i | 0 <= i < n :: Spans(o, ranges[i].first)
  {
    used := {};
    if n > 0 {
      var rest := StartsNeedDistinctRanges(ranges, other, n - 1);
      var o := RangeAtStart(ranges, other, n - 1);
      forall i | 0 <= i < n - 1 && Spans(o, ranges[i].first) ensures false {
        SpansOneStart(ranges, o, i, n - 1);
      }
      assert o !in rest;
      used := rest + {o};
    }
  }

  lemma RangeAtStart(ranges: seq<Range>, other: seq<Range>, i: nat) returns (o: Range)
    requires i < |ranges| && Coalesced(ranges)
    requires forall row :: Covers(ranges, row) <==> Covers(other, row)
    ensures o in other && Spans(o, ranges[i].first)
    ensures forall row | Spans(o, row) :: Covers(ranges, row)
  {
    var start := ranges[i].first;
    assert ranges[i] in ranges && Covers(ranges, start);
    o :| o in other && o.first <= start <= o.last;
    forall row | Spans(o, row) ensures Covers(ranges, row) {
      assert Covers(other, row);
    }
  }

  lemma {:induction false} SetNotLarger<T>(s: seq<T>, members: set<T>)
    requires forall x | x in members :: x in s
    ensures |members| <= |s|
  {
    if s == [] {
      assert members == {};
    } else {
      SetNotLarger(s[1..], members - {s[0]});
    }
  }

  /** No list of ranges covering the same rows is shorter than a coalesced one. */
  lemma CoalescedIsShortest(ranges: seq<Range>, other: seq<Range>)
    requires Coalesced(ranges)
    requires forall row :: Covers(ranges, row) <==> Covers(other, row)
    ensures |ranges| <= |other|
  {
    var used := StartsNeedDistinctRanges(ranges, other, |ranges|);
    SetNotLarger(other, used);
  }

  // ----- the class -----

  function Overflow(rows: seq<Entry>): (n: nat)
    ensures n <= |rows|
  {
    if |rows| > MAX_MESSAGES then |rows| - MAX_MESSAGES else 0
  }

  lemma LastAppend(history: seq<Entry>, e: Entry, n: nat)
    ensures var all := Last(history, n) + [e];
            Last(history + [e], n) == if |all| > n then all[|all| - n..] else all
  {}

  lemma SameContentAppend(rows: seq<Entry>, shown: seq<Entry>, e: Entry, entry: Entry)
    requires SameContent(rows, shown) && Unflagged(e) == Unflagged(entry)
    ensures SameContent(rows + [e], shown + [entry])
  {
    forall k | 0 <= k < |rows| + 1 ensures Unflagged((rows + [e])[k]) == Unflagged((shown + [entry])[k]) {
      if k < |rows| {
        assert Unflagged(rows[k]) == Unflagged(shown[k]);
      }
    }
  }

  lemma SameContentDrop(rows: seq<Entry>, shown: seq<Entry>, n: nat)
    requires SameContent(rows, shown) && n <= |rows|
    ensures SameContent(rows[n..], shown[n..])
  {
    forall k | 0 <= k < |rows| - n ensures Unflagged(rows[n..][k]) == Unflagged(shown[n..][k]) {
      assert Unflagged(rows[n + k]) == Unflagged(shown[n + k]);
    }
  }

  /** Appending a message to the window and dropping the overflow gives the window of the
      longer history. */
  lemma WindowSlides(history: seq<Entry>, rows: seq<Entry>, e: Entry, entry: Entry)
    requires SameContent(rows, Last(history, MAX_MESSAGES))
    requires Unflagged(e) == Unflagged(entry)
    ensures var all := rows + [e];
            SameContent(all[Overflow(all)..], Last(history + [entry], MAX_MESSAGES))
  {
    var all, shown := rows + [e], Last(history, MAX_MESSAGES) + [entry];
    SameContentAppend(rows, Last(history, MAX_MESSAGES), e, entry);
    SameContentDrop(all, shown, Overflow(all));
    LastAppend(history, entry, MAX_MESSAGES);
    assert all[0..] == all && shown[0..] == shown;
  }

  lemma SameContentChains(a: seq<Entry>, b: seq<Entry>, c: seq<Entry>)
    requires SameContent(a, b) && SameContent(b, c)
    ensures SameContent(a, c)
  {
    forall k | 0 <= k < |a| ensures Unflagged(a[k]) == Unflagged(c[k]) {
      assert Unflagged(a[k]) == Unflagged(b[k]);
    }
  }

  /** The coalesced ranges name exactly the rows whose flag differs. */
  ghost predicate Repaints(ranges: seq<Range>, before: seq<Entry>, after: seq<Entry>) {
    && |before| == |after|
    && Coalesced(ranges)
    && forall row: nat :: Covers(ranges, row) <==> row < |after| && after[row].pinned != before[row].pinned
  }

  class ChatModel {
    var entries: seq<Entry>
    var pinnedEntry: Option<Entry>
    /** Everything appended since the last clear. */
    ghost var history: seq<Entry>

    ghost predicate Valid()
      reads this
    {
      && SameContent(entries, Last(history, MAX_MESSAGES))
      && Flagged(entries, pinnedEntry)
    }

    constructor ()
      ensures Valid() && history == [] && pinnedEntry == None
    {
      entries, pinnedEntry, history := [], None, [];
      new;
      assert IsPinnedRow(entries, None, None) && FlagOnly(entries, None);
    }

    /** In every state: the flagged row of the window shows the pinned message itself exactly when
        the messages in the window with its text all have a valid time and one of them has its
        time; and some row is flagged exactly when some message has its text. */
    lemma FlagShowsPinned(k: nat)
      requires Valid() && pinnedEntry.Some? && pinnedEntry.value.timestamp.Some?
      requires k < |entries| && entries[k].pinned
      ensures var window, pinned := Last(history, MAX_MESSAGES), pinnedEntry.value;
              && k < |window| && SameText(window[k], pinned)
              && (SameMoment(window[k], pinned) <==>
                  AllTimed(window, pinned) && exists j :: 0 <= j < |window| && SameMoment(window[j], pinned))
    {
      var window := Last(history, MAX_MESSAGES);
      var r :| IsPinnedRow(entries, pinnedEntry, r) && FlagOnly(entries, r);
      FlagsDoNotMatter(entries, window, pinnedEntry, r);
      PinFindsItself(window, pinnedEntry.value, k);
    }

    lemma SomeRowFlagged()
      requires Valid() && pinnedEntry.Some?
      ensures (exists k :: 0 <= k < |entries| && entries[k].pinned) <==>
              exists j :: 0 <= j < |Last(history, MAX_MESSAGES)| && SameText(Last(history, MAX_MESSAGES)[j], pinnedEntry.value)
    {
      var window := Last(history, MAX_MESSAGES);
      var r :| IsPinnedRow(entries, pinnedEntry, r) && FlagOnly(entries, r);
      FlagsDoNotMatter(entries, window, pinnedEntry, r);
      if r.Some? {
        assert entries[r.value].pinned;
      }
    }

    /** The window shows the last 200 messages, each as it was appended except for the flag. */
    lemma ShowsLatest(k: nat)
      requires Valid() && k < |entries|
      ensures |entries| == if |history| <= 200 then |history| else 200
      ensures var e, sent := entries[k], history[|history| - |entries| + k];
              && e.steamId == sent.steamId && e.displayName == sent.displayName && e.avatar == sent.avatar
              && e.message == sent.message && e.isSelf == sent.isSelf && e.timestamp == sent.timestamp
    {
      assert Unflagged(entries[k]) == Unflagged(Last(history, MAX_MESSAGES)[k]);
    }

    /** The flag is on the row that wins over all with the pinned sender and text, and only there. */
    lemma FlagExactly(k: nat)
      requires Valid() && k < |entries|
      ensures entries[k].pinned <==>
                && pinnedEntry.Some? && Candidate(entries, pinnedEntry.value, k)
                && forall j | Candidate(entries, pinnedEntry.value, j) :: Wins(entries, pinnedEntry.value, k, j)
    {
      var r :| IsPinnedRow(entries, pinnedEntry, r) && FlagOnly(entries, r);
      if pinnedEntry.Some? {
        PinnedRowExactly(entries, pinnedEntry.value, k);
        if IsPinnedRow(entries, pinnedEntry, Some(k)) {
          PinnedRowUnique(entries, pinnedEntry, r, Some(k));
        }
      }
    }

    method FindPinnedEntryIndex() returns (r: Option<nat>)
      ensures IsPinnedRow(entries, pinnedEntry, r)
    {
      r := None;
      if pinnedEntry.None? || entries == [] {
        return;
      }
      var pinned := pinnedEntry.value;
      var bestDelta := 0;
      var i := 0;
      while i < |entries|
        invariant 0 <= i <= |entries|
        invariant r.None? ==> forall j | 0 <= j < i :: !SameText(entries[j], pinned)
        invariant r.Some? ==>
                    FirstClosest(entries, pinned, i, r.value) && bestDelta == Distance(entries[r.value], pinned)
      {
        var entry := entries[i];
        if SameText(entry, pinned) {
          if entry.timestamp.None? || pinned.timestamp.None? {
            assert FirstUntimed(entries, pinned, i);
            return Some(i);
          }
          var delta := Distance(entry, pinned);
          if r.None? || delta < bestDelta {
            bestDelta := delta;
            r := Some(i);
          }
        }
        i := i + 1;
      }
    }

    /** Moves the flag and names the rows whose flag changed. */
    method UpdatePinnedFlags() returns (ranges: seq<Range>)
      modifies this`entries
      ensures SameContent(entries, old(entries))
      ensures Flagged(entries, pinnedEntry)
      ensures Repaints(ranges, old(entries), entries)
    {
      ranges := [];
      var pinnedRow := FindPinnedEntryIndex();
      ghost var before := entries;
      var changedRows: seq<nat> := [];
      var i := 0;
      while i < |entries|
        invariant 0 <= i <= |entries| == |before|
        invariant forall k | 0 <= k < |entries| :: Unflagged(entries[k]) == Unflagged(before[k])
        invariant forall k | i <= k < |entries| :: entries[k] == before[k]
        invariant forall k: nat | k < i :: entries[k].pinned <==> pinnedRow == Some(k)
        invariant Ascending(changedRows)
        invariant forall row: nat :: row in changedRows <==> row < i && entries[row].pinned != before[row].pinned
      {
        var shouldPin := pinnedRow == Some(i);
        if entries[i].pinned != shouldPin {
          entries := entries[i := entries[i].(pinned := shouldPin)];
          assert forall j | 0 <= j < |changedRows| :: changedRows[j] in changedRows;
          changedRows := changedRows + [i];
        }
        i := i + 1;
      }
      FlagsDoNotMatter(entries, before, pinnedEntry, pinnedRow);
      assert FlagOnly(entries, pinnedRow);
      if changedRows != [] {
        ranges := Coalesce(changedRows);
      }
    }

    method AppendMessage(entry: Entry) returns (removed: nat, ranges: seq<Range>)
      requires Valid()
      modifies this
      ensures Valid()
      ensures history == old(history) + [entry] && pinnedEntry == old(pinnedEntry)
      ensures removed == if |old(entries)| >= 200 then |old(entries)| - 199 else 0
      // inserted with its own flag, or flagged if it looks like the pinned message
      ensures var flagged :=
                || entry.pinned
                || (pinnedEntry.Some? && var p := pinnedEntry.value;
                    && entry.steamId == p.steamId && entry.message == p.message
                    && (entry.timestamp.None? || p.timestamp.None? || entry.timestamp.value == p.timestamp.value));
              Repaints(ranges, (old(entries) + [entry.(pinned := flagged)])[removed..], entries)
    {
      var e := entry;
      if pinnedEntry.Some? && SameMessage(entry, pinnedEntry.value) {
        e := e.(pinned := true);
      }
      entries := entries + [e];
      WindowSlides(history, old(entries), e, entry);
      removed := Overflow(entries);
      entries := entries[removed..];
      ghost var shown := entries;
      history := history + [entry];
      ranges := UpdatePinnedFlags();
      SameContentChains(entries, shown, Last(history, MAX_MESSAGES));
    }

    method Clear() returns (pinnedChanged: bool)
      requires Valid()
      modifies this
      ensures Valid()
      ensures history == [] && entries == [] && pinnedEntry == None
      ensures pinnedChanged <==> old(pinnedEntry).Some?
    {
      pinnedChanged := pinnedEntry.Some?;
      pinnedEntry := None;
      history := [];
      if entries != [] {
        entries := [];
      }
      assert IsPinnedRow(entries, None, None) && FlagOnly(entries, None);
    }

    method SetPinnedMessage(entry: Entry) returns (changed: bool, ranges: seq<Range>)
      requires Valid()
      modifies this
      ensures Valid()
      ensures history == old(history) && pinnedEntry == Some(entry.(pinned := true))
      ensures changed <==>
                old(pinnedEntry).None? || var p := old(pinnedEntry).value;
                || p.steamId != entry.steamId || p.message != entry.message
                || (p.timestamp.Some? && entry.timestamp.Some? && p.timestamp.value != entry.timestamp.value)
      ensures Repaints(ranges, old(entries), entries)
    {
      var pinned := entry.(pinned := true);
      changed := pinnedEntry.None? || !SameMessage(pinnedEntry.value, pinned);
      pinnedEntry := Some(pinned);
      ranges := UpdatePinnedFlags();
    }

    method ClearPinnedMessage() returns (changed: bool, ranges: seq<Range>)
      requires Valid()
      modifies this
      ensures Valid()
      ensures history == old(history) && pinnedEntry == None
      ensures changed <==> old(pinnedEntry).Some?
      ensures forall row: nat | row < |entries| :: !entries[row].pinned
      ensures Repaints(ranges, old(entries), entries)
    {
      changed, ranges := false, [];
      if pinnedEntry.None? {
        return;
      }
      pinnedEntry := None;
      ranges := UpdatePinnedFlags();
      changed := true;
    }
  }
}
