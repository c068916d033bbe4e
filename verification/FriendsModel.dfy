/** The friend list: all entries as received, and the filtered, sorted view shown to the user,
    which setInviteCooldown patches in place instead of computing again
    (src/friends_model.cpp). */
module Friends {
  import opened Options
  import opened StableSort

  datatype Entry = Entry(
    steamId: string,
    displayName: string,
    avatarData: string,
    online: bool,
    status: string,
    presenceRank: int,
    inviteCooldown: int
  )

  // ----- strings -----

  predicate StartsWith(text: string, key: string) {
    key <= text
  }

  predicate Occurs(text: string, key: string) {
    exists i | 0 <= i <= |text| :: StartsWith(text[i..], key)
  }

  /** Comparison of strings code unit by code unit. */
  predicate Precedes(a: string, b: string) {
    if b == [] then false
    else if a == [] then true
    else if a[0] != b[0] then a[0] < b[0]
    else Precedes(a[1..], b[1..])
  }

  lemma {:induction false} PrecedesIrreflexive(a: string)
    ensures !Precedes(a, a)
  {
    if a != [] {
      PrecedesIrreflexive(a[1..]);
    }
  }

  lemma {:induction false} PrecedesTransitive(a: string, b: string, c: string)
    ensures Precedes(a, b) && Precedes(b, c) ==> Precedes(a, c)
    ensures !Precedes(a, b) && !Precedes(b, c) ==> !Precedes(a, c)
  {
    if a != [] && b != [] && c != [] {
      PrecedesTransitive(a[1..], b[1..], c[1..]);
    }
  }

  ghost predicate KeyAt(text: string, key: string, i: nat) {
    i + |key| <= |text| && text[i..i + |key|] == key
  }

  /** A key is looked for anywhere in the text. */
  lemma OccursExactly(text: string, key: string)
    ensures Occurs(text, key) <==> exists i :: KeyAt(text, key, i)
    ensures StartsWith(text, key) <==> KeyAt(text, key, 0)
  {
    forall i: nat | i <= |text| ensures StartsWith(text[i..], key) <==> KeyAt(text, key, i) {
      if i + |key| <= |text| {
        assert text[i..][..|key|] == text[i..i + |key|];
      }
    }
    if i: nat :| KeyAt(text, key, i) {
      assert StartsWith(text[i..], key);
    }
    assert text[0..] == text;
  }

  /** The strings agree up to i, where a ends or has the smaller code unit. */
  ghost predicate BeforeAt(a: string, b: string, i: nat) {
    i <= |a| && i < |b| && a[..i] == b[..i] && (i == |a| || a[i] < b[i])
  }

  lemma {:induction false} PrecedesExactly(a: string, b: string)
    ensures Precedes(a, b) <==> exists i :: BeforeAt(a, b, i)
  {
    if b != [] && (a == [] || a[0] != b[0]) {
      assert BeforeAt(a, b, 0) <==> (a == [] || a[0] < b[0]);
      forall i: nat | i > 0 && i <= |a| && i < |b| ensures a[..i] != b[..i] {
        assert a[..i][0] != b[..i][0];
      }
    } else if b != [] {
      PrecedesExactly(a[1..], b[1..]);
      forall i: nat ensures BeforeAt(a, b, i + 1) <==> BeforeAt(a[1..], b[1..], i) {
        if i < |a| && i + 1 < |b| {
          assert a[..i + 1] == [a[0]] + a[1..][..i] && b[..i + 1] == [b[0]] + b[1..][..i];
        }
      }
      if i: nat :| BeforeAt(a, b, i) {
        assert BeforeAt(a[1..], b[1..], i - 1);
      }
      if i: nat :| BeforeAt(a[1..], b[1..], i) {
        assert BeforeAt(a, b, i + 1);
      }
    }
  }

  // ----- the view -----

  /** What an entry is compared by under a key: presence, then how well the name matches, then
      the name itself. Lower is the case folding of names. */
  datatype Order = Order(lower: string -> string, key: string) {
    predicate Matches(e: Entry) {
      key == "" || Occurs(lower(e.displayName), key)
    }

    function Score(e: Entry): int {
      if key == "" then 0
      else if StartsWith(lower(e.displayName), key) then 0
      else if Occurs(lower(e.displayName), key) then 1
      else 2
    }

    predicate Less(a: Entry, b: Entry) {
      if a.presenceRank != b.presenceRank then a.presenceRank < b.presenceRank
      else if Score(a) != Score(b) then Score(a) < Score(b)
      else Precedes(lower(a.displayName), lower(b.displayName))
    }

    function View(source: seq<Entry>): seq<Entry> {
      Sort(Less, Filter(Matches, source))
    }
  }

  lemma OrderIsStrictWeak(o: Order)
    ensures StrictWeakOrder(o.Less)
  {
    forall a ensures !o.Less(a, a) {
      PrecedesIrreflexive(o.lower(a.displayName));
    }
    forall a, b, c
      ensures o.Less(a, b) && o.Less(b, c) ==> o.Less(a, c)
      ensures !o.Less(a, b) && !o.Less(b, c) ==> !o.Less(a, c)
    {
      PrecedesTransitive(o.lower(a.displayName), o.lower(b.displayName), o.lower(c.displayName));
    }
  }

  /** The view is the only arrangement that is sorted and keeps the received order among
      entries the comparison does not tell apart. */
  lemma ViewIsTheStableArrangement(o: Order, source: seq<Entry>, r: seq<Entry>)
    ensures r == o.View(source) <==>
            Sorted(o.Less, r) && SameOrderWithinClasses(o.Less, r, Filter(o.Matches, source))
  {
    OrderIsStrictWeak(o);
    StableSortUnique(o.Less, Filter(o.Matches, source), r);
  }

  /** The name folded contains the key, or there is no key. */
  ghost predicate Shown(o: Order, e: Entry) {
    o.key == "" || exists i :: KeyAt(o.lower(e.displayName), o.key, i)
  }

  /** The name folded begins with the key; every name does if there is none. */
  ghost predicate Leads(o: Order, e: Entry) {
    KeyAt(o.lower(e.displayName), o.key, 0)
  }

  ghost predicate NameBefore(o: Order, a: Entry, b: Entry) {
    exists i :: BeforeAt(o.lower(a.displayName), o.lower(b.displayName), i)
  }

  lemma MatchesExactly(o: Order, e: Entry)
    ensures o.Matches(e) <==> Shown(o, e)
  {
    OccursExactly(o.lower(e.displayName), o.key);
  }

  /** Exactly the entries are shown in whose folded name the key occurs, each as often as it was
      received. */
  lemma ViewShowsMatches(o: Order, source: seq<Entry>, x: Entry)
    ensures multiset(o.View(source))[x] == if Shown(o, x) then multiset(source)[x] else 0
    ensures x in o.View(source) <==> x in source && Shown(o, x)
  {
    var shown := Filter(o.Matches, source);
    MatchesExactly(o, x);
    SortMembers(o.Less, shown);
    FilterCounts(o.Matches, source, x);
    assert x in o.View(source) <==> multiset(o.View(source))[x] > 0;
  }

  /** Entries are compared by presence, then by whether the name begins with the key, then by the
      names; this holds of entries that are shown. */
  lemma LessExactly(o: Order, a: Entry, b: Entry)
    requires Shown(o, a) && Shown(o, b)
    ensures o.Less(a, b) <==>
              || a.presenceRank < b.presenceRank
              || (a.presenceRank == b.presenceRank && Leads(o, a) && !Leads(o, b))
              || (a.presenceRank == b.presenceRank && (Leads(o, a) <==> Leads(o, b)) && NameBefore(o, a, b))
  {
    var nameA, nameB := o.lower(a.displayName), o.lower(b.displayName);
    OccursExactly(nameA, o.key);
    OccursExactly(nameB, o.key);
    PrecedesExactly(nameA, nameB);
  }

  /** They are shown by presence; within one presence those whose name begins with the key come
      first; and among these, as among the others, names ascend. */
  lemma ViewShowsPrefixMatchesFirst(o: Order, source: seq<Entry>)
    ensures forall i, j | 0 <= i < j < |o.View(source)| ::
              var a, b := o.View(source)[i], o.View(source)[j];
              && a.presenceRank <= b.presenceRank
              && (a.presenceRank == b.presenceRank && Leads(o, b) ==> Leads(o, a))
              && (a.presenceRank == b.presenceRank && (Leads(o, a) <==> Leads(o, b)) ==> !NameBefore(o, b, a))
  {
    OrderIsStrictWeak(o);
    SortIsStable(o.Less, Filter(o.Matches, source));
    var view := o.View(source);
    forall i, j | 0 <= i < j < |view|
      ensures view[i].presenceRank <= view[j].presenceRank
      ensures view[i].presenceRank == view[j].presenceRank && Leads(o, view[j]) ==> Leads(o, view[i])
      ensures view[i].presenceRank == view[j].presenceRank && (Leads(o, view[i]) <==> Leads(o, view[j])) ==>
                !NameBefore(o, view[j], view[i])
    {
      ViewShowsMatches(o, source, view[i]);
      ViewShowsMatches(o, source, view[j]);
      LessExactly(o, view[j], view[i]);
    }
  }

  /** Two shown entries of one presence, both or neither beginning with the key, and with names
      neither of which comes first, stand in the order they were received in. */
  lemma ViewKeepsReceivedOrder(o: Order, source: seq<Entry>, a: Entry, b: Entry)
    requires Shown(o, a) && Shown(o, b)
    requires a.presenceRank == b.presenceRank && (Leads(o, a) <==> Leads(o, b))
    requires !NameBefore(o, a, b) && !NameBefore(o, b, a)
    ensures Before(o.View(source), a, b) <==> Before(source, a, b)
  {
    OrderIsStrictWeak(o);
    MatchesExactly(o, a);
    MatchesExactly(o, b);
    LessExactly(o, a, b);
    LessExactly(o, b, a);
    SortKeepsOrder(o.Less, o.Matches, source, a, b);
  }

  // ----- the model as a value -----

  datatype Model = Model(entries: seq<Entry>, filtered: seq<Entry>, filter: string, filterLower: string)

  datatype Op =
    | SetFriends(list: seq<Entry>)
    | SetFilter(text: string)
    | SetInviteCooldown(steamId: string, seconds: int)

  const INITIAL := Model([], [], "", "")

  function WithId(steamId: string): Entry -> bool {
    (e: Entry) => e.steamId == steamId
  }

  function Cooldown(seconds: int): Entry -> Entry {
    (e: Entry) => e.(inviteCooldown := seconds)
  }

  function Next(lower: string -> string, m: Model, op: Op): Model {
    match op
    case SetFriends(list) =>
      m.(entries := list, filtered := Order(lower, m.filterLower).View(list))
    case SetFilter(text) =>
      if text == m.filter then m
      else
        Model(m.entries, Order(lower, lower(text)).View(m.entries), text, lower(text))
    case SetInviteCooldown(steamId, seconds) =>
      m.(entries := PatchFirst(WithId(steamId), Cooldown(seconds), m.entries),
         filtered := PatchFirst(WithId(steamId), Cooldown(seconds), m.filtered))
  }

  function After(lower: string -> string, ops: seq<Op>): Model {
    if ops == [] then INITIAL else Next(lower, After(lower, ops[..|ops| - 1]), ops[|ops| - 1])
  }

  /** Row j is the first with the id. */
  ghost predicate FirstWithId(rows: seq<Entry>, steamId: string, j: nat) {
    j < |rows| && rows[j].steamId == steamId && forall k | 0 <= k < j :: rows[k].steamId != steamId
  }

  /** The first row with the id has the seconds afterwards, and no other row changes. */
  ghost predicate Landed(before: seq<Entry>, after: seq<Entry>, steamId: string, seconds: int) {
    && |after| == |before|
    && forall j: nat | j < |before| :: after[j] ==
         if FirstWithId(before, steamId, j) then before[j].(inviteCooldown := seconds) else before[j]
  }

  lemma CooldownLands(before: seq<Entry>, steamId: string, seconds: int)
    ensures Landed(before, PatchFirst(WithId(steamId), Cooldown(seconds), before), steamId, seconds)
  {
    var after := PatchFirst(WithId(steamId), Cooldown(seconds), before);
    forall j: nat | j < |before|
      ensures after[j] == if FirstWithId(before, steamId, j) then before[j].(inviteCooldown := seconds) else before[j]
    {
      PatchLands(WithId(steamId), Cooldown(seconds), before, j);
      assert FirstHitAt(WithId(steamId), before, j) <==> FirstWithId(before, steamId, j);
    }
  }

  /** A new list is taken over, a new filter text is folded, and either way the view is computed
      again; a filter set to the text it has, and nothing else, leaves everything as it is; a
      cooldown lands on one entry of each list. */
  lemma OpExactly(lower: string -> string, m: Model, op: Op)
    ensures var m' := Next(lower, m, op);
            match op
            case SetFriends(list) =>
              m'.entries == list && m'.filter == m.filter && m'.filterLower == m.filterLower && Fresh(lower, m')
            case SetFilter(text) =>
              if text == m.filter then m' == m
              else m'.entries == m.entries && m'.filter == text && m'.filterLower == lower(text) && Fresh(lower, m')
            case SetInviteCooldown(steamId, seconds) =>
              && m'.filter == m.filter && m'.filterLower == m.filterLower
              && Landed(m.entries, m'.entries, steamId, seconds)
              && Landed(m.filtered, m'.filtered, steamId, seconds)
  {
    if op.SetInviteCooldown? {
      CooldownLands(m.entries, op.steamId, op.seconds);
      CooldownLands(m.filtered, op.steamId, op.seconds);
    }
  }

  /** What is shown is what filtering and sorting the entries again would show. */
  predicate Fresh(lower: string -> string, m: Model) {
    m.filtered == Order(lower, m.filterLower).View(m.entries)
  }

  // ----- when the patched view equals the recomputed one -----

  /** The patch of the two lists hits the same entry, or the shown entry it hits needs no
      change and neither does the stored one if it is shown. */
  predicate PatchesAgree(o: Order, m: Model, steamId: string, seconds: int) {
    match (FirstHit(WithId(steamId), m.entries), FirstHit(WithId(steamId), m.filtered))
    case (Some(e), Some(v)) =>
      || (o.Matches(e) && !o.Less(v, e))
      || (v.inviteCooldown == seconds && (o.Matches(e) ==> e.inviteCooldown == seconds))
    case _ => true
  }

  lemma CooldownIsUnseen(o: Order, seconds: int)
    ensures Unseen(o.Less, Cooldown(seconds))
    ensures forall e :: o.Matches(Cooldown(seconds)(e)) == o.Matches(e)
  {}

  lemma PatchKeepsViewExactly(lower: string -> string, m: Model, steamId: string, seconds: int)
    requires Fresh(lower, m)
    ensures Fresh(lower, Next(lower, m, SetInviteCooldown(steamId, seconds))) <==>
            PatchesAgree(Order(lower, m.filterLower), m, steamId, seconds)
  {
    var o := Order(lower, m.filterLower);
    var hit, f := WithId(steamId), Cooldown(seconds);
    var shown := Filter(o.Matches, m.entries);
    OrderIsStrictWeak(o);
    CooldownIsUnseen(o, seconds);
    SortHasHit(o.Less, hit, shown);
    PatchChangesNothing(hit, f, m.filtered);
    match FirstHit(hit, m.entries)
    case None =>
      FilterWithoutHit(o.Matches, hit, m.entries);
      PatchChangesNothing(hit, f, m.entries);
    case Some(e) =>
      FilterPatch(o.Matches, hit, f, m.entries);
      if o.Matches(e) {
        var v := FirstHit(hit, m.filtered).value;
        SortPatchExactly(o.Less, hit, f, shown, e, v);
        assert f(v) == v <==> v.inviteCooldown == seconds;
        assert f(e) == e <==> e.inviteCooldown == seconds;
      }
  }

  predicate UniqueIds(list: seq<Entry>) {
    forall i, j | 0 <= i < j < |list| :: list[i].steamId != list[j].steamId
  }

  lemma UniqueIdsAgree(lower: string -> string, m: Model, steamId: string, seconds: int)
    requires Fresh(lower, m) && UniqueIds(m.entries)
    ensures PatchesAgree(Order(lower, m.filterLower), m, steamId, seconds)
  {
    var o := Order(lower, m.filterLower);
    var e, v := FirstHit(WithId(steamId), m.entries), FirstHit(WithId(steamId), m.filtered);
    FirstHitIsMember(WithId(steamId), m.entries);
    FirstHitIsMember(WithId(steamId), m.filtered);
    OrderIsStrictWeak(o);
    if e.Some? && v.Some? {
      ViewShowsMatches(o, m.entries, v.value);
      MatchesExactly(o, v.value);
      assert e.value == v.value;
    }
  }

  // ----- every run -----

  lemma {:induction false} PatchKeepsIds(steamId: string, seconds: int, s: seq<Entry>)
    ensures forall i | 0 <= i < |s| ::
              PatchFirst(WithId(steamId), Cooldown(seconds), s)[i].steamId == s[i].steamId
  {
    if s != [] && !WithId(steamId)(s[0]) {
      PatchKeepsIds(steamId, seconds, s[1..]);
    }
  }

  predicate AgreesAt(lower: string -> string, ops: seq<Op>, k: nat)
    requires k < |ops|
  {
    var m := After(lower, ops[..k]);
    ops[k].SetInviteCooldown? ==>
      PatchesAgree(Order(lower, m.filterLower), m, ops[k].steamId, ops[k].seconds)
  }

  predicate FreshAt(lower: string -> string, ops: seq<Op>, k: nat)
    requires k <= |ops|
  {
    Fresh(lower, After(lower, ops[..k]))
  }

  lemma AfterPrefix(lower: string -> string, ops: seq<Op>, k: nat)
    requires k < |ops|
    ensures After(lower, ops[..k + 1]) == Next(lower, After(lower, ops[..k]), ops[k])
  {
    assert ops[..k + 1][..k] == ops[..k];
  }

  /** A run stays fresh throughout exactly when each cooldown it sets hits the same entry in
      both lists, or leaves what is shown as it is. */
  lemma AlwaysFreshExactly(lower: string -> string, ops: seq<Op>)
    ensures (forall k: nat | k <= |ops| :: FreshAt(lower, ops, k)) <==>
            (forall k: nat | k < |ops| :: AgreesAt(lower, ops, k))
  {
    if forall k: nat | k <= |ops| :: FreshAt(lower, ops, k) {
      forall k: nat | k < |ops| ensures AgreesAt(lower, ops, k) {
        assert FreshAt(lower, ops, k) && FreshAt(lower, ops, k + 1);
        AfterPrefix(lower, ops, k);
        StepIsFreshExactly(lower, After(lower, ops[..k]), ops[k]);
      }
    }
    if forall k: nat | k < |ops| :: AgreesAt(lower, ops, k) {
      FreshWhileAgreeing(lower, ops, |ops|);
    }
  }

  lemma StepIsFreshExactly(lower: string -> string, m: Model, op: Op)
    ensures Fresh(lower, m) ==>
              (Fresh(lower, Next(lower, m, op)) <==>
               (op.SetInviteCooldown? ==>
                  PatchesAgree(Order(lower, m.filterLower), m, op.steamId, op.seconds)))
  {
    if op.SetInviteCooldown? && Fresh(lower, m) {
      PatchKeepsViewExactly(lower, m, op.steamId, op.seconds);
    }
  }

  lemma {:induction false} FreshWhileAgreeing(lower: string -> string, ops: seq<Op>, n: nat)
    requires n <= |ops|
    requires forall k: nat | k < n :: AgreesAt(lower, ops, k)
    ensures forall k: nat | k <= n :: FreshAt(lower, ops, k)
  {
    if n == 0 {
      assert ops[..0] == [];
    } else {
      FreshWhileAgreeing(lower, ops, n - 1);
      assert FreshAt(lower, ops, n - 1) && AgreesAt(lower, ops, n - 1);
      AfterPrefix(lower, ops, n - 1);
      StepIsFreshExactly(lower, After(lower, ops[..n - 1]), ops[n - 1]);
    }
  }

  /** With no Steam ID listed twice, what is shown always equals what would be computed. */
  lemma {:induction false} UniqueIdsStayFresh(lower: string -> string, ops: seq<Op>)
    requires forall op | op in ops && op.SetFriends? :: UniqueIds(op.list)
    ensures Fresh(lower, After(lower, ops)) && UniqueIds(After(lower, ops).entries)
  {
    if ops != [] {
      var before, op := ops[..|ops| - 1], ops[|ops| - 1];
      var m := After(lower, before);
      UniqueIdsStayFresh(lower, before);
      assert op in ops;
      if op.SetInviteCooldown? {
        UniqueIdsAgree(lower, m, op.steamId, op.seconds);
        PatchKeepsIds(op.steamId, op.seconds, m.entries);
      }
      StepIsFreshExactly(lower, m, op);
    }
  }

  /** So in any such run a friend is shown exactly when the folded name contains the filter text last
      set, folded; before any text is set everybody is shown. */
  lemma RunShowsExactly(lower: string -> string, ops: seq<Op>, x: Entry)
    requires forall op | op in ops && op.SetFriends? :: UniqueIds(op.list)
    ensures var m := After(lower, ops);
            x in m.filtered <==>
              x in m.entries && (m.filterLower == "" || exists i :: KeyAt(lower(x.displayName), m.filterLower, i))
    ensures var key := After(lower, ops).filterLower;
            key == lower(LastFilter(ops)) || (key == "" && LastFilter(ops) == "")
  {
    UniqueIdsStayFresh(lower, ops);
    var m := After(lower, ops);
    ViewShowsMatches(Order(lower, m.filterLower), m.entries, x);
    FilterAfter(lower, ops);
  }

  /** The filter text last set. */
  function LastFilter(ops: seq<Op>): string {
    if ops == [] then ""
    else if ops[|ops| - 1].SetFilter? then ops[|ops| - 1].text
    else LastFilter(ops[..|ops| - 1])
  }

  lemma {:induction false} FilterAfter(lower: string -> string, ops: seq<Op>)
    ensures var m := After(lower, ops);
            && m.filter == LastFilter(ops)
            && (m.filterLower == lower(m.filter) || (m.filterLower == "" && m.filter == ""))
  {
    if ops != [] {
      FilterAfter(lower, ops[..|ops| - 1]);
      OpExactly(lower, After(lower, ops[..|ops| - 1]), ops[|ops| - 1]);
    }
  }

  const AWAY := Entry("7", "ann", "", false, "", 1, 0)
  const HERE := Entry("7", "ann", "", true, "", 0, 0)

  /** With one Steam ID listed twice the shown list can go stale: here the stored patch falls
      on the entry shown second, the shown patch on the entry shown first. */
  lemma DuplicateIdGoesStale(lower: string -> string)
    ensures !Fresh(lower, After(lower, [SetFriends([AWAY, HERE]), SetInviteCooldown("7", 60)]))
  {
    var list := [AWAY, HERE];
    var ops := [SetFriends(list), SetInviteCooldown("7", 60)];
    var o := Order(lower, "");
    var listed := Next(lower, INITIAL, SetFriends(list));
    assert ops[..1] == [SetFriends(list)] && ops[..1][..0] == [];
    assert After(lower, ops[..1]) == listed;
    assert list[1..] == [HERE] && [HERE][1..] == [];
    assert Filter(o.Matches, [HERE]) == [HERE];
    assert Filter(o.Matches, list) == list;
    assert Sort(o.Less, [HERE]) == [HERE];
    assert o.Less(HERE, AWAY);
    assert Insert(o.Less, AWAY, [HERE]) == [HERE] + Insert(o.Less, AWAY, []);
    assert Sort(o.Less, list) == [HERE, AWAY];
    assert !PatchesAgree(o, listed, "7", 60);
    PatchKeepsViewExactly(lower, listed, "7", 60);
  }

  // ----- the class -----

  /** What the list's observers are told to read again. */
  datatype Signal = Reset | RowsChanged(first: nat, last: nat) | Unchanged

  /** An observer of the old rows that reads again what the signal names has the new rows. */
  predicate Announces(signal: Signal, before: seq<Entry>, after: seq<Entry>) {
    match signal
    case Reset => true
    case RowsChanged(first, last) =>
      && first <= last < |after| == |before|
      && forall i | 0 <= i < |after| && !(first <= i <= last) :: after[i] == before[i]
    case Unchanged => after == before
  }

  class FriendsModel {
    const lower: string -> string
    var entries: seq<Entry>
    var filtered: seq<Entry>
    var filter: string
    var filterLower: string

    ghost function State(): Model
      reads this
    {
      Model(entries, filtered, filter, filterLower)
    }

    constructor (lower: string -> string)
      ensures this.lower == lower && State() == INITIAL && Fresh(lower, State())
    {
      this.lower := lower;
      entries, filtered, filter, filterLower := [], [], "", "";
    }

    method FilterEntries(source: seq<Entry>) returns (result: seq<Entry>)
      ensures result == Order(lower, filterLower).View(source)
      ensures forall x :: x in result <==>
                x in source && (filterLower == "" || exists i :: KeyAt(lower(x.displayName), filterLower, i))
    {
      var o := Order(lower, filterLower);
      result := [];
      var i := 0;
      while i < |source|
        invariant 0 <= i <= |source|
        invariant Filter(o.Matches, source) == result + Filter(o.Matches, source[i..])
      {
        assert source[i..][1..] == source[i + 1..];
        if o.Matches(source[i]) {
          result := result + [source[i]];
        }
        i := i + 1;
      }
      assert result == Filter(o.Matches, source);
      result := Sort(o.Less, result);
      assert result == o.View(source);
      forall x ensures x in result <==> x in source && Shown(o, x) {
        ViewShowsMatches(o, source, x);
      }
    }

    method SetFriends(list: seq<Entry>) returns (signal: Signal, countChanged: bool)
      modifies this
      ensures State() == Next(lower, old(State()), Op.SetFriends(list))
      ensures Fresh(lower, State())
      ensures Announces(signal, old(filtered), filtered)
      ensures signal == if countChanged || |filtered| != |old(filtered)| then Reset
                        else if filtered == [] then Unchanged else RowsChanged(0, |filtered| - 1)
      ensures countChanged <==> |entries| != |old(entries)|
    {
      var view := FilterEntries(list);
      countChanged := |list| != |entries|;
      if countChanged || |view| != |filtered| {
        signal := Reset;
      } else {
        signal := if view == [] then Unchanged else RowsChanged(0, |view| - 1);
      }
      entries, filtered := list, view;
    }

    method SetFilter(text: string) returns (signal: Signal)
      modifies this
      ensures State() == Next(lower, old(State()), Op.SetFilter(text))
      ensures old(Fresh(lower, State())) || text != old(filter) ==> Fresh(lower, State())
      ensures Announces(signal, old(filtered), filtered)
      ensures signal == if |filtered| != |old(filtered)| then Reset
                        else if filtered == [] || text == old(filter) then Unchanged else RowsChanged(0, |filtered| - 1)
    {
      if filter == text {
        return Unchanged;
      }
      filter := text;
      filterLower := lower(text);
      var view := FilterEntries(entries);
      if |view| != |filtered| {
        signal := Reset;
      } else {
        signal := if view == [] then Unchanged else RowsChanged(0, |view| - 1);
      }
      filtered := view;
    }

    /** The loop both halves of setInviteCooldown begin with. */
    static method IndexOf(rows: seq<Entry>, steamId: string) returns (i: nat)
      ensures i <= |rows|
      ensures forall j | 0 <= j < i :: rows[j].steamId != steamId
      ensures i < |rows| ==> rows[i].steamId == steamId
    {
      i := 0;
      while i < |rows| && rows[i].steamId != steamId
        invariant i <= |rows|
        invariant forall j | 0 <= j < i :: rows[j].steamId != steamId
      {
        i := i + 1;
      }
    }

    method SetInviteCooldown(steamId: string, seconds: int) returns (changed: bool, signal: Signal)
      modifies this
      ensures State() == Next(lower, old(State()), Op.SetInviteCooldown(steamId, seconds))
      ensures old(Fresh(lower, State())) ==>
                (Fresh(lower, State()) <==>
                 PatchesAgree(Order(lower, filterLower), old(State()), steamId, seconds))
      ensures Announces(signal, old(filtered), filtered)
      ensures if changed then signal.RowsChanged? && signal.first == signal.last else signal == Unchanged
      ensures changed <==> filtered != old(filtered)
    {
      ghost var before := State();
      changed, signal := false, Unchanged;

      var i := IndexOf(entries, steamId);
      if i < |entries| {
        entries := entries[i := entries[i].(inviteCooldown := seconds)];
      }
      PatchAt(WithId(steamId), Cooldown(seconds), before.entries, i);

      i := IndexOf(filtered, steamId);
      if i < |filtered| && filtered[i].inviteCooldown != seconds {
        filtered := filtered[i := filtered[i].(inviteCooldown := seconds)];
        assert filtered[i] != before.filtered[i];
        changed, signal := true, RowsChanged(i, i);
      }
      PatchAt(WithId(steamId), Cooldown(seconds), before.filtered, i);
      StepIsFreshExactly(lower, before, Op.SetInviteCooldown(steamId, seconds));
    }
  }
}
