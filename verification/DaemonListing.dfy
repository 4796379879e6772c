/** List IDs: how they are assigned and looked up, and loads and unloads by ID. */
module DaemonListing {
  import opened DaemonSpec
  import opened DaemonInvariant
  import opened DaemonRuns
  import opened DaemonTheorems

  // ---------------------------------------------------------------- the listing

  /** The listed accelerators among the first j of row i, in order. */
  function AccelEntries(b: Base, i: nat, j: nat): (r: seq<Entry>)
    ensures |r| == ListedAccels(b, j)
    ensures forall e :: e in r ==> e.PackageEntry?
  {
    if j == 0 then [] else AccelEntries(b, i, j - 1) + if AccelListed(b, j - 1) then [PackageEntry(i, j - 1)] else []
  }

  /** What is listed of the first i rows: of each row its accelerators, then the row itself if it is a user design. */
  function Listing(bases: seq<Base>, i: nat): (r: seq<Entry>)
    requires i <= |bases|
    ensures |r| == ListedBefore(bases, i)
    ensures forall e :: e in r ==> e != NoEntry
  {
    if i == 0 then []
    else
      var b := bases[i - 1];
      Listing(bases, i - 1) + AccelEntries(b, i - 1, |b.accels|) + if b.isUser then [UserEntry(i - 1)] else []
  }

  lemma {:induction false} ListedAccelsGrow(b: Base, j: nat, k: nat)
    requires j <= k
    ensures ListedAccels(b, j) <= ListedAccels(b, k)
    ensures j < k && AccelListed(b, j) ==> ListedAccels(b, j) < ListedAccels(b, k)
    decreases k
  {
    if j < k {
      ListedAccelsGrow(b, j, k - 1);
    }
  }

  lemma {:induction false} AccelEntryAt(b: Base, i: nat, j: nat, n: nat)
    requires j < n && AccelListed(b, j)
    ensures ListedAccels(b, j) < ListedAccels(b, n)
    ensures AccelEntries(b, i, n)[ListedAccels(b, j)] == PackageEntry(i, j)
    decreases n
  {
    ListedAccelsGrow(b, j, n);
    if j < n - 1 {
      AccelEntryAt(b, i, j, n - 1);
    }
  }

  /** The search of one row, from accelerator j on, for an ID that is not stamped before j. */
  lemma {:induction false} FindInStamped(bases: seq<Base>, ids: seq<Ids>, i: nat, id: int, j: nat)
    requires IdsFit(bases, ids) && i < |bases| && j <= |bases[i].accels|
    requires id > ListedBefore(bases, i) + ListedAccels(bases[i], j)
    ensures var b, first := bases[i], ListedBefore(bases, i) + 1;
      var k := FindInRow(b, Stamped(bases, ids)[i], id, j);
      if id < first + ListedAccels(b, |b.accels|) then
        k < |b.accels| && AccelEntries(b, i, |b.accels|)[id - first] == PackageEntry(i, k)
      else k == |b.accels|
    decreases |bases[i].accels| - j
  {
    var b, first := bases[i], ListedBefore(bases, i) + 1;
    if j < |b.accels| {
      if AccelListed(b, j) && first + ListedAccels(b, j) == id {
        AccelEntryAt(b, i, j, |b.accels|);
      } else {
        FindInStamped(bases, ids, i, id, j + 1);
      }
    }
  }

  /** An ID below the stamps of a row is not found in it, whatever stale stamps it has. */
  lemma {:induction false} NotInRow(bases: seq<Base>, ids: seq<Ids>, i: nat, id: int, j: nat)
    requires IdsFit(bases, ids) && i < |bases| && id <= ListedBefore(bases, i)
    ensures var k := FindInRow(bases[i], Stamped(bases, ids)[i], id, j); k >= |bases[i].accels|
    decreases |bases[i].accels| - j
  {
    if j < |bases[i].accels| {
      NotInRow(bases, ids, i, id, j + 1);
    }
  }

  lemma {:induction false} ListingGrows(bases: seq<Base>, i: nat, k: nat)
    requires i <= k <= |bases|
    ensures Listing(bases, i) <= Listing(bases, k)
    decreases k
  {
    if i < k {
      ListingGrows(bases, i, k - 1);
    }
  }

  /** The entries of row i stand in the listing where they stood when the row was listed. */
  lemma {:induction false} ListedBetween(bases: seq<Base>, i: nat, id: int)
    requires i < |bases|
    ensures ListedBefore(bases, i) <= ListedBefore(bases, i + 1) <= ListedBefore(bases, |bases|)
    ensures ListedBefore(bases, i) < id <= ListedBefore(bases, i + 1) ==>
      Listing(bases, |bases|)[id - 1] == Listing(bases, i + 1)[id - 1]
  {
    ListingGrows(bases, i, i + 1);
    ListingGrows(bases, i + 1, |bases|);
    assert |Listing(bases, i)| <= |Listing(bases, i + 1)| <= |Listing(bases, |bases|)|;
  }

  /** A row does not answer to an ID that was given out before it. */
  lemma {:induction false} PassesEarlier(bases: seq<Base>, ids: seq<Ids>, id: int, i: nat)
    requires IdsFit(bases, ids) && i < |bases| && id <= ListedBefore(bases, i)
    ensures FindId(bases, Stamped(bases, ids), id, i) == FindId(bases, Stamped(bases, ids), id, i + 1)
  {
    NotInRow(bases, ids, i, id, 0);
  }

  /** Otherwise it answers to the IDs of its own entries. */
  lemma {:induction false} FindHere(bases: seq<Base>, ids: seq<Ids>, id: int, i: nat)
    requires IdsFit(bases, ids) && i < |bases| && id > ListedBefore(bases, i)
    ensures FindId(bases, Stamped(bases, ids), id, i) ==
      if id <= ListedBefore(bases, i + 1) then Listing(bases, i + 1)[id - 1] else FindId(bases, Stamped(bases, ids), id, i + 1)
  {
    FindInStamped(bases, ids, i, id, 0);
  }

  lemma {:induction false} FindFrom(bases: seq<Base>, ids: seq<Ids>, id: int, i: nat)
    requires IdsFit(bases, ids) && i <= |bases|
    ensures FindId(bases, Stamped(bases, ids), id, i) ==
      if ListedBefore(bases, i) < id <= ListedBefore(bases, |bases|) then Listing(bases, |bases|)[id - 1] else NoEntry
    decreases |bases| - i
  {
    if i < |bases| {
      FindFrom(bases, ids, id, i + 1);
      ListedBetween(bases, i, id);
      if id <= ListedBefore(bases, i) {
        PassesEarlier(bases, ids, id, i);
      } else {
        FindHere(bases, ids, id, i);
      }
    }
  }

  /** Right after the IDs are assigned they are 1 to n in listing order: looking up any of them gives exactly the entry
      at its place in the listing, and looking up any other number, stale stamps or not, gives nothing. */
  lemma {:induction false} ListIdsBijection(bases: seq<Base>, ids: seq<Ids>, id: int)
    requires IdsFit(bases, ids)
    ensures FindId(bases, Stamped(bases, ids), id, 0) ==
      if 1 <= id <= |Listing(bases, |bases|)| then Listing(bases, |bases|)[id - 1] else NoEntry
  {
    FindFrom(bases, ids, id, 0);
  }

  /** What the entries of a listing are stamped with. */
  function StampOf(ids: seq<Ids>, e: Entry): int {
    match e
    case PackageEntry(i, j) => if i < |ids| && j < |ids[i].accels| then ids[i].accels[j] else 0
    case UserEntry(i) => if i < |ids| then ids[i].row else 0
    case NoEntry => 0
  }

  /** Every listed entry is stamped with its place, so no two share an ID. */
  lemma {:induction false} StampsArePlaces(bases: seq<Base>, ids: seq<Ids>, k: nat)
    requires IdsFit(bases, ids) && k < |Listing(bases, |bases|)|
    ensures StampOf(Stamped(bases, ids), Listing(bases, |bases|)[k]) == k + 1
  {
    FindFrom(bases, ids, k + 1, 0);
    assert Listing(bases, |bases|)[k] in Listing(bases, |bases|);
    FoundIsStamped(bases, Stamped(bases, ids), k + 1, 0);
  }

  lemma {:induction false} FoundIsStamped(bases: seq<Base>, ids: seq<Ids>, id: int, i: nat)
    requires |bases| == |ids|
    ensures var e := FindId(bases, ids, id, i); e != NoEntry ==> StampOf(ids, e) == id
    decreases |bases| - i
  {
    if i < |bases| {
      FoundIsStamped(bases, ids, id, i + 1);
    }
  }

  /** Exactly the accelerators with a directory, in packages with slots on the PL, have an ID. */
  lemma {:induction false} ListedExactlyWhen(bases: seq<Base>, ids: seq<Ids>, i: nat, j: nat)
    requires IdsFit(bases, ids) && i < |bases| && j < |bases[i].accels|
    ensures (exists id :: FindId(bases, Stamped(bases, ids), id, 0) == PackageEntry(i, j)) <==>
      bases[i].path != "" && bases[i].numPl > 0 && bases[i].accels[j].path != ""
  {
    if AccelListed(bases[i], j) {
      PlaceIsFound(bases, ids, i, j);
    }
    forall id | FindId(bases, Stamped(bases, ids), id, 0) == PackageEntry(i, j)
      ensures AccelListed(bases[i], j)
    {
      FoundIsListed(bases, Stamped(bases, ids), id, 0);
    }
  }

  lemma {:induction false} FoundIsListed(bases: seq<Base>, ids: seq<Ids>, id: int, i: nat)
    requires |bases| == |ids|
    ensures var e := FindId(bases, ids, id, i);
      && (e.PackageEntry? ==> e.row < |bases| && AccelListed(bases[e.row], e.accel))
      && (e.UserEntry? ==> e.row < |bases| && bases[e.row].isUser)
    decreases |bases| - i
  {
    if i < |bases| {
      FoundIsListed(bases, ids, id, i + 1);
    }
  }

  /** The ID of accelerator j of row c in the listing. */
  function PlaceOf(bases: seq<Base>, c: nat, j: nat): int
    requires c < |bases|
  {
    ListedBefore(bases, c) + ListedAccels(bases[c], j) + 1
  }

  lemma {:induction false} PlaceIsFound(bases: seq<Base>, ids: seq<Ids>, c: nat, j: nat)
    requires IdsFit(bases, ids) && c < |bases| && j < |bases[c].accels| && AccelListed(bases[c], j)
    ensures FindId(bases, Stamped(bases, ids), PlaceOf(bases, c, j), 0) == PackageEntry(c, j)
  {
    var b := bases[c];
    AccelEntryAt(b, c, j, |b.accels|);
    ListingGrows(bases, c + 1, |bases|);
    ListIdsBijection(bases, ids, PlaceOf(bases, c, j));
    var id := PlaceOf(bases, c, j);
    assert Listing(bases, c + 1)[id - 1] == AccelEntries(b, c, |b.accels|)[ListedAccels(b, j)];
    assert Listing(bases, |bases|)[id - 1] == Listing(bases, c + 1)[id - 1];
  }

  /** User design u is gone, or stays because it found no handle or has Partials on it. */
  ghost predicate UserGone(st: State, r: Reply, u: nat)
    requires Pointers(st)
  {
    && u < |st.bases| && st.bases[u].isUser
    && var h := st.bases[u].userHandle;
       if h < 0 || Refused(st, h) then r == Reply(st, -1)
       else u < |r.st.bases| && !r.st.bases[u].isUser && OnlyReleased(st, r.st, h)
  }

  lemma UserGoesById(st: State, id: int, u: nat, hw: Hw)
    requires Inv(st) && id != 0 && FindId(st.bases, st.ids, id, 0) == UserEntry(u) && u < |st.bases| && st.bases[u].isUser
    ensures UserGone(st, UnloadById(st, id, hw), u)
  {
    var h := st.bases[u].userHandle;
    if h >= 0 {
      assert HandleAt(st.bases, u, -1) == h;
      UnloadEffect(st, h, hw);
    }
  }

  /** What an ID does once IDs are assigned: a listed accelerator is loaded, a user design is not loaded but unloaded, and another
      number is no package. */
  lemma {:induction false} ByIdAnswers(st: State, ids: seq<Ids>, id: int, hw: Hw)
    requires Inv(st) && IdsFit(st.bases, ids) && st.ids == Stamped(st.bases, ids) && id != 0
    ensures var listing := Listing(st.bases, |st.bases|);
      if 1 <= id <= |listing| then
        match listing[id - 1]
        case PackageEntry(b, j) =>
          b < |st.bases| && j < |st.bases[b].accels| && LoadById(st, id, hw) == LoadCore(st, b, st.bases[b].accels[j].name, hw)
        case UserEntry(u) => LoadById(st, id, hw) == Reply(st, LOAD_ERROR) && UserGone(st, UnloadById(st, id, hw), u)
        case NoEntry => false
      else LoadById(st, id, hw) == Reply(st, NO_PACKAGE_FOUND) && UnloadById(st, id, hw) == Reply(st, -1)
  {
    ListIdsBijection(st.bases, ids, id);
    FoundIsListed(st.bases, st.ids, id, 0);
    var listing := Listing(st.bases, |st.bases|);
    if 1 <= id <= |listing| {
      var e := listing[id - 1];
      assert e in listing;
      if e.UserEntry? {
        UserGoesById(st, id, e.row, hw);
      }
    }
  }

  // ---------------------------------------------------------------- loads and unloads by ID cancel

  lemma {:induction false} SameCatalogueSameRow(bases: seq<Base>, after: seq<Base>, ids: Ids, id: int, i: nat, j: nat)
    requires SameCatalogue(bases, after) && i < |bases|
    ensures FindInRow(after[i], ids, id, j) == FindInRow(bases[i], ids, id, j)
    decreases |bases[i].accels| - j
  {
    if j < |bases[i].accels| {
      SameCatalogueSameRow(bases, after, ids, id, i, j + 1);
    }
  }

  /** An ID means the same as long as the catalogue and the stamps do. */
  lemma {:induction false} SameCatalogueSameId(bases: seq<Base>, after: seq<Base>, ids: seq<Ids>, id: int, i: nat)
    requires SameCatalogue(bases, after) && |ids| == |bases|
    ensures FindId(after, ids, id, i) == FindId(bases, ids, id, i)
    decreases |bases| - i
  {
    if i < |bases| {
      SameCatalogueSameRow(bases, after, ids[i], id, i, 0);
      SameCatalogueSameId(bases, after, ids, id, i + 1);
    }
  }

  /** How many of the first n slots of a row hold an accelerator of that name. */
  function NamedCount(b: Base, name: string, n: nat): nat {
    if n == 0 then 0 else NamedCount(b, name, n - 1) + if IsNamed(SlotAt(b, n - 1), name) then 1 else 0
  }

  predicate IsNamed(s: SlotPtr, name: string) {
    s.Loaded? && s.name == name
  }

  function Without(s: SlotPtr, name: string): SlotPtr {
    if IsNamed(s, name) then Empty else s
  }

  /** Row `after` is row `before` with slots of that name on top. */
  ghost predicate RowExtended(before: Base, after: Base, name: string) {
    forall k: nat :: SlotAt(before, k) == Without(SlotAt(after, k), name)
  }

  ghost predicate OtherRows(bases: seq<Base>, after: seq<Base>, b: nat) {
    && |after| == |bases|
    && forall i, k: nat :: 0 <= i < |bases| && i != b ==> SlotAt(after[i], k) == SlotAt(bases[i], k)
  }

  ghost predicate HeldBy(row: Base, name: string, h: int) {
    exists k: nat :: SlotAt(row, k) == Loaded(name, h)
  }

  /** The handles in use are the former ones and those of the slots of that name. */
  ghost predicate UsedExtended(used: seq<bool>, after: seq<bool>, row: Base, name: string) {
    |after| == |used| && forall h :: 0 <= h < |used| ==> (after[h] <==> used[h] || HeldBy(row, name, h))
  }

  /** `now` is `st` but for `extra` slots of row b that were empty and now hold that name, each with its handle. */
  ghost predicate Extension(st: State, now: State, b: nat, name: string, extra: nat) {
    && SameCatalogue(st.bases, now.bases) && now.ids == st.ids && b < |st.bases|
    && NamedCount(now.bases[b], name, NumSlots(now.bases[b])) == extra
    && RowExtended(st.bases[b], now.bases[b], name)
    && OtherRows(st.bases, now.bases, b)
    && UsedExtended(st.used, now.used, now.bases[b], name)
  }

  ghost predicate Extended(st: State, now: State, b: nat, name: string, extra: nat) {
    Inv(now) && Extension(st, now, b, name, extra) && NamedHandled(now.bases[b], name)
  }

  /** Every slot of that name has a handle. */
  ghost predicate NamedHandled(row: Base, name: string) {
    forall k: nat :: IsNamed(SlotAt(row, k), name) ==> SlotAt(row, k).handle >= 0
  }

  /** An RPU base with such a slot is current and counts it, so it does not give way to itself. */
  lemma {:induction false} ExtendedLosesNone(st: State, now: State, b: nat, name: string, extra: nat, other: string)
    requires Extended(st, now, b, name, extra) && extra > 0
    ensures !LosesSlots(now, b, other)
  {
    var row := now.bases[b];
    if row.ty == Rpu {
      NamedCountZero(row, name, NumSlots(row));
      var k :| 0 <= k < NumSlots(row) && IsNamed(SlotAt(row, k), name);
      assert RowOk(row) && SlotAt(row, k).handle >= 0;
      assert now.rpu == To(b);
      LoadedCountZero(row.slots, |row.slots|, false);
      assert Counts(row.slots[k], false);
    }
  }

  lemma {:induction false} NamedCountUpdate(before: Base, after: Base, name: string, n: nat, i: nat)
    requires forall k: nat :: k != i ==> SlotAt(before, k) == SlotAt(after, k)
    ensures NamedCount(after, name, n) == NamedCount(before, name, n)
      + if i < n then (if IsNamed(SlotAt(after, i), name) then 1 else 0)
                      - (if IsNamed(SlotAt(before, i), name) then 1 else 0) else 0
  {
    if n > 0 {
      NamedCountUpdate(before, after, name, n - 1, i);
    }
  }

  lemma {:induction false} NamedCountZero(b: Base, name: string, n: nat)
    ensures NamedCount(b, name, n) == 0 <==> forall k :: 0 <= k < n ==> !IsNamed(SlotAt(b, k), name)
  {
    if n > 0 {
      NamedCountZero(b, name, n - 1);
    }
  }

  /** One more loaded slot is one more extra slot. */
  lemma {:induction false} LoadedExtends(st: State, now: State, r: Reply, b: nat, i: nat, name: string, extra: nat)
    requires Extension(st, now, b, name, extra) && LoadedInto(now, r, b, i, name) && r.rv >= 0
    ensures Extension(st, r.st, b, name, extra + 1)
  {
    var row, after := now.bases[b], r.st.bases[b];
    assert forall k: nat :: k != i ==> SlotAt(after, k) == SlotAt(row, k);
    NamedCountUpdate(row, after, name, NumSlots(row), i);
    forall k: nat
      ensures SlotAt(st.bases[b], k) == Without(SlotAt(after, k), name)
    {
      assert SlotAt(st.bases[b], k) == Without(SlotAt(row, k), name);
    }
    forall h | 0 <= h < |st.used|
      ensures r.st.used[h] <==> st.used[h] || HeldBy(after, name, h)
    {
      if h == r.rv {
        assert SlotAt(after, i) == Loaded(name, h);
      } else if HeldBy(row, name, h) {
        var k: nat :| SlotAt(row, k) == Loaded(name, h);
        assert SlotAt(after, k) == Loaded(name, h);
      }
    }
  }

  /** The ID stands for an accelerator of that name in row b. */
  predicate IdNames(st: State, id: int, b: nat, name: string)
    requires |st.ids| == |st.bases|
  {
    var e := FindId(st.bases, st.ids, id, 0);
    e.PackageEntry? && e.row == b && !st.bases[b].isUser && st.bases[b].accels[e.accel].name == name
  }

  lemma {:induction false} IdStillNames(st: State, now: State, id: int, b: nat, name: string)
    requires |st.ids| == |st.bases| && IdNames(st, id, b, name)
    requires SameCatalogue(st.bases, now.bases) && now.ids == st.ids
    ensures IdNames(now, id, b, name)
  {
    SameCatalogueSameId(st.bases, now.bases, st.ids, id, 0);
  }

  lemma {:induction false} LoadIsCore(now: State, id: int, b: nat, name: string, hw: Hw)
    requires Inv(now) && IdNames(now, id, b, name)
    ensures b < |now.bases| && LoadById(now, id, hw) == LoadCore(now, b, name, hw)
  {
  }

  /** One more successful load by ID. */
  lemma {:induction false} LoadExtends(st: State, now: State, b: nat, name: string, extra: nat, id: int, hw: Hw)
    requires |st.ids| == |st.bases| && Extended(st, now, b, name, extra) && IdNames(st, id, b, name)
    requires LoadById(now, id, hw).rv >= 0 && !LosesSlots(now, b, name)
    ensures Extended(st, LoadById(now, id, hw).st, b, name, extra + 1)
  {
    IdStillNames(st, now, id, b, name);
    LoadIsCore(now, id, b, name, hw);
    LoadCoreKeeps(now, b, name, hw);
    LoadEffect(now, b, name, hw);
    var r := LoadCore(now, b, name, hw);
    var i: nat :| LoadedInto(now, r, b, i, name);
    LoadedExtends(st, now, r, b, i, name, extra);
    LoadedIsHandled(now, r, b, i, name);
  }

  lemma LoadedIsHandled(now: State, r: Reply, b: nat, i: nat, name: string)
    requires LoadedInto(now, r, b, i, name) && r.rv >= 0 && NamedHandled(now.bases[b], name)
    ensures NamedHandled(r.st.bases[b], name)
  {
  }

  lemma NoNewIsHandled(now: State, after: State, b: nat, name: string)
    requires NoNewSlots(now, after) && b < |now.bases| && NamedHandled(now.bases[b], name)
    ensures NamedHandled(after.bases[b], name)
  {
  }

  /** One extra slot less. */
  lemma {:induction false} EmptiedShrinks(st: State, now: State, b: nat, i: nat, name: string, h: nat, extra: nat)
    requires Extension(st, now, b, name, extra) && extra > 0 && HandlesOk(now.bases, now.used)
    requires i < NumSlots(now.bases[b]) && SlotAt(now.bases[b], i) == Loaded(name, h)
    requires h < |st.used| && !st.used[h]
    ensures Extension(st, EmptySlot(now, b, i, h), b, name, extra - 1)
  {
    var r := EmptySlot(now, b, i, h);
    var row, after := now.bases[b], r.bases[b];
    assert forall k: nat :: k != i ==> SlotAt(after, k) == SlotAt(row, k);
    NamedCountUpdate(row, after, name, NumSlots(row), i);
    forall k: nat
      ensures SlotAt(st.bases[b], k) == Without(SlotAt(after, k), name)
    {
      assert SlotAt(st.bases[b], k) == Without(SlotAt(row, k), name);
    }
    forall g | 0 <= g < |st.used|
      ensures r.used[g] <==> st.used[g] || HeldBy(after, name, g)
    {
      if HeldBy(after, name, g) {
        var k: nat :| SlotAt(after, k) == Loaded(name, g);
        assert SlotAt(row, k) == Loaded(name, g) && k != i;
        assert HeldBy(row, name, g);
        assert HandleAt(now.bases, b, k) == g && HandleAt(now.bases, b, i) == h;
      }
    }
  }

  /** A slot of that name is found, and its handle was free before. */
  lemma {:induction false} ExtraIsFound(st: State, now: State, b: nat, name: string, extra: nat)
    requires Inv(st) && Extended(st, now, b, name, extra) && extra > 0
    ensures var i := SlotNamed(now.bases[b], name, 0);
      && i != -1 && SlotAt(now.bases[b], i) == Loaded(name, HandleNamed(now.bases[b], name))
      && 0 <= HandleNamed(now.bases[b], name) < |st.used| && !st.used[HandleNamed(now.bases[b], name)]
  {
    var row := now.bases[b];
    NamedCountZero(row, name, NumSlots(row));
    var i := SlotNamed(row, name, 0);
    assert i != -1;
    var h := SlotAt(row, i).handle;
    assert HandleAt(now.bases, b, i) == h >= 0;
    FreshHandle(st, now, b, i, name, h);
  }

  /** Whoever held a handle still holds it. */
  lemma {:induction false} HoldersRemain(st: State, now: State, b: nat, name: string, j: nat, m: int)
    requires b < |st.bases| && SameCatalogue(st.bases, now.bases)
    requires RowExtended(st.bases[b], now.bases[b], name) && OtherRows(st.bases, now.bases, b)
    ensures HandleAt(st.bases, j, m) >= 0 ==> HandleAt(now.bases, j, m) == HandleAt(st.bases, j, m)
  {
    if m >= 0 && j == b {
      assert SlotAt(st.bases[b], m) == Without(SlotAt(now.bases[b], m), name);
    }
  }

  lemma {:induction false} FreshHandle(st: State, now: State, b: nat, i: nat, name: string, h: nat)
    requires Inv(st) && HandlesOk(now.bases, now.used) && b < |st.bases| && SameCatalogue(st.bases, now.bases)
    requires RowExtended(st.bases[b], now.bases[b], name) && OtherRows(st.bases, now.bases, b)
    requires SlotAt(now.bases[b], i) == Loaded(name, h) && h < |st.used|
    ensures !st.used[h]
  {
    assert HandleAt(now.bases, b, i) == h;
    assert SlotAt(st.bases[b], i) == Without(SlotAt(now.bases[b], i), name);
    forall j: nat, m: int
      ensures HandleAt(st.bases, j, m) != h
    {
      HoldersRemain(st, now, b, name, j, m);
    }
    assert !Held(st.bases, h);
  }

  lemma {:induction false} UnloadIsEmpty(now: State, id: int, b: nat, i: nat, name: string, h: nat, hw: Hw)
    requires Inv(now) && id != 0 && IdNames(now, id, b, name)
    requires i == SlotNamed(now.bases[b], name, 0) && SlotAt(now.bases[b], i) == Loaded(name, h)
    ensures var r, e := UnloadById(now, id, hw).st, EmptySlot(now, b, i, h);
      r.bases == e.bases && r.used == e.used && r.ids == e.ids && Inv(r) && NoNewSlots(now, r)
  {
    assert HandleAt(now.bases, b, i) == h;
    HolderIsFound(now, b, i, h);
    UnloadKeeps(now, h, hw);
    UnloadNoNew(now, h, hw);
    assert UnloadById(now, id, hw) == Unload(now, h, hw);
  }

  /** One unload by ID takes one extra slot away. */
  lemma {:induction false} UnloadShrinks(st: State, now: State, b: nat, name: string, extra: nat, id: int, hw: Hw)
    requires Inv(st) && Extended(st, now, b, name, extra) && extra > 0 && id != 0 && IdNames(st, id, b, name)
    ensures Extended(st, UnloadById(now, id, hw).st, b, name, extra - 1)
  {
    IdStillNames(st, now, id, b, name);
    ExtraIsFound(st, now, b, name, extra);
    var i, h := SlotNamed(now.bases[b], name, 0), HandleNamed(now.bases[b], name);
    UnloadIsEmpty(now, id, b, i, name, h, hw);
    EmptiedShrinks(st, now, b, i, name, h, extra);
    SameExtension(st, EmptySlot(now, b, i, h), UnloadById(now, id, hw).st, b, name, extra - 1);
    NoNewIsHandled(now, UnloadById(now, id, hw).st, b, name);
  }

  lemma {:induction false} SameExtension(st: State, a: State, c: State, b: nat, name: string, extra: nat)
    requires Extension(st, a, b, name, extra) && c.bases == a.bases && c.used == a.used && c.ids == a.ids
    ensures Extension(st, c, b, name, extra)
  {
  }

  /** Loads by one ID, one after the other. */
  function LoadsById(st: State, id: int, hws: seq<Hw>): State
    requires Pointers(st) && |st.ids| == |st.bases|
    decreases |hws|
  {
    if hws == [] then st
    else
      var r := LoadById(st, id, hws[0]);
      if Pointers(r.st) && |r.st.ids| == |r.st.bases| then LoadsById(r.st, id, hws[1..]) else r.st
  }

  /** Each of them succeeds. */
  predicate AllLoad(st: State, id: int, hws: seq<Hw>)
    requires Pointers(st) && |st.ids| == |st.bases|
    decreases |hws|
  {
    hws != [] ==>
      var r := LoadById(st, id, hws[0]);
      r.rv >= 0 && (Pointers(r.st) && |r.st.ids| == |r.st.bases| ==> AllLoad(r.st, id, hws[1..]))
  }

  function UnloadsById(st: State, id: int, hws: seq<Hw>): State
    requires Pointers(st) && |st.ids| == |st.bases|
    decreases |hws|
  {
    if hws == [] then st
    else
      var r := UnloadById(st, id, hws[0]);
      if Pointers(r.st) && |r.st.ids| == |r.st.bases| then UnloadsById(r.st, id, hws[1..]) else r.st
  }

  lemma {:induction false} LoadsExtend(st: State, now: State, b: nat, name: string, extra: nat, id: int, hws: seq<Hw>)
    requires |st.ids| == |st.bases| && Extended(st, now, b, name, extra) && IdNames(st, id, b, name)
    requires AllLoad(now, id, hws) && !LosesSlots(now, b, name)
    ensures Extended(st, LoadsById(now, id, hws), b, name, extra + |hws|)
    decreases |hws|
  {
    if hws != [] {
      LoadExtends(st, now, b, name, extra, id, hws[0]);
      ExtendedLosesNone(st, LoadById(now, id, hws[0]).st, b, name, extra + 1, name);
      LoadsExtend(st, LoadById(now, id, hws[0]).st, b, name, extra + 1, id, hws[1..]);
    }
  }

  lemma {:induction false} UnloadsShrink(st: State, now: State, b: nat, name: string, extra: nat, id: int, hws: seq<Hw>)
    requires Inv(st) && Extended(st, now, b, name, extra) && |hws| <= extra && id != 0 && IdNames(st, id, b, name)
    ensures Extended(st, UnloadsById(now, id, hws), b, name, extra - |hws|)
    decreases |hws|
  {
    if hws != [] {
      UnloadShrinks(st, now, b, name, extra, id, hws[0]);
      UnloadsShrink(st, UnloadById(now, id, hws[0]).st, b, name, extra - 1, id, hws[1..]);
    }
  }

  /** Loading an accelerator that is not loaded k times by its ID, each time with success, and unloading it k times by
      the same ID gives back every slot of every base, every count and the whole handle table, whatever the hardware
      answers to the unloads; unless the first load drops an RPU base with a loaded slot, as none on the PL does. */
  lemma {:induction false} LoadsAndUnloadsCancel(st: State, id: int, loads: seq<Hw>, unloads: seq<Hw>)
    requires Inv(st) && id != 0 && |unloads| == |loads|
    requires FindId(st.bases, st.ids, id, 0).PackageEntry?
    requires var e := FindId(st.bases, st.ids, id, 0);
      var name := st.bases[e.row].accels[e.accel].name;
      !st.bases[e.row].isUser && SlotNamed(st.bases[e.row], name, 0) == -1 && !LosesSlots(st, e.row, name)
    requires AllLoad(st, id, loads)
    ensures var mid := LoadsById(st, id, loads);
      && Pointers(mid) && |mid.ids| == |mid.bases|
      && var end := UnloadsById(mid, id, unloads);
         && SameSlots(st, end) && end.used == st.used && end.ids == st.ids
         && forall i :: 0 <= i < |st.bases| && !st.bases[i].isUser ==> end.bases[i].active == st.bases[i].active
  {
    var e := FindId(st.bases, st.ids, id, 0);
    var b, name := e.row, st.bases[e.row].accels[e.accel].name;
    NotLoadedIsNone(st, st.bases[b], name);
    assert Extension(st, st, b, name, 0) && NamedHandled(st.bases[b], name);
    LoadsExtend(st, st, b, name, 0, id, loads);
    var mid := LoadsById(st, id, loads);
    UnloadsShrink(st, mid, b, name, |loads|, id, unloads);
    ExtendedByNone(st, UnloadsById(mid, id, unloads), b, name);
  }

  lemma {:induction false} NotLoadedIsNone(st: State, row: Base, name: string)
    requires RowOk(row) && forall k :: 0 <= k < NumSlots(row) ==> !IsNamed(SlotAt(row, k), name)
    ensures NamedCount(row, name, NumSlots(row)) == 0
    ensures RowExtended(row, row, name) && NamedHandled(row, name)
    ensures forall h :: !HeldBy(row, name, h)
  {
    NamedCountZero(row, name, NumSlots(row));
    forall k: nat
      ensures !IsNamed(SlotAt(row, k), name)
    {
    }
  }

  lemma {:induction false} ExtendedByNone(st: State, end: State, b: nat, name: string)
    requires Inv(st) && Extended(st, end, b, name, 0)
    ensures SameSlots(st, end) && end.used == st.used
    ensures forall i :: 0 <= i < |st.bases| && !st.bases[i].isUser ==> end.bases[i].active == st.bases[i].active
  {
    var row := end.bases[b];
    assert RowOk(row);
    NamedCountZero(row, name, NumSlots(row));
    NotLoadedIsNone(end, row, name);
    forall i, k: nat | 0 <= i < |st.bases|
      ensures SlotAt(end.bases[i], k) == SlotAt(st.bases[i], k)
    {
      if i == b {
        assert SlotAt(st.bases[b], k) == Without(SlotAt(row, k), name) && SlotAt(row, k) == Without(SlotAt(row, k), name);
      }
    }
    forall i | 0 <= i < |st.bases| && !st.bases[i].isUser
      ensures end.bases[i].active == st.bases[i].active
    {
      assert RowOk(st.bases[i]) && RowOk(end.bases[i]);
      assert forall k: nat :: SlotAt(end.bases[i], k) == SlotAt(st.bases[i], k);
      SameSlotsSameCount(st.bases[i], end.bases[i]);
    }
  }

  lemma {:induction false} SameSlotsSameCount(a: Base, b: Base)
    requires RowOk(a) && RowOk(b) && a.ty == b.ty && a.numPl == b.numPl && a.numAie == b.numAie
    requires forall k: nat :: SlotAt(a, k) == SlotAt(b, k)
    ensures CountedSlots(a) == CountedSlots(b)
  {
    if a.slots != [] && b.slots != [] {
      forall k | 0 <= k < |a.slots|
        ensures a.slots[k] == b.slots[k]
      {
        assert SlotAt(a, k) == SlotAt(b, k);
      }
      assert a.slots == b.slots;
    } else {
      forall k: nat
        ensures SlotAt(a, k) == Empty && SlotAt(b, k) == Empty
      {
      }
      forall k | 0 <= k < |a.slots|
        ensures a.slots[k] == Empty
      {
        assert SlotAt(a, k) == Empty;
      }
      forall k | 0 <= k < |b.slots|
        ensures b.slots[k] == Empty
      {
        assert SlotAt(b, k) == Empty;
      }
      LoadedCountZero(a.slots, |a.slots|, a.ty != Rpu);
      LoadedCountZero(b.slots, |b.slots|, b.ty != Rpu);
    }
  }

  // ---------------------------------------------------------------- slots that are lost stay lost

  /** A load into row b leaves the slots of other rows as they are, or empty. */
  ghost predicate OthersShrink(st: State, after: State, b: nat) {
    && SameCatalogue(st.bases, after.bases) && after.ids == st.ids
    && forall i, k: nat :: 0 <= i < |st.bases| && i != b ==>
         SlotAt(after.bases[i], k) == SlotAt(st.bases[i], k) || SlotAt(after.bases[i], k) == Empty
  }

  lemma FreeShrinks(st: State, i: nat, b: nat)
    requires i < |st.bases|
    ensures OthersShrink(st, FreeSlots(st, i), b)
  {
  }

  lemma AllocShrinks(st: State, mid: State, b: nat)
    requires OthersShrink(st, mid, b) && b < |st.bases|
    ensures OthersShrink(st, AllocSlots(mid, b), b)
  {
  }

  lemma {:induction false} PreparedShrinks(st: State, b: nat, parentPath: string)
    requires Pointers(st) && b < |st.bases|
    ensures OthersShrink(st, PrepareRpu(st, b, parentPath).st, b)
  {
    var way := MakeWay(st, st.rpu, parentPath);
    if st.rpu.To? {
      FreeShrinks(st, st.rpu.i, b);
    }
    assert OthersShrink(st, way.st, b);
    AllocShrinks(st, way.st, b);
  }

  lemma {:induction false} FillShrinks(st: State, mid: State, b: nat, i: nat, name: string)
    requires OthersShrink(st, mid, b) && b < |st.bases|
    ensures OthersShrink(st, FillSlot(mid, b, i, name).st, b)
  {
  }

  lemma {:induction false} LoadShrinks(st: State, b: nat, name: string, hw: Hw)
    requires Pointers(st) && b < |st.bases| && st.bases[b].ty == Rpu
    ensures OthersShrink(st, LoadCore(st, b, name, hw).st, b)
  {
    var base := st.bases[b];
    var j := LastNamed(base.accels, name, |base.accels|);
    if j != -1 {
      var accel := base.accels[j];
      PreparedShrinks(st, b, accel.parentPath);
      var mid := PrepareRpu(st, b, accel.parentPath).st;
      var i := if accel.rpuSlot >= 0 then accel.rpuSlot else FreeSlotFrom(mid.bases[b], accel.slotDirs, 0);
      if i >= 0 {
        FillShrinks(st, mid, b, i, name);
      }
    }
  }

  /** Row i has nothing loaded, and the ID stands for an accelerator of another row. */
  ghost predicate Barren(now: State, i: nat, id: int, b: nat, name: string) {
    && Inv(now) && IdNames(now, id, b, name) && now.bases[b].ty == Rpu && i < |now.bases| && i != b
    && forall k: nat :: SlotAt(now.bases[i], k) == Empty
  }

  lemma {:induction false} LoadStaysBarren(now: State, i: nat, id: int, b: nat, name: string, hw: Hw)
    requires Barren(now, i, id, b, name)
    ensures Barren(LoadById(now, id, hw).st, i, id, b, name)
  {
    LoadIsCore(now, id, b, name, hw);
    LoadCoreKeeps(now, b, name, hw);
    LoadShrinks(now, b, name, hw);
    IdStillNames(now, LoadCore(now, b, name, hw).st, id, b, name);
  }

  lemma {:induction false} UnloadStaysBarren(now: State, i: nat, id: int, b: nat, name: string, hw: Hw)
    requires Barren(now, i, id, b, name) && id != 0
    ensures Barren(UnloadById(now, id, hw).st, i, id, b, name)
  {
    var k, h := SlotNamed(now.bases[b], name, 0), HandleNamed(now.bases[b], name);
    if k != -1 && h >= 0 {
      UnloadIsEmpty(now, id, b, k, name, h, hw);
      IdStillNames(now, UnloadById(now, id, hw).st, id, b, name);
    }
  }

  lemma {:induction false} LoadsStayBarren(now: State, i: nat, id: int, b: nat, name: string, hws: seq<Hw>)
    requires Barren(now, i, id, b, name)
    ensures Barren(LoadsById(now, id, hws), i, id, b, name)
    decreases |hws|
  {
    if hws != [] {
      LoadStaysBarren(now, i, id, b, name, hws[0]);
      LoadsStayBarren(LoadById(now, id, hws[0]).st, i, id, b, name, hws[1..]);
    }
  }

  lemma {:induction false} UnloadsStayBarren(now: State, i: nat, id: int, b: nat, name: string, hws: seq<Hw>)
    requires Barren(now, i, id, b, name) && id != 0
    ensures Barren(UnloadsById(now, id, hws), i, id, b, name)
    decreases |hws|
  {
    if hws != [] {
      UnloadStaysBarren(now, i, id, b, name, hws[0]);
      UnloadsStayBarren(UnloadById(now, id, hws[0]).st, i, id, b, name, hws[1..]);
    }
  }

  lemma {:induction false} FirstLoadLoses(st: State, id: int, b: nat, name: string, hw: Hw)
    requires Inv(st) && IdNames(st, id, b, name) && LosesSlots(st, b, name) && Registered(st.bases[b], name)
    ensures st.rpu.To? && Barren(LoadById(st, id, hw).st, st.rpu.i, id, b, name)
  {
    LoadIsCore(st, id, b, name, hw);
    LoadCoreKeeps(st, b, name, hw);
    LoadShrinks(st, b, name, hw);
    IdStillNames(st, LoadCore(st, b, name, hw).st, id, b, name);
    LosingLoadFrees(st, b, name, hw);
  }

  /** Loads and as many unloads by the ID of a registered accelerator give back every slot exactly if the first load drops
      no RPU base with a loaded slot. */
  lemma {:induction false} CancelExactlyWhen(st: State, id: int, loads: seq<Hw>, unloads: seq<Hw>)
    requires Inv(st) && id != 0 && |unloads| == |loads| > 0
    requires FindId(st.bases, st.ids, id, 0).PackageEntry?
    requires var e := FindId(st.bases, st.ids, id, 0);
      var name := st.bases[e.row].accels[e.accel].name;
      !st.bases[e.row].isUser && SlotNamed(st.bases[e.row], name, 0) == -1 && Registered(st.bases[e.row], name)
    requires AllLoad(st, id, loads)
    ensures var e := FindId(st.bases, st.ids, id, 0);
      var mid := LoadsById(st, id, loads);
      && Pointers(mid) && |mid.ids| == |mid.bases|
      && (SameSlots(st, UnloadsById(mid, id, unloads)) <==>
            !LosesSlots(st, e.row, st.bases[e.row].accels[e.accel].name))
  {
    var e := FindId(st.bases, st.ids, id, 0);
    var b, name := e.row, st.bases[e.row].accels[e.accel].name;
    if LosesSlots(st, b, name) {
      FirstLoadLoses(st, id, b, name, loads[0]);
      var i := st.rpu.i;
      LoadsStayBarren(LoadById(st, id, loads[0]).st, i, id, b, name, loads[1..]);
      var mid := LoadsById(st, id, loads);
      UnloadsStayBarren(mid, i, id, b, name, unloads);
      var row := st.bases[i];
      LoadedCountZero(row.slots, |row.slots|, true);
      var k :| 0 <= k < |row.slots| && Counts(row.slots[k], true);
      assert SlotAt(row, k).Loaded? && SlotAt(UnloadsById(mid, id, unloads).bases[i], k) == Empty;
    } else {
      LoadsAndUnloadsCancel(st, id, loads, unloads);
    }
  }
}
