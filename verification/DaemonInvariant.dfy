/** What every operation of the daemon keeps, over every run. */
module DaemonInvariant {
  import opened DaemonSpec

  // ---------------------------------------------------------------- counts

  /** How many of the first n slots are loaded; without `all`, only those that got a handle. */
  function LoadedCount(slots: seq<SlotPtr>, n: nat, all: bool): nat
    requires n <= |slots|
  {
    if n == 0 then 0
    else LoadedCount(slots, n - 1, all) + if Counts(slots[n - 1], all) then 1 else 0
  }

  predicate Counts(s: SlotPtr, all: bool) {
    s.Loaded? && (all || s.handle >= 0)
  }

  /** What `active` of a package row should be: an RPU slot that got no handle is not counted. */
  function CountedSlots(b: Base): nat {
    LoadedCount(b.slots, |b.slots|, b.ty != Rpu)
  }

  function OccupiedSlots(b: Base): nat {
    LoadedCount(b.slots, |b.slots|, true)
  }

  lemma {:induction false} LoadedCountUpdate(slots: seq<SlotPtr>, n: nat, all: bool, i: nat, s: SlotPtr)
    requires i < |slots| && n <= |slots|
    ensures LoadedCount(slots[i := s], n, all) == LoadedCount(slots, n, all)
      + if i < n then (if Counts(s, all) then 1 else 0) - (if Counts(slots[i], all) then 1 else 0) else 0
  {
    if n > 0 {
      LoadedCountUpdate(slots, n - 1, all, i, s);
    }
  }

  lemma {:induction false} LoadedCountZero(slots: seq<SlotPtr>, n: nat, all: bool)
    requires n <= |slots|
    ensures LoadedCount(slots, n, all) == 0 <==> forall i :: 0 <= i < n ==> !Counts(slots[i], all)
  {
    if n > 0 {
      LoadedCountZero(slots, n - 1, all);
    }
  }

  /** How many of the first n rows are user Partials. */
  function PartialCount(bases: seq<Base>, n: nat): nat
    requires n <= |bases|
  {
    if n == 0 then 0 else PartialCount(bases, n - 1) + if IsPartial(bases[n - 1]) then 1 else 0
  }

  function Partials(st: State): nat {
    PartialCount(st.bases, |st.bases|)
  }

  lemma {:induction false} PartialCountUpdate(bases: seq<Base>, n: nat, i: nat, b: Base)
    requires i < |bases| && n <= |bases|
    ensures PartialCount(bases[i := b], n) == PartialCount(bases, n)
      + if i < n then (if IsPartial(b) then 1 else 0) - (if IsPartial(bases[i]) then 1 else 0) else 0
  {
    if n > 0 {
      PartialCountUpdate(bases, n - 1, i, b);
    }
  }

  lemma {:induction false} PartialCountZero(bases: seq<Base>, n: nat)
    requires n <= |bases|
    ensures PartialCount(bases, n) == 0 <==> forall i :: 0 <= i < n ==> !IsPartial(bases[i])
  {
    if n > 0 {
      PartialCountZero(bases, n - 1);
    }
  }

  // ---------------------------------------------------------------- the invariant

  predicate IsPl(b: Base) {
    b.ty == PlDfx || IsFlat(b)
  }

  /** A row by itself: what the catalogue says of it, its slot array, its count. */
  predicate RowOk(b: Base) {
    && |b.accels| == RP_SLOTS_MAX
    && (b.isUser ==> b.path == "User" && b.ty == OtherType && NumSlots(b) == 0 && b.userHandle >= -1)
    && (b.path == "" ==> b.ty == OtherType && NumSlots(b) == 0 && b.active == 0)
    && (!b.isUser ==> b.path != "User")
    && (IsFlat(b) ==> b.numPl >= 1)
    && (b.ty != OtherType ==> forall j :: 0 <= j < |b.accels| ==> ParentOk(b.accels[j], b.path))
    && SlotsOk(b)
    && (!b.isUser ==> b.active == CountedSlots(b))
    && (IsPartial(b) ==> b.active == 0)
  }

  /** A registered accelerator names its own base as its parent; a blank entry names none. */
  predicate ParentOk(a: Accel, path: string) {
    a.parentPath == "" || a.parentPath == path
  }

  /** NULL or of full size; only slots that are searched are loaded, and in a flat design only the first. */
  predicate SlotsOk(b: Base) {
    && (b.slots == [] || |b.slots| == SlotCapacity(b))
    && (b.ty == OtherType ==> b.slots == [])
    && (forall k :: 0 <= k < |b.slots| && b.slots[k].Loaded? ==> k < NumSlots(b) && b.slots[k].handle >= -1)
    && (IsFlat(b) ==> forall k :: 1 <= k < |b.slots| ==> b.slots[k] == Empty)
  }

  predicate Vacant(b: Base) {
    b.active == 0 && forall k :: 0 <= k < |b.slots| ==> b.slots[k] == Empty
  }

  predicate Sizes(st: State) {
    && |st.bases| == MAX_WATCH && |st.used| == SLOT_HANDLE_MAX && |st.ids| == |st.bases|
    && forall i :: 0 <= i < |st.ids| ==> |st.ids[i].accels| == RP_SLOTS_MAX
  }

  predicate RowsOk(bases: seq<Base>) {
    forall i :: 0 <= i < |bases| ==> RowOk(bases[i])
  }

  predicate PathsOk(bases: seq<Base>) {
    forall i, j :: 0 <= i < j < |bases| && bases[i].path != "" && !bases[i].isUser && !bases[j].isUser ==>
      bases[i].path != bases[j].path
  }

  /** The current PL base is a PL package with slots, or a user Full; the current RPU base is an RPU package. */
  predicate CurrentOk(st: State) {
    && Pointers(st)
    && (st.active.To? ==>
          var b := st.bases[st.active.i];
          if b.isUser then !b.userPartial else IsPl(b) && b.slots != [])
    && (st.rpu.To? ==>
          var b := st.bases[st.rpu.i];
          !b.isUser && b.ty == Rpu && b.slots != [])
  }

  /** Only current bases have anything loaded. */
  predicate OthersVacant(st: State) {
    forall i :: 0 <= i < |st.bases| && st.active != To(i) && st.rpu != To(i) ==> Vacant(st.bases[i])
  }

  /** While a user Partial is loaded, the PL belongs to users: no base is current, or a user Full is and counts the
      Partials. */
  predicate PartialsOk(st: State)
    requires Pointers(st)
  {
    if st.active.To? then
      if st.bases[st.active.i].isUser then st.bases[st.active.i].active == Partials(st) else Partials(st) == 0
    else true
  }

  /** The handle that position k of row i holds: a slot's, or, at -1, the row's own. -1 if none. */
  function HandleAt(bases: seq<Base>, i: nat, k: int): int {
    if i >= |bases| then -1
    else if k == -1 then (if bases[i].isUser then bases[i].userHandle else -1)
    else if k >= 0 && SlotAt(bases[i], k).Loaded? then SlotAt(bases[i], k).handle
    else -1
  }

  predicate Held(bases: seq<Base>, h: int) {
    exists i: nat, k: int :: i < |bases| && -1 <= k < |bases[i].slots| && HandleAt(bases, i, k) == h
  }

  /** A handle is marked used exactly when it is held, and it is held once. */
  ghost predicate HandlesOk(bases: seq<Base>, used: seq<bool>) {
    && (forall i: nat, k: int :: HandleAt(bases, i, k) >= 0 ==>
          HandleAt(bases, i, k) < |used| && used[HandleAt(bases, i, k)])
    && (forall i: nat, k: int, j: nat, m: int ::
          HandleAt(bases, i, k) >= 0 && HandleAt(bases, i, k) == HandleAt(bases, j, m) ==> i == j && k == m)
    && (forall h :: 0 <= h < |used| && used[h] ==> Held(bases, h))
  }

  /** All but the count of the Partials and the handles. */
  predicate Skeleton(st: State) {
    && Sizes(st)
    && RowsOk(st.bases)
    && PathsOk(st.bases)
    && CurrentOk(st)
    && OthersVacant(st)
  }

  predicate Structure(st: State) {
    Skeleton(st) && PartialsOk(st)
  }

  ghost predicate Inv(st: State) {
    Structure(st) && HandlesOk(st.bases, st.used)
  }

  // ---------------------------------------------------------------- handles, position by position

  /** Nobody's handle changes. */
  lemma HandlesSame(bases: seq<Base>, after: seq<Base>, used: seq<bool>)
    requires HandlesOk(bases, used)
    requires forall i: nat, k: int :: HandleAt(after, i, k) >= 0 || HandleAt(bases, i, k) >= 0 ==>
               HandleAt(after, i, k) == HandleAt(bases, i, k)
    requires forall i: nat, k: int :: HandleAt(after, i, k) >= 0 ==> i < |after| && -1 <= k < |after[i].slots|
    ensures HandlesOk(after, used)
  {
    forall h | 0 <= h < |used| && used[h]
      ensures Held(after, h)
    {
      var i: nat, k: int :| i < |bases| && -1 <= k < |bases[i].slots| && HandleAt(bases, i, k) == h;
      assert HandleAt(after, i, k) == h;
    }
  }

  /** One position that had no handle gets a free one. */
  lemma HandlesTaken(bases: seq<Base>, after: seq<Base>, used: seq<bool>, i0: nat, k0: int)
    requires HandlesOk(bases, used) && HandleAt(bases, i0, k0) < 0
    requires forall i: nat, k: int :: i != i0 || k != k0 ==> HandleAt(after, i, k) == HandleAt(bases, i, k)
    requires forall i: nat, k: int :: HandleAt(after, i, k) >= 0 ==> i < |after| && -1 <= k < |after[i].slots|
    requires HandleAt(after, i0, k0) == FirstFree(used, 0)
    ensures HandlesOk(after, Taken(used, FirstFree(used, 0)))
  {
    var free := FirstFree(used, 0);
    forall h | 0 <= h < |used| && Taken(used, free)[h]
      ensures Held(after, h)
    {
      if h == free {
        assert HandleAt(after, i0, k0) == h;
      } else {
        var i: nat, k: int :| i < |bases| && -1 <= k < |bases[i].slots| && HandleAt(bases, i, k) == h;
        assert HandleAt(after, i, k) == h;
      }
    }
  }

  /** One position gives its handle back. */
  lemma HandlesReleased(bases: seq<Base>, after: seq<Base>, used: seq<bool>, i0: nat, k0: int)
    requires HandlesOk(bases, used) && HandleAt(after, i0, k0) < 0
    requires forall i: nat, k: int :: HandleAt(after, i, k) >= 0 ==> HandleAt(after, i, k) == HandleAt(bases, i, k)
    requires forall i: nat, k: int :: HandleAt(bases, i, k) >= 0 && (i != i0 || k != k0) ==>
               HandleAt(after, i, k) == HandleAt(bases, i, k)
    requires forall i: nat, k: int :: HandleAt(after, i, k) >= 0 ==> i < |after| && -1 <= k < |after[i].slots|
    ensures HandlesOk(after, Released(used, HandleAt(bases, i0, k0)))
  {
    var gone := HandleAt(bases, i0, k0);
    forall h | 0 <= h < |used| && used[h] && h != gone
      ensures Held(after, h)
    {
      var i: nat, k: int :| i < |bases| && -1 <= k < |bases[i].slots| && HandleAt(bases, i, k) == h;
      assert HandleAt(after, i, k) == h;
    }
  }

  // ---------------------------------------------------------------- one edit at a time

  /** A row that stays a row of the same kind, with the same handles. */
  lemma RowEdit(st: State, i: nat, b: Base)
    requires Inv(st) && i < |st.bases| && RowOk(b)
    requires b.path == st.bases[i].path && b.isUser == st.bases[i].isUser && b.userPartial == st.bases[i].userPartial
    requires b.userHandle == st.bases[i].userHandle
    requires forall k: int :: HandleAt([b], 0, k) >= 0 || HandleAt([st.bases[i]], 0, k) >= 0 ==>
               HandleAt([b], 0, k) == HandleAt([st.bases[i]], 0, k)
    ensures var after := st.bases[i := b];
      RowsOk(after) && PathsOk(after) && HandlesOk(after, st.used) && PartialCount(after, |after|) == Partials(st)
  {
    var after := st.bases[i := b];
    PartialCountUpdate(st.bases, |st.bases|, i, b);
    forall j: nat, k: int
      ensures HandleAt(after, j, k) >= 0 || HandleAt(st.bases, j, k) >= 0 ==>
        HandleAt(after, j, k) == HandleAt(st.bases, j, k)
      ensures HandleAt(after, j, k) >= 0 ==> j < |after| && -1 <= k < |after[j].slots|
    {
      if j == i {
        assert HandleAt(after, j, k) == HandleAt([b], 0, k);
        assert HandleAt(st.bases, j, k) == HandleAt([st.bases[i]], 0, k);
      }
    }
    HandlesSame(st.bases, after, st.used);
  }

  /** A package row is replaced by one of the same kind: current with slots, or vacant. */
  lemma PackageEdit(st: State, i: nat, b: Base)
    requires Structure(st) && i < |st.bases| && RowOk(b) && !b.isUser && b.ty == st.bases[i].ty
    requires b.path == st.bases[i].path && !st.bases[i].isUser
    requires if st.active == To(i) || st.rpu == To(i) then b.slots != [] else Vacant(b)
    ensures Structure(SetBase(st, i, b)) && Partials(SetBase(st, i, b)) == Partials(st)
  {
    PartialCountUpdate(st.bases, |st.bases|, i, b);
  }

  lemma AllocRow(b: Base)
    requires RowOk(b) && !b.isUser && (IsPl(b) || b.ty == Rpu)
    ensures RowOk(Allocated(b)) && Allocated(b).slots != []
    ensures forall k: nat :: SlotAt(Allocated(b), k) == SlotAt(b, k)
    ensures Vacant(b) ==> Vacant(Allocated(b))
  {
    var a := Allocated(b);
    LoadedCountZero(a.slots, |a.slots|, b.ty != Rpu);
  }

  lemma AllocKeeps(st: State, i: nat)
    requires Inv(st) && i < |st.bases| && !st.bases[i].isUser && (IsPl(st.bases[i]) || st.bases[i].ty == Rpu)
    ensures Inv(AllocSlots(st, i))
    ensures AllocSlots(st, i).bases[i].slots != [] && Partials(AllocSlots(st, i)) == Partials(st)
  {
    AllocRow(st.bases[i]);
    RowEdit(st, i, Allocated(st.bases[i]));
  }

  /** The slot array of a current base that counts nothing is freed, and the base is current no more. */
  lemma DropPlKeeps(st: State)
    requires Inv(st) && st.active.To? && st.bases[st.active.i].active == 0
    ensures Inv(FreeSlots(st, st.active.i).(active := Null))
    ensures Vacant(st.bases[st.active.i])
    ensures Partials(FreeSlots(st, st.active.i)) == Partials(st) == 0
  {
    var i := st.active.i;
    var row := st.bases[i];
    LoadedCountZero(row.slots, |row.slots|, row.ty != Rpu);
    RowEdit(st, i, row.(slots := []));
  }

  lemma DropRpuKeeps(st: State)
    requires Inv(st) && st.rpu.To? && st.bases[st.rpu.i].active == 0
    ensures Inv(FreeSlots(st, st.rpu.i).(rpu := Null))
  {
    var i := st.rpu.i;
    var row := st.bases[i];
    LoadedCountZero(row.slots, |row.slots|, false);
    forall k: int
      ensures HandleAt([row], 0, k) < 0
    {
      if 0 <= k < |row.slots| {
        assert !Counts(row.slots[k], false);
      }
    }
    RowEdit(st, i, row.(slots := []));
  }

  lemma NullKeeps(st: State)
    requires Inv(st) && st.active.To? && Vacant(st.bases[st.active.i])
    ensures Inv(st.(active := Null))
  {
  }

  lemma SetActiveKeeps(st: State, b: nat)
    requires Inv(st) && b < |st.bases| && !st.bases[b].isUser && IsPl(st.bases[b]) && st.bases[b].slots != []
    requires st.active.To? ==> Vacant(st.bases[st.active.i])
    requires Partials(st) == 0
    ensures Inv(st.(active := To(b)))
  {
  }

  lemma SetRpuKeeps(st: State, b: nat)
    requires Inv(st) && b < |st.bases| && !st.bases[b].isUser && st.bases[b].ty == Rpu && st.bases[b].slots != []
    requires st.rpu == Null
    ensures Inv(st.(rpu := To(b)))
  {
  }

  lemma ZeroKeeps(st: State, b: nat)
    requires b < |st.bases| && st.bases[b].active == 0
    ensures ZeroActive(st, b) == st
  {
    assert st.bases[b := st.bases[b].(active := 0)] == st.bases;
  }

  lemma {:induction false} FillRow(base: Base, i: nat, name: string, h: int)
    requires RowOk(base) && !base.isUser && h >= -1
    requires i < NumSlots(base) && i < |base.slots| && base.slots[i] == Empty && (IsFlat(base) ==> i == 0)
    ensures RowOk(base.(slots := base.slots[i := Loaded(name, h)],
                        active := if base.ty == Rpu && h < 0 then base.active else base.active + 1))
  {
    LoadedCountUpdate(base.slots, |base.slots|, base.ty != Rpu, i, Loaded(name, h));
  }

  lemma {:induction false} FillHandles(st: State, b: nat, i: nat, name: string)
    requires HandlesOk(st.bases, st.used) && b < |st.bases| && !st.bases[b].isUser
    requires i < |st.bases[b].slots| && st.bases[b].slots[i] == Empty
    requires forall j: nat, k: int :: HandleAt(st.bases, j, k) >= 0 ==> -1 <= k < |st.bases[j].slots|
    ensures var r := FillSlot(st, b, i, name).st; HandlesOk(r.bases, r.used)
  {
    var r := FillSlot(st, b, i, name);
    var after := r.st.bases;
    forall j: nat, k: int
      ensures j != b || k != i ==> HandleAt(after, j, k) == HandleAt(st.bases, j, k)
    {
    }
    assert HandleAt(st.bases, b, i) == -1 && HandleAt(after, b, i) == r.rv;
    HandlesTaken(st.bases, after, st.used, b, i);
  }

  /** Whoever holds a handle is in the table. */
  lemma HoldersInTable(bases: seq<Base>)
    ensures forall j: nat, k: int :: HandleAt(bases, j, k) >= 0 ==> j < |bases| && -1 <= k < |bases[j].slots|
  {
  }

  lemma {:induction false} FillStructure(st: State, b: nat, i: nat, name: string)
    requires Structure(st) && b < |st.bases| && (st.active == To(b) || st.rpu == To(b)) && !st.bases[b].isUser
    requires i < NumSlots(st.bases[b]) && i < |st.bases[b].slots| && st.bases[b].slots[i] == Empty
    requires IsFlat(st.bases[b]) ==> i == 0
    ensures Structure(FillSlot(st, b, i, name).st)
  {
    var r := FillSlot(st, b, i, name);
    FillRow(st.bases[b], i, name, r.rv);
    PackageEdit(st, b, r.st.bases[b]);
  }

  lemma {:induction false} FillKeeps(st: State, b: nat, i: nat, name: string)
    requires Inv(st) && b < |st.bases| && (st.active == To(b) || st.rpu == To(b)) && !st.bases[b].isUser
    requires i < NumSlots(st.bases[b]) && i < |st.bases[b].slots| && st.bases[b].slots[i] == Empty
    requires IsFlat(st.bases[b]) ==> i == 0
    ensures Inv(FillSlot(st, b, i, name).st)
  {
    HoldersInTable(st.bases);
    FillHandles(st, b, i, name);
    FillStructure(st, b, i, name);
  }

  lemma {:induction false} EmptyRow(base: Base, i: nat)
    requires RowOk(base) && !base.isUser && i < |base.slots| && base.slots[i].Loaded? && base.slots[i].handle >= 0
    ensures var b := base.(slots := base.slots[i := Empty], active := base.active - 1);
      RowOk(b) && (IsFlat(base) ==> Vacant(b))
  {
    LoadedCountUpdate(base.slots, |base.slots|, base.ty != Rpu, i, Empty);
    var b := base.(slots := base.slots[i := Empty], active := base.active - 1);
    LoadedCountZero(b.slots, |b.slots|, base.ty != Rpu);
  }

  lemma {:induction false} EmptyHandles(st: State, b: nat, i: nat, h: int)
    requires HandlesOk(st.bases, st.used) && b < |st.bases| && !st.bases[b].isUser
    requires i < |st.bases[b].slots| && st.bases[b].slots[i].Loaded? && st.bases[b].slots[i].handle == h >= 0
    requires forall j: nat, k: int :: HandleAt(st.bases, j, k) >= 0 ==> -1 <= k < |st.bases[j].slots|
    ensures var r := EmptySlot(st, b, i, h); HandlesOk(r.bases, r.used)
  {
    var after := EmptySlot(st, b, i, h).bases;
    forall j: nat, k: int
      ensures j != b || k != i ==> HandleAt(after, j, k) == HandleAt(st.bases, j, k)
    {
    }
    assert HandleAt(st.bases, b, i) == h && HandleAt(after, b, i) == -1;
    HandlesReleased(st.bases, after, st.used, b, i);
  }

  lemma {:induction false} EmptyStructure(st: State, b: nat, i: nat, h: int)
    requires Structure(st) && b < |st.bases| && (st.active == To(b) || st.rpu == To(b)) && !st.bases[b].isUser
    requires i < |st.bases[b].slots| && st.bases[b].slots[i].Loaded? && st.bases[b].slots[i].handle == h >= 0
    ensures Structure(EmptySlot(st, b, i, h))
    ensures IsFlat(st.bases[b]) ==> Vacant(EmptySlot(st, b, i, h).bases[b])
  {
    EmptyRow(st.bases[b], i);
    PackageEdit(st, b, EmptySlot(st, b, i, h).bases[b]);
  }

  lemma {:induction false} EmptyKeeps(st: State, b: nat, i: nat, h: int)
    requires Inv(st) && b < |st.bases| && (st.active == To(b) || st.rpu == To(b)) && !st.bases[b].isUser
    requires i < |st.bases[b].slots| && st.bases[b].slots[i].Loaded? && st.bases[b].slots[i].handle == h >= 0
    ensures Inv(EmptySlot(st, b, i, h))
    ensures IsFlat(st.bases[b]) ==> Vacant(EmptySlot(st, b, i, h).bases[b])
  {
    HoldersInTable(st.bases);
    EmptyHandles(st, b, i, h);
    EmptyStructure(st, b, i, h);
  }
}
