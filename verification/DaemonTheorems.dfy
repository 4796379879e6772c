/** What the invariant means for clients of the daemon: handles, slots, counts and user designs. */
module DaemonTheorems {
  import opened DaemonSpec
  import opened DaemonInvariant
  import opened DaemonRuns

  // ---------------------------------------------------------------- users and packages

  /** In every state of every run: while a user Partial is loaded, no package is current on the PL; if a user Full is
      current, its count is the number of Partials. */
  lemma {:induction false} UserExclusion(states: seq<State>, n: nat)
    requires IsRun(states) && n < |states|
    ensures var st := states[n];
      && Pointers(st)
      && (Partials(st) > 0 && st.active.To? ==>
            st.bases[st.active.i].isUser && !st.bases[st.active.i].userPartial)
      && (st.active.To? && st.bases[st.active.i].isUser ==> st.bases[st.active.i].active == Partials(st))
  {
    RunKeeps(states, n);
  }

  lemma {:induction false} PrepareRpuStays(st: State, b: nat, parentPath: string)
    requires Pointers(st) && b < |st.bases|
    ensures PrepareRpu(st, b, parentPath).st.active == st.active
  {
  }

  lemma {:induction false} LoadStays(st: State, b: nat, name: string, hw: Hw)
    requires Pointers(st) && ExternallyManaged(st) && b < |st.bases|
    ensures LoadCore(st, b, name, hw).st.active == Null
  {
    var base := st.bases[b];
    var j := LastNamed(base.accels, name, |base.accels|);
    if base.ty == Rpu && j != -1 {
      PrepareRpuStays(st, b, base.accels[j].parentPath);
    }
  }

  lemma {:induction false} UnloadStays(st: State, h: int, hw: Hw)
    requires Pointers(st) && st.active == Null
    ensures Unload(st, h, hw).st.active == Null
  {
  }

  lemma {:induction false} UserLoadStays(st: State, ask: UserRequest, hw: Hw)
    requires Pointers(st) && ExternallyManaged(st)
    ensures UserLoad(st, ask, hw).st.active == Null
  {
  }

  /** Once Partials stand on a base set up outside, nothing becomes current on the PL while one of them is loaded. */
  lemma {:induction false} StaysUnmanaged(st: State, e: Event, hw: Hw)
    requires Pointers(st) && |st.ids| == |st.bases| && ExternallyManaged(st)
    ensures Perform(st, e, hw).st.active == Null
  {
    match e
    case LoadEvent(name) =>
      var b := FindRow(st.bases, name, 0);
      if b < |st.bases| {
        LoadStays(st, b, name, hw);
      }
    case LoadIdEvent(id) =>
      var f := FindId(st.bases, st.ids, id, 0);
      if f.PackageEntry? {
        LoadStays(st, f.row, st.bases[f.row].accels[f.accel].name, hw);
      }
    case UnloadEvent(h) => UnloadStays(st, h, hw);
    case UnloadIdEvent(id) =>
      forall h {
        UnloadStays(st, h, hw);
      }
    case UnloadNameEvent(name) => UnloadStays(st, FindHandleByName(st, name), hw);
    case UserLoadEvent(ask) => UserLoadStays(st, ask, hw);
  }

  predicate HasPartial(st: State) {
    exists i :: 0 <= i < |st.bases| && IsPartial(st.bases[i])
  }

  lemma StepKeepsNull(st: State, next: State)
    requires Steps(st, next) && st.active == Null && HasPartial(st)
    ensures next.active == Null
  {
    var e, hw :| Perform(st, e, hw).st == next;
    StaysUnmanaged(st, e, hw);
  }

  lemma RunStepKeepsNull(states: seq<State>, m: nat)
    requires IsRun(states) && m + 1 < |states| && states[m].active == Null && HasPartial(states[m])
    ensures states[m + 1].active == Null
  {
    assert StepsAt(states, m);
    StepKeepsNull(states[m], states[m + 1]);
  }

  /** So over every run: a PL without a base of ours keeps none until the last Partial is unloaded. */
  lemma NullStays(states: seq<State>, i: nat, j: nat)
    requires IsRun(states) && i <= j < |states| && states[i].active == Null
    requires forall m :: i <= m < j ==> HasPartial(states[m])
    ensures states[j].active == Null
  {
    var p := seq(j - i + 1, k requires 0 <= k <= j - i => states[i + k].active == Null);
    forall k | 0 <= k < |p| - 1 && p[k]
      ensures p[k + 1]
    {
      RunStepKeepsNull(states, i + k);
    }
    AllAlong(p, j - i);
  }

  // ---------------------------------------------------------------- counts

  /** Every loaded slot has a handle. */
  ghost predicate AllHandled(st: State) {
    forall i, k: nat :: 0 <= i < |st.bases| && SlotAt(st.bases[i], k).Loaded? ==> SlotAt(st.bases[i], k).handle >= 0
  }

  lemma {:induction false} CountsDiffer(slots: seq<SlotPtr>, n: nat)
    requires n <= |slots|
    ensures LoadedCount(slots, n, false) <= LoadedCount(slots, n, true)
    ensures LoadedCount(slots, n, false) == LoadedCount(slots, n, true) <==>
      forall k :: 0 <= k < n && slots[k].Loaded? ==> slots[k].handle >= 0
  {
    if n > 0 {
      CountsDiffer(slots, n - 1);
    }
  }

  /** The count of a package row is its number of occupied slots, always on the PL; on an RPU exactly when every load
      into it found a free handle. A package row that is not current has nothing loaded. */
  lemma {:induction false} CountIsOccupancy(st: State, i: nat)
    requires Inv(st) && i < |st.bases| && !st.bases[i].isUser
    ensures var b := st.bases[i];
      b.active == OccupiedSlots(b) <==>
        (b.ty == Rpu ==> forall k :: 0 <= k < |b.slots| && b.slots[k].Loaded? ==> b.slots[k].handle >= 0)
    ensures st.active != To(i) && st.rpu != To(i) ==> st.bases[i].active == 0 == OccupiedSlots(st.bases[i])
  {
    var b := st.bases[i];
    assert RowOk(b);
    CountsDiffer(b.slots, |b.slots|);
    LoadedCountZero(b.slots, |b.slots|, true);
  }

  /** Every package row counts its occupied slots. */
  predicate CountsOk(st: State) {
    forall i :: 0 <= i < |st.bases| && !st.bases[i].isUser ==> st.bases[i].active == OccupiedSlots(st.bases[i])
  }

  /** Every loaded slot of an RPU row has a handle. */
  ghost predicate RpuHandled(st: State) {
    forall i, k: nat :: 0 <= i < |st.bases| && st.bases[i].ty == Rpu && SlotAt(st.bases[i], k).Loaded? ==>
      SlotAt(st.bases[i], k).handle >= 0
  }

  lemma CountsOkIsRpuHandled(st: State)
    requires Inv(st)
    ensures CountsOk(st) <==> RpuHandled(st)
  {
    forall i | 0 <= i < |st.bases| && !st.bases[i].isUser
      ensures st.bases[i].active == OccupiedSlots(st.bases[i]) <==>
        (st.bases[i].ty == Rpu ==>
           forall k: nat :: SlotAt(st.bases[i], k).Loaded? ==> SlotAt(st.bases[i], k).handle >= 0)
    {
      CountIsOccupancy(st, i);
      var b := st.bases[i];
      assert forall k: nat :: k < |b.slots| ==> SlotAt(b, k) == b.slots[k];
    }
    assert forall i :: 0 <= i < |st.bases| && st.bases[i].ty == Rpu ==> RowOk(st.bases[i]);
  }

  // ---------------------------------------------------------------- what a load does

  /** The slots of all rows are as before. */
  ghost predicate SameSlots(st: State, after: State) {
    && |st.bases| == |after.bases|
    && forall i, k: nat :: 0 <= i < |st.bases| ==> SlotAt(after.bases[i], k) == SlotAt(st.bases[i], k)
  }

  /** One slot of one row is different, and has become s. */
  ghost predicate OneSlot(st: State, after: State, b: nat, i: nat, s: SlotPtr) {
    && |st.bases| == |after.bases| && b < |st.bases|
    && SlotAt(after.bases[b], i) == s
    && forall j, k: nat :: 0 <= j < |st.bases| && (j != b || k != i) ==>
         SlotAt(after.bases[j], k) == SlotAt(st.bases[j], k)
  }

  /** The catalogue part of the rows is as before. */
  predicate SameCatalogue(bases: seq<Base>, after: seq<Base>) {
    && |bases| == |after|
    && forall i :: 0 <= i < |bases| ==> after[i] == bases[i].(active := after[i].active, slots := after[i].slots)
  }

  /** Nothing but counts, current bases and empty slot arrays is touched. */
  ghost predicate Untouched(st: State, after: State) {
    SameSlots(st, after) && SameCatalogue(st.bases, after.bases) && after.used == st.used && after.ids == st.ids
  }

  lemma {:induction false} VacantSlots(b: Base)
    requires OccupiedSlots(b) == 0
    ensures forall k: nat :: SlotAt(b, k) == Empty
  {
    LoadedCountZero(b.slots, |b.slots|, true);
    forall k: nat
      ensures SlotAt(b, k) == Empty
    {
      assert k < |b.slots| ==> !Counts(b.slots[k], true);
    }
  }

  lemma {:induction false} FreeUntouched(st: State, i: nat)
    requires i < |st.bases| && OccupiedSlots(st.bases[i]) == 0
    ensures Untouched(st, FreeSlots(st, i))
  {
    VacantSlots(st.bases[i]);
  }

  /** The current RPU base gives way, as it counts nothing and has another path. */
  predicate RpuGivesWay(st: State, parentPath: string)
    requires Pointers(st)
  {
    st.rpu.To? && !KeepsCurrent(st, st.rpu, parentPath)
  }

  /** It does although a slot of it is loaded. */
  predicate DropsLoaded(st: State, parentPath: string)
    requires Pointers(st)
  {
    RpuGivesWay(st, parentPath) && OccupiedSlots(st.bases[st.rpu.i]) > 0
  }

  lemma {:induction false} AllocUntouched(st: State, i: nat)
    requires i < |st.bases|
    ensures Untouched(st, AllocSlots(st, i))
  {
    var a := Allocated(st.bases[i]);
    assert forall k: nat :: SlotAt(a, k) == SlotAt(st.bases[i], k);
  }

  lemma {:induction false} UntouchedTwice(st: State, mid: State, after: State)
    requires Untouched(st, mid) && Untouched(mid, after)
    ensures Untouched(st, after)
  {
    forall i, k: nat | 0 <= i < |st.bases|
      ensures SlotAt(after.bases[i], k) == SlotAt(st.bases[i], k)
    {
      assert SlotAt(after.bases[i], k) == SlotAt(mid.bases[i], k);
    }
  }

  lemma {:induction false} PreparePlUntouched(st: State, b: nat, parentPath: string, hw: Hw)
    requires Inv(st) && b < |st.bases| && st.bases[b].ty == PlDfx && !ExternallyManaged(st)
    ensures Untouched(st, PreparePl(st, b, parentPath, hw).st)
  {
    var drop := st.active.To? && !KeepsCurrent(st, st.active, parentPath);
    if drop {
      DropPlKeeps(st);
      LoadedCountZero(st.bases[st.active.i].slots, |st.bases[st.active.i].slots|, true);
      FreeUntouched(st, st.active.i);
    }
    var st1 := if drop then FreeSlots(st, st.active.i) else st;
    if !st.active.To? || drop {
      if drop {
        DropPlKeeps(st);
      }
      NotCurrentIsZero(st1.(active := Null), b);
      AllocUntouched(st1, b);
      UntouchedTwice(st, st1, AllocSlots(st1, b));
    }
  }

  lemma {:induction false} PrepareRpuUntouched(st: State, b: nat, parentPath: string)
    requires Inv(st) && b < |st.bases| && !DropsLoaded(st, parentPath)
    ensures Untouched(st, PrepareRpu(st, b, parentPath).st)
  {
    var drop := RpuGivesWay(st, parentPath);
    if drop {
      FreeUntouched(st, st.rpu.i);
    }
    var st1 := if drop then FreeSlots(st, st.rpu.i) else st;
    AllocUntouched(st1, b);
    UntouchedTwice(st, st1, AllocSlots(st1, b));
  }

  /** The slot was loaded and no longer is. */
  predicate Lost(st: State, after: State, i: nat, k: nat) {
    i < |st.bases| && i < |after.bases| && SlotAt(st.bases[i], k).Loaded? && SlotAt(after.bases[i], k) == Empty
  }

  /** Making way for an RPU base loses loaded slots exactly if the current one counts nothing, has another path and is
      occupied; what is lost had found no handle. */
  lemma {:induction false} RpuLosesExactlyWhen(st: State, b: nat, parentPath: string)
    requires Inv(st) && b < |st.bases|
    ensures var after := PrepareRpu(st, b, parentPath).st;
      && (DropsLoaded(st, parentPath) <==> exists i: nat, k: nat :: Lost(st, after, i, k))
      && (forall i: nat, k: nat :: Lost(st, after, i, k) ==> st.rpu == To(i) && SlotAt(st.bases[i], k).handle == -1)
  {
    var after := PrepareRpu(st, b, parentPath).st;
    if DropsLoaded(st, parentPath) {
      var row := st.bases[st.rpu.i];
      LoadedCountZero(row.slots, |row.slots|, true);
      LoadedCountZero(row.slots, |row.slots|, false);
      var k :| 0 <= k < |row.slots| && Counts(row.slots[k], true);
      assert SlotAt(row, k) == row.slots[k];
      assert SlotAt(after.bases[st.rpu.i], k) == Empty;
      assert Lost(st, after, st.rpu.i, k);
      forall i: nat, m: nat | Lost(st, after, i, m)
        ensures st.rpu == To(i) && SlotAt(st.bases[i], m).handle == -1
      {
        assert i == st.rpu.i;
        assert RowOk(row) && !Counts(row.slots[m], false);
      }
    } else {
      PrepareRpuUntouched(st, b, parentPath);
    }
  }

  /** A load of `name` into row b: one empty slot that the base searches gets it, with a handle that was free. */
  ghost predicate LoadedInto(st: State, r: Reply, b: nat, i: nat, name: string) {
    && b < |st.bases| && i < NumSlots(st.bases[b]) && SlotAt(st.bases[b], i) == Empty
    && OneSlot(st, r.st, b, i, Loaded(name, r.rv))
    && SameCatalogue(st.bases, r.st.bases) && r.st.ids == st.ids
    && r.rv == FreeHandle(st) && r.st.used == Taken(st.used, r.rv)
  }

  lemma {:induction false} FillLoads(st: State, mid: State, b: nat, i: nat, name: string)
    requires Inv(mid) && Untouched(st, mid) && b < |st.bases| && i < NumSlots(mid.bases[b])
    requires i < |mid.bases[b].slots| && mid.bases[b].slots[i] == Empty
    ensures LoadedInto(st, FillSlot(mid, b, i, name), b, i, name)
  {
    assert SlotAt(mid.bases[b], i) == SlotAt(st.bases[b], i);
    var r := FillSlot(mid, b, i, name);
    forall j, k: nat | 0 <= j < |st.bases| && (j != b || k != i)
      ensures SlotAt(r.st.bases[j], k) == SlotAt(st.bases[j], k)
    {
      assert SlotAt(mid.bases[j], k) == SlotAt(st.bases[j], k);
    }
  }

  /** Slot i is the lowest empty one with a directory. */
  predicate LowestWithDirectory(b: Base, name: string, i: nat) {
    var j := LastNamed(b.accels, name, |b.accels|);
    && j != -1 && i in b.accels[j].slotDirs
    && forall m :: 0 <= m < i ==> SlotAt(b, m) != Empty || m !in b.accels[j].slotDirs
  }

  /** The slot that a load has to take: the first of a flat design, the one the directory layout names on an RPU,
      otherwise the lowest empty one with a directory. */
  predicate RightSlot(b: Base, name: string, i: nat) {
    if IsFlat(b) then i == 0
    else
      var j := LastNamed(b.accels, name, |b.accels|);
      && j != -1
      && if b.ty == Rpu && b.accels[j].rpuSlot >= 0 then i == b.accels[j].rpuSlot < b.numPl
         else LowestWithDirectory(b, name, i)
  }

  /** What a load into row b may come to. */
  ghost predicate LoadOutcome(st: State, r: Reply, b: nat, name: string) {
    || (r.rv < 0 && Untouched(st, r.st))
    || exists i: nat :: LoadedInto(st, r, b, i, name) && RightSlot(st.bases[b], name, i)
  }

  lemma {:induction false} LoadSlotOutcome(st: State, mid: State, b: nat, name: string, hw: Hw)
    requires Inv(mid) && Untouched(st, mid) && Ready(mid, b)
    requires var j := LastNamed(mid.bases[b].accels, name, |mid.bases[b].accels|); j != -1
    ensures var accel := mid.bases[b].accels[LastNamed(mid.bases[b].accels, name, |mid.bases[b].accels|)];
      && (mid.bases[b].ty == PlDfx || accel.rpuSlot < 0 ==> LoadOutcome(st, LoadLowest(mid, b, accel, name, hw), b, name))
      && (mid.bases[b].ty == Rpu && accel.rpuSlot >= 0 ==> LoadOutcome(st, LoadFixed(mid, b, accel, name, hw), b, name))
  {
    var base := mid.bases[b];
    assert RowOk(base);
    var accel := base.accels[LastNamed(base.accels, name, |base.accels|)];
    var i := FreeSlotFrom(base, accel.slotDirs, 0);
    if i != -1 {
      FillLoads(st, mid, b, i, name);
      forall m | 0 <= m < i
        ensures SlotAt(st.bases[b], m) != Empty || m !in accel.slotDirs
      {
        assert SlotAt(mid.bases[b], m) == SlotAt(st.bases[b], m);
      }
    }
    if 0 <= accel.rpuSlot < base.numPl && SlotAt(base, accel.rpuSlot) == Empty {
      FillLoads(st, mid, b, accel.rpuSlot, name);
    }
  }

  /** A flat design may take over: nothing is counted on the PL, so its first slot is empty. */
  lemma {:induction false} FlatTakesOver(st: State, b: nat)
    requires Inv(st) && b < |st.bases| && IsFlat(st.bases[b]) && !ExternallyManaged(st)
    requires st.active.To? ==> st.bases[st.active.i].active <= 0
    ensures var mid := AllocSlots(st, b).(active := To(b));
      && Inv(mid) && Untouched(st, mid) && mid.bases[b].slots != [] && mid.bases[b].slots[0] == Empty
      && ZeroActive(AllocSlots(st, b), b) == AllocSlots(st, b)
  {
    assert RowOk(st.bases[b]);
    AllocKeeps(st, b);
    AllocUntouched(st, b);
    var st0 := AllocSlots(st, b);
    if st.active.To? {
      ActiveIsCount(st, st.active.i);
      VacantWhenUncounted(st0, st.active.i);
    }
    NoPartials(st);
    NotCurrentIsZero(st0, b);
    VacantWhenUncounted(st0, b);
    SetActiveKeeps(st0, b);
  }

  lemma {:induction false} LoadFlatOutcome(st: State, b: nat, name: string, hw: Hw)
    requires Inv(st) && b < |st.bases| && IsFlat(st.bases[b]) && !ExternallyManaged(st)
    ensures LoadOutcome(st, LoadFlat(st, b, name, hw), b, name)
  {
    AllocUntouched(st, b);
    if !(st.active.To? && AllocSlots(st, b).bases[st.active.i].active > 0) {
      FlatTakesOver(st, b);
      assert RowOk(st.bases[b]);
      FillLoads(st, AllocSlots(st, b).(active := To(b)), b, 0, name);
    }
  }

  /** A load of that accelerator drops an RPU base with a loaded slot. */
  predicate LosesSlots(st: State, b: nat, name: string)
    requires Pointers(st) && b < |st.bases|
  {
    var accels := st.bases[b].accels;
    var j := LastNamed(accels, name, |accels|);
    st.bases[b].ty == Rpu && j != -1 && DropsLoaded(st, accels[j].parentPath)
  }

  /** The accelerator of that name names its base as its parent, as registered ones do. */
  predicate Registered(b: Base, name: string) {
    var j := LastNamed(b.accels, name, |b.accels|);
    j != -1 ==> b.accels[j].parentPath == b.path
  }

  /** What is left once the slots are lost that a load of that accelerator drops with their base. */
  function Dropping(st: State, b: nat, name: string): State
    requires Pointers(st) && b < |st.bases|
  {
    if LosesSlots(st, b, name) then FreeSlots(st, st.rpu.i) else st
  }

  /** Every load either leaves all slots and handles alone, or fills exactly one empty slot, the right one, and marks
      exactly the handle it returns; but for an RPU base with a loaded slot that it may drop first. */
  lemma {:induction false} LoadEffect(st: State, b: nat, name: string, hw: Hw)
    requires Inv(st) && b < |st.bases|
    ensures LoadOutcome(Dropping(st, b, name), LoadCore(st, b, name, hw), b, name)
    ensures LosesSlots(st, b, name) && Registered(st.bases[b], name) ==>
      !LoadOutcome(st, LoadCore(st, b, name, hw), b, name)
  {
    var base := st.bases[b];
    assert RowOk(base);
    if ExternallyManaged(st) && base.ty != Rpu {
    } else if IsFlat(base) {
      LoadFlatOutcome(st, b, name, hw);
    } else if base.ty == PlDfx || base.ty == Rpu {
      var j := LastNamed(base.accels, name, |base.accels|);
      if j != -1 {
        assert ParentOk(base.accels[j], base.path);
        if base.ty == PlDfx {
          LoadPlOutcome(st, b, name, hw);
        } else {
          LoadRpuOutcome(st, b, name, hw);
          if LosesSlots(st, b, name) && Registered(base, name) {
            LoadLoses(st, b, name, hw);
          }
        }
      }
    }
  }

  lemma {:induction false} LoadPlOutcome(st: State, b: nat, name: string, hw: Hw)
    requires Inv(st) && b < |st.bases| && st.bases[b].ty == PlDfx && !ExternallyManaged(st)
    requires LastNamed(st.bases[b].accels, name, |st.bases[b].accels|) != -1
    ensures LoadOutcome(st, LoadCore(st, b, name, hw), b, name)
  {
    var base := st.bases[b];
    var accel := base.accels[LastNamed(base.accels, name, |base.accels|)];
    assert RowOk(base) && ParentOk(accel, base.path);
    PreparePlKeeps(st, b, accel.parentPath, hw);
    PreparePlUntouched(st, b, accel.parentPath, hw);
    var r := PreparePl(st, b, accel.parentPath, hw);
    if r.rv == 0 {
      LoadSlotOutcome(st, r.st, b, name, hw);
    }
  }

  lemma {:induction false} LoadRpuOutcome(st: State, b: nat, name: string, hw: Hw)
    requires Inv(st) && b < |st.bases| && st.bases[b].ty == Rpu
    requires LastNamed(st.bases[b].accels, name, |st.bases[b].accels|) != -1
    ensures LoadOutcome(Dropping(st, b, name), LoadCore(st, b, name, hw), b, name)
  {
    var base := st.bases[b];
    var accel := base.accels[LastNamed(base.accels, name, |base.accels|)];
    assert RowOk(base) && ParentOk(accel, base.path);
    PrepareRpuKeeps(st, b, accel.parentPath);
    PrepareRpuDrops(st, b, name);
    var r := PrepareRpu(st, b, accel.parentPath);
    if r.rv == 0 {
      LoadSlotOutcome(Dropping(st, b, name), r.st, b, name, hw);
    }
  }

  /** Making way touches nothing but what it drops. */
  lemma {:induction false} PrepareRpuDrops(st: State, b: nat, name: string)
    requires Inv(st) && b < |st.bases| && st.bases[b].ty == Rpu
    requires LastNamed(st.bases[b].accels, name, |st.bases[b].accels|) != -1
    ensures var accel := st.bases[b].accels[LastNamed(st.bases[b].accels, name, |st.bases[b].accels|)];
      Untouched(Dropping(st, b, name), PrepareRpu(st, b, accel.parentPath).st)
  {
    var accel := st.bases[b].accels[LastNamed(st.bases[b].accels, name, |st.bases[b].accels|)];
    if LosesSlots(st, b, name) {
      AllocUntouched(FreeSlots(st, st.rpu.i), b);
    } else {
      PrepareRpuUntouched(st, b, accel.parentPath);
    }
  }

  lemma {:induction false} LosingLoadFrees(st: State, b: nat, name: string, hw: Hw)
    requires Inv(st) && b < |st.bases| && LosesSlots(st, b, name) && Registered(st.bases[b], name)
    ensures st.rpu.i != b && LoadCore(st, b, name, hw).st.bases[st.rpu.i].slots == []
  {
  }

  lemma {:induction false} LoadLoses(st: State, b: nat, name: string, hw: Hw)
    requires Inv(st) && b < |st.bases| && LosesSlots(st, b, name) && Registered(st.bases[b], name)
    ensures !LoadOutcome(st, LoadCore(st, b, name, hw), b, name)
  {
    var row := st.bases[st.rpu.i];
    LoadedCountZero(row.slots, |row.slots|, true);
    var k :| 0 <= k < |row.slots| && Counts(row.slots[k], true);
    var r := LoadCore(st, b, name, hw);
    LosingLoadFrees(st, b, name, hw);
    assert SlotAt(row, k).Loaded? && SlotAt(r.st.bases[st.rpu.i], k) == Empty;
  }

  /** The search sees nothing but the slots. */
  lemma {:induction false} SameSlotsSameSearch(a: Base, b: Base, dirs: set<nat>, i: nat)
    requires NumSlots(a) == NumSlots(b) && forall k: nat :: SlotAt(a, k) == SlotAt(b, k)
    ensures FreeSlotFrom(a, dirs, i) == FreeSlotFrom(b, dirs, i)
    decreases NumSlots(a) - i
  {
    if i < NumSlots(a) {
      SameSlotsSameSearch(a, b, dirs, i + 1);
    }
  }

  /** When a PL_DFX accelerator may be loaded: no forced Partial stands, the current base is its own or counts nothing,
      there is an empty slot with a directory, the accelerator is no AIE design and the hardware takes what it gets. */
  predicate Admits(st: State, b: nat, accel: Accel, hw: Hw)
    requires Pointers(st) && b < |st.bases|
  {
    && !ExternallyManaged(st)
    && (st.active.To? && st.active.i != b ==> st.bases[st.active.i].active == 0)
    && (st.active != To(b) && st.bases[b].loadBase ==> hw.baseLoads)
    && FreeSlotFrom(st.bases[b], accel.slotDirs, 0) != -1
    && !accel.isAie && hw.slotLoads
  }

  /** A registered PL_DFX accelerator is loaded exactly when it is admitted and a handle is free. */
  lemma {:induction false} PlAdmission(st: State, b: nat, name: string, hw: Hw)
    requires Inv(st) && b < |st.bases| && st.bases[b].ty == PlDfx
    requires LastNamed(st.bases[b].accels, name, |st.bases[b].accels|) != -1
    requires var accel := st.bases[b].accels[LastNamed(st.bases[b].accels, name, |st.bases[b].accels|)];
      accel.parentPath == st.bases[b].path
    ensures var accel := st.bases[b].accels[LastNamed(st.bases[b].accels, name, |st.bases[b].accels|)];
      LoadCore(st, b, name, hw).rv >= 0 <==> Admits(st, b, accel, hw) && FreeHandle(st) >= 0
  {
    var accel := st.bases[b].accels[LastNamed(st.bases[b].accels, name, |st.bases[b].accels|)];
    if !ExternallyManaged(st) {
      PreparedExactly(st, b, hw);
      SearchAfterPrepare(st, b, accel, hw);
    }
  }

  lemma {:induction false} PreparedExactly(st: State, b: nat, hw: Hw)
    requires Inv(st) && b < |st.bases| && st.bases[b].ty == PlDfx && !ExternallyManaged(st)
    ensures PreparePl(st, b, st.bases[b].path, hw).rv == 0 <==>
      && (st.active.To? && st.active.i != b ==> st.bases[st.active.i].active == 0)
      && (st.active != To(b) && st.bases[b].loadBase ==> hw.baseLoads)
  {
    assert RowOk(st.bases[b]);
    if st.active.To? {
      ActiveIsCount(st, st.active.i);
      if st.bases[st.active.i].path == st.bases[b].path {
        PathFindsRow(st, st.active.i, b, st.bases[b].path);
      }
    }
  }

  lemma {:induction false} SearchAfterPrepare(st: State, b: nat, accel: Accel, hw: Hw)
    requires Inv(st) && b < |st.bases| && st.bases[b].ty == PlDfx && !ExternallyManaged(st)
    ensures var ready := PreparePl(st, b, st.bases[b].path, hw).st;
      && ready.used == st.used && ready.bases[b].ty == PlDfx
      && FreeSlotFrom(ready.bases[b], accel.slotDirs, 0) == FreeSlotFrom(st.bases[b], accel.slotDirs, 0)
  {
    PreparePlUntouched(st, b, st.bases[b].path, hw);
    var ready := PreparePl(st, b, st.bases[b].path, hw).st;
    forall k: nat
      ensures SlotAt(ready.bases[b], k) == SlotAt(st.bases[b], k)
    {
    }
    SameSlotsSameSearch(st.bases[b], ready.bases[b], accel.slotDirs, 0);
  }

  /** When an RPU accelerator is loaded: the current RPU base is its own or counts nothing, the slot its layout names is
      empty, or else there is an empty one with a directory, and the hardware takes it. */
  predicate RpuAdmits(st: State, b: nat, accel: Accel, hw: Hw)
    requires Pointers(st) && b < |st.bases|
  {
    && (st.rpu.To? && st.bases[st.rpu.i].path != accel.parentPath ==> st.bases[st.rpu.i].active == 0)
    && (if accel.rpuSlot >= 0 then accel.rpuSlot < st.bases[b].numPl && SlotAt(st.bases[b], accel.rpuSlot) == Empty
        else FreeSlotFrom(st.bases[b], accel.slotDirs, 0) != -1)
    && hw.slotLoads
  }

  /** An RPU accelerator takes a slot exactly when it is admitted, with a handle or without; and nothing else is touched
      but a base that is dropped with what is loaded in it. */
  lemma {:induction false} RpuAdmission(st: State, b: nat, name: string, hw: Hw)
    requires Inv(st) && b < |st.bases| && st.bases[b].ty == Rpu
    requires LastNamed(st.bases[b].accels, name, |st.bases[b].accels|) != -1
    ensures var accel := st.bases[b].accels[LastNamed(st.bases[b].accels, name, |st.bases[b].accels|)];
      var left, r := Dropping(st, b, name), LoadCore(st, b, name, hw);
      if RpuAdmits(left, b, accel, hw) then exists i: nat :: LoadedInto(left, r, b, i, name)
      else r.rv < 0 && Untouched(left, r.st)
  {
    var base := st.bases[b];
    var accel := base.accels[LastNamed(base.accels, name, |base.accels|)];
    assert RowOk(base) && ParentOk(accel, base.path);
    PrepareRpuKeeps(st, b, accel.parentPath);
    PrepareRpuDrops(st, b, name);
    if st.rpu.To? {
      ActiveIsCount(st, st.rpu.i);
    }
    var ready := PrepareRpu(st, b, accel.parentPath);
    if ready.rv == 0 {
      RpuSlotTaken(Dropping(st, b, name), ready.st, b, accel, name, hw);
    }
  }

  lemma {:induction false} RpuSlotTaken(st: State, mid: State, b: nat, accel: Accel, name: string, hw: Hw)
    requires Inv(mid) && Untouched(st, mid) && Ready(mid, b) && mid.bases[b].ty == Rpu
    ensures var fits := if accel.rpuSlot >= 0 then
          accel.rpuSlot < st.bases[b].numPl && SlotAt(st.bases[b], accel.rpuSlot) == Empty
        else FreeSlotFrom(st.bases[b], accel.slotDirs, 0) != -1;
      var r := if accel.rpuSlot >= 0 then LoadFixed(mid, b, accel, name, hw) else LoadLowest(mid, b, accel, name, hw);
      if fits && hw.slotLoads then exists i: nat :: LoadedInto(st, r, b, i, name) else r.rv < 0 && Untouched(st, r.st)
  {
    var base := mid.bases[b];
    assert RowOk(base);
    forall k: nat
      ensures SlotAt(base, k) == SlotAt(st.bases[b], k)
    {
    }
    SameSlotsSameSearch(base, st.bases[b], accel.slotDirs, 0);
    var i := if accel.rpuSlot >= 0 then accel.rpuSlot else FreeSlotFrom(base, accel.slotDirs, 0);
    if 0 <= i < NumSlots(base) && SlotAt(base, i) == Empty {
      FillLoads(st, mid, b, i, name);
    }
  }

  // ---------------------------------------------------------------- what an unload does

  /** The holder of h is a current user Full that has Partials. */
  predicate Refused(st: State, h: int)
    requires Pointers(st)
  {
    st.active.To? && var b := st.bases[st.active.i]; b.isUser && b.userHandle == h && b.active > 0
  }

  /** Handle h is free, its holder is gone, and every other slot and user design is as before. */
  ghost predicate OnlyReleased(st: State, after: State, h: int) {
    && |after.bases| == |st.bases|
    && after.used == Released(st.used, h)
    && (forall i: nat, k: int :: HandleAt(after.bases, i, k) ==
          if HandleAt(st.bases, i, k) == h then -1 else HandleAt(st.bases, i, k))
    && (forall i, k: nat :: 0 <= i < |st.bases| ==>
          SlotAt(after.bases[i], k) == if HandleAt(st.bases, i, k) == h then Empty else SlotAt(st.bases[i], k))
    && (forall i :: 0 <= i < |st.bases| ==>
          if st.bases[i].isUser && st.bases[i].userHandle == h then !after.bases[i].isUser
          else after.bases[i] == st.bases[i].(active := after.bases[i].active, slots := after.bases[i].slots))
  }

  lemma UserHandleAt(bases: seq<Base>)
    ensures forall i: nat :: i < |bases| && bases[i].isUser ==> HandleAt(bases, i, -1) == bases[i].userHandle
  {
  }

  lemma {:induction false} EmptyReleases(st: State, b: nat, i: nat, h: int)
    requires Inv(st) && b < |st.bases| && i < |st.bases[b].slots|
    requires st.bases[b].slots[i].Loaded? && st.bases[b].slots[i].handle == h >= 0
    ensures OnlyReleased(st, EmptySlot(st, b, i, h), h)
  {
    assert HandleAt(st.bases, b, i) == h;
    UserHandleAt(st.bases);
    var after := EmptySlot(st, b, i, h);
    forall j: nat, k: int
      ensures HandleAt(after.bases, j, k) == if HandleAt(st.bases, j, k) == h then -1 else HandleAt(st.bases, j, k)
    {
    }
  }

  lemma {:induction false} RemoveReleases(st: State, u: nat, h: int)
    requires Inv(st) && u < |st.bases| && st.bases[u].isUser && st.bases[u].userHandle == h >= 0
    ensures OnlyReleased(st, RemoveUser(st, u), h)
  {
    assert HandleAt(st.bases, u, -1) == h;
    UserHandleAt(st.bases);
    var after := RemoveUser(st, u);
    forall j: nat, k: int
      ensures HandleAt(after.bases, j, k) == if HandleAt(st.bases, j, k) == h then -1 else HandleAt(st.bases, j, k)
    {
    }
  }

  /** What the searches find holds the handle they look for. */
  lemma {:induction false} FoundHolds(bases: seq<Base>, h: int)
    requires h >= 0
    ensures var u := UserRow(bases, h, 0); u < |bases| ==> HandleAt(bases, u, -1) == h
    ensures forall i: nat :: i < |bases| && SlotWithHandle(bases[i], h, 0) != -1 ==>
              HandleAt(bases, i, SlotWithHandle(bases[i], h, 0)) == h
  {
  }

  /** The position that holds h is the one that an unload finds. */
  lemma {:induction false} HolderIsFound(st: State, i: nat, k: int, h: int)
    requires Inv(st) && h >= 0 && HandleAt(st.bases, i, k) == h
    ensures k == -1 ==> UserRow(st.bases, h, 0) == i < |st.bases|
    ensures k >= 0 ==> UserRow(st.bases, h, 0) == |st.bases|
    ensures k >= 0 ==> (st.rpu == To(i) || st.active == To(i)) && SlotWithHandle(st.bases[i], h, 0) == k
    ensures k >= 0 && st.rpu.To? && st.rpu != To(i) ==> SlotWithHandle(st.bases[st.rpu.i], h, 0) == -1
  {
    FoundHolds(st.bases, h);
    if k >= 0 {
      assert RowOk(st.bases[i]);
      assert SlotAt(st.bases[i], k).Loaded?;
    }
  }

  /** A handle that is not marked used is found nowhere. */
  lemma {:induction false} UnusedIsNotFound(st: State, h: int)
    requires Inv(st) && h >= 0 && (h >= |st.used| || !st.used[h])
    ensures UserRow(st.bases, h, 0) == |st.bases|
    ensures forall i: nat :: i < |st.bases| ==> SlotWithHandle(st.bases[i], h, 0) == -1
  {
    FoundHolds(st.bases, h);
  }

  lemma {:induction false} UserIsReleased(st: State, i: nat, h: int, hw: Hw)
    requires Inv(st) && h >= 0 && HandleAt(st.bases, i, -1) == h
    ensures var r := Unload(st, h, hw); if Refused(st, h) then r == Reply(st, -1) else OnlyReleased(st, r.st, h)
  {
    HolderIsFound(st, i, -1, h);
    assert Refused(st, h) ==> HandleAt(st.bases, st.active.i, -1) == h;
    RemoveReleases(st, i, h);
  }

  lemma {:induction false} SlotIsReleased(st: State, i: nat, k: nat, h: int, hw: Hw)
    requires Inv(st) && h >= 0 && HandleAt(st.bases, i, k) == h
    ensures !Refused(st, h) && OnlyReleased(st, Unload(st, h, hw).st, h)
  {
    HolderIsFound(st, i, k, h);
    UserHandleAt(st.bases);
    EmptyReleases(st, i, k, h);
  }

  /** Unloading a handle: one that nothing holds changes nothing and fails; otherwise exactly its holder goes, unless
      that is a user Full with Partials on it, which stays. */
  lemma {:induction false} UnloadEffect(st: State, h: int, hw: Hw)
    requires Inv(st) && h >= 0
    ensures var r := Unload(st, h, hw);
      && (h >= |st.used| || !st.used[h] ==> r == Reply(st, -1))
      && (h < |st.used| && st.used[h] && Refused(st, h) ==> r == Reply(st, -1))
      && (h < |st.used| && st.used[h] && !Refused(st, h) ==> OnlyReleased(st, r.st, h))
  {
    if h < |st.used| && st.used[h] {
      assert Held(st.bases, h);
      var i: nat, k: int :| i < |st.bases| && -1 <= k < |st.bases[i].slots| && HandleAt(st.bases, i, k) == h;
      if k == -1 {
        UserIsReleased(st, i, h, hw);
      } else {
        SlotIsReleased(st, i, k, h, hw);
      }
    } else {
      UnusedIsNotFound(st, h);
    }
  }

  // ---------------------------------------------------------------- handles over every run

  /** In every state of every run, a handle is marked used exactly when it is held, and no two things hold one. */
  lemma {:induction false} HandleConservation(states: seq<State>, n: nat, h: nat)
    requires IsRun(states) && n < |states| && h < SLOT_HANDLE_MAX
    ensures var st := states[n];
      && |st.used| == SLOT_HANDLE_MAX
      && (st.used[h] <==> Held(st.bases, h))
      && forall i: nat, k: int, j: nat, m: int ::
           HandleAt(st.bases, i, k) == h && HandleAt(st.bases, j, m) == h ==> i == j && k == m
  {
    RunKeeps(states, n);
    var st := states[n];
    if Held(st.bases, h) {
      var i: nat, k: int :| i < |st.bases| && -1 <= k < |st.bases[i].slots| && HandleAt(st.bases, i, k) == h;
    }
  }

  // ---------------------------------------------------------------- what loads no slot

  /** No slot is loaded that was not loaded with the same before. */
  ghost predicate NoNewSlots(st: State, after: State) {
    && |after.bases| == |st.bases|
    && forall i, k: nat :: 0 <= i < |st.bases| && SlotAt(after.bases[i], k).Loaded? ==>
         SlotAt(after.bases[i], k) == SlotAt(st.bases[i], k)
  }

  lemma {:induction false} ReleasedNoNew(st: State, after: State, h: int)
    requires OnlyReleased(st, after, h) && h >= 0
    ensures NoNewSlots(st, after)
  {
    forall i, k: nat | 0 <= i < |st.bases| && SlotAt(after.bases[i], k).Loaded?
      ensures SlotAt(after.bases[i], k) == SlotAt(st.bases[i], k)
    {
      assert HandleAt(after.bases, i, k) != h;
    }
  }

  lemma {:induction false} UnloadNoNew(st: State, h: int, hw: Hw)
    requires Inv(st)
    ensures NoNewSlots(st, Unload(st, h, hw).st)
  {
    if h >= 0 {
      UnloadEffect(st, h, hw);
      if h < |st.used| && st.used[h] && !Refused(st, h) {
        ReleasedNoNew(st, Unload(st, h, hw).st, h);
      }
    } else {
      UnloadBaseNoNew(st, hw);
    }
  }

  lemma {:induction false} UnloadBaseNoNew(st: State, hw: Hw)
    requires Inv(st)
    ensures NoNewSlots(st, UnloadBase(st, hw).st)
  {
  }

  lemma NoNewThen(a: State, b: State, c: State)
    requires NoNewSlots(a, b) && NoNewSlots(b, c)
    ensures NoNewSlots(a, c)
  {
  }

  lemma ClearNoNew(st: State)
    requires Inv(st)
    ensures NoNewSlots(st, ClearForUser(st))
  {
  }

  lemma AddUserNoNew(st: State, u: nat, file: string, partial: bool)
    requires Pointers(st) && u < |st.bases|
    ensures NoNewSlots(st, AddUser(st, u, file, partial).st)
  {
  }

  lemma {:induction false} UserLoadNoNew(st: State, ask: UserRequest, hw: Hw)
    requires Inv(st)
    ensures NoNewSlots(st, UserLoad(st, ask, hw).st)
  {
    var cleared := ClearForUser(st);
    ClearNoNew(st);
    var u := BlankRow(cleared.bases, 0);
    if u < |cleared.bases| {
      AddUserNoNew(cleared, u, ask.file, ask.partial);
      NoNewThen(st, cleared, AddUser(cleared, u, ask.file, ask.partial).st);
    }
  }

  // ---------------------------------------------------------------- counts over every run

  /** A load into an RPU row that takes a slot and finds no handle. */
  predicate Overlooked(st: State, b: nat, name: string, hw: Hw)
    requires Pointers(st) && b < |st.bases|
  {
    var accels := st.bases[b].accels;
    var j := LastNamed(accels, name, |accels|);
    st.bases[b].ty == Rpu && j != -1 && RpuAdmits(st, b, accels[j], hw) && FreeHandle(st) == -1
  }

  lemma CountsOkLosesNone(st: State, b: nat, name: string)
    requires Inv(st) && CountsOk(st) && b < |st.bases|
    ensures !LosesSlots(st, b, name) && Dropping(st, b, name) == st
  {
  }

  /** A load keeps the counts right exactly if it is not overlooked; on an RPU that is, if there is a free handle or no slot
      is taken. */
  lemma {:induction false} LoadCountsExactlyWhen(st: State, b: nat, name: string, hw: Hw)
    requires Inv(st) && CountsOk(st) && b < |st.bases|
    ensures var r := LoadCore(st, b, name, hw);
      && (CountsOk(r.st) <==> !Overlooked(st, b, name, hw))
      && (st.bases[b].ty == Rpu ==> (CountsOk(r.st) <==> FreeHandle(st) >= 0 || SameSlots(st, r.st)))
  {
    CountsOkLosesNone(st, b, name);
    LoadCoreKeeps(st, b, name, hw);
    LoadEffect(st, b, name, hw);
    var r := LoadCore(st, b, name, hw);
    CountsOkIsRpuHandled(st);
    CountsOkIsRpuHandled(r.st);
    var base := st.bases[b];
    if base.ty == Rpu && LastNamed(base.accels, name, |base.accels|) != -1 {
      RpuAdmission(st, b, name, hw);
    }
    if i: nat :| LoadedInto(st, r, b, i, name) {
      FilledHandled(st, r, b, i, name);
    } else {
      SameHandled(st, r.st);
    }
  }

  lemma FilledHandled(st: State, r: Reply, b: nat, i: nat, name: string)
    requires LoadedInto(st, r, b, i, name) && RpuHandled(st)
    ensures RpuHandled(r.st) <==> st.bases[b].ty != Rpu || FreeHandle(st) >= 0
    ensures !SameSlots(st, r.st)
  {
    assert SlotAt(r.st.bases[b], i) == Loaded(name, r.rv);
    assert r.st.bases[b].ty == st.bases[b].ty;
  }

  lemma SameHandled(st: State, after: State)
    requires Untouched(st, after) && RpuHandled(st)
    ensures RpuHandled(after)
  {
  }

  lemma NoNewHandled(st: State, after: State)
    requires NoNewSlots(st, after) && Inv(st) && Inv(after) && RpuHandled(st)
    requires SameTypes(st, after)
    ensures RpuHandled(after)
  {
  }

  /** One thing asked for, and what the hardware answers to it. */
  datatype Turn = Turn(e: Event, hw: Hw)

  /** The states of a run, with what was done in each of them. */
  ghost predicate IsTrace(states: seq<State>, turns: seq<Turn>) {
    && |states| == |turns| + 1 && Initial(states[0])
    && forall i :: 0 <= i < |turns| ==> FollowsAt(states, turns, i)
  }

  predicate FollowsAt(states: seq<State>, turns: seq<Turn>, i: nat)
    requires i < |turns| && i + 1 < |states|
  {
    Follows(states[i], turns[i], states[i + 1])
  }

  predicate Follows(st: State, t: Turn, next: State) {
    Pointers(st) && |st.ids| == |st.bases| && Perform(st, t.e, t.hw).st == next
  }

  lemma TraceIsRun(states: seq<State>, turns: seq<Turn>)
    requires IsTrace(states, turns)
    ensures IsRun(states)
  {
    forall i | 0 <= i < |states| - 1
      ensures StepsAt(states, i)
    {
      assert FollowsAt(states, turns, i);
    }
  }

  /** What is done is a load that is overlooked. */
  predicate Uncounted(st: State, e: Event, hw: Hw)
    requires Pointers(st) && |st.ids| == |st.bases|
  {
    match e
    case LoadEvent(name) =>
      var b := FindRow(st.bases, name, 0);
      b < |st.bases| && Overlooked(st, b, name, hw)
    case LoadIdEvent(id) =>
      var f := FindId(st.bases, st.ids, id, 0);
      f.PackageEntry? && Overlooked(st, f.row, st.bases[f.row].accels[f.accel].name, hw)
    case _ => false
  }

  predicate SameTypes(st: State, after: State) {
    |after.bases| == |st.bases| && forall i :: 0 <= i < |st.bases| ==> after.bases[i].ty == st.bases[i].ty
  }

  lemma UserUnloadTypes(st: State, h: int)
    requires Pointers(st)
    ensures SameTypes(st, UserUnload(st, h).st)
  {
  }

  lemma UnloadTypes(st: State, h: int, hw: Hw)
    requires Pointers(st)
    ensures SameTypes(st, Unload(st, h, hw).st)
  {
    UserUnloadTypes(st, h);
  }

  lemma UserLoadTypes(st: State, ask: UserRequest, hw: Hw)
    requires Inv(st)
    ensures SameTypes(st, UserLoad(st, ask, hw).st)
  {
    var cleared := ClearForUser(st);
    var u := BlankRow(cleared.bases, 0);
    assert SameTypes(st, cleared);
    assert u < |cleared.bases| ==> SameTypes(cleared, AddUser(cleared, u, ask.file, ask.partial).st);
  }

  lemma {:induction false} PerformTypes(st: State, e: Event, hw: Hw)
    requires Inv(st) && !e.LoadEvent? && !e.LoadIdEvent?
    ensures SameTypes(st, Perform(st, e, hw).st)
  {
    forall h {
      UnloadTypes(st, h, hw);
    }
    match e
    case UnloadEvent(h) =>
    case UnloadIdEvent(id) =>
    case UnloadNameEvent(name) =>
    case UserLoadEvent(ask) => UserLoadTypes(st, ask, hw);
  }

  lemma {:induction false} PerformNoNew(st: State, e: Event, hw: Hw)
    requires Inv(st) && !e.LoadEvent? && !e.LoadIdEvent?
    ensures NoNewSlots(st, Perform(st, e, hw).st)
  {
    forall h {
      UnloadNoNew(st, h, hw);
    }
    match e
    case UnloadEvent(h) =>
    case UnloadIdEvent(id) => UnloadBaseNoNew(st, hw);
    case UnloadNameEvent(name) =>
    case UserLoadEvent(ask) => UserLoadNoNew(st, ask, hw);
  }

  /** Whatever is done keeps the counts right exactly if it is no load that is overlooked. */
  lemma {:induction false} CountsStayExactlyWhen(st: State, e: Event, hw: Hw)
    requires Inv(st) && CountsOk(st)
    ensures CountsOk(Perform(st, e, hw).st) <==> !Uncounted(st, e, hw)
  {
    match e
    case LoadEvent(name) =>
      var b := FindRow(st.bases, name, 0);
      if b < |st.bases| {
        LoadCountsExactlyWhen(st, b, name, hw);
      }
    case LoadIdEvent(id) =>
      var f := FindId(st.bases, st.ids, id, 0);
      if f.PackageEntry? {
        LoadCountsExactlyWhen(st, f.row, st.bases[f.row].accels[f.accel].name, hw);
      }
    case _ =>
      var after := Perform(st, e, hw).st;
      PerformKeeps(st, e, hw);
      PerformNoNew(st, e, hw);
      PerformTypes(st, e, hw);
      CountsOkIsRpuHandled(st);
      CountsOkIsRpuHandled(after);
      NoNewHandled(st, after);
  }

  lemma InitialCounts(st: State)
    requires Initial(st)
    ensures CountsOk(st)
  {
    assert forall i :: 0 <= i < |st.bases| ==> RowOk(st.bases[i]);
  }

  lemma TraceStep(states: seq<State>, turns: seq<Turn>, m: nat)
    requires IsTrace(states, turns) && m < |turns|
    ensures Pointers(states[m]) && |states[m].ids| == |states[m].bases|
    ensures CountsOk(states[m]) ==> (CountsOk(states[m + 1]) <==> !UncountedAt(states, turns, m))
  {
    TraceIsRun(states, turns);
    RunKeeps(states, m);
    assert FollowsAt(states, turns, m);
    if CountsOk(states[m]) {
      CountsStayExactlyWhen(states[m], turns[m].e, turns[m].hw);
    }
  }

  lemma {:induction false} FirstWrong(ok: seq<bool>, bad: seq<bool>, n: nat)
    requires |ok| == |bad| + 1 && n <= |bad| && ok[0]
    requires forall m :: 0 <= m < |bad| && ok[m] ==> (ok[m + 1] <==> !bad[m])
    ensures (forall i :: 0 <= i <= n ==> ok[i]) <==> forall i :: 0 <= i < n ==> !bad[i]
  {
    if n > 0 {
      FirstWrong(ok, bad, n - 1);
      assert ok[n - 1] ==> (ok[n - 1 + 1] <==> !bad[n - 1]);
    }
  }

  /** What was done in state i is a load that is overlooked. */
  predicate UncountedAt(states: seq<State>, turns: seq<Turn>, i: nat)
    requires i < |states| && i < |turns|
  {
    Pointers(states[i]) && |states[i].ids| == |states[i].bases| && Uncounted(states[i], turns[i].e, turns[i].hw)
  }

  /** Over every run: all counts are right up to a point exactly if no load was overlooked before it. */
  lemma CountsExactlyWhen(states: seq<State>, turns: seq<Turn>, n: nat)
    requires IsTrace(states, turns) && n < |states|
    ensures (forall i :: 0 <= i <= n ==> CountsOk(states[i])) <==>
      forall i :: 0 <= i < n ==> !UncountedAt(states, turns, i)
  {
    var ok := seq(|states|, i requires 0 <= i < |states| => CountsOk(states[i]));
    var bad := seq(|turns|, i requires 0 <= i < |turns| => UncountedAt(states, turns, i));
    InitialCounts(states[0]);
    forall m | 0 <= m < |bad| && ok[m]
      ensures ok[m + 1] <==> !bad[m]
    {
      TraceStep(states, turns, m);
    }
    FirstWrong(ok, bad, n);
    assert forall i :: 0 <= i < |states| ==> ok[i] == CountsOk(states[i]);
    assert forall i :: 0 <= i < |turns| ==> bad[i] == UncountedAt(states, turns, i);
  }

  /** A load that is overlooked returns -1, and takes a slot without being counted. */
  lemma {:induction false} UncountedLoad(st: State, e: Event, hw: Hw)
    requires Inv(st) && CountsOk(st) && Uncounted(st, e, hw)
    ensures var r := Perform(st, e, hw);
      && r.rv == -1 && !CountsOk(r.st) && r.st.used == st.used
      && exists b: nat, i: nat, name: string :: LoadedInto(st, r, b, i, name) && st.bases[b].ty == Rpu
  {
    CountsStayExactlyWhen(st, e, hw);
    var b, name := if e.LoadEvent? then FindRow(st.bases, e.name, 0) else FindId(st.bases, st.ids, e.id, 0).row,
                   if e.LoadEvent? then e.name
                   else var f := FindId(st.bases, st.ids, e.id, 0); st.bases[f.row].accels[f.accel].name;
    CountsOkLosesNone(st, b, name);
    RpuAdmission(st, b, name, hw);
  }

  /** No run comes to a load that drops loaded slots, unless it had a load that is overlooked before. */
  lemma LossNeedsUncounted(states: seq<State>, turns: seq<Turn>, n: nat, b: nat, name: string)
    requires IsTrace(states, turns) && n < |states|
    requires Pointers(states[n]) && b < |states[n].bases| && LosesSlots(states[n], b, name)
    ensures exists i :: 0 <= i < n && UncountedAt(states, turns, i)
  {
    CountsExactlyWhen(states, turns, n);
    if forall i :: 0 <= i < n ==> !UncountedAt(states, turns, i) {
      TraceIsRun(states, turns);
      RunKeeps(states, n);
      CountsOkLosesNone(states[n], b, name);
    }
  }

  // ---------------------------------------------------------------- runs with a handle for every load

  lemma {:induction false} LoadHandled(st: State, b: nat, name: string, hw: Hw)
    requires Inv(st) && AllHandled(st) && FreeHandle(st) != -1 && b < |st.bases|
    ensures AllHandled(LoadCore(st, b, name, hw).st)
  {
    CountsOkIsRpuHandled(st);
    CountsOkLosesNone(st, b, name);
    LoadEffect(st, b, name, hw);
  }

  lemma {:induction false} PerformHandled(st: State, e: Event, hw: Hw)
    requires Inv(st) && AllHandled(st) && (e.LoadEvent? || e.LoadIdEvent? ==> FreeHandle(st) != -1)
    ensures AllHandled(Perform(st, e, hw).st)
  {
    match e
    case LoadEvent(name) =>
      var b := FindRow(st.bases, name, 0);
      if b < |st.bases| {
        LoadHandled(st, b, name, hw);
      }
    case LoadIdEvent(id) =>
      var f := FindId(st.bases, st.ids, id, 0);
      if f.PackageEntry? {
        LoadHandled(st, f.row, st.bases[f.row].accels[f.accel].name, hw);
      }
    case _ => PerformNoNew(st, e, hw);
  }

  /** In every state of a run that finds a handle free at every load, every package row counts its occupied slots, and
      every loaded thing can be unloaded by its handle. */
  lemma {:induction false} CountsInRoomyRuns(states: seq<State>, turns: seq<Turn>, n: nat)
    requires IsTrace(states, turns) && n < |states|
    requires forall i :: 0 <= i < n && (turns[i].e.LoadEvent? || turns[i].e.LoadIdEvent?) ==>
      FreeHandle(states[i]) != -1
    ensures Inv(states[n]) && AllHandled(states[n]) && CountsOk(states[n])
  {
    TraceIsRun(states, turns);
    RunKeeps(states, n);
    if n > 0 {
      CountsInRoomyRuns(states, turns, n - 1);
      assert FollowsAt(states, turns, n - 1);
      PerformHandled(states[n - 1], turns[n - 1].e, turns[n - 1].hw);
    }
    CountsOkIsRpuHandled(states[n]);
  }
}
