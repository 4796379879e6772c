/** Runs in which a slot is lost: firmware that was loaded and not counted goes when another RPU base takes over. */
module DaemonLoss {
  import opened DaemonSpec
  import opened DaemonInvariant
  import opened DaemonRuns
  import opened DaemonTheorems
  import opened DaemonListing
  import opened DaemonWitness

  // ---------------------------------------------------------------- a base that counts nothing and is occupied

  /** Row b is current on the RPUs, and slot k is all that it has loaded, without a handle; nothing is current on the PL. */
  ghost predicate Stranded(st: State, b: nat, k: nat) {
    && Inv(st) && st.active == Null && st.rpu == To(b) && b < |st.bases|
    && SlotAt(st.bases[b], k).Loaded? && SlotAt(st.bases[b], k).handle == -1
    && forall m: nat :: m != k ==> SlotAt(st.bases[b], m) == Empty
  }

  lemma StrandedIsUncounted(st: State, b: nat, k: nat)
    requires Stranded(st, b, k)
    ensures st.bases[b].ty == Rpu && st.bases[b].active == 0 && OccupiedSlots(st.bases[b]) > 0
  {
    var row := st.bases[b];
    assert RowOk(row);
    forall m | 0 <= m < |row.slots|
      ensures !Counts(row.slots[m], false)
    {
      assert SlotAt(row, m) == row.slots[m];
    }
    LoadedCountZero(row.slots, |row.slots|, false);
    LoadedCountZero(row.slots, |row.slots|, true);
    assert Counts(row.slots[k], true);
  }

  /** Row c is another RPU base, with an accelerator of that name that names it as its parent. */
  predicate OtherRpu(bases: seq<Base>, b: nat, c: nat, other: string) {
    && c < |bases| && c != b && bases[c].ty == Rpu
    && LastNamed(bases[c].accels, other, |bases[c].accels|) != -1 && Registered(bases[c], other)
  }

  lemma {:induction false} StrandedIsLost(st: State, b: nat, k: nat, c: nat, other: string, hw: Hw)
    requires Stranded(st, b, k) && OtherRpu(st.bases, b, c, other)
    ensures LosesSlots(st, c, other) && Lost(st, LoadCore(st, c, other, hw).st, b, k)
  {
    StrandedIsUncounted(st, b, k);
    assert RowOk(st.bases[c]) && RowOk(st.bases[b]);
    assert st.bases[b].path != st.bases[c].path;
    LosingLoadFrees(st, c, other, hw);
  }

  // ---------------------------------------------------------------- the way there

  /** A roomy catalogue that has another RPU base, for which another name stands. */
  predicate TwoRpus(st: State, b: nat, name: string, c: nat, other: string, hw: Hw) {
    && Roomy(st, b, name, hw) && OtherRpu(st.bases, b, c, other)
    && FindRow(st.bases, other, 0) == c && BlanksLack(st.bases, other)
  }

  lemma {:induction false} SameCatalogueSameName(bases: seq<Base>, after: seq<Base>, name: string, i: nat)
    requires SameCatalogue(bases, after) && i <= |bases|
    ensures FindRow(after, name, i) == FindRow(bases, name, i)
    decreases |bases| - i
  {
    if i < |bases| {
      SameCatalogueSameName(bases, after, name, i + 1);
      assert RowNamed(after[i], name) == RowNamed(bases[i], name);
    }
  }

  /** The uncounted load leaves row b stranded. */
  lemma {:induction false} LoadStrands(now: State, b: nat, name: string, hw: Hw) returns (k: nat)
    requires Filling(now, SLOT_HANDLE_MAX) && b < |now.bases| && Overlooked(now, b, name, hw)
    requires FreeHandle(now) == -1
    ensures var r := LoadCore(now, b, name, hw); Stranded(r.st, b, k) && LoadedInto(now, r, b, k, name)
  {
    RpuAdmission(now, b, name, hw);
    LoadCoreKeeps(now, b, name, hw);
    var r := LoadCore(now, b, name, hw);
    k :| LoadedInto(now, r, b, k, name);
    assert Vacant(now.bases[b]);
    assert r.st.active == Null && r.st.rpu == To(b);
  }

  /** A state in which row b is stranded, and that lacks nothing of the first state's row c. */
  ghost predicate Doomed(st: State, last: State, b: nat, k: nat, c: nat, other: string) {
    && Stranded(last, b, k) && |last.bases| == |st.bases| && OtherRpu(last.bases, b, c, other)
    && last.bases[c] == st.bases[c].(active := last.bases[c].active, slots := last.bases[c].slots)
  }

  /** The next load of that name loses slot k of row b, whatever the hardware answers. */
  ghost predicate NextLoses(st: State, b: nat, k: nat, other: string) {
    && Pointers(st) && |st.ids| == |st.bases|
    && forall any: Hw :: Lost(st, Perform(st, LoadEvent(other), any).st, b, k)
  }

  lemma DoomedLoses(st: State, last: State, b: nat, k: nat, c: nat, other: string)
    requires Doomed(st, last, b, k, c, other) && FindRow(last.bases, other, 0) == c
    ensures LosesSlots(last, c, other) && NextLoses(last, b, k, other)
  {
    StrandedIsLost(last, b, k, c, other, Hw(true, true, 0, 0));
    forall any: Hw
      ensures Lost(last, Perform(last, LoadEvent(other), any).st, b, k)
    {
      StrandedIsLost(last, b, k, c, other, any);
    }
  }

  lemma FullTableDooms(st: State, now: State, b: nat, name: string, c: nat, other: string, hw: Hw) returns (k: nat)
    requires TwoRpus(st, b, name, c, other, hw) && StillThere(st, now, {name, other}, SLOT_HANDLE_MAX)
    ensures Uncounted(now, LoadEvent(name), hw)
    ensures var last := Perform(now, LoadEvent(name), hw).st;
      Doomed(st, last, b, k, c, other) && FreeHandle(last) == -1 && FindRow(last.bases, other, 0) == c
  {
    RpuLoadIsOverlooked(st, now, {name, other}, b, name, hw);
    k := LoadStrands(now, b, name, hw);
    var last := LoadCore(now, b, name, hw).st;
    assert StandsFor(st, now, other) && RowOk(st.bases[c]) && now.bases[c] == st.bases[c];
    SameCatalogueSameName(now.bases, last.bases, other, 0);
  }

  /** From a catalogue with two RPU bases, a run of thirty forced Partials and one RPU load comes to a state in which the next
      load of the other base's firmware, whatever the hardware answers, loses a loaded slot. */
  lemma LossIsReached(st: State, b: nat, name: string, c: nat, other: string, file: string, hw: Hw)
    returns (states: seq<State>, turns: seq<Turn>, k: nat)
    requires TwoRpus(st, b, name, c, other, hw) && file != name && file != other
    ensures IsTrace(states, turns) && states[0] == st && |turns| == SLOT_HANDLE_MAX + 1
    ensures forall i :: 0 <= i < SLOT_HANDLE_MAX ==> turns[i] == Forced(file)
    ensures turns[SLOT_HANDLE_MAX] == Turn(LoadEvent(name), hw)
    ensures var last := states[SLOT_HANDLE_MAX + 1];
      && Doomed(st, last, b, k, c, other) && FreeHandle(last) == -1
      && LosesSlots(last, c, other) && NextLoses(last, b, k, other)
  {
    states, turns := FillTable(st, {name, other}, file, SLOT_HANDLE_MAX);
    var now := states[SLOT_HANDLE_MAX];
    k := FullTableDooms(st, now, b, name, c, other, hw);
    var t := Turn(LoadEvent(name), hw);
    var last := Perform(now, t.e, t.hw).st;
    DoomedLoses(st, last, b, k, c, other);
    TraceGrows(states, turns, t, last);
    states, turns := states + [last], turns + [t];
  }

  // ---------------------------------------------------------------- loads and unloads that do not cancel

  /** One Partial goes, and its handle is free. */
  lemma {:induction false} PartialGoes(st: State, b: nat, k: nat, hw: Hw)
    requires Stranded(st, b, k) && FreeHandle(st) == -1
    ensures var r := Unload(st, 0, hw).st;
      && OnlyReleased(st, r, 0) && r.used == st.used[0 := false]
      && exists ids :: r.ids == Stamped(r.bases, ids) && IdsFit(r.bases, ids)
    ensures Unload(st, 0, hw).st.active == Null && Unload(st, 0, hw).st.rpu == To(b)
  {
    assert st.used[0] && Held(st.bases, 0);
    var i: nat, m: int :| i < |st.bases| && -1 <= m < |st.bases[i].slots| && HandleAt(st.bases, i, m) == 0;
    HolderIsFound(st, i, m, 0);
    UnloadEffect(st, 0, hw);
    var gone := RemoveUser(st, i);
    assert Unload(st, 0, hw).st == WithIds(gone);
    assert IdsFit(gone.bases, gone.ids);
  }

  lemma {:induction false} DoomStays(st: State, last: State, b: nat, k: nat, c: nat, other: string, hw: Hw)
    requires Doomed(st, last, b, k, c, other) && FreeHandle(last) == -1
    ensures var r := Unload(last, 0, hw).st; Doomed(st, r, b, k, c, other) && FreeHandle(r) == 0
  {
    PartialGoes(last, b, k, hw);
    UnloadKeeps(last, 0, hw);
    assert RowOk(last.bases[b]) && RowOk(last.bases[c]);
  }

  /** The load takes a slot of row c, and the one of row b is lost. */
  lemma {:induction false} DoomedLoads(st: State, last: State, b: nat, k: nat, c: nat, other: string, hw: Hw)
    requires Initial(st) && Doomed(st, last, b, k, c, other) && FreeHandle(last) == 0
    requires var accels := st.bases[c].accels; RpuAdmits(st, c, accels[LastNamed(accels, other, |accels|)], hw)
    ensures LosesSlots(last, c, other) && LoadCore(last, c, other, hw).rv == 0
    ensures SlotNamed(last.bases[c], other, 0) == -1
  {
    var accels := st.bases[c].accels;
    var accel := accels[LastNamed(accels, other, |accels|)];
    StrandedIsLost(last, b, k, c, other, hw);
    StrandedIsUncounted(last, b, k);
    var left := Dropping(last, c, other);
    assert Vacant(last.bases[c]);
    assert forall m: nat :: SlotAt(left.bases[c], m) == Empty == SlotAt(st.bases[c], m);
    SameSlotsSameSearch(left.bases[c], st.bases[c], accel.slotDirs, 0);
    assert RpuAdmits(left, c, accel, hw);
    RpuAdmission(last, c, other, hw);
  }

  /** From such a catalogue, thirty forced Partials, one RPU load and the unload of a Partial come to a state in which a load by
      ID of the other base's firmware succeeds, and the unload by the same ID does not give back every slot. */
  lemma CancelFails(st: State, b: nat, name: string, c: nat, other: string, file: string, hw: Hw, answer: Hw)
    returns (states: seq<State>, turns: seq<Turn>, id: int)
    requires TwoRpus(st, b, name, c, other, hw) && file != name && file != other
    requires var accels := st.bases[c].accels;
      var j := LastNamed(accels, other, |accels|);
      RpuAdmits(st, c, accels[j], answer) && AccelListed(st.bases[c], j)
    ensures IsTrace(states, turns) && states[0] == st && |turns| == SLOT_HANDLE_MAX + 2
    ensures forall i :: 0 <= i < SLOT_HANDLE_MAX ==> turns[i] == Forced(file)
    ensures turns[SLOT_HANDLE_MAX].e == LoadEvent(name) && turns[SLOT_HANDLE_MAX + 1].e == UnloadEvent(0)
    ensures var last := states[SLOT_HANDLE_MAX + 2];
      && Inv(last) && LoadById(last, id, answer).rv >= 0
      && forall any: Hw :: NotGivenBack(last, id, answer, any)
  {
    var k: nat;
    states, turns, k := LossIsReached(st, b, name, c, other, file, hw);
    var now := states[SLOT_HANDLE_MAX + 1];
    var t := Turn(UnloadEvent(0), hw);
    var last := Perform(now, t.e, t.hw).st;
    PartialGoes(now, b, k, hw);
    DoomStays(st, now, b, k, c, other, hw);
    TraceGrows(states, turns, t, last);
    states, turns := states + [last], turns + [t];
    id := LoadDoesNotCancel(st, last, b, k, c, other, answer);
  }

  /** A load and an unload by that ID do not give back every slot. */
  ghost predicate NotGivenBack(st: State, id: int, load: Hw, unload: Hw) {
    && Pointers(st) && |st.ids| == |st.bases|
    && var mid := LoadsById(st, id, [load]);
       Pointers(mid) && |mid.ids| == |mid.bases| && !SameSlots(st, UnloadsById(mid, id, [unload]))
  }

  lemma {:induction false} OnceNotGivenBack(st: State, id: int, c: nat, other: string, load: Hw, unload: Hw)
    requires Inv(st) && id != 0 && IdNames(st, id, c, other) && LosesSlots(st, c, other) && Registered(st.bases[c], other)
    requires SlotNamed(st.bases[c], other, 0) == -1 && LoadById(st, id, load).rv >= 0
    ensures NotGivenBack(st, id, load, unload)
  {
    CancelExactlyWhen(st, id, [load], [unload]);
  }

  lemma {:induction false} LoadDoesNotCancel(st: State, last: State, b: nat, k: nat, c: nat, other: string, answer: Hw)
    returns (id: int)
    requires Initial(st) && Doomed(st, last, b, k, c, other) && FreeHandle(last) == 0
    requires exists ids :: last.ids == Stamped(last.bases, ids) && IdsFit(last.bases, ids)
    requires var accels := st.bases[c].accels;
      var j := LastNamed(accels, other, |accels|);
      RpuAdmits(st, c, accels[j], answer) && AccelListed(st.bases[c], j)
    ensures LoadById(last, id, answer).rv >= 0
    ensures forall any: Hw :: NotGivenBack(last, id, answer, any)
  {
    var accels := last.bases[c].accels;
    var j := LastNamed(accels, other, |accels|);
    var ids :| last.ids == Stamped(last.bases, ids) && IdsFit(last.bases, ids);
    id := PlaceOf(last.bases, c, j);
    PlaceIsFound(last.bases, ids, c, j);
    DoomedLoads(st, last, b, k, c, other, answer);
    LoadIsCore(last, id, c, other, answer);
    assert RowOk(last.bases[c]) && accels[j].name == other;
    forall any: Hw
      ensures NotGivenBack(last, id, answer, any)
    {
      OnceNotGivenBack(last, id, c, other, answer, any);
    }
  }

  /** There is such a catalogue, and its second accelerator is admitted and listed. */
  lemma SampleHasTwoRpus(name: string, other: string, hw: Hw, answer: Hw)
    requires Apart(name, other) && hw.slotLoads && answer.slotLoads
    ensures var st := Sample(name, other);
      var accels := st.bases[1].accels;
      && TwoRpus(st, 0, name, 1, other, hw) && LastNamed(accels, other, |accels|) == 0
      && RpuAdmits(st, 1, accels[0], answer) && AccelListed(st.bases[1], 0)
  {
    var st := Sample(name, other);
    SampleIsRoomy(name, other, hw);
    SampleIs(name, other);
    SampleHasRoom(st.bases, name, other);
    SampleAdmits(st, 1, "rpu1", other, answer);
  }
}
