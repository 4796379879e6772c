/** A run in which an RPU load is not counted: forced user Partials take all handles, and then firmware is loaded. */
module DaemonWitness {
  import opened DaemonSpec
  import opened DaemonInvariant
  import opened DaemonRuns
  import opened DaemonTheorems

  // ---------------------------------------------------------------- forced Partials, one after the other

  function BlankRows(bases: seq<Base>): set<nat> {
    set i: nat | i < |bases| && bases[i].path == ""
  }

  /** Nothing is current and the k lowest handles are taken. */
  ghost predicate Filling(st: State, k: nat) {
    && Inv(st) && st.active == Null && st.rpu == Null
    && k <= |st.used| && forall h :: 0 <= h < |st.used| ==> (st.used[h] <==> h < k)
  }

  /** A Partial loaded with --force, which the hardware takes. */
  function Forced(file: string): Turn {
    Turn(UserLoadEvent(UserRequest(true, true, false, true, file)), Hw(true, true, 0, 0))
  }

  /** The row of a user Partial. */
  predicate IsAdded(row: Base, after: Base, file: string) {
    row.path == "" && after == row.(name := file, path := "User", active := 0, isUser := true, userPartial := true,
                                    userHandle := after.userHandle)
  }

  predicate OneAdded(bases: seq<Base>, after: seq<Base>, u: nat, file: string) {
    && |after| == |bases| && u < |bases| && IsAdded(bases[u], after[u], file)
    && forall i :: 0 <= i < |bases| && i != u ==> after[i] == bases[i]
  }

  lemma FreeHandleIs(st: State, k: nat)
    requires Filling(st, k)
    ensures FreeHandle(st) == if k < |st.used| then k else -1
  {
    FirstFreeIs(st.used, k);
  }

  lemma FirstFreeIs(used: seq<bool>, k: nat)
    requires k <= |used| && forall h :: 0 <= h < |used| ==> (used[h] <==> h < k)
    ensures FirstFree(used, 0) == if k < |used| then k else -1
  {
    var h := FirstFree(used, 0);
    assert k < |used| ==> !used[k];
    assert h != -1 ==> !used[h];
  }

  lemma BlankIsFound(bases: seq<Base>)
    requires BlankRows(bases) != {}
    ensures BlankRow(bases, 0) < |bases|
  {
    var i :| i in BlankRows(bases);
    assert bases[i].path == "";
  }

  lemma OneMorePartial(st: State, k: nat, file: string) returns (u: nat)
    requires Filling(st, k) && k < SLOT_HANDLE_MAX && BlankRows(st.bases) != {}
    ensures var next := Perform(st, Forced(file).e, Forced(file).hw).st;
      Filling(next, k + 1) && OneAdded(st.bases, next.bases, u, file)
  {
    FreeHandleIs(st, k);
    PerformKeeps(st, Forced(file).e, Forced(file).hw);
    u := BlankRow(st.bases, 0);
    BlankIsFound(st.bases);
    assert ClearForUser(st) == st;
    assert Perform(st, Forced(file).e, Forced(file).hw).st == WithIds(AddUser(st, u, file, true).st);
  }

  /** No blank row has an accelerator of that name left in it. */
  predicate BlanksLack(bases: seq<Base>, name: string) {
    forall i :: 0 <= i < |bases| && bases[i].path == "" ==> NoneNamed(bases[i], name)
  }

  predicate NoneNamed(b: Base, name: string) {
    forall j :: 0 <= j < |b.accels| ==> b.accels[j].name != name
  }

  lemma {:induction false} NamesTheSameRow(bases: seq<Base>, after: seq<Base>, u: nat, file: string, name: string, i: nat)
    requires OneAdded(bases, after, u, file) && BlanksLack(bases, name) && file != name && i <= |bases|
    ensures FindRow(after, name, i) == FindRow(bases, name, i)
    decreases |bases| - i
  {
    if i < |bases| {
      NamesTheSameRow(bases, after, u, file, name, i + 1);
      if i == u {
        assert NoneNamed(bases[u], name) && !RowNamed(bases[u], name) && !RowNamed(after[u], name);
      }
    }
  }

  lemma OneBlankLess(bases: seq<Base>, after: seq<Base>, u: nat, file: string)
    requires OneAdded(bases, after, u, file)
    ensures |BlankRows(after)| == |BlankRows(bases)| - 1
  {
    assert BlankRows(bases) == BlankRows(after) + {u} && u !in BlankRows(after);
  }

  // ---------------------------------------------------------------- the run

  lemma TraceGrows(states: seq<State>, turns: seq<Turn>, t: Turn, next: State)
    requires IsTrace(states, turns) && Follows(states[|turns|], t, next)
    ensures IsTrace(states + [next], turns + [t])
  {
    var more, done := states + [next], turns + [t];
    forall i | 0 <= i < |done|
      ensures FollowsAt(more, done, i)
    {
      assert i < |turns| ==> FollowsAt(states, turns, i);
    }
  }

  /** The name stands for the same row, and no blank row has an accelerator of that name left in it. */
  predicate StandsFor(st: State, now: State, name: string) {
    FindRow(now.bases, name, 0) == FindRow(st.bases, name, 0) && BlanksLack(now.bases, name)
  }

  /** What the k-th state still has of the first: its packages, what names stand for, and room for more Partials. */
  ghost predicate StillThere(st: State, now: State, names: set<string>, k: nat) {
    && Filling(now, k) && |st.bases| == |now.bases|
    && (forall i :: 0 <= i < |st.bases| && st.bases[i].path != "" ==> now.bases[i] == st.bases[i])
    && (forall name :: name in names ==> StandsFor(st, now, name))
    && |BlankRows(now.bases)| == |BlankRows(st.bases)| - k
  }

  lemma OneMoreStillThere(st: State, now: State, next: State, u: nat, names: set<string>, file: string, k: nat)
    requires StillThere(st, now, names, k) && file !in names
    requires OneAdded(now.bases, next.bases, u, file) && Filling(next, k + 1)
    ensures StillThere(st, next, names, k + 1)
  {
    OneBlankLess(now.bases, next.bases, u, file);
    forall name | name in names
      ensures StandsFor(st, next, name)
    {
      assert StandsFor(st, now, name);
      NamesTheSameRow(now.bases, next.bases, u, file, name, 0);
    }
  }

  lemma {:induction false} FillTable(st: State, names: set<string>, file: string, k: nat)
    returns (states: seq<State>, turns: seq<Turn>)
    requires Initial(st) && file !in names && forall name :: name in names ==> BlanksLack(st.bases, name)
    requires k <= SLOT_HANDLE_MAX && k <= |BlankRows(st.bases)|
    ensures IsTrace(states, turns) && |turns| == k && states[0] == st && StillThere(st, states[k], names, k)
    ensures forall i :: 0 <= i < k ==> turns[i] == Forced(file)
  {
    if k == 0 {
      states, turns := [st], [];
      InitialInv(st);
    } else {
      states, turns := FillTable(st, names, file, k - 1);
      var now := states[k - 1];
      var u := OneMorePartial(now, k - 1, file);
      var next := Perform(now, Forced(file).e, Forced(file).hw).st;
      OneMoreStillThere(st, now, next, u, names, file, k - 1);
      TraceGrows(states, turns, Forced(file), next);
      states, turns := states + [next], turns + [Forced(file)];
    }
  }

  /** A catalogue that the name stands for an RPU accelerator in, with a slot for it, and with blank rows for as many user
      designs as there are handles. */
  predicate Roomy(st: State, b: nat, name: string, hw: Hw) {
    && Initial(st) && b < |st.bases| && st.bases[b].ty == Rpu && FindRow(st.bases, name, 0) == b
    && BlanksLack(st.bases, name) && |BlankRows(st.bases)| >= SLOT_HANDLE_MAX
    && var j := LastNamed(st.bases[b].accels, name, |st.bases[b].accels|);
       j != -1 && RpuAdmits(st, b, st.bases[b].accels[j], hw)
  }

  lemma RpuLoadIsOverlooked(st: State, now: State, names: set<string>, b: nat, name: string, hw: Hw)
    requires Roomy(st, b, name, hw) && StillThere(st, now, names, SLOT_HANDLE_MAX) && name in names
    ensures Uncounted(now, LoadEvent(name), hw) && FindRow(now.bases, name, 0) == b && FreeHandle(now) == -1
  {
    FreeHandleIs(now, SLOT_HANDLE_MAX);
    assert RowOk(st.bases[b]) && StandsFor(st, now, name);
  }

  lemma PartialsAreCounted(states: seq<State>, turns: seq<Turn>, file: string)
    requires IsTrace(states, turns) && forall i :: 0 <= i < |turns| ==> turns[i] == Forced(file)
    ensures CountsOk(states[|turns|])
  {
    CountsExactlyWhen(states, turns, |turns|);
    assert forall i :: 0 <= i < |turns| ==> !UncountedAt(states, turns, i);
  }

  /** From any such catalogue a run of thirty forced Partials and one RPU load ends with a count that is wrong, all having
      been right before. */
  lemma UncountedIsReached(st: State, b: nat, name: string, file: string, hw: Hw)
    returns (states: seq<State>, turns: seq<Turn>)
    requires Roomy(st, b, name, hw) && file != name
    ensures IsTrace(states, turns) && states[0] == st && |turns| == SLOT_HANDLE_MAX + 1
    ensures forall i :: 0 <= i < SLOT_HANDLE_MAX ==> turns[i] == Forced(file)
    ensures turns[SLOT_HANDLE_MAX] == Turn(LoadEvent(name), hw)
    ensures CountsOk(states[SLOT_HANDLE_MAX]) && !CountsOk(states[SLOT_HANDLE_MAX + 1])
  {
    states, turns := FillTable(st, {name}, file, SLOT_HANDLE_MAX);
    var now := states[SLOT_HANDLE_MAX];
    PartialsAreCounted(states, turns, file);
    RpuLoadIsOverlooked(st, now, {name}, b, name, hw);
    CountsStayExactlyWhen(now, LoadEvent(name), hw);
    var t := Turn(LoadEvent(name), hw);
    var next := Perform(now, t.e, t.hw).st;
    TraceGrows(states, turns, t, next);
    states, turns := states + [next], turns + [t];
  }

  // ---------------------------------------------------------------- there is such a catalogue

  function Unused(): Accel {
    Accel("", "", "", false, -1, {})
  }

  function Blank(): Base {
    Base("", "", OtherType, 0, 0, false, seq(RP_SLOTS_MAX, _ => Unused()), 0, [], false, false, -1)
  }

  /** An RPU base with one slot, and firmware for it. */
  function RpuBase(path: string, name: string): Base {
    var accels := seq(RP_SLOTS_MAX, j => if j == 0 then Accel(name, "fw", path, false, 0, {}) else Unused());
    Base(path, path, Rpu, 1, 0, false, accels, 0, [], false, false, -1)
  }

  /** Two RPU bases, each with firmware. */
  function Sample(name: string, other: string): State {
    State(seq(MAX_WATCH, i => if i == 0 then RpuBase("rpu0", name) else if i == 1 then RpuBase("rpu1", other) else Blank()),
          Null, Null, seq(SLOT_HANDLE_MAX, _ => false), seq(MAX_WATCH, _ => Ids(seq(RP_SLOTS_MAX, _ => 0), 0)))
  }

  /** What matters of such rows. */
  predicate IsSample(bases: seq<Base>, name: string, other: string) {
    && |bases| == MAX_WATCH && IsRpuBase(bases[0], "rpu0", name) && IsRpuBase(bases[1], "rpu1", other)
    && forall i :: 2 <= i < |bases| ==> IsBlank(bases[i])
  }

  predicate IsBlank(b: Base) {
    && b.path == "" && b.ty == OtherType && NumSlots(b) == 0 && Unloaded(b)
    && forall j :: 0 <= j < |b.accels| ==> b.accels[j] == Unused()
  }

  predicate IsRpuBase(b: Base, path: string, name: string) {
    && b.name == b.path == path && b.ty == Rpu && b.numPl == 1 && Unloaded(b)
    && b.accels[0] == Accel(name, "fw", path, false, 0, {})
    && forall j :: 1 <= j < |b.accels| ==> b.accels[j] == Unused()
  }

  predicate Unloaded(b: Base) {
    b.slots == [] && b.active == 0 && !b.isUser && |b.accels| == RP_SLOTS_MAX
  }

  lemma SampleIs(name: string, other: string)
    ensures IsSample(Sample(name, other).bases, name, other)
  {
    SampleRows(Sample(name, other).bases, Blank(), RpuBase("rpu0", name), RpuBase("rpu1", other), name, other);
  }

  lemma SampleRows(bases: seq<Base>, blank: Base, first: Base, second: Base, name: string, other: string)
    requires blank == Blank() && first == RpuBase("rpu0", name) && second == RpuBase("rpu1", other)
    requires |bases| == MAX_WATCH && bases[0] == first && bases[1] == second && forall i :: 2 <= i < |bases| ==> bases[i] == blank
    ensures IsSample(bases, name, other)
  {
    BlankIs(blank);
    RpuBaseIs(first, "rpu0", name);
    RpuBaseIs(second, "rpu1", other);
  }

  lemma BlankIs(b: Base)
    requires b == Blank()
    ensures IsBlank(b)
  {
  }

  lemma RpuBaseIs(b: Base, path: string, name: string)
    requires b == RpuBase(path, name)
    ensures IsRpuBase(b, path, name)
  {
  }

  lemma UnloadedIsOk(b: Base)
    requires Unloaded(b) && !IsFlat(b) && b.path != "User" && (b.path == "" ==> b.ty == OtherType && NumSlots(b) == 0)
    requires forall j :: 0 <= j < |b.accels| ==> ParentOk(b.accels[j], b.path)
    ensures RowOk(b)
  {
    LoadedCountZero(b.slots, |b.slots|, b.ty != Rpu);
  }

  lemma SampleRowsAreOk(bases: seq<Base>, name: string, other: string)
    requires IsSample(bases, name, other)
    ensures RowsOk(bases) && PathsOk(bases)
  {
    forall i | 0 <= i < |bases|
      ensures RowOk(bases[i])
    {
      UnloadedIsOk(bases[i]);
    }
  }

  lemma SampleIsInitial(name: string, other: string)
    ensures Initial(Sample(name, other))
  {
    SampleIs(name, other);
    SampleRowsAreOk(Sample(name, other).bases, name, other);
  }

  lemma {:induction false} BlanksBehind(bases: seq<Base>, n: nat)
    requires n <= |bases| && forall i :: 0 <= i < |bases| ==> (bases[i].path == "" <==> i >= n)
    ensures |BlankRows(bases)| == |bases| - n
    decreases |bases|
  {
    var last := |bases| - 1;
    if |bases| > n {
      BlanksBehind(bases[..last], n);
      assert BlankRows(bases) == BlankRows(bases[..last]) + {last};
    } else {
      assert BlankRows(bases) == {};
    }
  }

  /** Names of accelerators that are not those of the bases, nor of each other. */
  predicate Apart(name: string, other: string) {
    name != other && name != "" && other != "" && other != "rpu0"
  }

  lemma {:induction false} FirstRow(bases: seq<Base>, name: string, i: nat, k: nat)
    requires i <= k < |bases| && RowNamed(bases[k], name) && forall m :: i <= m < k ==> !RowNamed(bases[m], name)
    ensures FindRow(bases, name, i) == k
    decreases k - i
  {
    if i < k {
      FirstRow(bases, name, i + 1, k);
    }
  }

  lemma SampleHasRoom(bases: seq<Base>, name: string, other: string)
    requires Apart(name, other) && IsSample(bases, name, other)
    ensures FindRow(bases, name, 0) == 0 && FindRow(bases, other, 0) == 1
    ensures BlanksLack(bases, name) && BlanksLack(bases, other) && |BlankRows(bases)| >= SLOT_HANDLE_MAX
  {
    assert bases[0].accels[0].name == name && bases[1].accels[0].name == other;
    assert !RowNamed(bases[0], other);
    FirstRow(bases, name, 0, 0);
    FirstRow(bases, other, 0, 1);
    BlanksBehind(bases, 2);
    assert forall i :: 2 <= i < |bases| ==> NoneNamed(bases[i], name) && NoneNamed(bases[i], other);
  }

  lemma {:induction false} FirmwareIsFound(accels: seq<Accel>, name: string, n: nat)
    requires 0 < n <= |accels| && accels[0].name == name && forall j :: 0 < j < |accels| ==> accels[j].name != name
    ensures LastNamed(accels, name, n) == 0
  {
    if n > 1 {
      FirmwareIsFound(accels, name, n - 1);
    }
  }

  lemma SampleAdmits(st: State, c: nat, path: string, name: string, hw: Hw)
    requires name != "" && hw.slotLoads && Pointers(st) && st.rpu == Null
    requires c < |st.bases| && IsRpuBase(st.bases[c], path, name)
    ensures var accels := st.bases[c].accels;
      LastNamed(accels, name, |accels|) == 0 && RpuAdmits(st, c, accels[0], hw)
  {
    FirmwareIsFound(st.bases[c].accels, name, |st.bases[c].accels|);
  }

  lemma SampleIsRoomy(name: string, other: string, hw: Hw)
    requires Apart(name, other) && hw.slotLoads
    ensures Roomy(Sample(name, other), 0, name, hw)
  {
    var st := Sample(name, other);
    SampleIsInitial(name, other);
    SampleIs(name, other);
    SampleHasRoom(st.bases, name, other);
    SampleAdmits(st, 0, "rpu0", name, hw);
  }
}
