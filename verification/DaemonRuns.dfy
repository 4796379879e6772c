/** Every operation keeps the invariant; what it says of loads, handles, counts and user designs over every run. */
module DaemonRuns {
  import opened DaemonSpec
  import opened DaemonInvariant

  // ---------------------------------------------------------------- user rows come and go

  /** A current user Full counts differently. */
  function Recounted(st: State, n: int): State
    requires Pointers(st) && st.active.To?
  {
    SetBase(st, st.active.i, st.bases[st.active.i].(active := n))
  }

  lemma {:induction false} RecountKeeps(st: State, n: int)
    requires Skeleton(st) && st.active.To? && st.bases[st.active.i].isUser
    ensures Skeleton(Recounted(st, n)) && Partials(Recounted(st, n)) == Partials(st)
  {
    PartialCountUpdate(st.bases, |st.bases|, st.active.i, Recounted(st, n).bases[st.active.i]);
  }

  lemma {:induction false} RowComes(st: State, u: nat, row: Base)
    requires Skeleton(st) && u < |st.bases| && st.bases[u].path == ""
    requires row == st.bases[u].(name := row.name, path := "User", active := 0, isUser := true,
                                 userPartial := row.userPartial, userHandle := row.userHandle)
    requires row.userHandle >= -1
    ensures Skeleton(SetBase(st, u, row))
    ensures Partials(SetBase(st, u, row)) == Partials(st) + if row.userPartial then 1 else 0
    ensures st.active != To(u) && st.rpu != To(u) && !st.bases[u].isUser
  {
    assert RowOk(st.bases[u]) && RowOk(row);
    PartialCountUpdate(st.bases, |st.bases|, u, row);
  }

  lemma {:induction false} AddUserStructure(st: State, u: nat, file: string, partial: bool)
    requires Structure(st) && u < |st.bases| && st.bases[u].path == ""
    requires if partial then st.active.To? ==> st.bases[st.active.i].isUser
             else st.active == Null && Partials(st) == 0
    ensures Structure(AddUser(st, u, file, partial).st)
  {
    var h := FreeHandle(st);
    var row := st.bases[u].(name := file, path := "User", active := 0, isUser := true, userPartial := partial,
                            userHandle := h);
    RowComes(st, u, row);
    var st1 := SetBase(st, u, row);
    if partial && st.active.To? {
      var n := st1.bases[st.active.i].active + 1;
      RecountKeeps(st1, n);
      assert AddUser(st, u, file, partial).st == Recounted(st1, n).(used := Taken(st.used, h));
    } else if partial {
      assert AddUser(st, u, file, partial).st == st1.(used := Taken(st.used, h));
    } else {
      assert AddUser(st, u, file, partial).st == st1.(active := To(u), used := Taken(st.used, h));
    }
  }

  lemma {:induction false} AddUserHandles(st: State, u: nat, file: string, partial: bool)
    requires HandlesOk(st.bases, st.used) && Pointers(st) && u < |st.bases| && !st.bases[u].isUser
    requires st.active != To(u)
    ensures var r := AddUser(st, u, file, partial).st; HandlesOk(r.bases, r.used)
  {
    var r := AddUser(st, u, file, partial);
    HoldersInTable(r.st.bases);
    HandlesTaken(st.bases, r.st.bases, st.used, u, -1);
  }

  lemma {:induction false} AddUserKeeps(st: State, u: nat, file: string, partial: bool)
    requires Inv(st) && u < |st.bases| && st.bases[u].path == ""
    requires if partial then st.active.To? ==> st.bases[st.active.i].isUser
             else st.active == Null && Partials(st) == 0
    ensures Inv(AddUser(st, u, file, partial).st)
  {
    assert RowOk(st.bases[u]);
    AddUserHandles(st, u, file, partial);
    AddUserStructure(st, u, file, partial);
  }

  /** The user design of row u may go: it is not a current Full with Partials. */
  predicate MayGo(st: State, u: nat)
    requires u < |st.bases|
  {
    st.bases[u].isUser && (st.bases[u].userPartial || st.active != To(u) || st.bases[u].active <= 0)
  }

  /** The row of a user design after it is gone. */
  function Gone(row: Base): Base {
    row.(name := "", path := "", isUser := false, userHandle := -1)
  }

  lemma {:induction false} GoneRow(row: Base)
    requires RowOk(row) && row.isUser && row.active == 0
    ensures RowOk(Gone(row)) && Vacant(Gone(row))
  {
  }

  /** A user row that is not current goes; where Partials are counted, the count has been lowered before. */
  lemma {:induction false} RowGoes(st: State, u: nat)
    requires Skeleton(st)
    requires u < |st.bases| && st.bases[u].isUser && st.active != To(u)
    requires var left := Partials(st) - if st.bases[u].userPartial then 1 else 0;
      st.active.To? ==> if st.bases[st.active.i].isUser then st.bases[st.active.i].active == left else left == 0
    ensures Structure(SetBase(st, u, Gone(st.bases[u])))
  {
    assert RowOk(st.bases[u]) && st.rpu != To(u);
    GoneRow(st.bases[u]);
    PartialCountUpdate(st.bases, |st.bases|, u, Gone(st.bases[u]));
  }

  lemma {:induction false} RemovePartial(st: State, u: nat)
    requires Structure(st) && u < |st.bases| && IsPartial(st.bases[u]) && st.active.To?
    ensures Structure(RemoveUser(st, u))
  {
    var f := st.active.i;
    PartialCountZero(st.bases, |st.bases|);
    assert st.bases[f].isUser && f != u;
    var st1 := Recounted(st, st.bases[f].active - 1);
    RecountKeeps(st, st.bases[f].active - 1);
    RowGoes(st1, u);
    assert RemoveUser(st, u) ==
      SetBase(st1, u, Gone(st1.bases[u])).(used := RemoveUser(st, u).used, ids := RemoveUser(st, u).ids);
  }

  lemma {:induction false} RemoveUserStructure(st: State, u: nat)
    requires Structure(st) && u < |st.bases| && MayGo(st, u)
    ensures Structure(RemoveUser(st, u))
  {
    if st.bases[u].userPartial && st.active.To? {
      RemovePartial(st, u);
    } else if st.active == To(u) {
      ActiveIsCount(st, u);
      assert RowOk(st.bases[u]);
      NullKeepsStructure(st);
      RowGoes(st.(active := Null), u);
    } else {
      PartialCountZero(st.bases, |st.bases|);
      RowGoes(st, u);
    }
  }

  lemma {:induction false} NullKeepsStructure(st: State)
    requires Structure(st) && st.active.To? && Vacant(st.bases[st.active.i])
    ensures Structure(st.(active := Null))
  {
  }

  lemma {:induction false} RemoveUserHandles(st: State, u: nat)
    requires HandlesOk(st.bases, st.used) && Pointers(st) && u < |st.bases| && st.bases[u].isUser
    ensures var r := RemoveUser(st, u); HandlesOk(r.bases, r.used)
  {
    var r := RemoveUser(st, u);
    HoldersInTable(r.bases);
    HandlesReleased(st.bases, r.bases, st.used, u, -1);
  }

  lemma {:induction false} RemoveUserKeeps(st: State, u: nat)
    requires Inv(st) && u < |st.bases| && MayGo(st, u)
    ensures Inv(RemoveUser(st, u))
  {
    RemoveUserHandles(st, u);
    RemoveUserStructure(st, u);
  }

  // ---------------------------------------------------------------- loading

  lemma {:induction false} VacantWhenUncounted(st: State, i: nat)
    requires Structure(st) && i < |st.bases| && st.bases[i].active == 0 && st.bases[i].ty != Rpu
    ensures Vacant(st.bases[i])
  {
    var b := st.bases[i];
    assert RowOk(b);
    LoadedCountZero(b.slots, |b.slots|, true);
  }

  /** A PL package row that is not current counts nothing; so the zero written after a failed load changes nothing. */
  lemma {:induction false} NotCurrentIsZero(st: State, b: nat)
    requires Structure(st) && b < |st.bases| && IsPl(st.bases[b])
    requires st.active.To? ==> st.bases[st.active.i].active == 0
    ensures st.bases[b].active == 0 && ZeroActive(st, b) == st
  {
    ZeroKeeps(st, b);
  }

  lemma {:induction false} NoPartials(st: State)
    requires Structure(st) && !ExternallyManaged(st)
    requires st.active.To? ==> st.bases[st.active.i].active == 0
    ensures Partials(st) == 0
  {
    PartialCountZero(st.bases, |st.bases|);
  }

  lemma {:induction false} ActiveIsCount(st: State, i: nat)
    requires Structure(st) && i < |st.bases|
    ensures st.bases[i].active >= 0
  {
    assert RowOk(st.bases[i]);
  }

  lemma {:induction false} LoadFlatKeeps(st: State, b: nat, name: string, hw: Hw)
    requires Inv(st) && b < |st.bases| && IsFlat(st.bases[b]) && !ExternallyManaged(st)
    ensures Inv(LoadFlat(st, b, name, hw).st)
  {
    assert RowOk(st.bases[b]);
    AllocKeeps(st, b);
    var st0 := AllocSlots(st, b);
    if st.active.To? {
      ActiveIsCount(st0, st.active.i);
    }
    if !(st.active.To? && st0.bases[st.active.i].active > 0) {
      NoPartials(st);
      NotCurrentIsZero(st0, b);
      if hw.baseLoads {
        VacantWhenUncounted(st0, b);
        if st.active.To? {
          VacantActive(st0);
        }
        SetActiveKeeps(st0, b);
        FillKeeps(st0.(active := To(b)), b, 0, name);
      }
    }
  }

  lemma {:induction false} VacantActive(st: State)
    requires Structure(st) && st.active.To? && st.bases[st.active.i].active == 0
    ensures Vacant(st.bases[st.active.i])
  {
    VacantWhenUncounted(st, st.active.i);
  }

  /** Row b is ready to be loaded into. */
  predicate Ready(st: State, b: nat) {
    && b < |st.bases| && !st.bases[b].isUser && st.bases[b].slots != []
    && ((st.active == To(b) && st.bases[b].ty == PlDfx) || (st.rpu == To(b) && st.bases[b].ty == Rpu))
  }

  /** The current base of an accelerator's path is the accelerator's base: paths are unique. */
  lemma {:induction false} PathFindsRow(st: State, a: nat, b: nat, parentPath: string)
    requires Structure(st) && a < |st.bases| && b < |st.bases|
    requires st.active == To(a) || st.rpu == To(a)
    requires !st.bases[b].isUser && (parentPath == "" || parentPath == st.bases[b].path)
    requires st.bases[a].path == parentPath
    ensures a == b
  {
    assert RowOk(st.bases[a]) && RowOk(st.bases[b]);
  }

  /** With no PL base current and no Partial loaded, row b may become current. */
  lemma {:induction false} BecomesCurrent(st: State, b: nat)
    requires Inv(st) && b < |st.bases| && st.bases[b].ty == PlDfx && st.active == Null && Partials(st) == 0
    ensures ZeroActive(st, b) == st
    ensures var r := AllocSlots(st, b).(active := To(b)); Inv(r) && Ready(r, b)
  {
    assert RowOk(st.bases[b]);
    NotCurrentIsZero(st, b);
    AllocKeeps(st, b);
    SetActiveKeeps(AllocSlots(st, b), b);
  }

  lemma {:induction false} PreparePlKeeps(st: State, b: nat, parentPath: string, hw: Hw)
    requires Inv(st) && b < |st.bases| && st.bases[b].ty == PlDfx && !ExternallyManaged(st)
    requires parentPath == "" || parentPath == st.bases[b].path
    ensures var r := PreparePl(st, b, parentPath, hw); Inv(r.st) && (r.rv == 0 ==> Ready(r.st, b))
  {
    assert RowOk(st.bases[b]);
    if st.active.To? {
      ActiveIsCount(st, st.active.i);
    }
    if st.active.To? && st.bases[st.active.i].path == parentPath {
      PathFindsRow(st, st.active.i, b, parentPath);
    } else if !st.active.To? || st.bases[st.active.i].active == 0 {
      NoPartials(st);
      if st.active.To? {
        DropPlKeeps(st);
      }
      BecomesCurrent(if st.active.To? then FreeSlots(st, st.active.i).(active := Null) else st, b);
    }
  }

  lemma {:induction false} PrepareRpuKeeps(st: State, b: nat, parentPath: string)
    requires Inv(st) && b < |st.bases| && st.bases[b].ty == Rpu
    requires parentPath == "" || parentPath == st.bases[b].path
    ensures var r := PrepareRpu(st, b, parentPath); Inv(r.st) && (r.rv == 0 ==> Ready(r.st, b))
  {
    assert RowOk(st.bases[b]);
    if st.rpu.To? {
      ActiveIsCount(st, st.rpu.i);
    }
    if st.rpu.To? && st.bases[st.rpu.i].path == parentPath {
      PathFindsRow(st, st.rpu.i, b, parentPath);
    } else if !st.rpu.To? || st.bases[st.rpu.i].active == 0 {
      if st.rpu.To? {
        DropRpuKeeps(st);
      }
      var st1 := if st.rpu.To? then FreeSlots(st, st.rpu.i).(rpu := Null) else st;
      AllocKeeps(st1, b);
      SetRpuKeeps(AllocSlots(st1, b), b);
    }
  }

  lemma {:induction false} LoadSlotKeeps(st: State, b: nat, accel: Accel, name: string, hw: Hw)
    requires Inv(st) && Ready(st, b)
    ensures Inv(LoadLowest(st, b, accel, name, hw).st)
    ensures accel.rpuSlot >= 0 ==> Inv(LoadFixed(st, b, accel, name, hw).st)
  {
    assert RowOk(st.bases[b]);
    var i := FreeSlotFrom(st.bases[b], accel.slotDirs, 0);
    if i != -1 {
      FillKeeps(st, b, i, name);
    }
    if 0 <= accel.rpuSlot < st.bases[b].numPl && SlotAt(st.bases[b], accel.rpuSlot) == Empty {
      FillKeeps(st, b, accel.rpuSlot, name);
    }
  }

  lemma {:induction false} LoadCoreKeeps(st: State, b: nat, name: string, hw: Hw)
    requires Inv(st) && b < |st.bases|
    ensures Inv(LoadCore(st, b, name, hw).st)
  {
    var base := st.bases[b];
    assert RowOk(base);
    if ExternallyManaged(st) && base.ty != Rpu {
    } else if IsFlat(base) {
      LoadFlatKeeps(st, b, name, hw);
    } else if base.ty == PlDfx || base.ty == Rpu {
      var j := LastNamed(base.accels, name, |base.accels|);
      if j != -1 {
        var accel := base.accels[j];
        assert ParentOk(accel, base.path);
        if base.ty == PlDfx {
          PreparePlKeeps(st, b, accel.parentPath, hw);
          var r := PreparePl(st, b, accel.parentPath, hw);
          if r.rv == 0 {
            LoadSlotKeeps(r.st, b, accel, name, hw);
          }
        } else {
          PrepareRpuKeeps(st, b, accel.parentPath);
          var r := PrepareRpu(st, b, accel.parentPath);
          if r.rv == 0 {
            LoadSlotKeeps(r.st, b, accel, name, hw);
          }
        }
      }
    }
  }

  // ---------------------------------------------------------------- unloading

  lemma {:induction false} UnloadBaseKeeps(st: State, hw: Hw)
    requires Inv(st)
    ensures Inv(UnloadBase(st, hw).st)
  {
    if st.active.To? && st.bases[st.active.i].active == 0 {
      DropPlKeeps(st);
    }
  }

  lemma {:induction false} UserUnloadKeeps(st: State, h: int)
    requires Inv(st)
    ensures Inv(UserUnload(st, h).st)
  {
    var u := UserRow(st.bases, h, 0);
    if u < |st.bases| && MayGo(st, u) {
      RemoveUserKeeps(st, u);
    }
  }

  lemma {:induction false} UnloadSlotKeeps(st: State, b: nat, h: int)
    requires Inv(st) && h >= 0 && b < |st.bases| && (st.active == To(b) || st.rpu == To(b))
    ensures var i := SlotWithHandle(st.bases[b], h, 0);
      i != -1 ==> !st.bases[b].isUser && i < |st.bases[b].slots| && Inv(EmptySlot(st, b, i, h))
    ensures var i := SlotWithHandle(st.bases[b], h, 0);
      i != -1 && IsFlat(st.bases[b]) && st.active == To(b) ==> Inv(EmptySlot(st, b, i, h).(active := Null))
  {
    var i := SlotWithHandle(st.bases[b], h, 0);
    assert RowOk(st.bases[b]);
    if i != -1 {
      EmptyKeeps(st, b, i, h);
      if IsFlat(st.bases[b]) && st.active == To(b) {
        NullKeeps(EmptySlot(st, b, i, h));
      }
    }
  }

  lemma {:induction false} UnloadKeeps(st: State, h: int, hw: Hw)
    requires Inv(st)
    ensures Inv(Unload(st, h, hw).st)
  {
    UnloadBaseKeeps(st, hw);
    UserUnloadKeeps(st, h);
    if h >= 0 {
      if st.rpu.To? {
        UnloadSlotKeeps(st, st.rpu.i, h);
      }
      if st.active.To? {
        UnloadSlotKeeps(st, st.active.i, h);
      }
    }
  }

  /** What a user request meets: nothing current, or a user Full. */
  lemma {:induction false} ClearKeeps(st: State, partial: bool)
    requires Inv(st) && !UserRefused(st, partial)
    ensures var r := ClearForUser(st);
      Inv(r) && (r.active.To? ==> partial && r.bases[r.active.i].isUser)
  {
    if st.active.To? {
      assert RowOk(st.bases[st.active.i]);
      ActiveIsCount(st, st.active.i);
      if st.bases[st.active.i].ty == PlDfx {
        DropPlKeeps(st);
      }
    }
  }

  lemma {:induction false} UserLoadKeeps(st: State, ask: UserRequest, hw: Hw)
    requires Inv(st)
    ensures Inv(UserLoad(st, ask, hw).st)
  {
    if !UserRefused(st, ask.partial) {
      ClearKeeps(st, ask.partial);
      var st1 := ClearForUser(st);
      var u := BlankRow(st1.bases, 0);
      if u < |st1.bases| && (ask.partial || !ExternallyManaged(st1)) {
        if !ask.partial {
          NoPartials(st1);
        }
        AddUserKeeps(st1, u, ask.file, ask.partial);
      }
    }
  }

  // ---------------------------------------------------------------- every operation, every run

  lemma {:induction false} PerformKeeps(st: State, e: Event, hw: Hw)
    requires Inv(st)
    ensures Inv(Perform(st, e, hw).st)
  {
    match e
    case LoadEvent(name) =>
      var b := FindRow(st.bases, name, 0);
      if b < |st.bases| {
        LoadCoreKeeps(st, b, name, hw);
      }
    case LoadIdEvent(id) =>
      var f := FindId(st.bases, st.ids, id, 0);
      if f.PackageEntry? {
        LoadCoreKeeps(st, f.row, st.bases[f.row].accels[f.accel].name, hw);
      }
    case UnloadEvent(h) => UnloadKeeps(st, h, hw);
    case UnloadIdEvent(id) =>
      UnloadBaseKeeps(st, hw);
      var f := FindId(st.bases, st.ids, id, 0);
      if f.UserEntry? {
        UnloadKeeps(st, st.bases[f.row].userHandle, hw);
      } else if f.PackageEntry? {
        UnloadKeeps(st, HandleNamed(st.bases[f.row], st.bases[f.row].accels[f.accel].name), hw);
      }
    case UnloadNameEvent(name) => UnloadKeeps(st, FindHandleByName(st, name), hw);
    case UserLoadEvent(ask) => UserLoadKeeps(st, ask, hw);
  }

  /** The states of a run: whatever is asked for, in whatever order, and whatever the hardware answers. */
  ghost predicate IsRun(states: seq<State>) {
    && states != []
    && Initial(states[0])
    && forall i :: 0 <= i < |states| - 1 ==> StepsAt(states, i)
  }

  ghost predicate StepsAt(states: seq<State>, i: nat)
    requires i + 1 < |states|
  {
    Steps(states[i], states[i + 1])
  }

  ghost predicate Steps(st: State, next: State) {
    Pointers(st) && |st.ids| == |st.bases| && exists e, hw :: Perform(st, e, hw).st == next
  }

  /** Nothing is loaded yet, and the catalogue is well formed. */
  predicate Initial(st: State) {
    && Sizes(st) && RowsOk(st.bases) && PathsOk(st.bases)
    && st.active == Null && st.rpu == Null
    && (forall h :: 0 <= h < |st.used| ==> !st.used[h])
    && (forall i :: 0 <= i < |st.bases| ==> !st.bases[i].isUser && st.bases[i].slots == [])
  }

  lemma {:induction false} InitialInv(st: State)
    requires Initial(st)
    ensures Inv(st)
  {
    assert forall i: nat, k: int :: HandleAt(st.bases, i, k) < 0;
  }

  lemma StepKeeps(st: State, next: State)
    requires Inv(st) && Steps(st, next)
    ensures Inv(next)
  {
    var e, hw :| Perform(st, e, hw).st == next;
    PerformKeeps(st, e, hw);
  }

  /** What holds at first, and after each step if before it, holds all along. */
  lemma {:induction false} AllAlong(p: seq<bool>, n: nat)
    requires n < |p| && p[0] && forall m :: 0 <= m < |p| - 1 && p[m] ==> p[m + 1]
    ensures p[n]
  {
    if n > 0 {
      AllAlong(p, n - 1);
      assert p[n - 1] ==> p[n - 1 + 1];
    }
  }

  /** The invariant holds in every state of every run. */
  lemma {:induction false} RunKeeps(states: seq<State>, n: nat)
    requires IsRun(states) && n < |states|
    ensures Inv(states[n])
  {
    var p := seq(|states|, i requires 0 <= i < |states| => Inv(states[i]));
    InitialInv(states[0]);
    forall m | 0 <= m < |p| - 1 && p[m]
      ensures p[m + 1]
    {
      assert StepsAt(states, m);
      StepKeeps(states[m], states[m + 1]);
    }
    AllAlong(p, n);
  }
}
