/** User designs: exactly when one is entered, what that leaves, and what is current on the PL over every run. */
module DaemonUsers {
  import opened DaemonSpec
  import opened DaemonInvariant
  import opened DaemonRuns
  import opened DaemonTheorems
  import opened DaemonAnswers

  // ---------------------------------------------------------------- when a user design is entered

  /** A user Full is current. */
  predicate OnFull(st: State)
    requires Pointers(st)
  {
    st.active.To? && st.bases[st.active.i].isUser
  }

  /** Nothing is current on the PL, or an empty PL_DFX base, which is taken away first. */
  predicate Bare(st: State)
    requires Pointers(st)
  {
    st.active.To? ==> st.bases[st.active.i].ty == PlDfx && st.bases[st.active.i].active == 0
  }

  /** The PL is in the state for it: a Partial needs a user Full, or force on a bare PL; a Full a bare PL without Partials. */
  predicate Welcome(st: State, ask: UserRequest)
    requires Pointers(st)
  {
    if ask.partial then OnFull(st) || (Bare(st) && ask.force) else Bare(st) && !Forbidden(st)
  }

  predicate HasBlank(st: State) {
    exists i :: 0 <= i < |st.bases| && st.bases[i].path == ""
  }

  /** The design is in row u, which was the first blank one; it has the handle that is returned, and nothing else changed but
      the current base of the PL and the count of a Full under a new Partial. */
  ghost predicate EnteredAt(st: State, r: Reply, ask: UserRequest, u: nat)
    requires Pointers(st)
  {
    && |r.st.bases| == |st.bases| && u < |st.bases|
    && st.bases[u].path == "" && (forall m :: 0 <= m < u ==> st.bases[m].path != "")
    && IsUserRow(r.st.bases[u], ask, r.rv)
    && r.rv == FreeHandle(st) && r.st.used == Taken(st.used, r.rv) && r.st.rpu == st.rpu
    && SameSlots(st, r.st) && r.st.ids == Stamped(r.st.bases, st.ids)
    && (forall i :: 0 <= i < |st.bases| && i != u ==>
          r.st.bases[i] == st.bases[i].(active := r.st.bases[i].active, slots := r.st.bases[i].slots))
    && (forall i :: 0 <= i < |st.bases| && i != u ==>
          r.st.bases[i].active == st.bases[i].active + if ask.partial && OnFull(st) && st.active == To(i) then 1 else 0)
    && r.st.active == if !ask.partial then To(u) else if OnFull(st) then st.active else Null
  }

  predicate IsUserRow(b: Base, ask: UserRequest, h: int) {
    && b.isUser && b.userPartial == ask.partial && b.name == ask.file && b.path == "User" && b.userHandle == h
    && b.active == 0
  }

  /** A refusal changes nothing, but that it may have taken an empty base away. */
  ghost predicate Refusal(st: State, r: Reply, clears: bool)
    requires Pointers(st)
  {
    Untouched(st, r.st) && r.st.rpu == st.rpu && r.st.active == if clears then Null else st.active
  }

  lemma {:induction false} PartialsFit(bases: seq<Base>, n: nat)
    requires n <= |bases|
    ensures PartialCount(bases, n) <= n
    ensures (exists i :: 0 <= i < n && !IsPartial(bases[i])) ==> PartialCount(bases, n) < n
  {
    if n > 0 {
      PartialsFit(bases, n - 1);
    }
  }

  /** There are always fewer Partials on a Full than a Full can count. */
  lemma {:induction false} FullHasRoom(st: State)
    requires Inv(st) && OnFull(st)
    ensures st.bases[st.active.i].active < MAX_WATCH
  {
    PartialsFit(st.bases, |st.bases|);
    assert !IsPartial(st.bases[st.active.i]);
  }

  /** What a request meets that the current base lets in. */
  lemma {:induction false} Cleared(st: State, partial: bool)
    requires Inv(st)
    ensures UserRefused(st, partial) <==> !(Bare(st) || (partial && OnFull(st)))
    ensures !UserRefused(st, partial) ==>
      var st1 := ClearForUser(st);
      && Inv(st1) && Untouched(st, st1) && st1.rpu == st.rpu && st1.active == (if Bare(st) then Null else st.active)
      && OnFull(st1) == OnFull(st)
      && forall i :: 0 <= i < |st.bases| ==> st1.bases[i].active == st.bases[i].active && st1.bases[i].path == st.bases[i].path
  {
    if st.active.To? {
      var row := st.bases[st.active.i];
      assert RowOk(row);
      ActiveIsCount(st, st.active.i);
      if row.isUser {
        FullHasRoom(st);
      }
    }
    if !UserRefused(st, partial) {
      ClearKeeps(st, partial);
      if st.active.To? && st.bases[st.active.i].ty == PlDfx {
        VacantWhenUncounted(st, st.active.i);
        LoadedCountZero(st.bases[st.active.i].slots, |st.bases[st.active.i].slots|, true);
        FreeUntouched(st, st.active.i);
      }
    }
  }

  /** While the PL is bare with an empty base on it, there are no Partials. */
  lemma {:induction false} ForbiddenWhenCleared(st: State, partial: bool)
    requires Inv(st) && !UserRefused(st, partial) && !OnFull(st)
    ensures ExternallyManaged(ClearForUser(st)) <==> Forbidden(st)
  {
    Cleared(st, partial);
    if st.active.To? {
      PartialCountZero(st.bases, |st.bases|);
    }
  }

  lemma {:induction false} Enters(st: State, st1: State, u: nat, ask: UserRequest)
    requires Inv(st) && Inv(st1) && Untouched(st, st1) && st1.rpu == st.rpu
    requires st1.active == (if Bare(st) then Null else st.active) && OnFull(st1) == OnFull(st)
    requires Bare(st) || (ask.partial && OnFull(st))
    requires forall i :: 0 <= i < |st.bases| ==> st1.bases[i].active == st.bases[i].active && st1.bases[i].path == st.bases[i].path
    requires u < |st1.bases| && u == BlankRow(st1.bases, 0)
    ensures var added := AddUser(st1, u, ask.file, ask.partial);
      EnteredAt(st, Reply(WithIds(added.st), added.rv), ask, u)
  {
    var added := AddUser(st1, u, ask.file, ask.partial);
    assert RowOk(st1.bases[u]);
    forall i, k: nat | 0 <= i < |st.bases|
      ensures SlotAt(added.st.bases[i], k) == SlotAt(st.bases[i], k)
    {
      assert SlotAt(st1.bases[i], k) == SlotAt(st.bases[i], k);
    }
  }

  /** A user design is entered exactly if the request may be made on this platform, the PL is in the state for it, the arguments
      are in order, the bitstream loads and a row is blank; with a handle exactly if one is free. */
  lemma {:induction false} UserAdmission(st: State, ask: UserRequest, hw: Hw)
    requires Inv(st)
    ensures var r := UserLoad(st, ask, hw);
      if ask.secureRefused then r == Reply(st, SECURE_PLATFORM_ERROR)
      else if !(Bare(st) || (ask.partial && OnFull(st))) then r == Reply(st, -1)
      else if !Welcome(st, ask) || !ask.argumentsOk then r.rv == -1 && Refusal(st, r, Bare(st))
      else if hw.bitstreamRv != 0 then r.rv == hw.bitstreamRv && Refusal(st, r, Bare(st))
      else if !HasBlank(st) then r.rv == -1 && Refusal(st, r, Bare(st))
      else exists u: nat :: EnteredAt(st, r, ask, u)
  {
    if !ask.secureRefused {
      Cleared(st, ask.partial);
      if !UserRefused(st, ask.partial) {
        var st1 := ClearForUser(st);
        if !OnFull(st) {
          ForbiddenWhenCleared(st, ask.partial);
        }
        var u := BlankRow(st1.bases, 0);
        assert HasBlank(st) <==> u < |st1.bases|;
        if u < |st1.bases| {
          Enters(st, st1, u, ask);
          assert Welcome(st, ask) && ask.argumentsOk && hw.bitstreamRv == 0 ==> EnteredAt(st, UserLoad(st, ask, hw), ask, u);
        }
      }
    }
  }

  /** A Full on a bare PL, and then a Partial without force, both load where two rows are blank. */
  lemma {:induction false} FullThenPartial(st: State, full: UserRequest, part: UserRequest, hw: Hw, i: nat, j: nat)
    requires Inv(st) && !full.partial && part.partial && !full.secureRefused && !part.secureRefused
    requires full.argumentsOk && part.argumentsOk && hw.bitstreamRv == 0 && Bare(st) && !Forbidden(st)
    requires i < j < |st.bases| && st.bases[i].path == st.bases[j].path == ""
    ensures var mid := UserLoad(st, full, hw).st;
      && Inv(mid) && OnFull(mid)
      && exists u: nat, v: nat ::
           && EnteredAt(st, UserLoad(st, full, hw), full, u) && EnteredAt(mid, UserLoad(mid, part, hw), part, v)
           && mid.active == To(u) && UserLoad(mid, part, hw).st.active == To(u)
           && UserLoad(mid, part, hw).st.bases[u].active == 1
  {
    UserAdmission(st, full, hw);
    UserLoadKeeps(st, full, hw);
    var r := UserLoad(st, full, hw);
    assert HasBlank(st);
    var u: nat :| EnteredAt(st, r, full, u);
    assert r.st.bases[if u == i then j else i].path == "";
    UserAdmission(r.st, part, hw);
    var v: nat :| EnteredAt(r.st, UserLoad(r.st, part, hw), part, v);
    assert u != v;
  }

  // ---------------------------------------------------------------- flat designs over every run

  /** A flat design that is current on the PL is loaded. */
  predicate FlatLoaded(st: State) {
    Pointers(st) && (st.active.To? && FlatRow(st.bases[st.active.i]) ==> SlotAt(st.bases[st.active.i], 0).Loaded?)
  }

  lemma UntouchedFlat(st: State, after: State)
    requires FlatLoaded(st) && Untouched(st, after) && after.active == st.active && Pointers(after)
    ensures FlatLoaded(after)
  {
  }

  lemma {:induction false} LoadPlActive(st: State, b: nat, name: string, hw: Hw)
    requires Inv(st) && b < |st.bases| && st.bases[b].ty == PlDfx
    ensures var r := LoadCore(st, b, name, hw); r.st.active == st.active || r.st.active == Null || r.st.active == To(b)
  {
    var j := LastNamed(st.bases[b].accels, name, |st.bases[b].accels|);
    if j != -1 {
      PreparePlActive(st, b, st.bases[b].accels[j].parentPath, hw);
    }
  }

  lemma {:induction false} PreparePlActive(st: State, b: nat, parentPath: string, hw: Hw)
    requires Pointers(st) && b < |st.bases|
    ensures var a := PreparePl(st, b, parentPath, hw).st.active; a == st.active || a == Null || a == To(b)
  {
  }

  lemma LoadRpuActive(st: State, b: nat, name: string, hw: Hw)
    requires Inv(st) && b < |st.bases| && st.bases[b].ty == Rpu
    ensures LoadCore(st, b, name, hw).st.active == st.active
  {
    var j := LastNamed(st.bases[b].accels, name, |st.bases[b].accels|);
    if j != -1 {
      RpuAnswers(st, b, name, j, hw);
    }
  }

  lemma {:induction false} LoadKeepsFlat(st: State, b: nat, name: string, hw: Hw)
    requires Inv(st) && FlatLoaded(st) && b < |st.bases|
    ensures FlatLoaded(LoadCore(st, b, name, hw).st)
  {
    LoadCoreKeeps(st, b, name, hw);
    var base, r := st.bases[b], LoadCore(st, b, name, hw);
    if FlatRow(base) {
      FlatAdmission(st, b, name, hw);
    } else if base.ty == PlDfx || base.ty == Rpu {
      LoadEffect(st, b, name, hw);
      if base.ty == PlDfx {
        LoadPlActive(st, b, name, hw);
      } else {
        LoadRpuActive(st, b, name, hw);
      }
      if r.st.active == st.active && st.active.To? && FlatRow(st.bases[st.active.i]) {
        OutcomeKeepsSlot(Dropping(st, b, name), r, b, name, st.active.i);
        assert RowOk(st.bases[st.active.i]);
      }
    }
  }

  lemma OutcomeKeepsSlot(st: State, r: Reply, b: nat, name: string, i: nat)
    requires LoadOutcome(st, r, b, name) && i < |st.bases| && i != b
    ensures i < |r.st.bases| && SlotAt(r.st.bases[i], 0) == SlotAt(st.bases[i], 0)
    ensures r.st.bases[i].ty == st.bases[i].ty
  {
  }

  lemma {:induction false} UnloadKeepsFlat(st: State, h: int, hw: Hw)
    requires Inv(st) && FlatLoaded(st)
    ensures FlatLoaded(Unload(st, h, hw).st)
  {
    if h == -1 {
      UnloadBaseAnswers(st, hw);
    } else if h >= 0 {
      UnloadAnswers(st, h, hw);
      UnloadEffect(st, h, hw);
      UnloadKeeps(st, h, hw);
      var after := Unload(st, h, hw).st;
      if after != st && after.active.To? {
        var a := st.active.i;
        assert RowOk(st.bases[a]);
        assert FlatRow(st.bases[a]) ==> HandleAt(st.bases, a, 0) != h;
      }
    } else {
      NegativeHandle(st, h, hw);
    }
  }

  lemma NegativeHandle(st: State, h: int, hw: Hw)
    requires Inv(st) && h < -1
    ensures Unload(st, h, hw) == Reply(st, -1)
  {
    var u := UserRow(st.bases, h, 0);
    assert u < |st.bases| ==> RowOk(st.bases[u]);
  }

  lemma {:induction false} UserLoadKeepsFlat(st: State, ask: UserRequest, hw: Hw)
    requires Inv(st) && FlatLoaded(st)
    ensures FlatLoaded(UserLoad(st, ask, hw).st)
  {
    UserAdmission(st, ask, hw);
    UserLoadKeeps(st, ask, hw);
    var after := UserLoad(st, ask, hw).st;
    if after.active.To? {
      assert RowOk(after.bases[after.active.i]);
      assert st.active.To? ==> RowOk(st.bases[st.active.i]);
    }
  }

  lemma {:induction false} PerformKeepsFlat(st: State, e: Event, hw: Hw)
    requires Inv(st) && FlatLoaded(st)
    ensures FlatLoaded(Perform(st, e, hw).st)
  {
    match e
    case LoadEvent(name) =>
      var b := FindRow(st.bases, name, 0);
      if b < |st.bases| {
        LoadKeepsFlat(st, b, name, hw);
      }
    case LoadIdEvent(id) =>
      var f := FindId(st.bases, st.ids, id, 0);
      if f.PackageEntry? {
        LoadKeepsFlat(st, f.row, st.bases[f.row].accels[f.accel].name, hw);
      }
    case UnloadEvent(h) => UnloadKeepsFlat(st, h, hw);
    case UnloadIdEvent(id) =>
      UnloadBaseAnswers(st, hw);
      UnloadKeepsFlat(st, -1, hw);
      forall h {
        UnloadKeepsFlat(st, h, hw);
      }
    case UnloadNameEvent(name) => UnloadKeepsFlat(st, FindHandleByName(st, name), hw);
    case UserLoadEvent(ask) => UserLoadKeepsFlat(st, ask, hw);
  }

  /** In every state of every run a flat design is current on the PL only while it is loaded. */
  lemma {:induction false} FlatStaysLoaded(states: seq<State>, n: nat)
    requires IsRun(states) && n < |states|
    ensures FlatLoaded(states[n])
  {
    if n > 0 {
      FlatStaysLoaded(states, n - 1);
      RunKeeps(states, n - 1);
      assert StepsAt(states, n - 1);
      StepKeepsFlat(states[n - 1], states[n]);
    }
  }

  lemma StepKeepsFlat(st: State, next: State)
    requires Inv(st) && FlatLoaded(st) && Steps(st, next)
    ensures FlatLoaded(next)
  {
    var e, hw :| Perform(st, e, hw).st == next;
    PerformKeepsFlat(st, e, hw);
  }
}
