/** What each operation answers, exactly, and what it leaves current: the conditions are those a client could look up. */
module DaemonAnswers {
  import opened DaemonSpec
  import opened DaemonInvariant
  import opened DaemonRuns
  import opened DaemonTheorems

  // ---------------------------------------------------------------- what can be looked up

  predicate FlatRow(b: Base) {
    b.ty == XrtFlat || b.ty == PlFlat
  }

  /** User Partials stand on a base that was set up outside. */
  predicate Forbidden(st: State) {
    st.active == Null && exists i :: 0 <= i < |st.bases| && st.bases[i].isUser && st.bases[i].userPartial
  }

  /** The row that is current on the PL counts something. */
  predicate Busy(st: State)
    requires Pointers(st)
  {
    st.active.To? && st.bases[st.active.i].active > 0
  }

  /** A slot of the row is empty and the accelerator has a directory for it. */
  predicate HasRoom(b: Base, accel: Accel) {
    exists k :: 0 <= k < NumSlots(b) && SlotAt(b, k) == Empty && k in accel.slotDirs
  }

  /** The accelerator that the name stands for in a row: the last one of that name. */
  predicate IsLast(accels: seq<Accel>, name: string, j: nat) {
    j < |accels| && accels[j].name == name && forall k :: j < k < |accels| ==> accels[k].name != name
  }

  lemma LastIs(accels: seq<Accel>, name: string, j: nat)
    requires IsLast(accels, name, j)
    ensures LastNamed(accels, name, |accels|) == j
  {
  }

  predicate SameCurrent(st: State, after: State) {
    after.active == st.active && after.rpu == st.rpu
  }

  // ---------------------------------------------------------------- loads into flat designs

  /** A flat load is refused while Partials stand on a base set up outside, and while something is counted on the PL. Otherwise
      it is made exactly if the hardware takes it: the first slot gets the design, and the row becomes current. */
  lemma {:induction false} FlatAdmission(st: State, b: nat, name: string, hw: Hw)
    requires Inv(st) && b < |st.bases| && FlatRow(st.bases[b])
    ensures var r := LoadCore(st, b, name, hw);
      if Forbidden(st) then r == Reply(st, LOAD_ERROR)
      else if Busy(st) then r.rv == NO_EMPTY_SLOT && Untouched(st, r.st) && SameCurrent(st, r.st)
      else if !hw.baseLoads then r.rv == LOAD_ERROR && Untouched(st, r.st) && SameCurrent(st, r.st)
      else LoadedInto(st, r, b, 0, name) && r.st.active == To(b) && r.st.rpu == st.rpu
    ensures LoadCore(st, b, name, hw).rv >= 0 <==>
      !Forbidden(st) && !Busy(st) && hw.baseLoads && exists h :: 0 <= h < |st.used| && !st.used[h]
  {
    if !Forbidden(st) {
      AllocUntouched(st, b);
      if st.active.To? {
        ActiveIsCount(st, st.active.i);
      }
      if !Busy(st) {
        FlatTakesOver(st, b);
        assert RowOk(st.bases[b]);
        FillLoads(st, AllocSlots(st, b).(active := To(b)), b, 0, name);
      }
    }
  }

  // ---------------------------------------------------------------- loads into slots

  /** What a load comes to once way was made: no slot, no success, or the right slot filled. */
  ghost predicate Answers(st: State, r: Reply, b: nat, name: string, room: bool, loads: bool) {
    if !room then r.rv == NO_EMPTY_SLOT && Untouched(st, r.st)
    else if !loads then r.rv == LOAD_ERROR && Untouched(st, r.st)
    else exists i: nat :: b < |st.bases| && LoadedInto(st, r, b, i, name) && RightSlot(st.bases[b], name, i)
  }

  lemma SameRoom(st: State, mid: State, b: nat, accel: Accel)
    requires Untouched(st, mid) && b < |st.bases|
    ensures HasRoom(st.bases[b], accel) <==> HasRoom(mid.bases[b], accel)
    ensures RpuHasRoom(st.bases[b], accel) <==> RpuHasRoom(mid.bases[b], accel)
  {
    assert forall k: nat :: SlotAt(mid.bases[b], k) == SlotAt(st.bases[b], k);
  }

  lemma SearchIsRoom(b: Base, accel: Accel)
    ensures FreeSlotFrom(b, accel.slotDirs, 0) != -1 <==> HasRoom(b, accel)
  {
  }

  lemma {:induction false} LowestAnswers(st: State, mid: State, b: nat, name: string, j: nat, hw: Hw)
    requires Inv(mid) && Untouched(st, mid) && Ready(mid, b) && IsLast(mid.bases[b].accels, name, j)
    requires mid.bases[b].ty == PlDfx || mid.bases[b].accels[j].rpuSlot < 0
    ensures var accel := mid.bases[b].accels[j];
      var r := LoadLowest(mid, b, accel, name, hw);
      && SameCurrent(mid, r.st)
      && Answers(st, r, b, name, HasRoom(st.bases[b], accel), !(mid.bases[b].ty == PlDfx && accel.isAie) && hw.slotLoads)
  {
    var base, accel := mid.bases[b], mid.bases[b].accels[j];
    LastIs(base.accels, name, j);
    SameRoom(st, mid, b, accel);
    SearchIsRoom(base, accel);
    var i := FreeSlotFrom(base, accel.slotDirs, 0);
    if i != -1 {
      assert RowOk(base);
      FillLoads(st, mid, b, i, name);
      forall m | 0 <= m < i
        ensures SlotAt(st.bases[b], m) != Empty || m !in accel.slotDirs
      {
        assert SlotAt(mid.bases[b], m) == SlotAt(st.bases[b], m);
      }
      assert RightSlot(st.bases[b], name, i);
    }
  }

  lemma {:induction false} FixedAnswers(st: State, mid: State, b: nat, name: string, j: nat, hw: Hw)
    requires Inv(mid) && Untouched(st, mid) && Ready(mid, b) && IsLast(mid.bases[b].accels, name, j)
    requires mid.bases[b].ty == Rpu && mid.bases[b].accels[j].rpuSlot >= 0
    ensures var accel := mid.bases[b].accels[j];
      var r := LoadFixed(mid, b, accel, name, hw);
      SameCurrent(mid, r.st) && Answers(st, r, b, name, RpuHasRoom(st.bases[b], accel), hw.slotLoads)
  {
    var base, accel := mid.bases[b], mid.bases[b].accels[j];
    LastIs(base.accels, name, j);
    SameRoom(st, mid, b, accel);
    if RpuHasRoom(base, accel) {
      assert RowOk(base);
      FillLoads(st, mid, b, accel.rpuSlot, name);
      assert RightSlot(st.bases[b], name, accel.rpuSlot);
    }
  }

  /** A load into a PL_DFX base, for an accelerator that names it as its parent: which of the codes is returned, when the slot
      is filled, and what is current then. */
  lemma {:induction false} PlAnswers(st: State, b: nat, name: string, j: nat, hw: Hw)
    requires Inv(st) && b < |st.bases| && st.bases[b].ty == PlDfx
    requires IsLast(st.bases[b].accels, name, j) && st.bases[b].accels[j].parentPath == st.bases[b].path
    ensures var accel, r := st.bases[b].accels[j], LoadCore(st, b, name, hw);
      && r.st.rpu == st.rpu
      && if Forbidden(st) then r == Reply(st, LOAD_ERROR)
         else if st.active != To(b) && Busy(st) then r.rv == LOAD_ERROR && Untouched(st, r.st) && r.st.active == st.active
         else if st.active != To(b) && st.bases[b].loadBase && !hw.baseLoads then
           r.rv == LOAD_ERROR && Untouched(st, r.st) && r.st.active == Null
         else
           r.st.active == To(b) && Answers(st, r, b, name, HasRoom(st.bases[b], accel), !accel.isAie && hw.slotLoads)
  {
    LastIs(st.bases[b].accels, name, j);
    var accel := st.bases[b].accels[j];
    if !Forbidden(st) {
      PreparedPl(st, b, hw);
      PreparePlUntouched(st, b, accel.parentPath, hw);
      PreparePlKeeps(st, b, accel.parentPath, hw);
      var r := PreparePl(st, b, accel.parentPath, hw);
      if r.rv == 0 {
        LowestAnswers(st, r.st, b, name, j, hw);
      }
    }
  }

  /** What is current once way was made for a PL_DFX base. */
  lemma {:induction false} PreparedPl(st: State, b: nat, hw: Hw)
    requires Inv(st) && b < |st.bases| && st.bases[b].ty == PlDfx && !Forbidden(st)
    ensures var r := PreparePl(st, b, st.bases[b].path, hw);
      && r.st.rpu == st.rpu
      && if st.active != To(b) && Busy(st) then r == Reply(st, LOAD_ERROR)
         else if st.active != To(b) && st.bases[b].loadBase && !hw.baseLoads then r.rv == LOAD_ERROR && r.st.active == Null
         else r.rv == 0 && r.st.active == To(b)
  {
    assert RowOk(st.bases[b]);
    if st.active.To? {
      ActiveIsCount(st, st.active.i);
      if st.bases[st.active.i].path == st.bases[b].path {
        PathFindsRow(st, st.active.i, b, st.bases[b].path);
      }
    }
  }

  /** The slot of an RPU load: the one its layout names, or any empty one with a directory. */
  predicate RpuHasRoom(b: Base, accel: Accel) {
    if accel.rpuSlot >= 0 then accel.rpuSlot < b.numPl && SlotAt(b, accel.rpuSlot) == Empty else HasRoom(b, accel)
  }

  /** What an RPU load answers, `left` being what is left of the state once a base was dropped for it. */
  ghost predicate RpuAnswered(st: State, left: State, r: Reply, b: nat, name: string, accel: Accel, loads: bool)
    requires Pointers(st) && b < |left.bases|
  {
    && r.st.active == st.active
    && if st.rpu.To? && st.bases[st.rpu.i].path != accel.parentPath && st.bases[st.rpu.i].active > 0 then
         r == Reply(st, LOAD_ERROR)
       else
         r.st.rpu == To(b) && Answers(left, r, b, name, RpuHasRoom(left.bases[b], accel), loads)
  }

  /** The same for an RPU base. What it drops is lost, also if nothing is loaded then. */
  lemma {:induction false} RpuAnswers(st: State, b: nat, name: string, j: nat, hw: Hw)
    requires Inv(st) && b < |st.bases| && st.bases[b].ty == Rpu && IsLast(st.bases[b].accels, name, j)
    ensures var left, r := Dropping(st, b, name), LoadCore(st, b, name, hw);
      |left.bases| == |st.bases| && RpuAnswered(st, left, r, b, name, st.bases[b].accels[j], hw.slotLoads)
  {
    LastIs(st.bases[b].accels, name, j);
    var accel := st.bases[b].accels[j];
    assert RowOk(st.bases[b]) && ParentOk(accel, st.bases[b].path);
    PrepareRpuDrops(st, b, name);
    var ready := PrepareRpu(st, b, accel.parentPath);
    PreparedRpu(st, b, accel.parentPath);
    RpuAnswersReady(st, Dropping(st, b, name), ready, b, name, j, hw);
    RpuCoreIs(st, b, name, j, hw);
  }

  lemma RpuCoreIs(st: State, b: nat, name: string, j: nat, hw: Hw)
    requires Pointers(st) && b < |st.bases| && st.bases[b].ty == Rpu && IsLast(st.bases[b].accels, name, j)
    ensures var accel := st.bases[b].accels[j];
      LoadCore(st, b, name, hw) == RpuReply(PrepareRpu(st, b, accel.parentPath), b, accel, name, hw)
  {
    LastIs(st.bases[b].accels, name, j);
  }

  function RpuReply(ready: Reply, b: nat, accel: Accel, name: string, hw: Hw): Reply
    requires Pointers(ready.st) && b < |ready.st.bases|
  {
    if ready.rv != 0 then ready
    else if accel.rpuSlot >= 0 then LoadFixed(ready.st, b, accel, name, hw)
    else LoadLowest(ready.st, b, accel, name, hw)
  }

  lemma {:induction false} RpuAnswersReady(st: State, left: State, ready: Reply, b: nat, name: string, j: nat, hw: Hw)
    requires Inv(st) && b < |st.bases| && st.bases[b].ty == Rpu && IsLast(st.bases[b].accels, name, j)
    requires ready == PrepareRpu(st, b, st.bases[b].accels[j].parentPath) && Pointers(ready.st) && Untouched(left, ready.st)
    requires |left.bases| == |st.bases| && left.bases[b].accels == st.bases[b].accels && left.bases[b].ty == Rpu
    requires st.bases[b].accels[j].parentPath == "" || st.bases[b].accels[j].parentPath == st.bases[b].path
    ensures b < |ready.st.bases|
    ensures var accel := st.bases[b].accels[j];
      RpuAnswered(st, left, RpuReply(ready, b, accel, name, hw), b, name, accel, hw.slotLoads)
  {
    PreparedRpu(st, b, st.bases[b].accels[j].parentPath);
    if ready.rv == 0 {
      RpuSlotAnswers(left, ready.st, b, name, j, hw);
    }
  }

  lemma {:induction false} RpuSlotAnswers(st: State, mid: State, b: nat, name: string, j: nat, hw: Hw)
    requires Inv(mid) && Untouched(st, mid) && Ready(mid, b) && mid.bases[b].ty == Rpu && IsLast(mid.bases[b].accels, name, j)
    ensures var accel := mid.bases[b].accels[j];
      var r := if accel.rpuSlot >= 0 then LoadFixed(mid, b, accel, name, hw) else LoadLowest(mid, b, accel, name, hw);
      SameCurrent(mid, r.st) && Answers(st, r, b, name, RpuHasRoom(st.bases[b], accel), hw.slotLoads)
  {
    if mid.bases[b].accels[j].rpuSlot >= 0 {
      FixedAnswers(st, mid, b, name, j, hw);
    } else {
      LowestAnswers(st, mid, b, name, j, hw);
    }
  }

  /** What is current once way was made for an RPU base. */
  lemma {:induction false} PreparedRpu(st: State, b: nat, parentPath: string)
    requires Inv(st) && b < |st.bases| && st.bases[b].ty == Rpu && (parentPath == "" || parentPath == st.bases[b].path)
    ensures var r := PrepareRpu(st, b, parentPath);
      && r.st.active == st.active
      && if st.rpu.To? && st.bases[st.rpu.i].path != parentPath && st.bases[st.rpu.i].active > 0 then r == Reply(st, LOAD_ERROR)
         else r.rv == 0 && r.st.rpu == To(b) && Inv(r.st) && Ready(r.st, b)
  {
    PrepareRpuKeeps(st, b, parentPath);
    PrepareRpuStays(st, b, parentPath);
    if st.rpu.To? {
      ActiveIsCount(st, st.rpu.i);
    }
  }

  /** In a row without an accelerator of that name, and in one of no known type, nothing is loaded. */
  lemma UnknownIsRefused(st: State, b: nat, name: string, hw: Hw)
    requires Pointers(st) && b < |st.bases| && !FlatRow(st.bases[b])
    requires (st.bases[b].ty != PlDfx && st.bases[b].ty != Rpu)
          || forall j :: 0 <= j < |st.bases[b].accels| ==> st.bases[b].accels[j].name != name
    ensures LoadCore(st, b, name, hw) == Reply(st, LOAD_ERROR)
  {
  }

  /** What a name stands for: the base of that name, or that has an accelerator of that name. */
  predicate Means(b: Base, name: string) {
    b.path != "" && (b.name == name || exists j :: 0 <= j < |b.accels| && b.accels[j].name == name)
  }

  /** Row b is the first that the name means. */
  predicate FirstOf(bases: seq<Base>, name: string, b: nat)
    requires b < |bases|
  {
    Means(bases[b], name) && forall m :: 0 <= m < b ==> !Means(bases[m], name)
  }

  lemma {:induction false} FirstMeant(bases: seq<Base>, name: string, i: nat)
    requires i <= |bases|
    ensures var b := FindRow(bases, name, i);
      (forall m :: i <= m < b ==> !Means(bases[m], name)) && (b < |bases| ==> Means(bases[b], name))
    decreases |bases| - i
  {
    if i < |bases| && !RowNamed(bases[i], name) {
      FirstMeant(bases, name, i + 1);
    }
  }

  /** A load by name goes to the first row that it means; it finds no package exactly if there is none. */
  lemma LoadByName(st: State, name: string, hw: Hw)
    requires Inv(st)
    ensures Load(st, name, hw).rv == NO_PACKAGE_FOUND <==>
      forall m :: 0 <= m < |st.bases| ==> !Means(st.bases[m], name)
    ensures forall b: nat :: b < |st.bases| && FirstOf(st.bases, name, b) ==> Load(st, name, hw) == LoadCore(st, b, name, hw)
  {
    FirstMeant(st.bases, name, 0);
    var b := FindRow(st.bases, name, 0);
    if b < |st.bases| {
      CoreFindsPackage(st, b, name, hw);
    }
  }

  lemma CoreFindsPackage(st: State, b: nat, name: string, hw: Hw)
    requires Pointers(st) && b < |st.bases|
    ensures LoadCore(st, b, name, hw).rv != NO_PACKAGE_FOUND
  {
  }

  // ---------------------------------------------------------------- unloads

  /** What holds the handle is a user design. */
  predicate UserHolds(st: State, h: int) {
    exists i :: 0 <= i < |st.bases| && st.bases[i].isUser && st.bases[i].userHandle == h
  }

  /** What holds the handle is the user Full that is current on the PL, or the flat design that is. */
  predicate TakesPl(st: State, h: int)
    requires Pointers(st)
  {
    st.active.To? &&
    var b := st.bases[st.active.i];
    (b.isUser && b.userHandle == h) || (FlatRow(b) && SlotAt(b, 0).Loaded? && SlotAt(b, 0).handle == h)
  }

  /** An unload by handle: the code, and what is current then. A user design cannot fail to go; a slot answers what its removal
      came to. The PL is without a base exactly if it was that base which went. Once a user design went, list IDs are assigned
      anew. */
  lemma {:induction false} UnloadAnswers(st: State, h: int, hw: Hw)
    requires Inv(st) && h >= 0
    ensures var r := Unload(st, h, hw);
      && r.st.rpu == st.rpu
      && if h >= |st.used| || !st.used[h] || Refused(st, h) then r == Reply(st, -1)
         else
           && r.rv == (if UserHolds(st, h) then 0 else hw.removeRv)
           && r.st.active == (if TakesPl(st, h) then Null else st.active)
           && if UserHolds(st, h) then exists ids :: IdsFit(r.st.bases, ids) && r.st.ids == Stamped(r.st.bases, ids)
              else r.st.ids == st.ids
  {
    UnloadEffect(st, h, hw);
    if h < |st.used| && st.used[h] && !Refused(st, h) {
      assert Held(st.bases, h);
      var i: nat, k: int :| i < |st.bases| && -1 <= k < |st.bases[i].slots| && HandleAt(st.bases, i, k) == h;
      HolderIsFound(st, i, k, h);
      UserHandleAt(st.bases);
      if k == -1 {
        UserGoes(st, i, h, hw);
      } else {
        SlotGoes(st, i, k, h, hw);
      }
    }
  }

  lemma {:induction false} UserGoes(st: State, i: nat, h: int, hw: Hw)
    requires Inv(st) && h >= 0 && HandleAt(st.bases, i, -1) == h && UserRow(st.bases, h, 0) == i && !Refused(st, h)
    ensures var r := Unload(st, h, hw);
      && r.rv == 0 && r.st.rpu == st.rpu && r.st.active == (if TakesPl(st, h) then Null else st.active)
      && exists ids :: IdsFit(r.st.bases, ids) && r.st.ids == Stamped(r.st.bases, ids)
  {
    var gone := RemoveUser(st, i);
    assert IdsFit(gone.bases, gone.ids) && Unload(st, h, hw).st.ids == Stamped(gone.bases, gone.ids);
    if TakesPl(st, h) {
      var a := st.active.i;
      assert HandleAt(st.bases, a, if st.bases[a].isUser then -1 else 0) == h;
    }
  }

  lemma {:induction false} SlotGoes(st: State, i: nat, k: nat, h: int, hw: Hw)
    requires Inv(st) && h >= 0 && HandleAt(st.bases, i, k) == h && UserRow(st.bases, h, 0) == |st.bases|
    requires (st.rpu == To(i) || st.active == To(i)) && SlotWithHandle(st.bases[i], h, 0) == k
    requires st.rpu.To? && st.rpu != To(i) ==> SlotWithHandle(st.bases[st.rpu.i], h, 0) == -1
    ensures var r := Unload(st, h, hw);
      && r.rv == hw.removeRv && r.st.rpu == st.rpu && r.st.active == (if TakesPl(st, h) then Null else st.active)
      && r.st.ids == st.ids
    ensures !UserHolds(st, h)
  {
    if st.active.To? {
      var a := st.active.i;
      assert RowOk(st.bases[a]);
      assert TakesPl(st, h) ==> HandleAt(st.bases, a, 0) == h;
    }
    assert RowOk(st.bases[i]);
  }

  /** An unload of the base: it goes, with nothing in it, exactly if it is a PL_DFX base that counts nothing and can be removed;
      otherwise nothing changes. */
  lemma {:induction false} UnloadBaseAnswers(st: State, hw: Hw)
    requires Inv(st)
    ensures var r := UnloadBase(st, hw);
      if !st.active.To? || st.bases[st.active.i].ty != PlDfx || Busy(st) then r == Reply(st, -1)
      else if hw.removeRv != 0 then r == Reply(st, hw.removeRv)
      else r.rv == 0 && r.st.active == Null && r.st.rpu == st.rpu && Untouched(st, r.st)
    ensures Unload(st, -1, hw) == UnloadBase(st, hw) == UnloadById(st, 0, hw)
  {
    if st.active.To? {
      ActiveIsCount(st, st.active.i);
      if st.bases[st.active.i].ty == PlDfx && !Busy(st) {
        VacantWhenUncounted(st, st.active.i);
        LoadedCountZero(st.bases[st.active.i].slots, |st.bases[st.active.i].slots|, true);
        FreeUntouched(st, st.active.i);
      }
    }
  }

  // ---------------------------------------------------------------- unloads by name

  /** Something of that name is loaded at that position: a slot of a current row, or, at -1, a user design. */
  predicate NamedAt(st: State, name: string, i: nat, k: int) {
    && i < |st.bases|
    && if k == -1 then st.bases[i].isUser && st.bases[i].name == name
       else
         && k >= 0 && SlotAt(st.bases[i], k).Loaded? && SlotAt(st.bases[i], k).name == name
         && (st.rpu == To(i) || st.active == To(i))
  }

  /** Slots of the RPU come first, then user designs, then slots of the PL; among each, by place. */
  function Turn(st: State, i: nat, k: int): nat {
    if k == -1 then 1 else if st.rpu == To(i) then 0 else 2
  }

  predicate Before(st: State, i: nat, k: int, j: nat, m: int) {
    Turn(st, i, k) < Turn(st, j, m) || (Turn(st, i, k) == Turn(st, j, m) && if k == -1 then i < j else k < m)
  }

  ghost predicate FirstNamedAt(st: State, name: string, i: nat, k: int) {
    NamedAt(st, name, i, k) && forall j: nat, m: int :: NamedAt(st, name, j, m) ==> !Before(st, j, m, i, k)
  }

  /** The loaded slots of a row are among those that are searched. */
  lemma NamedInRow(st: State, name: string, i: nat)
    requires Inv(st) && i < |st.bases|
    ensures var k := SlotNamed(st.bases[i], name, 0);
      && (k != -1 ==> SlotAt(st.bases[i], k).Loaded? && SlotAt(st.bases[i], k).name == name)
      && forall m: nat :: SlotAt(st.bases[i], m).Loaded? && SlotAt(st.bases[i], m).name == name ==> 0 <= k <= m
  {
    assert RowOk(st.bases[i]);
  }

  lemma {:induction false} FirstUserNamed(bases: seq<Base>, name: string, i: nat)
    requires i <= |bases|
    ensures var u := UserNamed(bases, name, i);
      && (u < |bases| ==> bases[u].isUser && bases[u].name == name)
      && forall m :: i <= m < u ==> !(bases[m].isUser && bases[m].name == name)
    decreases |bases| - i
  {
    if i < |bases| && !(bases[i].isUser && bases[i].name == name) {
      FirstUserNamed(bases, name, i + 1);
    }
  }

  /** No slot of the RPU base has that name. */
  predicate NotOnRpu(st: State, name: string)
    requires Pointers(st)
  {
    st.rpu.To? ==> SlotNamed(st.bases[st.rpu.i], name, 0) == -1
  }

  predicate NotOnPl(st: State, name: string)
    requires Pointers(st)
  {
    st.active.To? ==> SlotNamed(st.bases[st.active.i], name, 0) == -1
  }

  lemma FirstOnRpu(st: State, name: string)
    requires Inv(st)
    ensures if NotOnRpu(st, name) then forall i: nat, k: nat :: NamedAt(st, name, i, k) ==> st.rpu != To(i)
            else FirstNamedAt(st, name, st.rpu.i, SlotNamed(st.bases[st.rpu.i], name, 0))
  {
    if st.rpu.To? {
      NamedInRow(st, name, st.rpu.i);
    }
  }

  lemma FirstIsUser(st: State, name: string)
    requires Inv(st) && NotOnRpu(st, name)
    ensures var u := UserNamed(st.bases, name, 0);
      if u == |st.bases| then forall i: nat :: !NamedAt(st, name, i, -1) else FirstNamedAt(st, name, u, -1)
  {
    FirstUserNamed(st.bases, name, 0);
    FirstOnRpu(st, name);
  }

  lemma FirstOnPl(st: State, name: string)
    requires Inv(st) && NotOnRpu(st, name) && UserNamed(st.bases, name, 0) == |st.bases|
    ensures if NotOnPl(st, name) then forall i: nat, k: int :: !NamedAt(st, name, i, k)
            else FirstNamedAt(st, name, st.active.i, SlotNamed(st.bases[st.active.i], name, 0))
  {
    FirstOnRpu(st, name);
    FirstIsUser(st, name);
    if st.active.To? {
      NamedInRow(st, name, st.active.i);
    }
  }

  /** The handle that a name stands for is that of the first thing of that name, in this order. */
  lemma {:induction false} FirstIsFound(st: State, name: string) returns (i: nat, k: int)
    requires Inv(st)
    ensures if FirstNamedAt(st, name, i, k) then FindHandleByName(st, name) == HandleAt(st.bases, i, k)
            else FindHandleByName(st, name) == -1 && forall j: nat, m: int :: !NamedAt(st, name, j, m)
  {
    i, k := 0, -1;
    FirstOnRpu(st, name);
    if !NotOnRpu(st, name) {
      i, k := st.rpu.i, SlotNamed(st.bases[st.rpu.i], name, 0);
    } else {
      FirstIsUser(st, name);
      if UserNamed(st.bases, name, 0) < |st.bases| {
        i := UserNamed(st.bases, name, 0);
      } else {
        FirstOnPl(st, name);
        if !NotOnPl(st, name) {
          i, k := st.active.i, SlotNamed(st.bases[st.active.i], name, 0);
        }
      }
    }
  }

  lemma OneIsFirst(st: State, name: string, i: nat, k: int, j: nat, m: int)
    requires FirstNamedAt(st, name, i, k) && FirstNamedAt(st, name, j, m)
    ensures i == j && k == m
  {
  }

  /** An unload by name releases the first thing of that name, unless that found no handle or is a Full with Partials on it; if
      nothing has the name it fails. */
  lemma {:induction false} UnloadByNameAnswers(st: State, name: string, hw: Hw)
    requires Inv(st)
    ensures (forall i: nat, k: int :: !NamedAt(st, name, i, k)) ==> UnloadByName(st, name, hw) == Reply(st, -1)
    ensures forall i: nat, k: int :: FirstNamedAt(st, name, i, k) ==>
      var h := HandleAt(st.bases, i, k);
      if h < 0 || Refused(st, h) then UnloadByName(st, name, hw) == Reply(st, -1)
      else UnloadByName(st, name, hw) == Unload(st, h, hw) && OnlyReleased(st, Unload(st, h, hw).st, h)
    ensures (exists i: nat, k: int :: NamedAt(st, name, i, k)) ==> exists i: nat, k: int :: FirstNamedAt(st, name, i, k)
  {
    var i, k := FirstIsFound(st, name);
    if FirstNamedAt(st, name, i, k) {
      forall j: nat, m: int | FirstNamedAt(st, name, j, m)
        ensures j == i && m == k
      {
        OneIsFirst(st, name, i, k, j, m);
      }
      var h := HandleAt(st.bases, i, k);
      if h >= 0 {
        UnloadEffect(st, h, hw);
      }
    }
  }
}
