/** The daemon's bookkeeping as it is written: tables and pointers updated in place, loops over rows, slots and
    handles. Each operation is proved to be the function of DaemonSpec on the former state. */
module Daemon {
  import opened DaemonSpec
  import opened DaemonInvariant
  import opened DaemonRuns

  const BLANK_IDS := Ids(seq(RP_SLOTS_MAX, _ => 0), 0)

  function StartState(catalogue: seq<Base>): State {
    State(catalogue, Null, Null, seq(SLOT_HANDLE_MAX, _ => false), seq(|catalogue|, _ => BLANK_IDS))
  }

  class Platform {
    const bases: array<Base>
    const handles: array<bool>
    const ids: array<Ids>
    var activeBase: Pointer
    var activeRpu: Pointer

    /** The tables at start-up: a catalogue of packages with nothing loaded. */
    constructor (catalogue: seq<Base>)
      requires Initial(StartState(catalogue))
      ensures Abs() == StartState(catalogue) && Valid()
      ensures fresh(bases) && fresh(handles) && fresh(ids)
    {
      bases := new Base[|catalogue|](i requires 0 <= i < |catalogue| => catalogue[i]);
      handles := new bool[SLOT_HANDLE_MAX](_ => false);
      ids := new Ids[|catalogue|](_ => BLANK_IDS);
      activeBase, activeRpu := Null, Null;
      new;
      assert Abs() == StartState(catalogue);
      InitialInv(Abs());
    }

    ghost function Abs(): (st: State)
      reads this, bases, handles, ids
    {
      State(bases[..], activeBase, activeRpu, handles[..], ids[..])
    }

    ghost predicate Valid()
      reads this, bases, handles, ids
    {
      Inv(Abs())
    }

    /** What each piece of an operation needs: pointers into the table, and slot arrays of full size. */
    ghost predicate Legal()
      reads this, bases, handles, ids
    {
      && Pointers(Abs())
      && forall i :: 0 <= i < bases.Length ==> SlotsOk(bases[i])
    }

    lemma ValidIsLegal()
      requires Valid()
      ensures Legal() && IdsFit(bases[..], ids[..])
    {
      forall i | 0 <= i < bases.Length
        ensures SlotsOk(bases[i])
      {
        assert RowOk(Abs().bases[i]);
      }
      assert forall i :: 0 <= i < bases.Length ==> RowOk(Abs().bases[i]);
    }

    // -------------------------------------------------------------- pieces

    /** `get_free_slot_handle`. */
    method GetFreeSlotHandle() returns (h: int)
      modifies handles
      ensures h == FirstFree(old(handles[..]), 0)
      ensures handles[..] == Taken(old(handles[..]), h)
    {
      var index := 0;
      while index < handles.Length
        invariant 0 <= index <= handles.Length
        invariant handles[..] == old(handles[..])
        invariant FirstFree(handles[..], index) == FirstFree(handles[..], 0)
      {
        if !handles[index] {
          handles[index] := true;
          return index;
        }
        index := index + 1;
      }
      h := -1;
    }

    /** `alloc_base_slots`. */
    method AllocBaseSlots(b: nat)
      requires b < bases.Length
      modifies bases
      ensures bases[..] == old(bases[..])[b := Allocated(old(bases[b]))]
    {
      if bases[b].slots == [] {
        var cap := if bases[b].numPl > RP_SLOTS_MAX then bases[b].numPl else RP_SLOTS_MAX;
        bases[b] := bases[b].(slots := seq(cap + bases[b].numAie, _ => Empty));
      }
    }

    /** `is_base_externally_managed`. */
    method IsBaseExternallyManaged() returns (r: bool)
      ensures r <==> ExternallyManaged(Abs())
    {
      if activeBase != Null {
        return false;
      }
      var i := 0;
      while i < bases.Length
        invariant 0 <= i <= bases.Length
        invariant forall k :: 0 <= k < i ==> !IsPartial(bases[k])
      {
        if bases[i].isUser && bases[i].userPartial {
          assert IsPartial(Abs().bases[i]);
          return true;
        }
        i := i + 1;
      }
      r := false;
    }

    /** `assign_slot`, and the same steps in `finalize_rpu_slot_setup`: the slot is set, then gets its handle. */
    method AssignSlot(b: nat, i: nat, name: string) returns (h: int)
      requires b < bases.Length && i < |bases[b].slots|
      modifies bases, handles
      ensures h == FirstFree(old(handles[..]), 0) && handles[..] == Taken(old(handles[..]), h)
      ensures bases[..] == old(bases[..])[b := old(bases[b]).(slots := old(bases[b]).slots[i := Loaded(name, h)])]
    {
      bases[b] := bases[b].(slots := bases[b].slots[i := Loaded(name, -1)]);
      h := GetFreeSlotHandle();
      bases[b] := bases[b].(slots := bases[b].slots[i := Loaded(name, h)]);
      assert bases[b].slots == old(bases[b]).slots[i := Loaded(name, h)];
    }

    /** `find_slot_from_handle`. */
    method FindSlotFromHandle(b: nat, h: int) returns (slot: int)
      requires b < bases.Length && SlotsOk(bases[b])
      requires bases[b].slots == [] ==> NumSlots(bases[b]) == 0
      ensures slot == SlotWithHandle(bases[b], h, 0)
    {
      var i := 0;
      while i < bases[b].numPl + bases[b].numAie
        invariant 0 <= i <= NumSlots(bases[b])
        invariant SlotWithHandle(bases[b], h, i) == SlotWithHandle(bases[b], h, 0)
      {
        if bases[b].slots[i].Loaded? {
          if h == bases[b].slots[i].handle {
            return i;
          }
        }
        i := i + 1;
      }
      slot := -1;
    }

    /** The search for an accelerator's entry in its base; the last of that name wins. */
    method FindAccel(b: nat, name: string) returns (j: int)
      requires b < bases.Length
      ensures j == LastNamed(bases[b].accels, name, |bases[b].accels|)
    {
      j := -1;
      var i := 0;
      while i < |bases[b].accels|
        invariant 0 <= i <= |bases[b].accels|
        invariant j == LastNamed(bases[b].accels, name, i)
      {
        if bases[b].accels[i].name == name {
          j := i;
        }
        i := i + 1;
      }
    }

    // -------------------------------------------------------------- loading

    method LoadFlatDesign(b: nat, name: string, hw: Hw) returns (rv: int)
      requires Legal() && b < bases.Length && IsFlat(bases[b])
      modifies this`activeBase, bases, handles
      ensures Pointers(old(Abs())) && Reply(Abs(), rv) == LoadFlat(old(Abs()), b, name, hw)
    {
      AllocBaseSlots(b);
      if activeBase != Null && bases[activeBase.i].active > 0 {
        return NO_EMPTY_SLOT;
      }
      if !hw.baseLoads {
        bases[b] := bases[b].(active := 0);
        return LOAD_ERROR;
      }
      activeBase := To(b);
      bases[b] := bases[b].(active := bases[b].active + 1);
      rv := AssignSlot(b, 0, name);
      assert bases[..] == LoadFlat(old(Abs()), b, name, hw).st.bases;
    }

    method PreparePlBase(b: nat, parentPath: string, hw: Hw) returns (rv: int)
      requires Legal() && b < bases.Length
      modifies this`activeBase, bases
      ensures Pointers(old(Abs())) && Reply(Abs(), rv) == PreparePl(old(Abs()), b, parentPath, hw)
    {
      if activeBase != Null && bases[activeBase.i].active == 0 && bases[activeBase.i].path != parentPath {
        bases[activeBase.i] := bases[activeBase.i].(slots := []);
        activeBase := Null;
      } else if activeBase != Null && bases[activeBase.i].active > 0 && bases[activeBase.i].path != parentPath {
        return LOAD_ERROR;
      }
      if activeBase == Null {
        if bases[b].loadBase && !hw.baseLoads {
          bases[b] := bases[b].(active := 0);
          return LOAD_ERROR;
        }
        AllocBaseSlots(b);
        activeBase := To(b);
      }
      rv := 0;
    }

    method PrepareRpuBase(b: nat, parentPath: string) returns (rv: int)
      requires Legal() && b < bases.Length
      modifies this`activeRpu, bases
      ensures Pointers(old(Abs())) && Reply(Abs(), rv) == PrepareRpu(old(Abs()), b, parentPath)
    {
      if activeRpu != Null && bases[activeRpu.i].active == 0 && bases[activeRpu.i].path != parentPath {
        bases[activeRpu.i] := bases[activeRpu.i].(slots := []);
        activeRpu := Null;
      } else if activeRpu != Null && bases[activeRpu.i].active > 0 && bases[activeRpu.i].path != parentPath {
        return LOAD_ERROR;
      }
      if activeRpu == Null {
        AllocBaseSlots(b);
        activeRpu := To(b);
      }
      rv := 0;
    }

    /** `validate_rpu_slot_availability`. */
    method ValidateRpuSlot(b: nat, slot: nat) returns (rv: int)
      requires b < bases.Length && SlotsOk(bases[b]) && bases[b].slots != []
      ensures rv == if slot >= bases[b].numPl || SlotAt(bases[b], slot) != Empty then NO_EMPTY_SLOT else 0
    {
      if slot >= bases[b].numPl {
        return NO_EMPTY_SLOT;
      }
      if bases[b].slots[slot] != Empty {
        return NO_EMPTY_SLOT;
      }
      rv := 0;
    }

    /** The count goes to the base that is current, not to the one that was asked for. */
    method AssignRpuSlot(b: nat, i: nat, name: string) returns (rv: int)
      requires b < bases.Length && i < |bases[b].slots| && activeRpu == To(b) && bases[b].ty == Rpu
      modifies bases, handles
      ensures Reply(Abs(), rv) == FillSlot(old(Abs()), b, i, name)
    {
      rv := AssignSlot(b, i, name);
      if rv >= 0 {
        bases[activeRpu.i] := bases[activeRpu.i].(active := bases[activeRpu.i].active + 1);
      }
      assert bases[..] == FillSlot(old(Abs()), b, i, name).st.bases;
    }

    method AssignPlSlot(b: nat, i: nat, name: string) returns (rv: int)
      requires b < bases.Length && i < |bases[b].slots| && activeBase == To(b) && bases[b].ty != Rpu
      modifies bases, handles
      ensures Reply(Abs(), rv) == FillSlot(old(Abs()), b, i, name)
    {
      bases[activeBase.i] := bases[activeBase.i].(active := bases[activeBase.i].active + 1);
      rv := AssignSlot(b, i, name);
      assert bases[..] == FillSlot(old(Abs()), b, i, name).st.bases;
    }

    /** The search for an empty slot with a directory, and the load into the first one found. */
    method LoadFirstSlot(b: nat, accel: Accel, name: string, hw: Hw) returns (rv: int)
      requires Legal() && Ready(Abs(), b)
      modifies bases, handles
      ensures Pointers(old(Abs())) && Reply(Abs(), rv) == LoadLowest(old(Abs()), b, accel, name, hw)
    {
      var i := 0;
      while i < bases[b].numPl + bases[b].numAie
        invariant 0 <= i <= NumSlots(bases[b])
        invariant Abs() == old(Abs())
        invariant FreeSlotFrom(bases[b], accel.slotDirs, i) == FreeSlotFrom(bases[b], accel.slotDirs, 0)
      {
        if bases[b].slots[i] == Empty && i in accel.slotDirs {
          if bases[b].ty == Rpu {
            if !hw.slotLoads {
              return LOAD_ERROR;
            }
            rv := AssignRpuSlot(b, i, name);
            return;
          } else {
            if accel.isAie {
              return LOAD_ERROR;
            }
            if !hw.slotLoads {
              return LOAD_ERROR;
            }
            rv := AssignPlSlot(b, i, name);
            return;
          }
        }
        i := i + 1;
      }
      rv := NO_EMPTY_SLOT;
    }

    method LoadFixedSlot(b: nat, accel: Accel, name: string, hw: Hw) returns (rv: int)
      requires Legal() && Ready(Abs(), b) && bases[b].ty == Rpu && accel.rpuSlot >= 0
      modifies bases, handles
      ensures Pointers(old(Abs())) && Reply(Abs(), rv) == LoadFixed(old(Abs()), b, accel, name, hw)
    {
      rv := ValidateRpuSlot(b, accel.rpuSlot);
      if rv < 0 {
        return;
      }
      if !hw.slotLoads {
        return LOAD_ERROR;
      }
      rv := AssignRpuSlot(b, accel.rpuSlot, name);
    }

    /** The slotted part of `load_accelerator_core`, once the accelerator's entry is found. */
    method LoadSlotted(b: nat, j: nat, name: string, hw: Hw) returns (rv: int)
      requires Valid() && b < bases.Length && j < |bases[b].accels|
      requires bases[b].ty == PlDfx || bases[b].ty == Rpu
      requires bases[b].ty == PlDfx ==> !ExternallyManaged(Abs())
      modifies this, bases, handles
      ensures var st, accel := old(Abs()), old(bases[b].accels[j]);
        Pointers(st) &&
        var ready := if st.bases[b].ty == PlDfx then PreparePl(st, b, accel.parentPath, hw)
                     else PrepareRpu(st, b, accel.parentPath);
        Reply(Abs(), rv) ==
          if ready.rv != 0 then ready
          else if st.bases[b].ty == Rpu && accel.rpuSlot >= 0 then LoadFixed(ready.st, b, accel, name, hw)
          else LoadLowest(ready.st, b, accel, name, hw)
    {
      ValidIsLegal();
      ghost var st := Abs();
      var accel := bases[b].accels[j];
      assert RowOk(st.bases[b]) && ParentOk(accel, bases[b].path);
      if bases[b].ty == PlDfx {
        PreparePlKeeps(st, b, accel.parentPath, hw);
        rv := PreparePlBase(b, accel.parentPath, hw);
      } else {
        PrepareRpuKeeps(st, b, accel.parentPath);
        rv := PrepareRpuBase(b, accel.parentPath);
      }
      if rv != 0 {
        return;
      }
      ValidIsLegal();
      if bases[b].ty == Rpu && accel.rpuSlot >= 0 {
        rv := LoadFixedSlot(b, accel, name, hw);
      } else {
        rv := LoadFirstSlot(b, accel, name, hw);
      }
    }

    /** `load_accelerator_core`. */
    method LoadAcceleratorCore(b: nat, name: string, hw: Hw) returns (rv: int)
      requires Valid() && b < bases.Length
      modifies this, bases, handles
      ensures Valid() && Pointers(old(Abs())) && Reply(Abs(), rv) == LoadCore(old(Abs()), b, name, hw)
    {
      LoadCoreKeeps(Abs(), b, name, hw);
      var managed := IsBaseExternallyManaged();
      if managed && bases[b].ty != Rpu {
        return LOAD_ERROR;
      }
      if bases[b].ty == XrtFlat || bases[b].ty == PlFlat {
        ValidIsLegal();
        rv := LoadFlatDesign(b, name, hw);
        return;
      }
      var j := FindAccel(b, name);
      if j == -1 {
        return LOAD_ERROR;
      }
      if bases[b].ty == PlDfx || bases[b].ty == Rpu {
        rv := LoadSlotted(b, j, name, hw);
      } else {
        rv := LOAD_ERROR;
      }
    }

    /** `findBaseDesign`; the length of the table stands for NULL. */
    method FindBaseDesign(name: string) returns (b: nat)
      ensures b == FindRow(bases[..], name, 0)
    {
      b := 0;
      while b < bases.Length
        invariant b <= bases.Length
        invariant FindRow(bases[..], name, b) == FindRow(bases[..], name, 0)
      {
        if bases[b].path != "" {
          if bases[b].name == name {
            assert RowNamed(bases[..][b], name);
            return;
          }
          var j := 0;
          while j < |bases[b].accels|
            invariant 0 <= j <= |bases[b].accels|
            invariant forall k :: 0 <= k < j ==> bases[b].accels[k].name != name
          {
            if bases[b].accels[j].name == name {
              assert RowNamed(bases[..][b], name);
              return;
            }
            j := j + 1;
          }
        }
        b := b + 1;
      }
    }

    /** `load_accelerator`. */
    method LoadAccelerator(name: string, hw: Hw) returns (rv: int)
      requires Valid()
      modifies this, bases, handles
      ensures Valid() && Pointers(old(Abs())) && Reply(Abs(), rv) == Load(old(Abs()), name, hw)
    {
      var b := FindBaseDesign(name);
      if b == bases.Length {
        return NO_PACKAGE_FOUND;
      }
      rv := LoadAcceleratorCore(b, name, hw);
    }

    // -------------------------------------------------------------- unloading

    /** `unload_accel_base`. */
    method UnloadAccelBase(hw: Hw) returns (rv: int)
      requires Valid()
      modifies this, bases
      ensures Valid() && Pointers(old(Abs())) && Reply(Abs(), rv) == UnloadBase(old(Abs()), hw)
    {
      UnloadBaseKeeps(Abs(), hw);
      rv := -1;
      if activeBase != Null && bases[activeBase.i].ty == PlDfx && bases[activeBase.i].active == 0 {
        rv := hw.removeRv;
        if rv == 0 {
          bases[activeBase.i] := bases[activeBase.i].(slots := []);
          activeBase := Null;
        }
      }
    }

    /** The row of a user design with this handle; the length of the table if there is none. */
    method FindUserRow(h: int) returns (u: nat)
      ensures u == UserRow(bases[..], h, 0)
    {
      u := 0;
      while u < bases.Length
        invariant u <= bases.Length
        invariant UserRow(bases[..], h, u) == UserRow(bases[..], h, 0)
      {
        if bases[u].isUser && bases[u].userHandle == h {
          return;
        }
        u := u + 1;
      }
    }

    /** The updates at the end of `user_unload`. */
    method ClearUserRow(u: nat)
      requires Pointers(Abs()) && u < bases.Length && bases[u].isUser && 0 <= bases[u].userHandle < handles.Length
      requires IdsFit(bases[..], ids[..])
      modifies this, bases, handles, ids
      ensures Pointers(old(Abs())) && Abs() == RemoveUser(old(Abs()), u)
      ensures IdsFit(bases[..], ids[..])
    {
      var h := bases[u].userHandle;
      if bases[u].userPartial {
        if activeBase != Null {
          bases[activeBase.i] := bases[activeBase.i].(active := bases[activeBase.i].active - 1);
        }
      } else if activeBase == To(u) {
        activeBase := Null;
      }
      bases[u] := bases[u].(name := "", path := "", isUser := false, userHandle := -1);
      ids[u] := ids[u].(row := 0);
      handles[h] := false;
    }

    /** `user_unload`. A design that found no handle cannot be unloaded by -1: a flag outside the table would be cleared. */
    method UserUnloadByHandle(h: int) returns (rv: int)
      requires Valid() && (h == -1 ==> UserRow(bases[..], h, 0) == bases.Length)
      modifies this, bases, handles, ids
      ensures Valid() && Pointers(old(Abs())) && Reply(Abs(), rv) == UserUnload(old(Abs()), h)
    {
      UserUnloadKeeps(Abs(), h);
      ValidIsLegal();
      var u := FindUserRow(h);
      if u == bases.Length {
        return -1;
      }
      if !bases[u].userPartial && activeBase == To(u) && bases[u].active > 0 {
        return -1;
      }
      UserHandleIsLegal(u);
      rv := RemoveUserRow(u);
    }

    method RemoveUserRow(u: nat) returns (rv: int)
      requires Pointers(Abs()) && u < bases.Length && bases[u].isUser && 0 <= bases[u].userHandle < handles.Length
      requires IdsFit(bases[..], ids[..])
      modifies this, bases, handles, ids
      ensures Pointers(old(Abs())) && Reply(Abs(), rv) == Reply(WithIds(RemoveUser(old(Abs()), u)), 0)
    {
      ClearUserRow(u);
      AssignListIds();
      rv := 0;
    }

    lemma UserHandleIsLegal(u: nat)
      requires Valid() && u < bases.Length && bases[u].isUser && bases[u].userHandle >= 0
      ensures bases[u].userHandle < handles.Length
    {
      assert HandleAt(Abs().bases, u, -1) == bases[u].userHandle;
    }

    /** `unload_accelerator`. */
    method UnloadAccelerator(h: int, hw: Hw) returns (rv: int)
      requires Valid()
      modifies this, bases, handles, ids
      ensures Valid() && Pointers(old(Abs())) && Reply(Abs(), rv) == Unload(old(Abs()), h, hw)
    {
      UnloadKeeps(Abs(), h, hw);
      if h == -1 {
        rv := UnloadAccelBase(hw);
        return;
      }
      var u := FindUserRow(h);
      if u < bases.Length {
        assert RowOk(Abs().bases[u]);
        rv := UserUnloadByHandle(h);
        return;
      }
      if (activeBase == Null && activeRpu == Null) || h < 0 {
        return -1;
      }
      rv := UnloadFromSlots(h, hw);
    }

    /** A slot is emptied, its handle given back, and its base counts one less. */
    method ReleaseSlot(b: nat, i: nat, h: nat)
      requires b < bases.Length && i < |bases[b].slots| && h < handles.Length
      modifies bases, handles
      ensures Abs() == EmptySlot(old(Abs()), b, i, h)
    {
      handles[h] := false;
      bases[b] := bases[b].(slots := bases[b].slots[i := Empty]);
      bases[b] := bases[b].(active := bases[b].active - 1);
      assert bases[..] == EmptySlot(old(Abs()), b, i, h).bases;
    }

    /** The slots of the current RPU base are searched first, then those of the current PL base. */
    method UnloadFromSlots(h: nat, hw: Hw) returns (rv: int)
      requires Valid() && UserRow(bases[..], h, 0) == bases.Length
      modifies this, bases, handles
      ensures Pointers(old(Abs())) && Reply(Abs(), rv) == Unload(old(Abs()), h, hw)
    {
      ghost var st := Abs();
      ValidIsLegal();
      rv := -1;
      if activeRpu != Null {
        var slot := FindSlotFromHandle(activeRpu.i, h);
        if slot != -1 {
          SlotIsLegal(activeRpu.i, slot, h);
          ReleaseSlot(activeRpu.i, slot, h);
          return hw.removeRv;
        }
      }
      if activeBase != Null {
        assert RowOk(st.bases[activeBase.i]);
        var slot := FindSlotFromHandle(activeBase.i, h);
        if slot != -1 {
          SlotIsLegal(activeBase.i, slot, h);
          ReleaseSlot(activeBase.i, slot, h);
          if bases[activeBase.i].ty == XrtFlat || bases[activeBase.i].ty == PlFlat {
            activeBase := Null;
          }
          return hw.removeRv;
        }
      }
    }

    lemma SlotIsLegal(b: nat, slot: nat, h: nat)
      requires Valid() && b < bases.Length && SlotAt(bases[b], slot).Loaded? && SlotAt(bases[b], slot).handle == h
      ensures slot < |bases[b].slots| && h < handles.Length
    {
      assert HandleAt(Abs().bases, b, slot) == h;
    }

    // -------------------------------------------------------------- user designs

    /** `user_load`. */
    method UserLoadDesign(ask: UserRequest, hw: Hw) returns (rv: int)
      requires Valid()
      modifies this, bases, handles, ids
      ensures Valid() && Pointers(old(Abs())) && Reply(Abs(), rv) == UserLoad(old(Abs()), ask, hw)
    {
      UserLoadKeeps(Abs(), ask, hw);
      ValidIsLegal();
      if ask.secureRefused {
        return SECURE_PLATFORM_ERROR;
      }
      if activeBase != Null {
        if bases[activeBase.i].isUser {
          if !ask.partial {
            return -1;
          } else if bases[activeBase.i].active >= MAX_WATCH {
            return -1;
          }
        }
        if bases[activeBase.i].ty == XrtFlat || bases[activeBase.i].ty == PlFlat {
          return -1;
        }
        if bases[activeBase.i].ty == PlDfx {
          if bases[activeBase.i].active > 0 {
            return -1;
          } else {
            bases[activeBase.i] := bases[activeBase.i].(slots := []);
            activeBase := Null;
          }
        }
      }
      assert Abs() == ClearForUser(old(Abs()));
      rv := LoadCleared(ask, hw);
    }

    /** The rest of `user_load`. */
    method LoadCleared(ask: UserRequest, hw: Hw) returns (rv: int)
      requires Pointers(Abs()) && IdsFit(bases[..], ids[..])
      modifies this, bases, handles, ids
      ensures var st1 := old(Abs());
        Pointers(st1) && Reply(Abs(), rv) ==
          if ask.partial && st1.active == Null && !ask.force then Reply(st1, -1)
          else if !ask.partial && ExternallyManaged(st1) then Reply(st1, -1)
          else if !ask.argumentsOk then Reply(st1, -1)
          else if hw.bitstreamRv != 0 then Reply(st1, hw.bitstreamRv)
          else
            var u := BlankRow(st1.bases, 0);
            if u == |st1.bases| then Reply(st1, -1)
            else
              var added := AddUser(st1, u, ask.file, ask.partial);
              Reply(WithIds(added.st), added.rv)
    {
      if ask.partial {
        if activeBase == Null && !ask.force {
          return -1;
        }
      } else {
        var managed := IsBaseExternallyManaged();
        if managed {
          return -1;
        }
      }
      if !ask.argumentsOk {
        return -1;
      }
      rv := hw.bitstreamRv;
      if rv == 0 {
        var u := 0;
        while u < bases.Length && bases[u].path != ""
          invariant u <= bases.Length
          invariant BlankRow(bases[..], u) == BlankRow(bases[..], 0)
        {
          u := u + 1;
        }
        if u == bases.Length {
          rv := -1;
        } else {
          rv := EnterUserRow(u, ask.file, ask.partial);
          AssignListIds();
        }
      }
    }

    /** The row of a new user design is written, and counted or made current. */
    method EnterUserRow(u: nat, file: string, partial: bool) returns (h: int)
      requires Pointers(Abs()) && u < bases.Length
      modifies this, bases, handles
      ensures Pointers(old(Abs())) && Reply(Abs(), h) == AddUser(old(Abs()), u, file, partial)
    {
      bases[u] := bases[u].(name := file, path := "User", active := 0, isUser := true, userPartial := partial);
      h := GetFreeSlotHandle();
      bases[u] := bases[u].(userHandle := h);
      if !bases[u].userPartial {
        activeBase := To(u);
      } else if activeBase != Null {
        bases[activeBase.i] := bases[activeBase.i].(active := bases[activeBase.i].active + 1);
      }
      assert bases[..] == AddUser(old(Abs()), u, file, partial).st.bases;
    }

    // -------------------------------------------------------------- list IDs

    /** The stamps of one row; returns the next ID. */
    method StampOneRow(i: nat, first: int) returns (id: int)
      requires i < bases.Length && i < ids.Length && |ids[i].accels| == |bases[i].accels|
      requires first == ListedBefore(bases[..], i) + 1
      modifies ids
      ensures ids[..] == old(ids[..])[i := StampRow(bases[..], i, old(ids[i]))]
      ensures id == ListedBefore(bases[..], i + 1) + 1
    {
      id := first;
      ghost var former := ids[i];
      ghost var b := bases[i];
      if bases[i].path != "" && bases[i].numPl > 0 {
        var j := 0;
        while j < |bases[i].accels|
          invariant 0 <= j <= |b.accels| == |ids[i].accels|
          invariant id == first + ListedAccels(b, j)
          invariant ids[i].row == former.row
          invariant forall k :: 0 <= k < j ==>
            ids[i].accels[k] == if AccelListed(b, k) then first + ListedAccels(b, k) else former.accels[k]
          invariant forall k :: j <= k < |b.accels| ==> ids[i].accels[k] == former.accels[k]
          invariant ids[..] == old(ids[..])[i := ids[i]]
        {
          if bases[i].accels[j].path != "" {
            ids[i] := ids[i].(accels := ids[i].accels[j := id]);
            id := id + 1;
          }
          j := j + 1;
        }
      } else {
        NoneListed(b, |b.accels|);
      }
      assert ids[i].accels == StampRow(bases[..], i, former).accels;
      if bases[i].isUser {
        ids[i] := ids[i].(row := id);
        id := id + 1;
      }
      assert ids[i] == StampRow(bases[..], i, former);
    }

    /** `assign_list_ids`. */
    method AssignListIds()
      requires IdsFit(bases[..], ids[..])
      modifies ids
      ensures ids[..] == Stamped(bases[..], old(ids[..]))
    {
      var id := 1;
      var i := 0;
      ghost var former := ids[..];
      while i < bases.Length
        invariant 0 <= i <= bases.Length == ids.Length
        invariant id == ListedBefore(bases[..], i) + 1
        invariant forall k :: 0 <= k < i ==> ids[k] == StampRow(bases[..], k, former[k])
        invariant forall k :: i <= k < ids.Length ==> ids[k] == former[k]
      {
        id := StampOneRow(i, id);
        i := i + 1;
      }
    }

    /** `find_accel_by_list_id`, but for the handle, which `HandleOfEntry` looks up. */
    method FindAccelByListId(id: int) returns (e: Entry)
      requires IdsFit(bases[..], ids[..])
      ensures e == FindId(bases[..], ids[..], id, 0)
    {
      var i := 0;
      while i < bases.Length
        invariant 0 <= i <= bases.Length
        invariant FindId(bases[..], ids[..], id, i) == FindId(bases[..], ids[..], id, 0)
      {
        var j := FindIdInRow(i, id);
        if j < |bases[i].accels| {
          return PackageEntry(i, j);
        }
        if bases[i].isUser && ids[i].row == id {
          return UserEntry(i);
        }
        i := i + 1;
      }
      e := NoEntry;
    }

    method FindIdInRow(i: nat, id: int) returns (j: nat)
      requires i < bases.Length && i < ids.Length && |ids[i].accels| == |bases[i].accels|
      ensures j == FindInRow(bases[i], ids[i], id, 0)
    {
      j := 0;
      if bases[i].path != "" && bases[i].numPl > 0 {
        while j < |bases[i].accels|
          invariant j <= |bases[i].accels|
          invariant FindInRow(bases[i], ids[i], id, j) == FindInRow(bases[i], ids[i], id, 0)
        {
          if bases[i].accels[j].path != "" && ids[i].accels[j] == id {
            return;
          }
          j := j + 1;
        }
      } else {
        j := |bases[i].accels|;
        NotInUnlisted(bases[i], ids[i], id, 0);
      }
    }

    /** The handle of the lowest slot of a base that holds this name; -1 if there is none, or no slots. */
    method HandleOfEntry(b: nat, name: string) returns (h: int)
      requires b < bases.Length && SlotsOk(bases[b])
      ensures h == HandleNamed(bases[b], name)
    {
      var k := FindSlotByName(b, name);
      h := if k == -1 then -1 else bases[b].slots[k].handle;
    }

    method FindSlotByName(b: nat, name: string) returns (k: int)
      requires b < bases.Length && SlotsOk(bases[b])
      ensures k == SlotNamed(bases[b], name, 0)
    {
      if bases[b].slots == [] {
        NoSlotNamed(bases[b], name, 0);
        return -1;
      }
      var i := 0;
      while i < bases[b].numPl + bases[b].numAie
        invariant 0 <= i <= NumSlots(bases[b])
        invariant SlotNamed(bases[b], name, i) == SlotNamed(bases[b], name, 0)
      {
        if bases[b].slots[i].Loaded? && bases[b].slots[i].name == name {
          return i;
        }
        i := i + 1;
      }
      k := -1;
    }

    /** `load_accelerator_by_id`. */
    method LoadAcceleratorById(id: int, hw: Hw) returns (rv: int)
      requires Valid()
      modifies this, bases, handles
      ensures Valid() && Pointers(old(Abs())) && Reply(Abs(), rv) == LoadById(old(Abs()), id, hw)
    {
      ValidIsLegal();
      var e := FindAccelByListId(id);
      match e
      case NoEntry => rv := NO_PACKAGE_FOUND;
      case UserEntry(_) => rv := LOAD_ERROR;
      case PackageEntry(b, j) => rv := LoadAcceleratorCore(b, bases[b].accels[j].name, hw);
    }

    /** `unload_accelerator_by_id`. */
    method UnloadAcceleratorById(id: int, hw: Hw) returns (rv: int)
      requires Valid()
      modifies this, bases, handles, ids
      ensures Valid() && Pointers(old(Abs())) && Reply(Abs(), rv) == UnloadById(old(Abs()), id, hw)
    {
      ValidIsLegal();
      if id == 0 {
        rv := UnloadAccelBase(hw);
        return;
      }
      var e := FindAccelByListId(id);
      var h := -1;
      match e {
        case NoEntry =>
        case UserEntry(u) => h := bases[u].userHandle;
        case PackageEntry(b, j) => h := HandleOfEntry(b, bases[b].accels[j].name);
      }
      if h < 0 {
        return -1;
      }
      rv := UnloadAccelerator(h, hw);
    }

    /** `find_slot_handle_by_name`. */
    method FindSlotHandleByName(name: string) returns (h: int)
      requires Valid()
      ensures Pointers(Abs()) && h == FindHandleByName(Abs(), name)
    {
      ValidIsLegal();
      if activeRpu != Null {
        var k := FindSlotByName(activeRpu.i, name);
        if k != -1 {
          return bases[activeRpu.i].slots[k].handle;
        }
      }
      var u := 0;
      while u < bases.Length
        invariant 0 <= u <= bases.Length
        invariant UserNamed(bases[..], name, u) == UserNamed(bases[..], name, 0)
      {
        if bases[u].isUser && bases[u].name == name {
          return bases[u].userHandle;
        }
        u := u + 1;
      }
      if activeBase != Null {
        h := HandleOfEntry(activeBase.i, name);
      } else {
        h := -1;
      }
    }

    /** `unload_accelerator_by_name`. */
    method UnloadAcceleratorByName(name: string, hw: Hw) returns (rv: int)
      requires Valid()
      modifies this, bases, handles, ids
      ensures Valid() && Pointers(old(Abs())) && Reply(Abs(), rv) == UnloadByName(old(Abs()), name, hw)
    {
      var h := FindSlotHandleByName(name);
      if h >= 0 {
        rv := UnloadAccelerator(h, hw);
      } else {
        rv := -1;
      }
    }
  }

  const BLANK_BASE := Base("", "", OtherType, 0, 0, false,
                           seq(RP_SLOTS_MAX, _ => Accel("", "", "", false, 0, {})), 0, [], false, false, 0)

  /** A table without packages is one to start from. */
  lemma EmptyCatalogue()
    ensures Initial(StartState(seq(MAX_WATCH, _ => BLANK_BASE)))
  {
    assert RowOk(BLANK_BASE);
  }

  lemma {:induction false} NoneListed(b: Base, j: nat)
    requires !RowListed(b)
    ensures ListedAccels(b, j) == 0
  {
    if j > 0 {
      NoneListed(b, j - 1);
    }
  }

  lemma {:induction false} NotInUnlisted(b: Base, ids: Ids, id: int, j: nat)
    requires !RowListed(b) && j <= |b.accels|
    ensures FindInRow(b, ids, id, j) == |b.accels|
    decreases |b.accels| - j
  {
    if j < |b.accels| {
      NotInUnlisted(b, ids, id, j + 1);
    }
  }

  lemma {:induction false} NoSlotNamed(b: Base, name: string, i: nat)
    requires b.slots == []
    ensures SlotNamed(b, name, i) == -1
    decreases NumSlots(b) - i
  {
    if i < NumSlots(b) {
      NoSlotNamed(b, name, i + 1);
    }
  }
}
