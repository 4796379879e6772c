/** The slot, handle and base bookkeeping of the daemon, as functions from state to state.

    A state is the table `base_designs[]` with the platform record: which base is current on the PL and on the RPUs,
    and which slot handles are taken. What the hardware and the file system answer is a parameter of each operation. */
module DaemonSpec {

  const MAX_WATCH := 500
  const RP_SLOTS_MAX := 10
  const SLOT_HANDLE_MAX := 30

  const LOAD_ERROR := -1
  const NO_PACKAGE_FOUND := -2
  const NO_EMPTY_SLOT := -3
  const SECURE_PLATFORM_ERROR := -4

  /** The strings PL_DFX, RPU, XRT_FLAT and PL_FLAT, and any other. */
  datatype BaseType = PlDfx | Rpu | XrtFlat | PlFlat | OtherType

  /** `slotDirs` are the slots for which the accelerator has a directory; `rpuSlot` is -1 in the old layout. */
  datatype Accel = Accel(name: string, path: string, parentPath: string, isAie: bool, rpuSlot: int, slotDirs: set<nat>)

  /** An element of `slots[]`: NULL, or a loaded accelerator with its handle. */
  datatype SlotPtr = Empty | Loaded(name: string, handle: int)

  /** A row of `base_designs[]`; `slots` is [] where the pointer is NULL. */
  datatype Base = Base(
    name: string, path: string, ty: BaseType, numPl: nat, numAie: nat, loadBase: bool, accels: seq<Accel>,
    active: int, slots: seq<SlotPtr>,
    isUser: bool, userPartial: bool, userHandle: int)

  datatype Pointer = Null | To(i: nat)

  /** The list IDs stamped on a row: on each of its accelerators, and on the row itself. */
  datatype Ids = Ids(accels: seq<int>, row: int)

  datatype State = State(bases: seq<Base>, active: Pointer, rpu: Pointer, used: seq<bool>, ids: seq<Ids>)

  /** What an operation leaves and returns. */
  datatype Reply = Reply(st: State, rv: int)

  /** The answers an operation may get: loading a flat or base design, loading into a slot, removing a base design or
      an accelerator, and libdfx's code for a user bitstream. */
  datatype Hw = Hw(baseLoads: bool, slotLoads: bool, removeRv: int, bitstreamRv: int)

  // ---------------------------------------------------------------- rows

  predicate IsFlat(b: Base) {
    b.ty == XrtFlat || b.ty == PlFlat
  }

  function NumSlots(b: Base): nat {
    b.numPl + b.numAie
  }

  /** What `alloc_base_slots` reserves. */
  function SlotCapacity(b: Base): nat {
    (if b.numPl > RP_SLOTS_MAX then b.numPl else RP_SLOTS_MAX) + b.numAie
  }

  function Allocated(b: Base): Base {
    if b.slots == [] then b.(slots := seq(SlotCapacity(b), _ => Empty)) else b
  }

  function SlotAt(b: Base, i: nat): SlotPtr {
    if i < |b.slots| then b.slots[i] else Empty
  }

  predicate IsPartial(b: Base) {
    b.isUser && b.userPartial
  }

  // ---------------------------------------------------------------- handles

  /** The lowest free handle from i on, or -1. */
  function FirstFree(used: seq<bool>, i: nat): (h: int)
    requires i <= |used|
    ensures h == -1 || (i <= h < |used| && !used[h])
    ensures forall k :: i <= k < (if h == -1 then |used| else h) ==> used[k]
    decreases |used| - i
  {
    if i == |used| then -1 else if !used[i] then i else FirstFree(used, i + 1)
  }

  function FreeHandle(st: State): int {
    FirstFree(st.used, 0)
  }

  function Taken(used: seq<bool>, h: int): seq<bool> {
    if 0 <= h < |used| then used[h := true] else used
  }

  function Released(used: seq<bool>, h: int): seq<bool> {
    if 0 <= h < |used| then used[h := false] else used
  }

  // ---------------------------------------------------------------- edits that the operations are made of

  function SetBase(st: State, i: nat, b: Base): State
    requires i < |st.bases|
  {
    st.(bases := st.bases[i := b])
  }

  function AllocSlots(st: State, i: nat): State
    requires i < |st.bases|
  {
    SetBase(st, i, Allocated(st.bases[i]))
  }

  function ZeroActive(st: State, i: nat): State
    requires i < |st.bases|
  {
    SetBase(st, i, st.bases[i].(active := 0))
  }

  /** The slot array of row i is freed. */
  function FreeSlots(st: State, i: nat): State
    requires i < |st.bases|
  {
    SetBase(st, i, st.bases[i].(slots := []))
  }

  /** Slot i of row b gets the accelerator and the lowest free handle; the row counts it, on an RPU only when there was
      a handle. */
  function FillSlot(st: State, b: nat, i: nat, name: string): Reply
    requires b < |st.bases|
  {
    var h := FreeHandle(st);
    var base := st.bases[b];
    var slots := if i < |base.slots| then base.slots[i := Loaded(name, h)] else base.slots;
    var active := if base.ty == Rpu && h < 0 then base.active else base.active + 1;
    Reply(SetBase(st, b, base.(slots := slots, active := active)).(used := Taken(st.used, h)), h)
  }

  /** Slot i of row b is emptied and its handle h given back. */
  function EmptySlot(st: State, b: nat, i: nat, h: int): State
    requires b < |st.bases|
  {
    var base := st.bases[b];
    var slots := if i < |base.slots| then base.slots[i := Empty] else base.slots;
    SetBase(st, b, base.(slots := slots, active := base.active - 1)).(used := Released(st.used, h))
  }

  // ---------------------------------------------------------------- loading a package

  /** No base of ours, yet a user Partial is loaded. */
  predicate ExternallyManaged(st: State) {
    st.active == Null && exists i :: 0 <= i < |st.bases| && IsPartial(st.bases[i])
  }

  /** The last accelerator of that name below n, or -1. */
  function LastNamed(accels: seq<Accel>, name: string, n: nat): (j: int)
    requires n <= |accels|
    ensures j == -1 || (0 <= j < n && accels[j].name == name)
    ensures forall k :: j < k < n ==> accels[k].name != name
  {
    if n == 0 then -1 else if accels[n - 1].name == name then n - 1 else LastNamed(accels, name, n - 1)
  }

  /** The lowest slot from i on that is empty and has a directory, or -1. */
  function FreeSlotFrom(b: Base, dirs: set<nat>, i: nat): (k: int)
    ensures k == -1 || (i <= k < NumSlots(b) && SlotAt(b, k) == Empty && k in dirs)
    ensures forall m :: i <= m < (if k == -1 then NumSlots(b) else k) ==> SlotAt(b, m) != Empty || m !in dirs
    decreases NumSlots(b) - i
  {
    if i >= NumSlots(b) then -1
    else if SlotAt(b, i) == Empty && i in dirs then i
    else FreeSlotFrom(b, dirs, i + 1)
  }

  predicate InTable(st: State, p: Pointer) {
    p.To? ==> p.i < |st.bases|
  }

  predicate Pointers(st: State) {
    InTable(st, st.active) && InTable(st, st.rpu)
  }

  function LoadFlat(st: State, b: nat, name: string, hw: Hw): Reply
    requires Pointers(st) && b < |st.bases|
  {
    var st0 := AllocSlots(st, b);
    if st.active.To? && st0.bases[st.active.i].active > 0 then Reply(st0, NO_EMPTY_SLOT)
    else if !hw.baseLoads then Reply(ZeroActive(st0, b), LOAD_ERROR)
    else FillSlot(st0.(active := To(b)), b, 0, name)
  }

  /** The current PL base gives way to another one if it is empty, and refuses if not. */
  function MakeWay(st: State, current: Pointer, parentPath: string): (r: Reply)
    requires InTable(st, current)
    ensures r.rv == 0 || r.rv == LOAD_ERROR
  {
    if current.To? && st.bases[current.i].active == 0 && st.bases[current.i].path != parentPath then
      Reply(FreeSlots(st, current.i), 0)
    else if current.To? && st.bases[current.i].active > 0 && st.bases[current.i].path != parentPath then
      Reply(st, LOAD_ERROR)
    else Reply(st, 0)
  }

  /** The current pointer is left alone but for an empty base of another path. */
  predicate KeepsCurrent(st: State, current: Pointer, parentPath: string)
    requires InTable(st, current)
  {
    current.To? ==> st.bases[current.i].active != 0 || st.bases[current.i].path == parentPath
  }

  /** Row b becomes the current PL base, unless it is already. */
  function PreparePl(st: State, b: nat, parentPath: string, hw: Hw): (r: Reply)
    requires Pointers(st) && b < |st.bases|
    ensures r.rv == 0 || r.rv == LOAD_ERROR
    ensures Pointers(r.st) && |r.st.bases| == |st.bases|
  {
    var way := MakeWay(st, st.active, parentPath);
    if way.rv != 0 then way
    else
      var st1 := way.st.(active := if KeepsCurrent(st, st.active, parentPath) then st.active else Null);
      if st1.active.To? then Reply(st1, 0)
      else if st1.bases[b].loadBase && !hw.baseLoads then Reply(ZeroActive(st1, b), LOAD_ERROR)
      else Reply(AllocSlots(st1, b).(active := To(b)), 0)
  }

  /** Row b becomes the current RPU base, unless it is already. */
  function PrepareRpu(st: State, b: nat, parentPath: string): (r: Reply)
    requires Pointers(st) && b < |st.bases|
    ensures r.rv == 0 || r.rv == LOAD_ERROR
    ensures Pointers(r.st) && |r.st.bases| == |st.bases|
  {
    var way := MakeWay(st, st.rpu, parentPath);
    if way.rv != 0 then way
    else
      var st1 := way.st.(rpu := if KeepsCurrent(st, st.rpu, parentPath) then st.rpu else Null);
      if st1.rpu.To? then Reply(st1, 0) else Reply(AllocSlots(st1, b).(rpu := To(b)), 0)
  }

  /** Into the slot that the directory layout names. */
  function LoadFixed(st: State, b: nat, accel: Accel, name: string, hw: Hw): Reply
    requires Pointers(st) && b < |st.bases| && accel.rpuSlot >= 0
  {
    if accel.rpuSlot >= st.bases[b].numPl || SlotAt(st.bases[b], accel.rpuSlot) != Empty then
      Reply(st, NO_EMPTY_SLOT)
    else if !hw.slotLoads then Reply(st, LOAD_ERROR)
    else FillSlot(st, b, accel.rpuSlot, name)
  }

  /** Into the lowest empty slot that has a directory. */
  function LoadLowest(st: State, b: nat, accel: Accel, name: string, hw: Hw): Reply
    requires Pointers(st) && b < |st.bases|
  {
    var i := FreeSlotFrom(st.bases[b], accel.slotDirs, 0);
    if i == -1 then Reply(st, NO_EMPTY_SLOT)
    else if (st.bases[b].ty == PlDfx && accel.isAie) || !hw.slotLoads then Reply(st, LOAD_ERROR)
    else FillSlot(st, b, i, name)
  }

  /** `load_accelerator_core` on row b. */
  function LoadCore(st: State, b: nat, name: string, hw: Hw): Reply
    requires Pointers(st) && b < |st.bases|
  {
    var base := st.bases[b];
    if ExternallyManaged(st) && base.ty != Rpu then Reply(st, LOAD_ERROR)
    else if IsFlat(base) then LoadFlat(st, b, name, hw)
    else
      var j := LastNamed(base.accels, name, |base.accels|);
      if j == -1 || (base.ty != PlDfx && base.ty != Rpu) then Reply(st, LOAD_ERROR)
      else
        var accel := base.accels[j];
        var ready := if base.ty == PlDfx then PreparePl(st, b, accel.parentPath, hw)
                     else PrepareRpu(st, b, accel.parentPath);
        if ready.rv != 0 then ready
        else if base.ty == Rpu && accel.rpuSlot >= 0 then LoadFixed(ready.st, b, accel, name, hw)
        else LoadLowest(ready.st, b, accel, name, hw)
  }

  predicate RowNamed(b: Base, name: string) {
    b.path != "" && (b.name == name || exists j :: 0 <= j < |b.accels| && b.accels[j].name == name)
  }

  /** The first row from i on that is, or contains, what is named; |bases| if there is none. */
  function FindRow(bases: seq<Base>, name: string, i: nat): (k: nat)
    requires i <= |bases|
    ensures i <= k <= |bases|
    decreases |bases| - i
  {
    if i == |bases| || RowNamed(bases[i], name) then i else FindRow(bases, name, i + 1)
  }

  function Load(st: State, name: string, hw: Hw): Reply
    requires Pointers(st)
  {
    var b := FindRow(st.bases, name, 0);
    if b == |st.bases| then Reply(st, NO_PACKAGE_FOUND) else LoadCore(st, b, name, hw)
  }

  // ---------------------------------------------------------------- unloading

  function UnloadBase(st: State, hw: Hw): Reply
    requires Pointers(st)
  {
    if st.active == Null || st.bases[st.active.i].ty != PlDfx || st.bases[st.active.i].active != 0 then Reply(st, -1)
    else if hw.removeRv != 0 then Reply(st, hw.removeRv)
    else Reply(FreeSlots(st, st.active.i).(active := Null), 0)
  }

  /** The lowest slot below n that has the handle, searched from i on; -1 if none. */
  function SlotWithHandle(b: Base, h: int, i: nat): (k: int)
    ensures k == -1 || (i <= k < NumSlots(b) && SlotAt(b, k).Loaded? && SlotAt(b, k).handle == h)
    ensures k == -1 ==> forall m :: i <= m < NumSlots(b) && SlotAt(b, m).Loaded? ==> SlotAt(b, m).handle != h
    decreases NumSlots(b) - i
  {
    if i >= NumSlots(b) then -1
    else if SlotAt(b, i).Loaded? && SlotAt(b, i).handle == h then i
    else SlotWithHandle(b, h, i + 1)
  }

  /** The first user row from i on with that handle; |bases| if there is none. */
  function UserRow(bases: seq<Base>, h: int, i: nat): (k: nat)
    requires i <= |bases|
    ensures i <= k <= |bases|
    ensures k < |bases| ==> bases[k].isUser && bases[k].userHandle == h
    ensures forall m :: i <= m < k ==> !bases[m].isUser || bases[m].userHandle != h
    decreases |bases| - i
  {
    if i == |bases| || (bases[i].isUser && bases[i].userHandle == h) then i else UserRow(bases, h, i + 1)
  }

  /** `user_unload`. */
  function UserUnload(st: State, h: int): Reply
    requires Pointers(st)
  {
    var u := UserRow(st.bases, h, 0);
    if u == |st.bases| then Reply(st, -1)
    else
      var row := st.bases[u];
      if !row.userPartial && st.active == To(u) && row.active > 0 then Reply(st, -1)
      else Reply(WithIds(RemoveUser(st, u)), 0)
  }

  /** The row of a user design is blank again; a Partial is no longer counted, a current Full is no longer current. */
  function RemoveUser(st: State, u: nat): State
    requires Pointers(st) && u < |st.bases|
  {
    var row := st.bases[u];
    var st1 := if row.userPartial && st.active.To? then
                 SetBase(st, st.active.i, st.bases[st.active.i].(active := st.bases[st.active.i].active - 1))
               else if !row.userPartial && st.active == To(u) then st.(active := Null)
               else st;
    SetBase(st1, u, st1.bases[u].(name := "", path := "", isUser := false, userHandle := -1))
      .(used := Released(st1.used, row.userHandle),
        ids := if u < |st.ids| then st.ids[u := st.ids[u].(row := 0)] else st.ids)
  }

  /** `unload_accelerator`. */
  function Unload(st: State, h: int, hw: Hw): Reply
    requires Pointers(st)
  {
    if h == -1 then UnloadBase(st, hw)
    else if UserRow(st.bases, h, 0) < |st.bases| then UserUnload(st, h)
    else if h < 0 then Reply(st, -1)
    else
      var r := if st.rpu.To? then SlotWithHandle(st.bases[st.rpu.i], h, 0) else -1;
      if r != -1 then Reply(EmptySlot(st, st.rpu.i, r, h), hw.removeRv)
      else
        var p := if st.active.To? then SlotWithHandle(st.bases[st.active.i], h, 0) else -1;
        if p == -1 then Reply(st, -1)
        else
          var st1 := EmptySlot(st, st.active.i, p, h);
          Reply(if IsFlat(st.bases[st.active.i]) then st1.(active := Null) else st1, hw.removeRv)
  }

  // ---------------------------------------------------------------- user designs

  /** What a client asks for: whether the load is partial, whether it is forced onto a base set up outside, whether it
      passes the checks on its own arguments, and the name of its file. */
  datatype UserRequest = UserRequest(partial: bool, force: bool, secureRefused: bool, argumentsOk: bool, file: string)

  /** The first row from i on without a path; |bases| if there is none. */
  function BlankRow(bases: seq<Base>, i: nat): (k: nat)
    requires i <= |bases|
    ensures i <= k <= |bases|
    ensures k < |bases| ==> bases[k].path == ""
    ensures forall m :: i <= m < k ==> bases[m].path != ""
    decreases |bases| - i
  {
    if i == |bases| || bases[i].path == "" then i else BlankRow(bases, i + 1)
  }

  /** An empty PL_DFX base is taken away before the request is looked at any further. */
  function ClearForUser(st: State): State
    requires Pointers(st)
  {
    if st.active.To? && st.bases[st.active.i].ty == PlDfx then FreeSlots(st, st.active.i).(active := Null) else st
  }

  /** The current base does not let a user design in. */
  predicate UserRefused(st: State, partial: bool)
    requires Pointers(st)
  {
    st.active.To? &&
    var base := st.bases[st.active.i];
    || (base.isUser && (!partial || base.active >= MAX_WATCH))
    || IsFlat(base)
    || (base.ty == PlDfx && base.active > 0)
  }

  function AddUser(st: State, u: nat, file: string, partial: bool): Reply
    requires Pointers(st) && u < |st.bases|
  {
    var h := FreeHandle(st);
    var st1 := SetBase(st, u, st.bases[u].(name := file, path := "User", active := 0, isUser := true,
                                           userPartial := partial, userHandle := h)).(used := Taken(st.used, h));
    var st2 := if !partial then st1.(active := To(u))
               else if st1.active.To? then
                 SetBase(st1, st1.active.i, st1.bases[st1.active.i].(active := st1.bases[st1.active.i].active + 1))
               else st1;
    Reply(st2, h)
  }

  /** `user_load`. */
  function UserLoad(st: State, ask: UserRequest, hw: Hw): Reply
    requires Pointers(st)
  {
    if ask.secureRefused then Reply(st, SECURE_PLATFORM_ERROR)
    else if UserRefused(st, ask.partial) then Reply(st, -1)
    else
      var st1 := ClearForUser(st);
      if ask.partial && st1.active == Null && !ask.force then Reply(st1, -1)
      else if !ask.partial && ExternallyManaged(st1) then Reply(st1, -1)
      else if !ask.argumentsOk then Reply(st1, -1)
      else if hw.bitstreamRv != 0 then Reply(st1, hw.bitstreamRv)
      else
        var u := BlankRow(st1.bases, 0);
        if u == |st1.bases| then Reply(st1, -1)
        else
          var added := AddUser(st1, u, ask.file, ask.partial);
          Reply(WithIds(added.st), added.rv)
  }

  // ---------------------------------------------------------------- list IDs

  predicate RowListed(b: Base) {
    b.path != "" && b.numPl > 0
  }

  predicate AccelListed(b: Base, j: nat) {
    RowListed(b) && j < |b.accels| && b.accels[j].path != ""
  }

  /** How many accelerators are listed among the first j of a row. */
  function ListedAccels(b: Base, j: nat): nat {
    if j == 0 then 0 else ListedAccels(b, j - 1) + if AccelListed(b, j - 1) then 1 else 0
  }

  function ListedInRow(b: Base): nat {
    ListedAccels(b, |b.accels|) + if b.isUser then 1 else 0
  }

  /** How many entries are listed in the first i rows. */
  function ListedBefore(bases: seq<Base>, i: nat): nat
    requires i <= |bases|
  {
    if i == 0 then 0 else ListedBefore(bases, i - 1) + ListedInRow(bases[i - 1])
  }

  /** One stamp for each accelerator of each row. */
  predicate IdsFit(bases: seq<Base>, ids: seq<Ids>) {
    |ids| == |bases| && forall i :: 0 <= i < |ids| ==> |ids[i].accels| == |bases[i].accels|
  }

  /** The stamp of a row: what is listed gets its place in the listing, what is not keeps its former stamp. */
  function StampRow(bases: seq<Base>, i: nat, former: Ids): Ids
    requires i < |bases|
  {
    var b, first := bases[i], ListedBefore(bases, i) + 1;
    Ids(seq(|former.accels|, j requires 0 <= j < |former.accels| =>
              if AccelListed(b, j) then first + ListedAccels(b, j) else former.accels[j]),
        if b.isUser then first + ListedAccels(b, |b.accels|) else former.row)
  }

  /** `assign_list_ids`. */
  function Stamped(bases: seq<Base>, ids: seq<Ids>): seq<Ids> {
    seq(|ids|, i requires 0 <= i < |ids| => if i < |bases| then StampRow(bases, i, ids[i]) else ids[i])
  }

  function WithIds(st: State): State {
    st.(ids := Stamped(st.bases, st.ids))
  }

  /** What a list ID stands for. */
  datatype Entry = PackageEntry(row: nat, accel: nat) | UserEntry(row: nat) | NoEntry

  /** The first accelerator of row i, from j on, that is listed with this ID. */
  function FindInRow(b: Base, ids: Ids, id: int, j: nat): (k: nat)
    ensures j <= |b.accels| ==> j <= k <= |b.accels|
    ensures k < |b.accels| ==> AccelListed(b, k) && k < |ids.accels| && ids.accels[k] == id
    decreases |b.accels| - j
  {
    if j >= |b.accels| then |b.accels|
    else if AccelListed(b, j) && j < |ids.accels| && ids.accels[j] == id then j
    else FindInRow(b, ids, id, j + 1)
  }

  /** `find_accel_by_list_id`, from row i on. */
  function FindId(bases: seq<Base>, ids: seq<Ids>, id: int, i: nat): (e: Entry)
    requires |bases| == |ids|
    ensures e.PackageEntry? ==> e.row < |bases| && e.accel < |bases[e.row].accels|
    ensures e.UserEntry? ==> e.row < |bases|
    decreases |bases| - i
  {
    if i >= |bases| then NoEntry
    else
      var j := FindInRow(bases[i], ids[i], id, 0);
      if j < |bases[i].accels| then PackageEntry(i, j)
      else if bases[i].isUser && ids[i].row == id then UserEntry(i)
      else FindId(bases, ids, id, i + 1)
  }

  function LoadById(st: State, id: int, hw: Hw): Reply
    requires Pointers(st) && |st.ids| == |st.bases|
  {
    match FindId(st.bases, st.ids, id, 0)
    case NoEntry => Reply(st, NO_PACKAGE_FOUND)
    case UserEntry(_) => Reply(st, LOAD_ERROR)
    case PackageEntry(b, j) => LoadCore(st, b, st.bases[b].accels[j].name, hw)
  }

  /** The lowest loaded slot from i on with that name, or -1. */
  function SlotNamed(b: Base, name: string, i: nat): (k: int)
    ensures k == -1 || (i <= k < NumSlots(b) && SlotAt(b, k).Loaded? && SlotAt(b, k).name == name)
    ensures forall m :: i <= m < (if k == -1 then NumSlots(b) else k) && SlotAt(b, m).Loaded? ==>
      SlotAt(b, m).name != name
    decreases NumSlots(b) - i
  {
    if i >= NumSlots(b) then -1
    else if SlotAt(b, i).Loaded? && SlotAt(b, i).name == name then i
    else SlotNamed(b, name, i + 1)
  }

  /** The handle of the lowest slot of that name, or -1. */
  function HandleNamed(b: Base, name: string): int {
    var k := SlotNamed(b, name, 0);
    if k == -1 then -1 else SlotAt(b, k).handle
  }

  function UnloadById(st: State, id: int, hw: Hw): Reply
    requires Pointers(st) && |st.ids| == |st.bases|
  {
    if id == 0 then UnloadBase(st, hw)
    else
      match FindId(st.bases, st.ids, id, 0)
      case NoEntry => Reply(st, -1)
      case UserEntry(u) =>
        if st.bases[u].userHandle < 0 then Reply(st, -1) else Unload(st, st.bases[u].userHandle, hw)
      case PackageEntry(b, j) =>
        var h := HandleNamed(st.bases[b], st.bases[b].accels[j].name);
        if h < 0 then Reply(st, -1) else Unload(st, h, hw)
  }

  /** The first user row from i on with that name; |bases| if there is none. */
  function UserNamed(bases: seq<Base>, name: string, i: nat): (k: nat)
    requires i <= |bases|
    ensures i <= k <= |bases|
    decreases |bases| - i
  {
    if i == |bases| || (bases[i].isUser && bases[i].name == name) then i else UserNamed(bases, name, i + 1)
  }

  /** `find_slot_handle_by_name`: RPU slots, then user designs, then PL slots. */
  function FindHandleByName(st: State, name: string): int
    requires Pointers(st)
  {
    if st.rpu.To? && SlotNamed(st.bases[st.rpu.i], name, 0) != -1 then HandleNamed(st.bases[st.rpu.i], name)
    else
      var u := UserNamed(st.bases, name, 0);
      if u < |st.bases| then st.bases[u].userHandle
      else if st.active.To? then HandleNamed(st.bases[st.active.i], name)
      else -1
  }

  function UnloadByName(st: State, name: string, hw: Hw): Reply
    requires Pointers(st)
  {
    var h := FindHandleByName(st, name);
    if h >= 0 then Unload(st, h, hw) else Reply(st, -1)
  }

  // ---------------------------------------------------------------- runs

  datatype Event =
    | LoadEvent(name: string)
    | LoadIdEvent(id: int)
    | UnloadEvent(handle: int)
    | UnloadIdEvent(id: int)
    | UnloadNameEvent(name: string)
    | UserLoadEvent(ask: UserRequest)

  function Perform(st: State, e: Event, hw: Hw): Reply
    requires Pointers(st) && |st.ids| == |st.bases|
  {
    match e
    case LoadEvent(name) => Load(st, name, hw)
    case LoadIdEvent(id) => LoadById(st, id, hw)
    case UnloadEvent(h) => Unload(st, h, hw)
    case UnloadIdEvent(id) => UnloadById(st, id, hw)
    case UnloadNameEvent(name) => UnloadByName(st, name, hw)
    case UserLoadEvent(ask) => UserLoad(st, ask, hw)
  }
}
