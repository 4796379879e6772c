/** A vfio DMA device and the channels that share it, on values: its reference count, its list of mappings, and what each
    operation does to them. */
module DmaSpec {
  import opened Common
  import opened DmaRing

  const PAGE: nat := 4096
  const FIRST_DA: nat := 0x1000
  const EINVAL: int := -22
  const ENOMEM: int := -12
  /** (uint64_t)(-1), the address of what is not mapped, and (uint64_t)(-EINVAL), of anything on a device not open. */
  const NO_DA: nat := 0xFFFF_FFFF_FFFF_FFFF
  const CLOSED_DA: nat := 0xFFFF_FFFF_FFFF_FFEA

  /** A stretch of memory mapped for the device: its virtual address, its device address and its size. */
  datatype Mmap = Mmap(va: nat, da: nat, size: nat)

  datatype Device = Device(refs: nat, ready: bool, mmaps: seq<Mmap>)

  /** A shared memory: where it is and how long it is. */
  datatype Shm = Shm(va: nat, size: nat)

  // ---------------------------------------------------------------- the mapping list

  function AlignUp(size: nat): (r: nat)
    ensures r % PAGE == 0 && size <= r < size + PAGE
  {
    (size + PAGE - 1) / PAGE * PAGE
  }

  /** One step of the search for a device address. */
  function Pass(da: nat, size: nat, m: Mmap): nat {
    if da + size < m.da then da else if da + size <= m.da + m.size then m.da + m.size else da
  }

  /** The device address a new mapping gets: one pass over the list. */
  function ChooseDa(ms: seq<Mmap>, size: nat, da: nat): nat
    decreases ms
  {
    if ms == [] then da else ChooseDa(ms[1..], size, Pass(da, size, ms[0]))
  }

  predicate Covers(m: Mmap, va: nat) {
    m.va <= va < m.va + m.size
  }

  /** The first mapping from k on that covers va, or the length of the list. */
  function FirstCover(ms: seq<Mmap>, va: nat, k: nat): (r: nat)
    requires k <= |ms|
    ensures k <= r <= |ms| && (r < |ms| ==> Covers(ms[r], va))
    ensures forall i :: k <= i < r ==> !Covers(ms[i], va)
    decreases |ms| - k
  {
    if k == |ms| || Covers(ms[k], va) then k else FirstCover(ms, va, k + 1)
  }

  /** The first mapping from k on that starts at va, or the length of the list. */
  function FirstAt(ms: seq<Mmap>, va: nat, k: nat): (r: nat)
    requires k <= |ms|
    ensures k <= r <= |ms| && (r < |ms| ==> ms[r].va == va)
    ensures forall i :: k <= i < r ==> ms[i].va != va
    decreases |ms| - k
  {
    if k == |ms| || ms[k].va == va then k else FirstAt(ms, va, k + 1)
  }

  function VaToDa(d: Device, va: nat): nat {
    if !d.ready then CLOSED_DA
    else
      var k := FirstCover(d.mmaps, va, 0);
      if k < |d.mmaps| then d.mmaps[k].da + (va - d.mmaps[k].va) else NO_DA
  }

  /** Whether the kernel maps the memory: it may refuse, and does for a range that ends past the 64-bit space. */
  predicate Mapped(kernel: bool, da: nat, size: nat) {
    kernel && da + size <= W64
  }

  /** Mapping a shared memory. kernel and room are the outcomes of the map call and of allocating the list node. */
  function AttachShm(d: Device, shm: Shm, kernel: bool, room: bool): (Device, bool) {
    var size := AlignUp(shm.size);
    var da := ChooseDa(d.mmaps, size, FIRST_DA);
    if d.ready && Mapped(kernel, da, size) && room then
      (d.(mmaps := d.mmaps + [Mmap(shm.va, da, size)]), true)
    else
      (d, false)
  }

  /** Unmapping the first mapping at an address. unmap is the result of the unmap call; the entry goes either way. */
  function DetachShm(d: Device, va: nat, unmap: int): (Device, int) {
    if !d.ready then (d, EINVAL)
    else
      var k := FirstAt(d.mmaps, va, 0);
      if k < |d.mmaps| then (d.(mmaps := d.mmaps[..k] + d.mmaps[k + 1..]), unmap) else (d, EINVAL)
  }

  // ---------------------------------------------------------------- the shared device

  /** Taking a reference, which opens a closed device. works is the outcome of opening it. */
  function Get(d: Device, works: bool): (Device, int) {
    if d.ready then (d.(refs := d.refs + 1), 0)
    else if works then (Device(1, true, []), 0)
    else (d.(refs := 0), EINVAL)
  }

  /** Giving a reference back. The last one closes the device. */
  function Put(d: Device): Device {
    if !d.ready || d.refs == 0 then d
    else if d.refs == 1 then Device(0, false, [])
    else d.(refs := d.refs - 1)
  }

  function OpenChannel(d: Device, isOpen: bool, works: bool): (Device, bool, int) {
    if isOpen then (d, true, 0)
    else
      var (got, ret) := Get(d, works);
      if ret < 0 then (got, false, EINVAL) else (got, true, 0)
  }

  function CloseChannel(d: Device, isOpen: bool): (Device, bool) {
    if isOpen then (Put(d), false) else (d, false)
  }

  // ---------------------------------------------------------------- a transfer

  /** A transfer asked for: the stretch and the memory it is said to be in. And what came of the page for its descriptors:
      where it was, and whether the kernel mapped it and there was room for its list node. */
  datatype Request = Request(shm: Shm, va: nat, size: nat, bdVa: nat, kernel: bool, room: bool)

  /** The current and the tail descriptor registers of a channel, low and high word. */
  datatype Registers = Registers(curLow: Word, curHigh: Word, tailLow: Word, tailHigh: Word)

  /** Where a transfer is let through to the engine. */
  predicate InBounds(q: Request) {
    q.shm.va <= q.va && q.va + q.size <= q.shm.va + q.shm.size
  }

  /** The size the engine is given: what is left of it in 32 bits. */
  function EngineSize(size: nat): nat {
    size % W32
  }

  /** A 32-bit number returned as an int. */
  function AsInt(n: Word): int {
    if n < 0x8000_0000 then n else n - W32
  }

  predicate Reaches(d: Device, q: Request) {
    InBounds(q) && VaToDa(d, q.va) != NO_DA
  }

  /** The device with the page for the descriptors mapped. */
  function WithPage(d: Device, q: Request): (Device, bool) {
    AttachShm(d, Shm(q.bdVa, PAGE), q.kernel, q.room)
  }

  /** Where the descriptors are for the device. */
  function RingOf(d: Device, q: Request): nat {
    VaToDa(WithPage(d, q).0, q.bdVa)
  }

  /** The page for the descriptors could be had and mapped. */
  predicate RingMapped(d: Device, q: Request) {
    q.bdVa != 0 && WithPage(d, q).1 && RingOf(d, q) != NO_DA
  }

  /** What a transfer leaves of the device: the descriptor page stays mapped. */
  function AfterTransfer(d: Device, q: Request): Device {
    if Reaches(d, q) && q.bdVa != 0 then WithPage(d, q).0 else d
  }

  /** The pieces that the engine is given. */
  function Pieces(d: Device, q: Request, max: nat): seq<Segment> {
    if max == 0 then [] else Split(VaToDa(d, q.va), EngineSize(q.size), max)
  }

  function TailOf(ring: nat, segs: seq<Segment>): nat {
    ring + BD_SIZE * (if segs == [] then 0 else |segs| - 1)
  }

  predicate Points(regs: Registers, ring: nat, tail: nat) {
    && regs.curLow == Low(ring) / 64 * 64 && regs.curHigh == High(ring)
    && regs.tailLow == Low(tail) / 64 * 64 && regs.tailHigh == High(tail)
  }

  /** What a transfer that was let through leaves in the descriptor page and in the registers. */
  ghost predicate Programmed(d: Device, q: Request, max: nat, tid: int, was: seq<Word>, words: seq<Word>, regs: Registers)
    requires |was| == RING_WORDS && tid < 256
  {
    var segs := Pieces(d, q, max);
    && |segs| <= RING_BDS
    && HoldsRing(words, was, RingOf(d, q), segs, tid)
    && Points(regs, RingOf(d, q), TailOf(RingOf(d, q), segs))
  }

  /** The address in a pair of registers. */
  function Pair(low: Word, high: Word): nat {
    low + high * W32
  }
}
