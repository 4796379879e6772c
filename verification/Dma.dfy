/** The vfio DMA device and its channels as they are written: a mapping list and counters updated in place, descriptors
    stored into a page. Every method is tied to its function on values. */
module Dma {
  import opened Common
  import opened DmaRing
  import opened DmaSpec

  /** What opening a device comes to: there was memory for its private part or not, and the system let it be opened. */
  datatype Opening = Opens | NoMemory | Refused

  class VfioDevice {
    var refs: nat
    /** Whether the private part of the device, with its mapping list, exists. */
    var ready: bool
    var mmaps: seq<Mmap>

    ghost function Abs(): Device
      reads this
    {
      Device(refs, ready, mmaps)
    }

    constructor ()
      ensures Abs() == Device(0, false, [])
    {
      refs, ready, mmaps := 0, false, [];
    }

    /** `acapd_vfio_device_open`. */
    method Open(how: Opening) returns (r: int)
      modifies this`ready, this`mmaps
      ensures old(ready) ==> r == 0 && Abs() == old(Abs())
      ensures !old(ready) ==> r == match how case Opens => 0 case NoMemory => ENOMEM case Refused => EINVAL
      ensures !old(ready) && how.Opens? ==> Abs() == Device(refs, true, [])
      ensures !old(ready) && !how.Opens? ==> Abs() == old(Abs())
    {
      if ready {
        return 0;
      }
      if how.NoMemory? {
        return ENOMEM;
      }
      if how.Refused? {
        return EINVAL;
      }
      mmaps := [];
      ready := true;
      return 0;
    }

    /** `acapd_vfio_device_close`: the mappings that are handed back to the kernel, in order. What it answers is not
        looked at. */
    method Close() returns (unmapped: seq<Mmap>)
      modifies this`ready, this`mmaps
      ensures old(ready) ==> Abs() == Device(refs, false, []) && unmapped == old(mmaps)
      ensures !old(ready) ==> Abs() == old(Abs()) && unmapped == []
    {
      unmapped := [];
      if !ready {
        return;
      }
      ready := false;
      while mmaps != []
        invariant !ready && unmapped + mmaps == old(mmaps)
        decreases |mmaps|
      {
        assert mmaps == [mmaps[0]] + mmaps[1..];
        unmapped := unmapped + [mmaps[0]];
        mmaps := mmaps[1..];
      }
    }

    /** `acapd_device_get`. */
    method Get(how: Opening) returns (r: int)
      modifies this
      ensures (Abs(), r) == DmaSpec.Get(old(Abs()), how.Opens?)
    {
      if !ready {
        refs := 0;
        var ret := Open(how);
        if ret < 0 {
          return EINVAL;
        }
      }
      refs := refs + 1;
      return 0;
    }

    /** `acapd_device_put`. */
    method Put() returns (unmapped: seq<Mmap>)
      modifies this
      ensures Abs() == DmaSpec.Put(old(Abs()))
      ensures unmapped == if old(ready) && old(refs) == 1 then old(mmaps) else []
    {
      unmapped := [];
      if !ready || refs == 0 {
        return;
      }
      refs := refs - 1;
      if refs == 0 {
        unmapped := Close();
      }
    }

    /** `acapd_vfio_device_attach`; whether the memory is now mapped. */
    method Attach(shm: Shm, kernel: bool, room: bool) returns (ok: bool)
      modifies this`mmaps
      ensures (Abs(), ok) == AttachShm(old(Abs()), shm, kernel, room)
    {
      if !ready {
        return false;
      }
      var size := AlignUp(shm.size);
      var da: nat, i: nat := FIRST_DA, 0;
      while i < |mmaps|
        invariant i <= |mmaps|
        invariant ChooseDa(mmaps[i..], size, da) == ChooseDa(mmaps, size, FIRST_DA)
      {
        assert mmaps[i..][1..] == mmaps[i + 1..];
        var m := mmaps[i];
        var end := m.da + m.size;
        i := i + 1;
        if da + size < m.da {
          continue;
        }
        if da + size <= end {
          da := end;
        }
      }
      if !Mapped(kernel, da, size) {
        return false;
      }
      if !room {
        return false;
      }
      mmaps := mmaps + [Mmap(shm.va, da, size)];
      return true;
    }

    /** `acapd_vfio_device_detach`. */
    method Detach(va: nat, unmap: int) returns (r: int)
      modifies this`mmaps
      ensures (Abs(), r) == DetachShm(old(Abs()), va, unmap)
    {
      if !ready {
        return EINVAL;
      }
      r := EINVAL;
      var i := 0;
      while i < |mmaps|
        invariant i <= |mmaps| && mmaps == old(mmaps) && r == EINVAL
        invariant FirstAt(mmaps, va, i) == FirstAt(mmaps, va, 0)
      {
        if mmaps[i].va == va {
          mmaps := mmaps[..i] + mmaps[i + 1..];
          return unmap;
        }
        i := i + 1;
      }
    }

    /** `acapd_vfio_device_va_to_da`. */
    method Translate(va: nat) returns (da: nat)
      ensures da == VaToDa(Abs(), va)
    {
      if !ready {
        return CLOSED_DA;
      }
      var i := 0;
      while i < |mmaps|
        invariant i <= |mmaps|
        invariant FirstCover(mmaps, va, i) == FirstCover(mmaps, va, 0)
      {
        if mmaps[i].va <= va < mmaps[i].va + mmaps[i].size {
          return mmaps[i].da + (va - mmaps[i].va);
        }
        i := i + 1;
      }
      return NO_DA;
    }
  }

  class Channel {
    const dev: VfioDevice
    /** Whether the channel writes to the device: only then is the transfer id put into the descriptors. */
    const writes: bool
    const maxBuf: nat
    var isOpen: bool
    /** The current and the tail descriptor registers of the channel, low and high word. */
    var curLow: Word
    var curHigh: Word
    var tailLow: Word
    var tailHigh: Word

    constructor (dev: VfioDevice, writes: bool, maxBuf: nat)
      ensures this.dev == dev && this.writes == writes && this.maxBuf == maxBuf && !isOpen
    {
      this.dev, this.writes, this.maxBuf := dev, writes, maxBuf;
      isOpen := false;
      curLow, curHigh, tailLow, tailHigh := 0, 0, 0, 0;
    }

    /** `acapd_dma_open` on an MCDMA channel. */
    method Open(how: Opening) returns (r: int)
      modifies this`isOpen, dev
      ensures (dev.Abs(), isOpen, r) == OpenChannel(old(dev.Abs()), old(isOpen), how.Opens?)
    {
      if isOpen {
        return 0;
      }
      var ret := dev.Get(how);
      if ret != 0 {
        return EINVAL;
      }
      isOpen := true;
      return 0;
    }

    /** `acapd_dma_close` on an MCDMA channel. */
    method Close() returns (unmapped: seq<Mmap>)
      modifies this`isOpen, dev
      ensures (dev.Abs(), isOpen) == CloseChannel(old(dev.Abs()), old(isOpen))
      ensures unmapped == if old(isOpen) && old(dev.ready) && old(dev.refs) == 1 then old(dev.mmaps) else []
    {
      if !isOpen {
        return [];
      }
      isOpen := false;
      unmapped := dev.Put();
    }

    ghost function Regs(): Registers
      reads this
    {
      Registers(curLow, curHigh, tailLow, tailHigh)
    }

    /** `acapd_dma_transfer` on an MCDMA channel. page is the fresh memory for the descriptors. A size that is let through
        has to need no more descriptors than a page holds, and a channel for which it is not empty has to have a maximum:
        `LoopEndsExactlyWhen` says that the loop otherwise leaves the page. */
    method Transfer(q: Request, tid: nat, page: array<Word>) returns (r: int)
      requires page.Length == RING_WORDS && tid < 256
      requires Reaches(dev.Abs(), q) && RingMapped(dev.Abs(), q) && EngineSize(q.size) > 0 ==>
        maxBuf > 0 && (EngineSize(q.size) + maxBuf - 1) / maxBuf <= RING_BDS
      modifies this`curLow, this`curHigh, this`tailLow, this`tailHigh, dev`mmaps, page
      ensures dev.Abs() == AfterTransfer(old(dev.Abs()), q)
      ensures var d := old(dev.Abs());
        if Reaches(d, q) && RingMapped(d, q) then
          && r == AsInt(EngineSize(q.size))
          && Programmed(d, q, maxBuf, if writes then tid else -1, old(page[..]), page[..], Regs())
        else
          r == EINVAL && page[..] == old(page[..]) && Regs() == old(Regs())
    {
      if q.va < q.shm.va || q.va + q.size > q.shm.va + q.shm.size {
        return EINVAL;
      }
      var n := q.size % W32;
      var buffer := dev.Translate(q.va);
      if buffer == NO_DA {
        return EINVAL;
      }
      if q.bdVa == 0 {
        return EINVAL;
      }
      var mapped := dev.Attach(Shm(q.bdVa, PAGE), q.kernel, q.room);
      if !mapped {
        return EINVAL;
      }
      var ring := dev.Translate(q.bdVa);
      if ring == NO_DA {
        return EINVAL;
      }
      if n > 0 {
        SplitCovers(buffer, n, maxBuf);
      }
      var tail := Program(page, ring, buffer, n, maxBuf, if writes then tid else -1);
      curLow, curHigh := Low(ring) / 64 * 64, High(ring);
      tailLow, tailHigh := Low(tail) / 64 * 64, High(tail);
      return AsInt(n);
    }
  }
}
