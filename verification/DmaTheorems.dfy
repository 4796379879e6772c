/** What holds over all uses of a shared DMA device: its lifetime, its mappings, and where its transfers go. */
module DmaTheorems {
  import opened Common
  import opened DmaRing
  import opened DmaSpec

  // ---------------------------------------------------------------- runs

  /** Something done to one of the channels of a device, or to its mappings. A transfer maps its descriptor page. */
  datatype Event =
    | Open(ch: nat, works: bool)
    | Close(ch: nat)
    | Attach(shm: Shm, kernel: bool, room: bool)
    | Detach(va: nat, unmap: int)
    | Transfer(q: Request)

  datatype System = System(dev: Device, isOpen: seq<bool>)

  predicate Named(e: Event, channels: nat) {
    (e.Open? || e.Close?) ==> e.ch < channels
  }

  function Perform(s: System, e: Event): (r: System)
    requires Named(e, |s.isOpen|)
    ensures |r.isOpen| == |s.isOpen|
  {
    match e
    case Open(ch, works) =>
      var (dev, isOpen, _) := OpenChannel(s.dev, s.isOpen[ch], works);
      System(dev, s.isOpen[ch := isOpen])
    case Close(ch) =>
      var (dev, isOpen) := CloseChannel(s.dev, s.isOpen[ch]);
      System(dev, s.isOpen[ch := isOpen])
    case Attach(shm, kernel, room) => s.(dev := AttachShm(s.dev, shm, kernel, room).0)
    case Detach(va, unmap) => s.(dev := DetachShm(s.dev, va, unmap).0)
    case Transfer(q) => s.(dev := AfterTransfer(s.dev, q))
  }

  function Run(s: System, events: seq<Event>): (r: System)
    requires forall i :: 0 <= i < |events| ==> Named(events[i], |s.isOpen|)
    ensures |r.isOpen| == |s.isOpen|
    decreases |events|
  {
    if events == [] then s else Perform(Run(s, events[..|events| - 1]), events[|events| - 1])
  }

  function Initial(channels: nat): System {
    System(Device(0, false, []), seq(channels, _ => false))
  }

  function OpenCount(isOpen: seq<bool>): nat {
    if isOpen == [] then 0 else (if isOpen[0] then 1 else 0) + OpenCount(isOpen[1..])
  }

  lemma {:induction false} OpenCountUpdate(isOpen: seq<bool>, k: nat, b: bool)
    requires k < |isOpen|
    ensures OpenCount(isOpen[k := b])
         == OpenCount(isOpen) - (if isOpen[k] then 1 else 0) + (if b then 1 else 0)
  {
    if k == 0 {
      assert isOpen[k := b][1..] == isOpen[1..];
    } else {
      OpenCountUpdate(isOpen[1..], k - 1, b);
      assert isOpen[k := b][1..] == isOpen[1..][k - 1 := b];
    }
  }

  lemma {:induction false} NoneOpen(n: nat)
    ensures OpenCount(seq(n, _ => false)) == 0
  {
    if n > 0 {
      NoneOpen(n - 1);
      assert seq(n, _ => false)[1..] == seq(n - 1, _ => false);
    }
  }

  /** A mapping whole pages long, on a page boundary, inside the 64-bit device space and not in its first page. */
  predicate PageWise(m: Mmap) {
    m.da % PAGE == 0 && m.size % PAGE == 0 && FIRST_DA <= m.da && m.da + m.size <= W64
  }

  predicate AllPageWise(ms: seq<Mmap>) {
    forall k :: 0 <= k < |ms| ==> PageWise(ms[k])
  }

  /** The device is open exactly while channels are, counts them, and maps nothing when none is. */
  predicate Sound(s: System) {
    && s.dev.refs == OpenCount(s.isOpen)
    && (s.dev.ready <==> s.dev.refs > 0)
    && (!s.dev.ready ==> s.dev.mmaps == [])
    && AllPageWise(s.dev.mmaps)
  }

  lemma {:induction false} ChosenDaIsPageWise(ms: seq<Mmap>, size: nat, da: nat)
    requires AllPageWise(ms) && da % PAGE == 0 && FIRST_DA <= da
    ensures ChooseDa(ms, size, da) % PAGE == 0 && FIRST_DA <= ChooseDa(ms, size, da)
    decreases ms
  {
    if ms != [] {
      assert PageWise(ms[0]);
      ChosenDaIsPageWise(ms[1..], size, Pass(da, size, ms[0]));
    }
  }

  lemma AttachKeeps(d: Device, shm: Shm, kernel: bool, room: bool)
    requires AllPageWise(d.mmaps)
    ensures AllPageWise(AttachShm(d, shm, kernel, room).0.mmaps)
  {
    ChosenDaIsPageWise(d.mmaps, AlignUp(shm.size), FIRST_DA);
  }

  /** Everything done keeps the device sound; and opening a closed channel fails, changing nothing, exactly if it is the
      first one and the device cannot be ready. */
  lemma PerformKeeps(s: System, e: Event)
    requires Sound(s) && Named(e, |s.isOpen|)
    ensures Sound(Perform(s, e))
    ensures e.Open? && !s.isOpen[e.ch] ==>
      if OpenCount(s.isOpen) == 0 && !e.works then Perform(s, e) == s else Perform(s, e).isOpen[e.ch]
  {
    match e
    case Open(ch, works) =>
      OpenCountUpdate(s.isOpen, ch, OpenChannel(s.dev, s.isOpen[ch], works).1);
      if !s.isOpen[ch] {
        assert s.isOpen[ch := false] == s.isOpen;
      }
    case Close(ch) =>
      OpenCountUpdate(s.isOpen, ch, false);
    case Attach(shm, kernel, room) =>
      AttachKeeps(s.dev, shm, kernel, room);
    case Detach(va, unmap) =>
    case Transfer(q) =>
      AttachKeeps(s.dev, Shm(q.bdVa, PAGE), q.kernel, q.room);
  }

  /** Over any interleaving of opens and closes of any number of channels, and of anything else done to the device. */
  lemma {:induction false} RunKeeps(channels: nat, events: seq<Event>)
    requires forall i :: 0 <= i < |events| ==> Named(events[i], channels)
    ensures Sound(Run(Initial(channels), events))
    decreases |events|
  {
    if events == [] {
      NoneOpen(channels);
    } else {
      var last := |events| - 1;
      RunKeeps(channels, events[..last]);
      PerformKeeps(Run(Initial(channels), events[..last]), events[last]);
    }
  }

  /** Closing the last open channel closes the device with nothing mapped; closing any other leaves the mappings. */
  lemma CloseEndsLifetime(s: System, ch: nat)
    requires Sound(s) && ch < |s.isOpen| && s.isOpen[ch]
    ensures var r := Perform(s, Close(ch));
      && r.dev.refs == s.dev.refs - 1
      && (OpenCount(s.isOpen) == 1 ==> !r.dev.ready && r.dev.mmaps == [])
      && (OpenCount(s.isOpen) > 1 ==> r.dev.ready && r.dev.mmaps == s.dev.mmaps)
  {
    OpenCountUpdate(s.isOpen, ch, false);
  }

  // ---------------------------------------------------------------- device addresses

  predicate Apart(a: nat, n: nat, b: nat, m: nat) {
    a + n <= b || b + m <= a
  }

  ghost predicate VaDisjoint(ms: seq<Mmap>) {
    forall i, j :: 0 <= i < j < |ms| ==> Apart(ms[i].va, ms[i].size, ms[j].va, ms[j].size)
  }

  ghost predicate DaDisjoint(ms: seq<Mmap>) {
    forall i, j :: 0 <= i < j < |ms| ==> Apart(ms[i].da, ms[i].size, ms[j].da, ms[j].size)
  }

  /** Mappings of at least a byte, each starting at the device address where the one before it ends, the first at da. */
  predicate Stacked(ms: seq<Mmap>, da: nat) {
    ms == [] || (ms[0].da == da && ms[0].size > 0 && Stacked(ms[1..], da + ms[0].size))
  }

  function Top(ms: seq<Mmap>, da: nat): nat {
    if ms == [] then da else Top(ms[1..], da + ms[0].size)
  }

  /** Grouping the mappings from the first on, each group closed as soon as it is size long: the length of the group that
      is left open at the end. */
  function Leftover(ms: seq<Mmap>, size: nat, group: nat): nat {
    if ms == [] then group
    else Leftover(ms[1..], size, if size <= group + ms[0].size then 0 else group + ms[0].size)
  }

  lemma {:induction false} ChosenInStack(ms: seq<Mmap>, size: nat, da: nat, group: nat)
    requires Stacked(ms, da) && group < size && group <= da
    ensures ChooseDa(ms, size, da - group) == Top(ms, da) - Leftover(ms, size, group)
    ensures Leftover(ms, size, group) < size
    decreases ms
  {
    if ms != [] {
      var m := ms[0];
      if size <= group + m.size {
        ChosenInStack(ms[1..], size, da + m.size, 0);
      } else {
        assert da - group == (da + m.size) - (group + m.size);
        ChosenInStack(ms[1..], size, da + m.size, group + m.size);
      }
    }
  }

  lemma {:induction false} InStack(ms: seq<Mmap>, da: nat, k: nat)
    requires Stacked(ms, da) && k < |ms|
    ensures da <= ms[k].da && ms[k].da + ms[k].size <= Top(ms, da)
    ensures k == |ms| - 1 ==> ms[k].da + ms[k].size == Top(ms, da)
    decreases ms
  {
    if k > 0 {
      InStack(ms[1..], da + ms[0].size, k - 1);
    } else if |ms| > 1 {
      InStack(ms[1..], da + ms[0].size, |ms| - 2);
      StackRises(ms[1..], da + ms[0].size);
    }
  }

  lemma {:induction false} StackRises(ms: seq<Mmap>, da: nat)
    ensures da <= Top(ms, da)
    decreases ms
  {
    if ms != [] {
      StackRises(ms[1..], da + ms[0].size);
    }
  }

  /** On mappings stacked without a gap the address chosen for a new one overlaps none of them exactly if the groups come out
      even; otherwise it overlaps the last. */
  lemma StackFitsExactlyWhen(ms: seq<Mmap>, size: nat)
    requires Stacked(ms, FIRST_DA) && size > 0
    ensures var da := ChooseDa(ms, size, FIRST_DA);
      && ((forall k :: 0 <= k < |ms| ==> Apart(da, size, ms[k].da, ms[k].size)) <==> Leftover(ms, size, 0) == 0)
      && (Leftover(ms, size, 0) == 0 ==> da == Top(ms, FIRST_DA))
  {
    ChosenInStack(ms, size, FIRST_DA, 0);
    var da := ChooseDa(ms, size, FIRST_DA);
    if Leftover(ms, size, 0) == 0 {
      forall k | 0 <= k < |ms| ensures Apart(da, size, ms[k].da, ms[k].size) {
        InStack(ms, FIRST_DA, k);
      }
    } else {
      var last := |ms| - 1;
      InStack(ms, FIRST_DA, last);
      assert !Apart(da, size, ms[last].da, ms[last].size);
    }
  }

  lemma {:induction false} SmallLeavesNone(ms: seq<Mmap>, size: nat)
    requires forall k :: 0 <= k < |ms| ==> size <= ms[k].size
    ensures Leftover(ms, size, 0) == 0
    decreases ms
  {
    if ms != [] {
      SmallLeavesNone(ms[1..], size);
    }
  }

  lemma {:induction false} StackGrows(ms: seq<Mmap>, da: nat, va: nat, size: nat)
    requires Stacked(ms, da) && size > 0
    ensures Stacked(ms + [Mmap(va, Top(ms, da), size)], da)
    decreases ms
  {
    var m := Mmap(va, Top(ms, da), size);
    if ms != [] {
      StackGrows(ms[1..], da + ms[0].size, va, size);
      assert (ms + [m])[1..] == ms[1..] + [m];
    }
  }

  lemma {:induction false} StackIsDisjoint(ms: seq<Mmap>, da: nat)
    requires Stacked(ms, da)
    ensures DaDisjoint(ms)
    decreases ms
  {
    if ms != [] {
      StackIsDisjoint(ms[1..], da + ms[0].size);
      forall i, j | 0 <= i < j < |ms| ensures Apart(ms[i].da, ms[i].size, ms[j].da, ms[j].size) {
        InStack(ms[1..], da + ms[0].size, j - 1);
        if i > 0 {
          assert ms[i] == ms[1..][i - 1] && ms[j] == ms[1..][j - 1];
        }
      }
    }
  }

  /** Attaching one memory after the other, all to an open device. */
  function AttachAll(d: Device, shms: seq<Shm>): Device
    decreases |shms|
  {
    if shms == [] then d
    else AttachShm(AttachAll(d, shms[..|shms| - 1]), shms[|shms| - 1], true, true).0
  }

  /** Grouping memories as `Leftover` groups their mappings. */
  function Group(shms: seq<Shm>, size: nat, group: nat): nat {
    if shms == [] then group
    else
      var next := group + AlignUp(shms[0].size);
      Group(shms[1..], size, if size <= next then 0 else next)
  }

  lemma {:induction false} LeftoverIsGroup(ms: seq<Mmap>, shms: seq<Shm>, size: nat, group: nat)
    requires |ms| == |shms| && forall k :: 0 <= k < |ms| ==> ms[k].size == AlignUp(shms[k].size)
    ensures Leftover(ms, size, group) == Group(shms, size, group)
    decreases |ms|
  {
    if ms != [] {
      var next := group + ms[0].size;
      LeftoverIsGroup(ms[1..], shms[1..], size, if size <= next then 0 else next);
    }
  }

  /** The memories before each one group evenly by its size. */
  ghost predicate GroupEvenly(shms: seq<Shm>) {
    forall i :: 0 <= i < |shms| ==> Group(shms[..i], AlignUp(shms[i].size), 0) == 0
  }

  lemma GroupOneMore(shms: seq<Shm>, shm: Shm)
    ensures GroupEvenly(shms + [shm]) <==> GroupEvenly(shms) && Group(shms, AlignUp(shm.size), 0) == 0
  {
    var all := shms + [shm];
    assert all[..|shms|] == shms;
    assert forall i :: 0 <= i < |shms| ==> all[i] == shms[i] && all[..i] == shms[..i];
  }

  /** Each memory is attached at most once; if all are, the mappings have their sizes. */
  lemma {:induction false} AttachedOnce(d: Device, shms: seq<Shm>)
    requires d.ready && d.mmaps == []
    ensures var r := AttachAll(d, shms);
      && r.ready && |r.mmaps| <= |shms|
      && (|r.mmaps| == |shms| ==> forall k :: 0 <= k < |shms| ==> r.mmaps[k].size == AlignUp(shms[k].size))
    decreases |shms|
  {
    if shms != [] {
      AttachedOnce(d, shms[..|shms| - 1]);
    }
  }

  lemma LastMayOverlap(ms: seq<Mmap>, m: Mmap)
    ensures DaDisjoint(ms + [m]) <==>
      DaDisjoint(ms) && forall k :: 0 <= k < |ms| ==> Apart(m.da, m.size, ms[k].da, ms[k].size)
  {
    var all := ms + [m];
    assert all[|ms|] == m && forall k :: 0 <= k < |ms| ==> all[k] == ms[k];
    if DaDisjoint(all) {
      forall k | 0 <= k < |ms| ensures Apart(m.da, m.size, ms[k].da, ms[k].size) {
        assert Apart(all[k].da, all[k].size, all[|ms|].da, all[|ms|].size);
      }
      forall i, j | 0 <= i < j < |ms| ensures Apart(ms[i].da, ms[i].size, ms[j].da, ms[j].size) {
        assert Apart(all[i].da, all[i].size, all[j].da, all[j].size);
      }
    }
  }

  /** Memories attached one after the other, none empty and none refused, get device addresses that do not overlap exactly
      if the ones before each of them group evenly by its size. */
  lemma {:induction false} NoOverlapExactlyWhen(shms: seq<Shm>, refs: nat)
    requires forall i :: 0 <= i < |shms| ==> shms[i].size > 0
    requires |AttachAll(Device(refs, true, []), shms).mmaps| == |shms|
    ensures var ms := AttachAll(Device(refs, true, []), shms).mmaps;
      (DaDisjoint(ms) <==> GroupEvenly(shms)) && (GroupEvenly(shms) ==> Stacked(ms, FIRST_DA))
    decreases |shms|
  {
    if shms != [] {
      var rest, shm := shms[..|shms| - 1], shms[|shms| - 1];
      assert shms == rest + [shm];
      AttachedOnce(Device(refs, true, []), rest);
      NoOverlapExactlyWhen(rest, refs);
      GroupOneMore(rest, shm);
      var before := AttachAll(Device(refs, true, []), rest).mmaps;
      var size := AlignUp(shm.size);
      LastMayOverlap(before, Mmap(shm.va, ChooseDa(before, size, FIRST_DA), size));
      LeftoverIsGroup(before, rest, size, 0);
      if GroupEvenly(rest) {
        StackFitsExactlyWhen(before, size);
        if GroupEvenly(shms) {
          StackGrows(before, FIRST_DA, shm.va, size);
        }
      }
    }
  }

  /** Memories attached in order of falling size, none empty, never share a device address. */
  lemma {:induction false} FallingSizesAreDisjoint(shms: seq<Shm>, refs: nat)
    requires forall i :: 0 <= i < |shms| ==> shms[i].size > 0
    requires forall i, j :: 0 <= i < j < |shms| ==> AlignUp(shms[j].size) <= AlignUp(shms[i].size)
    ensures var d := AttachAll(Device(refs, true, []), shms);
      && d.ready && Stacked(d.mmaps, FIRST_DA) && DaDisjoint(d.mmaps)
      && forall k :: 0 <= k < |d.mmaps| ==> exists i :: 0 <= i < |shms| && d.mmaps[k].size == AlignUp(shms[i].size)
    decreases |shms|
  {
    var d := AttachAll(Device(refs, true, []), shms);
    if shms != [] {
      var rest, shm := shms[..|shms| - 1], shms[|shms| - 1];
      FallingSizesAreDisjoint(rest, refs);
      var before := AttachAll(Device(refs, true, []), rest);
      var size := AlignUp(shm.size);
      forall k | 0 <= k < |before.mmaps| ensures size <= before.mmaps[k].size {
        var i :| 0 <= i < |rest| && before.mmaps[k].size == AlignUp(rest[i].size);
        assert rest[i] == shms[i];
      }
      SmallLeavesNone(before.mmaps, size);
      StackFitsExactlyWhen(before.mmaps, size);
      StackGrows(before.mmaps, FIRST_DA, shm.va, size);
      forall k | 0 <= k < |d.mmaps|
        ensures exists i :: 0 <= i < |shms| && d.mmaps[k].size == AlignUp(shms[i].size)
      {
        if k < |before.mmaps| {
          var i :| 0 <= i < |rest| && before.mmaps[k].size == AlignUp(rest[i].size);
          assert shms[i] == rest[i];
        } else {
          assert d.mmaps[k].size == AlignUp(shms[|shms| - 1].size);
        }
      }
    }
    StackIsDisjoint(d.mmaps, FIRST_DA);
  }

  /** A page and then two pages are given the same device address. */
  lemma RisingSizesOverlap(refs: nat, va: nat, other: nat)
    ensures AttachAll(Device(refs, true, []), [Shm(va, 4096), Shm(other, 8192)]).mmaps
         == [Mmap(va, 0x1000, 4096), Mmap(other, 0x1000, 8192)]
  {
    var none := Device(refs, true, []);
    var small, large := Shm(va, 4096), Shm(other, 8192);
    assert AttachAll(none, []) == none;
    assert [small][..0] == [];
    var one := AttachAll(none, [small]);
    assert one == AttachShm(none, small, true, true).0;
    assert one.mmaps == [Mmap(va, 0x1000, 4096)];
    assert [small, large][..1] == [small];
    assert AttachAll(none, [small, large]) == AttachShm(one, large, true, true).0;
    assert ChooseDa([], 8192, 0x1000) == 0x1000;
    assert ChooseDa(one.mmaps, 8192, 0x1000) == 0x1000;
  }

  // ---------------------------------------------------------------- translation

  /** No mapping is empty. */
  predicate NoneEmpty(ms: seq<Mmap>) {
    forall i :: 0 <= i < |ms| ==> ms[i].size > 0
  }

  /** On an open device whose mappings do not overlap, an address is translated by the mapping that covers it. */
  lemma TranslatedBy(d: Device, k: nat, va: nat)
    requires d.ready && VaDisjoint(d.mmaps) && k < |d.mmaps| && Covers(d.mmaps[k], va)
    ensures VaToDa(d, va) == d.mmaps[k].da + (va - d.mmaps[k].va)
  {
    OnlyCover(d.mmaps, k, va);
  }

  lemma TranslatedByNone(d: Device, va: nat)
    requires d.ready && forall k :: 0 <= k < |d.mmaps| ==> !Covers(d.mmaps[k], va)
    ensures VaToDa(d, va) == NO_DA
  {
  }

  /** Mapping one more memory that overlaps none makes its addresses known, page by page, and leaves all others as they were. */
  lemma AttachTranslates(d: Device, shm: Shm, kernel: bool, room: bool, va: nat)
    requires d.ready && AttachShm(d, shm, kernel, room).1 && VaDisjoint(AttachShm(d, shm, kernel, room).0.mmaps)
    requires AllPageWise(d.mmaps)
    ensures var after := AttachShm(d, shm, kernel, room).0;
      if shm.va <= va < shm.va + AlignUp(shm.size) then
        VaToDa(after, va) - (va - shm.va) >= FIRST_DA && (VaToDa(after, va) - (va - shm.va)) % PAGE == 0
      else VaToDa(after, va) == VaToDa(d, va)
  {
    var after, n := AttachShm(d, shm, kernel, room).0, |d.mmaps|;
    AttachKeeps(d, shm, kernel, room);
    DisjointBefore(d.mmaps, after.mmaps);
    assert after.mmaps[n].va == shm.va && PageWise(after.mmaps[n]);
    if Covers(after.mmaps[n], va) {
      TranslatedBy(after, n, va);
    } else if k :| 0 <= k < n && Covers(d.mmaps[k], va) {
      TranslatedBy(d, k, va);
      assert after.mmaps[k] == d.mmaps[k];
      TranslatedBy(after, k, va);
    } else {
      TranslatedByNone(after, va);
    }
  }

  /** Unmapping takes one mapping at the address away, the first, and leaves the others in order; with none it fails. The entry
      goes whatever the kernel answers, and that is the answer. */
  lemma DetachTakesOne(d: Device, va: nat, unmap: int)
    requires d.ready
    ensures var (after, rv) := DetachShm(d, va, unmap);
      if forall k :: 0 <= k < |d.mmaps| ==> d.mmaps[k].va != va then after == d && rv == EINVAL
      else
        && rv == unmap && after == d.(mmaps := after.mmaps)
        && exists before: seq<Mmap>, m: Mmap, behind: seq<Mmap> ::
             && d.mmaps == before + [m] + behind && after.mmaps == before + behind && m.va == va
             && forall k :: 0 <= k < |before| ==> before[k].va != va
  {
    var k := FirstAt(d.mmaps, va, 0);
    if k < |d.mmaps| {
      assert d.mmaps == d.mmaps[..k] + [d.mmaps[k]] + d.mmaps[k + 1..];
    }
  }

  /** After that its addresses are unknown, and all others are translated as before. */
  lemma DetachTranslates(d: Device, k: nat, unmap: int, va: nat)
    requires d.ready && VaDisjoint(d.mmaps) && NoneEmpty(d.mmaps) && k < |d.mmaps|
    ensures var after := DetachShm(d, d.mmaps[k].va, unmap).0;
      VaToDa(after, va) == if Covers(d.mmaps[k], va) then NO_DA else VaToDa(d, va)
  {
    var after, ms := DetachShm(d, d.mmaps[k].va, unmap).0, d.mmaps;
    assert Covers(ms[k], ms[k].va);
    OneAt(ms, k);
    assert after.mmaps == ms[..k] + ms[k + 1..];
    if i :| 0 <= i < |ms| && i != k && Covers(ms[i], va) {
      assert Apart(ms[if i < k then i else k].va, ms[if i < k then i else k].size,
                   ms[if i < k then k else i].va, ms[if i < k then k else i].size);
      TranslatedBy(d, i, va);
      WithoutOneIsDisjoint(ms, k);
      TranslatedBy(after, if i < k then i else i - 1, va);
    } else {
      forall j | 0 <= j < |after.mmaps|
        ensures !Covers(after.mmaps[j], va)
      {
        assert after.mmaps[j] == ms[if j < k then j else j + 1];
      }
      TranslatedByNone(after, va);
      if !Covers(ms[k], va) {
        TranslatedByNone(d, va);
      }
    }
  }

  lemma OneAt(ms: seq<Mmap>, k: nat)
    requires VaDisjoint(ms) && NoneEmpty(ms) && k < |ms|
    ensures FirstAt(ms, ms[k].va, 0) == k
  {
    var i := FirstAt(ms, ms[k].va, 0);
    assert i < k ==> Apart(ms[i].va, ms[i].size, ms[k].va, ms[k].size);
  }

  lemma WithoutOneIsDisjoint(ms: seq<Mmap>, k: nat)
    requires VaDisjoint(ms) && k < |ms|
    ensures VaDisjoint(ms[..k] + ms[k + 1..])
  {
    var r := ms[..k] + ms[k + 1..];
    forall i, j | 0 <= i < j < |r|
      ensures Apart(r[i].va, r[i].size, r[j].va, r[j].size)
    {
      var a, b := if i < k then i else i + 1, if j < k then j else j + 1;
      assert r[i] == ms[a] && r[j] == ms[b];
    }
  }

  /** Mapping a memory that is not mapped and unmapping it again gives the device back. */
  lemma AttachThenDetach(d: Device, shm: Shm, kernel: bool, room: bool, unmap: int)
    requires d.ready && AttachShm(d, shm, kernel, room).1 && forall k :: 0 <= k < |d.mmaps| ==> d.mmaps[k].va != shm.va
    ensures DetachShm(AttachShm(d, shm, kernel, room).0, shm.va, unmap) == (d, unmap)
  {
    var after, n := AttachShm(d, shm, kernel, room).0, |d.mmaps|;
    var k := FirstAt(after.mmaps, shm.va, 0);
    assert forall j :: 0 <= j < n ==> after.mmaps[j] == d.mmaps[j];
    assert after.mmaps[n].va == shm.va;
    assert after.mmaps[..n] + after.mmaps[n + 1..] == d.mmaps;
  }

  // ---------------------------------------------------------------- transfers

  lemma OnlyCover(ms: seq<Mmap>, k: nat, va: nat)
    requires VaDisjoint(ms) && k < |ms| && Covers(ms[k], va)
    ensures FirstCover(ms, va, 0) == k
  {
    var i := FirstCover(ms, va, 0);
    assert i < k ==> Apart(ms[i].va, ms[i].size, ms[k].va, ms[k].size);
  }

  lemma PageIsAligned(da: nat)
    requires da % PAGE == 0
    ensures da % BD_SIZE == 0
  {
    assert da == 64 * (64 * (da / PAGE));
  }

  /** The descriptor page a transfer maps gets a ring on a page boundary that ends inside the 64-bit space. */
  lemma RingIsAligned(d: Device, q: Request)
    requires AllPageWise(d.mmaps) && RingMapped(d, q) && VaDisjoint(WithPage(d, q).0.mmaps)
    ensures RingOf(d, q) % BD_SIZE == 0 && RingOf(d, q) + BD_SIZE * RING_BDS <= W64
  {
    var after := WithPage(d, q).0;
    AttachKeeps(d, Shm(q.bdVa, PAGE), q.kernel, q.room);
    var last := |d.mmaps|;
    var m := after.mmaps[last];
    assert m.size == PAGE && m.va == q.bdVa && PageWise(m);
    OnlyCover(after.mmaps, last, q.bdVa);
    PageIsAligned(m.da);
  }

  /** A transfer let through against a mapped memory is translated by that memory's own mapping. */
  lemma BufferIsOwn(d: Device, k: nat, q: Request)
    requires d.ready && AllPageWise(d.mmaps) && VaDisjoint(d.mmaps)
    requires k < |d.mmaps| && d.mmaps[k].va == q.shm.va && d.mmaps[k].size == AlignUp(q.shm.size)
    requires InBounds(q) && EngineSize(q.size) > 0
    ensures VaToDa(d, q.va) == d.mmaps[k].da + (q.va - q.shm.va)
    ensures VaToDa(d, q.va) + EngineSize(q.size) <= d.mmaps[k].da + d.mmaps[k].size <= W64
  {
    assert EngineSize(q.size) <= q.size;
    OnlyCover(d.mmaps, k, q.va);
    assert PageWise(d.mmaps[k]);
  }

  /** A transfer let through against the mapped memory that entry k of the list is for, in a reachable state in which the
      mapped memories do not overlap, the descriptor page being mapped behind them. */
  ghost predicate Accepted(s: System, k: nat, q: Request) {
    && Sound(s) && Reaches(s.dev, q) && RingMapped(s.dev, q)
    && k < |s.dev.mmaps| && s.dev.mmaps[k].va == q.shm.va && s.dev.mmaps[k].size == AlignUp(q.shm.size)
    && VaDisjoint(WithPage(s.dev, q).0.mmaps)
  }

  /** The ring is on a page boundary. A transfer that gives the engine anything starts at the device address that is as far
      into the memory's own mapping as va is into the memory, and ends inside that mapping. */
  lemma TransferIsPlaced(s: System, k: nat, q: Request)
    requires Accepted(s, k, q)
    ensures RingOf(s.dev, q) % BD_SIZE == 0 && RingOf(s.dev, q) + BD_SIZE * RING_BDS <= W64
    ensures var m, buffer := s.dev.mmaps[k], VaToDa(s.dev, q.va);
      EngineSize(q.size) > 0 ==>
        && buffer - m.da == q.va - m.va >= 0
        && buffer + EngineSize(q.size) <= m.da + m.size <= W64
  {
    DisjointBefore(s.dev.mmaps, WithPage(s.dev, q).0.mmaps);
    RingIsAligned(s.dev, q);
    if EngineSize(q.size) > 0 {
      BufferIsOwn(s.dev, k, q);
    }
  }

  /** What the registers hold are the addresses of the first and the last descriptor. */
  lemma RegistersPoint(regs: Registers, ring: nat, segs: seq<Segment>)
    requires Points(regs, ring, TailOf(ring, segs)) && |segs| <= RING_BDS
    requires ring % BD_SIZE == 0 && ring + BD_SIZE * RING_BDS <= W64
    ensures Pair(regs.curLow, regs.curHigh) == ring && Pair(regs.tailLow, regs.tailHigh) == TailOf(ring, segs)
  {
    PointerWords(ring);
    PointerWords(TailOf(ring, segs));
  }

  /** What the engine meets, sent from the current to the tail descriptor register. */
  function Met(words: seq<Word>, ring: nat, regs: Registers, fuel: nat): Option<seq<Segment>>
    requires |words| == RING_WORDS
  {
    Walk(words, ring, Pair(regs.curLow, regs.curHigh), Pair(regs.tailLow, regs.tailHigh), fuel)
  }

  /** The engine is sent over exactly these bytes: pieces none of which is empty, in order, without a gap. */
  ghost predicate CoversExactly(met: Option<seq<Segment>>, buffer: nat, size: nat) {
    && met.Some? && Contiguous(met.value, buffer) && Total(met.value) == size
    && forall j :: 0 <= j < |met.value| ==> met.value[j].len > 0
  }

  /** The pieces are few enough, short enough, and all inside the memory's own mapping. */
  ghost predicate InWindow(segs: seq<Segment>, n: nat, max: nat, m: Mmap)
    requires max > 0
  {
    && |segs| == (n + max - 1) / max
    && forall j :: 0 <= j < |segs| ==>
         segs[j].len <= max && m.da <= segs[j].addr && segs[j].addr + segs[j].len <= m.da + m.size
  }

  lemma PiecesCover(buffer: nat, n: nat, max: nat, segs: seq<Segment>)
    requires 0 < n && 0 < max && segs == Split(buffer, n, max)
    ensures CoversExactly(Some(segs), buffer, n) && |segs| == (n + max - 1) / max && segs != []
    ensures forall j :: 0 <= j < |segs| ==>
      segs[j].len <= max && buffer <= segs[j].addr && segs[j].addr + segs[j].len <= buffer + n
  {
    SplitCovers(buffer, n, max);
    forall j | 0 <= j < |segs|
      ensures buffer <= segs[j].addr && segs[j].addr + segs[j].len <= buffer + n
    {
      SplitStaysInside(buffer, n, max, j);
    }
  }

  lemma MetIsWalk(words: seq<Word>, ring: nat, segs: seq<Segment>, regs: Registers, fuel: nat)
    requires |words| == RING_WORDS && Points(regs, ring, TailOf(ring, segs)) && |segs| <= RING_BDS
    requires ring % BD_SIZE == 0 && ring + BD_SIZE * RING_BDS <= W64
    ensures Met(words, ring, regs, fuel) == Walk(words, ring, ring, TailOf(ring, segs), fuel)
  {
    RegistersPoint(regs, ring, segs);
  }

  /** What the page of a transfer that gives the engine anything means to the engine. */
  lemma PageIsMet(s: System, k: nat, q: Request, max: nat, tid: int, was: seq<Word>, words: seq<Word>, ring: nat,
                  buffer: nat, segs: seq<Segment>, fuel: nat)
    requires Accepted(s, k, q) && max > 0 && EngineSize(q.size) > 0
    requires ring == RingOf(s.dev, q) && buffer == VaToDa(s.dev, q.va) && segs == Pieces(s.dev, q, max)
    requires |was| == RING_WORDS && tid < 256 && |segs| <= RING_BDS <= fuel && HoldsRing(words, was, ring, segs, tid)
    ensures segs != [] && Walk(words, ring, ring, TailOf(ring, segs), fuel) == Some(Cut(segs))
    ensures Decode(words, |segs| - 1).next == TailOf(ring, segs)
  {
    TransferIsPlaced(s, k, q);
    EngineSeesBuffer(words, was, ring, buffer, EngineSize(q.size), max, tid, segs, fuel);
  }

  lemma PiecesAreInWindow(s: System, k: nat, q: Request, max: nat, buffer: nat, segs: seq<Segment>)
    requires Accepted(s, k, q) && max > 0 && EngineSize(q.size) > 0
    requires buffer == VaToDa(s.dev, q.va) && segs == Pieces(s.dev, q, max)
    ensures CoversExactly(Some(segs), buffer, EngineSize(q.size))
    ensures InWindow(segs, EngineSize(q.size), max, s.dev.mmaps[k])
    ensures InWindow(Cut(segs), EngineSize(q.size), max, s.dev.mmaps[k])
    ensures buffer - s.dev.mmaps[k].da == q.va - s.dev.mmaps[k].va >= 0
  {
    TransferIsPlaced(s, k, q);
    PiecesCover(buffer, EngineSize(q.size), max, segs);
    CutIsInWindow(segs, EngineSize(q.size), max, s.dev.mmaps[k]);
  }

  lemma CutIsInWindow(segs: seq<Segment>, n: nat, max: nat, m: Mmap)
    requires max > 0 && InWindow(segs, n, max, m)
    ensures InWindow(Cut(segs), n, max, m)
  {
    forall j | 0 <= j < |segs|
      ensures Cut(segs)[j].addr == segs[j].addr && Cut(segs)[j].len <= segs[j].len
    {
    }
  }

  /** So what the engine meets of a transfer are the pieces of the buffer, with the low 26 bits of their lengths, none of it
      outside the memory's own mapping; the last descriptor points to itself. */
  lemma TransferStaysInWindow(s: System, k: nat, q: Request, max: nat, tid: int, was: seq<Word>, words: seq<Word>,
                              regs: Registers, ring: nat, buffer: nat, segs: seq<Segment>, fuel: nat)
    requires Accepted(s, k, q) && max > 0 && EngineSize(q.size) > 0
    requires |was| == RING_WORDS && tid < 256 && Programmed(s.dev, q, max, tid, was, words, regs) && fuel >= RING_BDS
    requires ring == RingOf(s.dev, q) && buffer == VaToDa(s.dev, q.va) && segs == Pieces(s.dev, q, max)
    ensures segs != [] && Met(words, ring, regs, fuel) == Some(Cut(segs))
    ensures Decode(words, |segs| - 1).next == TailOf(ring, segs)
    ensures CoversExactly(Some(segs), buffer, EngineSize(q.size))
    ensures InWindow(segs, EngineSize(q.size), max, s.dev.mmaps[k])
    ensures InWindow(Cut(segs), EngineSize(q.size), max, s.dev.mmaps[k])
    ensures buffer - s.dev.mmaps[k].da == q.va - s.dev.mmaps[k].va >= 0
  {
    TransferIsPlaced(s, k, q);
    PiecesAreInWindow(s, k, q, max, buffer, segs);
    PageIsMet(s, k, q, max, tid, was, words, ring, buffer, segs, fuel);
    MetIsWalk(words, ring, segs, regs, fuel);
  }

  /** An engine started on a page without descriptors meets the one that happens to stand there. */
  lemma NothingWritten(words: seq<Word>, ring: nat, fuel: nat)
    requires |words| == RING_WORDS && fuel > 0
    ensures Walk(words, ring, ring, ring, fuel) == Some([Decode(words, 0).segment])
    ensures Total([Decode(words, 0).segment]) == Decode(words, 0).segment.len < LENGTH_LIMIT
  {
    SlotIs(ring, 0);
    assert Read(words)[0] == Decode(words, 0);
    assert [Decode(words, 0).segment][1..] == [];
  }

  /** The pieces as the engine meets them are the buffer exactly if no number was cut off. */
  lemma CutCoversExactly(buffer: nat, max: nat, segs: seq<Segment>, size: nat)
    requires EngineSize(size) > 0 && max > 0 && segs == Split(buffer, EngineSize(size), max)
    ensures CoversExactly(Some(Cut(segs)), buffer, size) <==> 0 < size < W32 && Min(size, max) < LENGTH_LIMIT
  {
    var n := EngineSize(size);
    CutCovers(buffer, n, max, segs, size);
    PiecesAreSmall(buffer, n, max);
    CutIsWhole(segs);
  }

  lemma NothingCovers(seg: Segment, buffer: nat, size: nat)
    requires Total([seg]) == seg.len < LENGTH_LIMIT && EngineSize(size) == 0
    ensures !CoversExactly(Some([seg]), buffer, size) && !(0 < size < W32)
  {
    assert [seg][0] == seg;
  }

  lemma NothingIsMet(s: System, k: nat, q: Request, max: nat, tid: int, was: seq<Word>, words: seq<Word>,
                     regs: Registers, ring: nat, fuel: nat)
    requires Accepted(s, k, q) && EngineSize(q.size) == 0 && ring == RingOf(s.dev, q)
    requires |was| == RING_WORDS && tid < 256 && Programmed(s.dev, q, max, tid, was, words, regs) && fuel >= RING_BDS
    ensures Met(words, ring, regs, fuel) == Some([Decode(words, 0).segment])
  {
    TransferIsPlaced(s, k, q);
    assert Pieces(s.dev, q, max) == [];
    MetIsWalk(words, ring, [], regs, fuel);
    NothingWritten(words, ring, fuel);
  }

  /** The engine meets the buffer that was asked for exactly if it is not empty, its size has 32 bits, and the length of its
      first piece 26. */
  lemma TransferMeetsExactlyWhen(s: System, k: nat, q: Request, max: nat, tid: int, was: seq<Word>, words: seq<Word>,
                                 regs: Registers, ring: nat, buffer: nat, fuel: nat)
    requires Accepted(s, k, q) && (EngineSize(q.size) > 0 ==> max > 0)
    requires |was| == RING_WORDS && tid < 256 && Programmed(s.dev, q, max, tid, was, words, regs) && fuel >= RING_BDS
    requires ring == RingOf(s.dev, q) && buffer == VaToDa(s.dev, q.va)
    ensures CoversExactly(Met(words, ring, regs, fuel), buffer, q.size) <==>
      0 < q.size < W32 && Min(q.size, max) < LENGTH_LIMIT
  {
    if EngineSize(q.size) > 0 {
      var segs := Pieces(s.dev, q, max);
      TransferStaysInWindow(s, k, q, max, tid, was, words, regs, ring, buffer, segs, fuel);
      CutCoversExactly(buffer, max, segs, q.size);
    } else {
      NothingIsMet(s, k, q, max, tid, was, words, regs, ring, fuel);
      NothingWritten(words, ring, fuel);
      NothingCovers(Decode(words, 0).segment, buffer, q.size);
    }
  }

  /** A channel is opened and one memory attached: what that comes to. */
  lemma AttachedAlone(va: nat, size: nat)
    requires FIRST_DA + AlignUp(size) <= W64
    ensures Run(Initial(1), [Open(0, true), Attach(Shm(va, size), true, true)])
         == System(Device(1, true, [Mmap(va, FIRST_DA, AlignUp(size))]), [true])
  {
    var open, attach := Open(0, true), Attach(Shm(va, size), true, true);
    assert [open][..0] == [] && [open, attach][..1] == [open];
    assert Run(Initial(1), []) == Initial(1);
    assert Run(Initial(1), [open]) == System(Device(1, true, []), [true]);
    assert ChooseDa([], AlignUp(size), FIRST_DA) == FIRST_DA;
  }

  /** A transfer of a whole memory, on that device, with its descriptors behind the memory. */
  function WholeTransfer(va: nat, size: nat, gap: nat): Request {
    Request(Shm(va, size), va, size, va + AlignUp(size) + gap, true, true)
  }

  /** The device address of the page: behind the memory's own. */
  lemma PageIsBehind(d: Device, va: nat, size: nat, gap: nat)
    requires d == Device(1, true, [Mmap(va, FIRST_DA, AlignUp(size))]) && size > 0
    requires FIRST_DA + AlignUp(size) + PAGE <= W64
    ensures WithPage(d, WholeTransfer(va, size, gap))
         == (Device(1, true, d.mmaps + [Mmap(va + AlignUp(size) + gap, FIRST_DA + AlignUp(size), PAGE)]), true)
  {
    var a := AlignUp(size);
    WholePage(size);
    assert d.mmaps[1..] == [];
    assert ChooseDa(d.mmaps, PAGE, FIRST_DA) == ChooseDa([], PAGE, FIRST_DA + a) == FIRST_DA + a;
  }

  lemma WholePage(size: nat)
    requires size > 0
    ensures AlignUp(size) >= PAGE && AlignUp(PAGE) == PAGE
  {
  }

  /** It is accepted, whatever the size, where there is room for both in the device's address space. */
  lemma WholeIsAccepted(va: nat, size: nat, gap: nat)
    requires size > 0 && FIRST_DA + AlignUp(size) + PAGE <= W64
    ensures Accepted(Run(Initial(1), [Open(0, true), Attach(Shm(va, size), true, true)]), 0, WholeTransfer(va, size, gap))
  {
    AttachedAlone(va, size);
    var d := Device(1, true, [Mmap(va, FIRST_DA, AlignUp(size))]);
    var q := WholeTransfer(va, size, gap);
    PageIsBehind(d, va, size, gap);
    var after := WithPage(d, q).0;
    RunKeeps(1, [Open(0, true), Attach(Shm(va, size), true, true)]);
    assert FirstCover(d.mmaps, va, 0) == 0;
    assert FirstCover(after.mmaps, q.bdVa, 0) == 1;
  }

  /** So a transfer of 2^32 bytes or more is accepted, and the engine does not meet what was asked for. */
  lemma HugeIsNotMet(va: nat, size: nat, gap: nat, max: nat, tid: int, was: seq<Word>, words: seq<Word>, regs: Registers,
                     fuel: nat)
    requires W32 <= size && FIRST_DA + AlignUp(size) + PAGE <= W64 && max > 0
    requires |was| == RING_WORDS && tid < 256 && fuel >= RING_BDS
    ensures var s, q := Run(Initial(1), [Open(0, true), Attach(Shm(va, size), true, true)]), WholeTransfer(va, size, gap);
      && Accepted(s, 0, q)
      && (Programmed(s.dev, q, max, tid, was, words, regs) ==>
            !CoversExactly(Met(words, RingOf(s.dev, q), regs, fuel), VaToDa(s.dev, q.va), q.size))
  {
    WholeIsAccepted(va, size, gap);
    var s, q := Run(Initial(1), [Open(0, true), Attach(Shm(va, size), true, true)]), WholeTransfer(va, size, gap);
    if Programmed(s.dev, q, max, tid, was, words, regs) {
      TransferMeetsExactlyWhen(s, 0, q, max, tid, was, words, regs, RingOf(s.dev, q), VaToDa(s.dev, q.va), fuel);
    }
  }

  lemma DisjointBefore(ms: seq<Mmap>, after: seq<Mmap>)
    requires VaDisjoint(after) && |after| > 0 && ms == after[..|after| - 1]
    ensures VaDisjoint(ms)
  {
    forall i, j | 0 <= i < j < |ms| ensures Apart(ms[i].va, ms[i].size, ms[j].va, ms[j].size) {
      assert ms[i] == after[i] && ms[j] == after[j];
    }
  }
}
