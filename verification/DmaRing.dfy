/** The descriptor ring of the MCDMA engine: how a transfer is cut into pieces, how the pieces are written into a page
    of 32-bit words, and what the engine reads when it follows the ring. */
module DmaRing {
  import opened Common

  const W64: nat := 0x1_0000_0000_0000_0000
  const LENGTH_LIMIT: nat := 0x400_0000
  const BD_SIZE: nat := 64
  const BD_WORDS: nat := 16
  const RING_WORDS: nat := 1024
  const RING_BDS: nat := 64

  /** A stretch of device memory. */
  datatype Segment = Segment(addr: nat, len: nat)

  /** A descriptor as the engine reads it. */
  datatype Descriptor = Descriptor(next: nat, segment: Segment, first: bool, last: bool)

  // ---------------------------------------------------------------- cutting a transfer

  /** The pieces of at most max bytes that a transfer of size bytes from addr on is cut into. */
  function Split(addr: nat, size: nat, max: nat): (segs: seq<Segment>)
    requires size == 0 || max > 0
    decreases size
  {
    if size == 0 then []
    else
      var len := Min(size, max);
      [Segment(addr, len)] + Split(addr + len, size - len, max)
  }

  function Total(segs: seq<Segment>): nat {
    if segs == [] then 0 else segs[0].len + Total(segs[1..])
  }

  /** Each piece starts where the one before it ends, the first at addr. */
  predicate Contiguous(segs: seq<Segment>, addr: nat) {
    segs == [] || (segs[0].addr == addr && Contiguous(segs[1..], addr + segs[0].len))
  }

  /** What the pieces of a transfer are: nothing is lost, nothing is doubled, none is too long, none is empty, and there
      are no more of them than there have to be. */
  lemma {:induction false} SplitCovers(addr: nat, size: nat, max: nat)
    requires max > 0
    ensures Contiguous(Split(addr, size, max), addr)
    ensures Total(Split(addr, size, max)) == size
    ensures forall k :: 0 <= k < |Split(addr, size, max)| ==> 0 < Split(addr, size, max)[k].len <= max
    ensures |Split(addr, size, max)| == (size + max - 1) / max
    decreases size
  {
    var segs := Split(addr, size, max);
    if size == 0 {
      CeilingSmall(size, max);
    } else {
      var len := Min(size, max);
      SplitCovers(addr + len, size - len, max);
      assert segs[1..] == Split(addr + len, size - len, max);
      if size <= max {
        CeilingSmall(size, max);
      } else {
        CeilingStep(size, max);
      }
    }
  }

  lemma CeilingSmall(size: nat, max: nat)
    requires 0 < max && size <= max
    ensures (size + max - 1) / max == if size == 0 then 0 else 1
  {
    if size > 0 {
      assert size + max - 1 == max * 1 + (size - 1);
      QuotientIs(size + max - 1, max, 1, size - 1);
    } else {
      QuotientIs(max - 1, max, 0, max - 1);
    }
  }

  lemma CeilingStep(size: nat, max: nat)
    requires 0 < max < size
    ensures (size + max - 1) / max == 1 + (size - max + max - 1) / max
  {
    var q, r := (size - 1) / max, (size - 1) % max;
    assert size - 1 == max * q + r;
    assert size + max - 1 == max * (q + 1) + r;
    QuotientIs(size + max - 1, max, q + 1, r);
  }

  lemma QuotientIs(a: nat, b: nat, q: nat, r: nat)
    requires b > 0 && a == b * q + r && r < b
    ensures a / b == q
  {
    var p := a / b;
    assert a == b * p + a % b;
    if q > p {
      Scaled(b, p, q);
    } else if q < p {
      Scaled(b, q, p);
    }
  }

  lemma Scaled(b: nat, p: nat, q: nat)
    requires p < q
    ensures b * p + b <= b * q
  {
    assert b * q == b * p + b * (q - p);
    assert b * (q - p) == b + b * (q - p - 1);
  }

  /** Every piece lies inside the stretch that was to be transferred. */
  lemma {:induction false} SplitStaysInside(addr: nat, size: nat, max: nat, k: nat)
    requires max > 0 && k < |Split(addr, size, max)|
    ensures var s := Split(addr, size, max)[k]; addr <= s.addr && s.addr + s.len <= addr + size
    decreases k
  {
    var len := Min(size, max);
    assert Split(addr, size, max)[1..] == Split(addr + len, size - len, max);
    if k > 0 {
      SplitStaysInside(addr + len, size - len, max, k - 1);
    }
  }

  /** What is left to be described after so many turns of the descriptor loop. */
  function Left(size: nat, max: nat, turns: nat): nat {
    if turns == 0 then size else Left(size - Min(size, max), max, turns - 1)
  }

  /** The loop is through after so many turns exactly if there is nothing to describe, or a maximum of which so many make up
      the size. With a maximum of 0 it never is; and a page is left after 64. */
  lemma {:induction false} LoopEndsExactlyWhen(size: nat, max: nat, turns: nat)
    ensures Left(size, max, turns) == 0 <==> size == 0 || (max > 0 && (size + max - 1) / max <= turns)
    decreases turns
  {
    if max > 0 && size <= max {
      CeilingSmall(size, max);
    } else if max > 0 {
      CeilingStep(size, max);
    }
    if turns > 0 {
      LoopEndsExactlyWhen(size - Min(size, max), max, turns - 1);
      if 0 < size <= max {
        CeilingSmall(0, max);
      }
    } else if max > 0 && size > max {
      CeilingIsPositive(size, max);
    }
  }

  lemma CeilingIsPositive(size: nat, max: nat)
    requires 0 < max < size
    ensures (size + max - 1) / max >= 1
  {
    CeilingStep(size, max);
    assert (size - max + max - 1) / max >= 0;
  }

  // ---------------------------------------------------------------- writing a descriptor

  function Low(a: nat): Word {
    a % W32
  }

  function High(a: nat): Word {
    (a / W32) % W32
  }

  /** The word at position off of a descriptor, given what stood there. tid is -1 for a channel that reads. */
  function BdWord(was: Word, off: nat, next: nat, seg: Segment, tid: int): Word
    requires tid < 256
  {
    match off
    case 0 => Low(next) / 64 * 64
    case 1 => High(next)
    case 2 => Low(seg.addr)
    case 3 => High(seg.addr)
    case 5 => seg.len % LENGTH_LIMIT + 0x8000_0000 + 0x4000_0000
    case 6 => if tid >= 0 then tid * 0x100_0000 else was
    case _ => was
  }

  /** Where descriptor k of n points to: the next one, the last one to itself. */
  function NextPa(ring: nat, k: nat, n: nat): nat
    requires k < n
  {
    ring + BD_SIZE * (if k + 1 < n then k + 1 else k)
  }

  /** The page with the first k descriptors of the ring. */
  ghost predicate HoldsPart(words: seq<Word>, was: seq<Word>, ring: nat, segs: seq<Segment>, tid: int, k: nat)
    requires |was| == |words| == RING_WORDS && k <= |segs| <= RING_BDS && tid < 256
  {
    && (forall i :: 0 <= i < BD_WORDS * k ==>
          words[i] == BdWord(was[i], i % BD_WORDS, NextPa(ring, i / BD_WORDS, |segs|), segs[i / BD_WORDS], tid))
    && (forall i :: BD_WORDS * k <= i < RING_WORDS ==> words[i] == was[i])
  }

  /** The page with a descriptor for each segment at its start, and the rest of it as it was. */
  ghost predicate HoldsRing(words: seq<Word>, was: seq<Word>, ring: nat, segs: seq<Segment>, tid: int)
    requires |was| == RING_WORDS && |segs| <= RING_BDS && tid < 256
  {
    |words| == RING_WORDS && HoldsPart(words, was, ring, segs, tid, |segs|)
  }

  /** Appending the segment in hand to the ones that are done. */
  lemma SplitNext(done: seq<Segment>, addr: nat, left: nat, max: nat)
    requires left > 0 && max > 0
    ensures var len := Min(left, max);
      && done + Split(addr, left, max) == (done + [Segment(addr, len)]) + Split(addr + len, left - len, max)
      && (left - len == 0 <==> |Split(addr, left, max)| == 1)
  {
    var len := Min(left, max);
    assert Split(addr, left, max) == [Segment(addr, len)] + Split(addr + len, left - len, max);
  }

  /** The body of the descriptor loop: the six words of the descriptor at bd. */
  method WriteDescriptor(page: array<Word>, bd: nat, next: nat, seg: Segment, tid: int)
    requires bd + BD_WORDS <= page.Length && -1 <= tid < 256
    modifies page
    ensures forall i :: 0 <= i < page.Length ==>
      page[i] == if bd <= i < bd + BD_WORDS then BdWord(old(page[i]), i - bd, next, seg, tid) else old(page[i])
  {
    page[bd] := Low(next) / 64 * 64;
    page[bd + 1] := High(next);
    page[bd + 2] := Low(seg.addr);
    page[bd + 3] := High(seg.addr);
    page[bd + 5] := seg.len % LENGTH_LIMIT + 0x8000_0000 + 0x4000_0000;
    if tid >= 0 {
      page[bd + 6] := tid * 0x100_0000;
    }
  }

  lemma PartGrows(words: seq<Word>, mid: seq<Word>, was: seq<Word>, ring: nat, segs: seq<Segment>, tid: int, k: nat)
    requires |was| == |mid| == |words| == RING_WORDS && k < |segs| <= RING_BDS && tid < 256
    requires HoldsPart(mid, was, ring, segs, tid, k)
    requires forall i :: 0 <= i < RING_WORDS ==>
      words[i] == if BD_WORDS * k <= i < BD_WORDS * k + BD_WORDS
                  then BdWord(mid[i], i - BD_WORDS * k, NextPa(ring, k, |segs|), segs[k], tid) else mid[i]
    ensures HoldsPart(words, was, ring, segs, tid, k + 1)
  {
    forall i | 0 <= i < BD_WORDS * (k + 1)
      ensures words[i] == BdWord(was[i], i % BD_WORDS, NextPa(ring, i / BD_WORDS, |segs|), segs[i / BD_WORDS], tid)
    {
      if i >= BD_WORDS * k {
        assert i / BD_WORDS == k && i % BD_WORDS == i - BD_WORDS * k;
      }
    }
  }

  /** The descriptor loop. The page is where the words from bd on are written; a loop that would not end (max of 0) or
      that would write past the page is the caller's to avoid. */
  method Program(page: array<Word>, ring: nat, buffer: nat, size: nat, max: nat, tid: int)
    returns (tail: nat)
    requires page.Length == RING_WORDS
    requires size == 0 || max > 0
    requires |Split(buffer, size, max)| <= RING_BDS
    requires -1 <= tid < 256
    modifies page
    ensures HoldsRing(page[..], old(page[..]), ring, Split(buffer, size, max), tid)
    ensures var n := |Split(buffer, size, max)|; tail == ring + BD_SIZE * (if n == 0 then 0 else n - 1)
  {
    ghost var segs := Split(buffer, size, max);
    ghost var was := page[..];
    ghost var done: seq<Segment> := [];
    var left: nat, addr: nat, bd: nat := size, buffer, 0;
    tail := ring;
    while left != 0
      invariant segs == done + Split(addr, left, max)
      invariant left > 0 ==> bd == BD_WORDS * |done| && tail == ring + BD_SIZE * |done|
      invariant left == 0 ==> tail == ring + BD_SIZE * (if segs == [] then 0 else |segs| - 1)
      invariant HoldsPart(page[..], was, ring, segs, tid, |done|)
      decreases left
    {
      ghost var k, mid := |done|, page[..];
      SplitNext(done, addr, left, max);
      var piece := left;
      if piece > max {
        piece := max;
      }
      left := left - piece;
      if left != 0 {
        tail := tail + BD_SIZE;
      }
      WriteDescriptor(page, bd, tail, Segment(addr, piece), tid);
      assert k < |segs| && segs[k] == Segment(addr, piece);
      assert tail == NextPa(ring, k, |segs|);
      PartGrows(page[..], mid, was, ring, segs, tid, k);
      done := done + [Segment(addr, piece)];
      if left != 0 {
        bd := bd + BD_WORDS;
        addr := addr + piece;
      }
    }
  }

  // ---------------------------------------------------------------- what the engine reads

  /** Descriptor k of the page. The engine takes the low six bits of the next pointer for zero. */
  function Decode(words: seq<Word>, k: nat): Descriptor
    requires |words| == RING_WORDS && k < RING_BDS
  {
    var b := BD_WORDS * k;
    Descriptor(
      words[b] / 64 * 64 + words[b + 1] * W32,
      Segment(words[b + 2] + words[b + 3] * W32, words[b + 5] % LENGTH_LIMIT),
      words[b + 5] / 0x8000_0000 % 2 == 1,
      words[b + 5] / 0x4000_0000 % 2 == 1)
  }

  /** The page as descriptors. */
  function Read(words: seq<Word>): (descs: seq<Descriptor>)
    requires |words| == RING_WORDS
    ensures |descs| == RING_BDS
  {
    seq(RING_BDS, k requires 0 <= k < RING_BDS => Decode(words, k))
  }

  /** Which descriptor of a ring is at an address; -1 if none is. */
  function SlotOf(ring: nat, cur: nat): (k: int)
    ensures -1 <= k < RING_BDS
  {
    if cur < ring || (cur - ring) % BD_SIZE != 0 || (cur - ring) / BD_SIZE >= RING_BDS then -1
    else (cur - ring) / BD_SIZE
  }

  /** The segments met on the way from the descriptor at cur to the one at tail; None if the way leaves the ring or takes
      more than fuel descriptors. */
  function Follow(descs: seq<Descriptor>, ring: nat, cur: nat, tail: nat, fuel: nat): Option<seq<Segment>>
    requires |descs| == RING_BDS
    decreases fuel
  {
    var k := SlotOf(ring, cur);
    if fuel == 0 || k < 0 then None
    else if cur == tail then Some([descs[k].segment])
    else match Follow(descs, ring, descs[k].next, tail, fuel - 1)
      case None => None
      case Some(rest) => Some([descs[k].segment] + rest)
  }

  function Walk(words: seq<Word>, ring: nat, cur: nat, tail: nat, fuel: nat): Option<seq<Segment>>
    requires |words| == RING_WORDS
  {
    Follow(Read(words), ring, cur, tail, fuel)
  }

  /** A number is what its two words say exactly if it has 64 bits. */
  lemma AddressWords(a: nat)
    ensures Low(a) + High(a) * W32 == a <==> a < W64
  {}

  lemma LowBits(low: nat, m: nat)
    ensures (64 * m + low) % 64 == low % 64
    ensures low / 64 * 64 == low - low % 64
  {}

  /** And with the low six bits cleared, exactly if it is aligned besides. */
  lemma PointerWords(a: nat)
    ensures Low(a) / 64 * 64 + High(a) * W32 == a <==> a < W64 && a % 64 == 0
  {
    AddressWords(a);
    LowBits(Low(a), 0x400_0000 * (a / W32));
    assert a % 64 == Low(a) % 64 by {
      assert a == 64 * (0x400_0000 * (a / W32)) + Low(a);
    }
    AddressIsSmall(a);
  }

  lemma AddressIsSmall(a: nat)
    ensures Low(a) + High(a) * W32 < W64
  {}

  lemma ControlWord(len: nat)
    ensures var w := len % LENGTH_LIMIT + 0x8000_0000 + 0x4000_0000;
      && w / 0x8000_0000 % 2 == 1 && w / 0x4000_0000 % 2 == 1
      && w % LENGTH_LIMIT == len % LENGTH_LIMIT
      && (w % LENGTH_LIMIT == len <==> len < LENGTH_LIMIT)
  {}

  /** The words of descriptor k. */
  lemma RingWords(words: seq<Word>, was: seq<Word>, ring: nat, segs: seq<Segment>, tid: int, k: nat)
    requires |was| == RING_WORDS && |segs| <= RING_BDS && tid < 256 && k < |segs|
    requires HoldsRing(words, was, ring, segs, tid)
    ensures var b, next, s := BD_WORDS * k, NextPa(ring, k, |segs|), segs[k];
      && words[b] == Low(next) / 64 * 64 && words[b + 1] == High(next)
      && words[b + 2] == Low(s.addr) && words[b + 3] == High(s.addr)
      && words[b + 5] == s.len % LENGTH_LIMIT + 0x8000_0000 + 0x4000_0000
  {
    var b := BD_WORDS * k;
    forall i | b <= i < b + 6
      ensures words[i] == BdWord(was[i], i - b, NextPa(ring, k, |segs|), segs[k], tid)
    {
      assert i / BD_WORDS == k && i % BD_WORDS == i - b;
    }
  }

  /** Of a descriptor the seventh word holds the transfer id in its top byte, on a channel that writes; all others, and the rest of
      the page, hold what they held. */
  lemma RestIsKept(words: seq<Word>, was: seq<Word>, ring: nat, segs: seq<Segment>, tid: int, i: nat)
    requires |was| == RING_WORDS && |segs| <= RING_BDS && tid < 256 && HoldsRing(words, was, ring, segs, tid) && i < RING_WORDS
    ensures i < BD_WORDS * |segs| && i % BD_WORDS == 6 && tid >= 0 ==> words[i] / 0x100_0000 == tid && words[i] % 0x100_0000 == 0
    ensures i >= BD_WORDS * |segs| || i % BD_WORDS == 4 || i % BD_WORDS > 6 || (i % BD_WORDS == 6 && tid < 0) ==>
      words[i] == was[i]
  {
  }

  /** A written descriptor is read back as it was meant exactly if its pointer is aligned, its addresses have 64 bits and
      its length has 26. */
  lemma DescriptorReadsBack(words: seq<Word>, was: seq<Word>, ring: nat, segs: seq<Segment>, tid: int, k: nat)
    requires |was| == RING_WORDS && |segs| <= RING_BDS && tid < 256 && k < |segs|
    requires HoldsRing(words, was, ring, segs, tid)
    ensures var next := NextPa(ring, k, |segs|);
      Decode(words, k) == Descriptor(next, segs[k], true, true)
      <==> next % 64 == 0 && next < W64 && segs[k].addr < W64 && segs[k].len < LENGTH_LIMIT
  {
    RingWords(words, was, ring, segs, tid, k);
    PointerWords(NextPa(ring, k, |segs|));
    AddressWords(segs[k].addr);
    ControlWord(segs[k].len);
  }

  /** The ring is aligned, and it and all that its descriptors stand for are inside the 64-bit space. */
  predicate Fits(ring: nat, segs: seq<Segment>) {
    && ring % BD_SIZE == 0
    && ring + BD_SIZE * RING_BDS <= W64
    && forall k :: 0 <= k < |segs| ==> segs[k].addr < W64
  }

  /** The pieces with what their length fields hold of their lengths. */
  function Cut(segs: seq<Segment>): (r: seq<Segment>)
    ensures |r| == |segs| && forall k :: 0 <= k < |segs| ==> r[k] == Segment(segs[k].addr, segs[k].len % LENGTH_LIMIT)
  {
    seq(|segs|, k requires 0 <= k < |segs| => Segment(segs[k].addr, segs[k].len % LENGTH_LIMIT))
  }

  /** It is the pieces themselves exactly if no length is too long. */
  lemma CutIsWhole(segs: seq<Segment>)
    ensures Cut(segs) == segs <==> forall k :: 0 <= k < |segs| ==> segs[k].len < LENGTH_LIMIT
  {
    forall k | 0 <= k < |segs|
      ensures Cut(segs)[k] == segs[k] <==> segs[k].len < LENGTH_LIMIT
    {
    }
  }

  lemma {:induction false} CutIsNoLonger(segs: seq<Segment>)
    ensures Total(Cut(segs)) <= Total(segs)
  {
    if segs != [] {
      CutIsNoLonger(segs[1..]);
      assert Cut(segs)[1..] == Cut(segs[1..]);
    }
  }

  /** What following a ring needs to know about the page: descriptor k holds segment k and points to its successor, the
      last one to itself. */
  ghost predicate Chained(descs: seq<Descriptor>, ring: nat, segs: seq<Segment>)
    requires |descs| == RING_BDS && |segs| <= RING_BDS
  {
    forall k :: 0 <= k < |segs| ==> descs[k] == Descriptor(NextPa(ring, k, |segs|), segs[k], true, true)
  }

  lemma NextIsAligned(ring: nat, k: nat, n: nat)
    requires ring % BD_SIZE == 0 && ring + BD_SIZE * RING_BDS <= W64 && k < n <= RING_BDS
    ensures NextPa(ring, k, n) % 64 == 0 && NextPa(ring, k, n) < W64
  {}

  lemma RingIsChained(words: seq<Word>, was: seq<Word>, ring: nat, segs: seq<Segment>, tid: int)
    requires |was| == RING_WORDS && |segs| <= RING_BDS && tid < 256
    requires HoldsRing(words, was, ring, segs, tid) && Fits(ring, segs)
    ensures Chained(Read(words), ring, Cut(segs))
  {
    forall k | 0 <= k < |segs|
      ensures Read(words)[k] == Descriptor(NextPa(ring, k, |segs|), Cut(segs)[k], true, true)
    {
      RingWords(words, was, ring, segs, tid, k);
      NextIsAligned(ring, k, |segs|);
      PointerWords(NextPa(ring, k, |segs|));
      AddressWords(segs[k].addr);
      ControlWord(segs[k].len);
    }
  }

  lemma SlotIs(ring: nat, k: nat)
    requires k < RING_BDS
    ensures SlotOf(ring, ring + BD_SIZE * k) == k
  {}

  lemma FollowStep(descs: seq<Descriptor>, ring: nat, cur: nat, tail: nat, fuel: nat, k: nat, rest: seq<Segment>)
    requires |descs| == RING_BDS && fuel > 0 && SlotOf(ring, cur) == k && cur != tail
    requires Follow(descs, ring, descs[k].next, tail, fuel - 1) == Some(rest)
    ensures Follow(descs, ring, cur, tail, fuel) == Some([descs[k].segment] + rest)
  {}

  lemma {:induction false} FollowFrom(descs: seq<Descriptor>, ring: nat, segs: seq<Segment>, k: nat, fuel: nat,
                                      cur: nat, tail: nat)
    requires |descs| == RING_BDS && |segs| <= RING_BDS && k < |segs|
    requires Chained(descs, ring, segs) && fuel >= |segs| - k
    requires cur == ring + BD_SIZE * k && tail == ring + BD_SIZE * (|segs| - 1)
    ensures Follow(descs, ring, cur, tail, fuel) == Some(segs[k..])
    decreases |segs| - k
  {
    SlotIs(ring, k);
    if k + 1 < |segs| {
      FollowFrom(descs, ring, segs, k + 1, fuel - 1, cur + BD_SIZE, tail);
      FollowStep(descs, ring, cur, tail, fuel, k, segs[k + 1..]);
      assert [segs[k]] + segs[k + 1..] == segs[k..];
    } else {
      assert segs[k..] == [segs[k]];
    }
  }

  lemma FollowAll(descs: seq<Descriptor>, ring: nat, segs: seq<Segment>, fuel: nat)
    requires |descs| == RING_BDS && 0 < |segs| <= RING_BDS
    requires Chained(descs, ring, segs) && fuel >= |segs|
    ensures Follow(descs, ring, ring, ring + BD_SIZE * (|segs| - 1), fuel) == Some(segs)
    ensures descs[|segs| - 1].next == ring + BD_SIZE * (|segs| - 1)
  {
    FollowFrom(descs, ring, segs, 0, fuel, ring, ring + BD_SIZE * (|segs| - 1));
    assert segs[0..] == segs;
  }

  /** On the way from the first descriptor to the last the engine meets the pieces of the ring in order, each as long as the
      low 26 bits of its length, and it stops at a descriptor that points to itself. */
  lemma EngineSeesPieces(words: seq<Word>, was: seq<Word>, ring: nat, segs: seq<Segment>, tid: int, fuel: nat)
    requires |was| == RING_WORDS && 0 < |segs| <= RING_BDS && tid < 256 && |segs| <= fuel
    requires HoldsRing(words, was, ring, segs, tid) && Fits(ring, segs)
    ensures Walk(words, ring, ring, ring + BD_SIZE * (|segs| - 1), fuel) == Some(Cut(segs))
    ensures Decode(words, |segs| - 1).next == ring + BD_SIZE * (|segs| - 1)
  {
    RingIsChained(words, was, ring, segs, tid);
    FollowCut(words, ring, segs, fuel);
  }

  lemma FollowCut(words: seq<Word>, ring: nat, segs: seq<Segment>, fuel: nat)
    requires |words| == RING_WORDS && 0 < |segs| <= RING_BDS && |segs| <= fuel && Chained(Read(words), ring, Cut(segs))
    ensures Walk(words, ring, ring, ring + BD_SIZE * (|segs| - 1), fuel) == Some(Cut(segs))
    ensures Decode(words, |segs| - 1).next == ring + BD_SIZE * (|segs| - 1)
  {
    FollowAll(Read(words), ring, Cut(segs), fuel);
    assert Read(words)[|segs| - 1] == Decode(words, |segs| - 1);
  }

  /** What the engine sees of a non-empty transfer: all its pieces, and with their own lengths exactly if a piece fits the 26
      bits of one, which every piece does if the first one does. */
  lemma EngineSeesBuffer(words: seq<Word>, was: seq<Word>, ring: nat, buffer: nat, size: nat, max: nat, tid: int,
                         segs: seq<Segment>, fuel: nat)
    requires 0 < size && 0 < max && |was| == RING_WORDS && tid < 256
    requires segs == Split(buffer, size, max) && |segs| <= RING_BDS && |segs| <= fuel
    requires HoldsRing(words, was, ring, segs, tid)
    requires ring % BD_SIZE == 0 && ring + BD_SIZE * RING_BDS <= W64 && buffer + size <= W64
    ensures |segs| > 0 && Walk(words, ring, ring, ring + BD_SIZE * (|segs| - 1), fuel) == Some(Cut(segs))
    ensures Cut(segs) == segs <==> Min(size, max) < LENGTH_LIMIT
    ensures Decode(words, |segs| - 1).next == ring + BD_SIZE * (|segs| - 1)
  {
    assert segs[0] == Segment(buffer, Min(size, max));
    PiecesFit(ring, buffer, size, max);
    EngineSeesPieces(words, was, ring, segs, tid, fuel);
    PiecesAreSmall(buffer, size, max);
    CutIsWhole(segs);
  }

  /** What the engine meets of the pieces of a buffer are so many bytes from its start exactly if they are all of them, and a
      piece fits the 26 bits of a length. */
  lemma CutCovers(buffer: nat, n: nat, max: nat, segs: seq<Segment>, size: nat)
    requires 0 < n <= size && 0 < max && segs == Split(buffer, n, max)
    ensures Contiguous(Cut(segs), buffer) && Total(Cut(segs)) == size <==> size == n && Min(n, max) < LENGTH_LIMIT
  {
    SplitCovers(buffer, n, max);
    PiecesAreSmall(buffer, n, max);
    CutIsWhole(segs);
    CutIsNoLonger(segs);
    assert segs[0] == Segment(buffer, Min(n, max));
    if Min(n, max) >= LENGTH_LIMIT {
      if |segs| == 1 {
        assert Cut(segs)[1..] == [];
      } else {
        assert segs[1..] != [] && segs[1..][0] == segs[1] && Cut(segs)[1..][0] == Cut(segs)[1];
      }
    }
  }

  lemma PiecesFit(ring: nat, buffer: nat, size: nat, max: nat)
    requires 0 < max
    requires ring % BD_SIZE == 0 && ring + BD_SIZE * RING_BDS <= W64 && buffer + size <= W64
    ensures Fits(ring, Split(buffer, size, max))
  {
    var segs := Split(buffer, size, max);
    PiecesAreSmall(buffer, size, max);
    forall k | 0 <= k < |segs| ensures segs[k].addr < W64 {
      SplitStaysInside(buffer, size, max, k);
    }
  }

  lemma {:induction false} PiecesAreSmall(addr: nat, size: nat, max: nat)
    requires max > 0
    ensures forall k :: 0 <= k < |Split(addr, size, max)| ==> 0 < Split(addr, size, max)[k].len <= Min(size, max)
    decreases size
  {
    if size > 0 {
      var len := Min(size, max);
      PiecesAreSmall(addr + len, size - len, max);
      assert Split(addr, size, max)[1..] == Split(addr + len, size - len, max);
    }
  }
}
