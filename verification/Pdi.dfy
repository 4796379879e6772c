/** The PDI metaheader decoder: an image header table and image headers, little-endian, read from a buffer that may be
    shorter than its own count claims. And the choice of the file to read, and of the image that was booted. */
module Pdi {
  import opened Common

  const IHT_LEN: nat := 0x80
  const NUM_IMGS_OFF: nat := 0x04
  const IH_LEN: nat := 0x40
  const IMG_ID_OFF: nat := 0x20
  const UID_OFF: nat := 0x24
  const PUID_OFF: nat := 0x28
  const MAX_IMAGES: nat := 32
  const INT_LIMIT: nat := 0x8000_0000

  datatype Image = Image(imgId: Word, uid: Word, puid: Word)

  /** A decoded metaheader: its images and the unique ids of the one that counts. */
  datatype Meta = Meta(uid: Word, puid: Word, images: seq<Image>)

  // ---------------------------------------------------------------- words in a buffer

  function U32(buf: seq<Byte>, at: nat): Word
    requires at + 4 <= |buf|
  {
    buf[at] as int + buf[at + 1] as int * 0x100 + buf[at + 2] as int * 0x1_0000 + buf[at + 3] as int * 0x100_0000
  }

  function Le32(w: Word): (bytes: seq<Byte>)
    ensures |bytes| == 4
  {
    [w % 0x100, w / 0x100 % 0x100, w / 0x1_0000 % 0x100, w / 0x100_0000]
  }

  lemma WordRoundTrip(w: Word)
    ensures U32(Le32(w), 0) == w
  {
    TwoBytes(w);
    ThreeBytes(w);
  }

  lemma TwoBytes(w: nat)
    ensures w / 0x100 == w / 0x1_0000 * 0x100 + w / 0x100 % 0x100
  {
  }

  lemma ThreeBytes(w: nat)
    ensures w / 0x1_0000 == w / 0x100_0000 * 0x100 + w / 0x1_0000 % 0x100
  {
  }

  lemma WordInside(buf: seq<Byte>, before: seq<Byte>, w: Word, after: seq<Byte>)
    requires buf == before + Le32(w) + after
    ensures U32(buf, |before|) == w
  {
    var n := |before|;
    assert forall j :: 0 <= j < 4 ==> buf[n + j] == Le32(w)[j];
    assert buf[n + 0] == Le32(w)[0];
    WordRoundTrip(w);
  }

  // ---------------------------------------------------------------- decoding

  /** The class and subclass of a programmable-logic image, in the top twelve bits of its id. */
  predicate IsPl(image: Image) {
    image.imgId / 0x10_0000 == 0x187
  }

  /** The first programmable-logic image from i on, or the number of images. */
  function FirstPl(images: seq<Image>, i: nat): (k: nat)
    requires i <= |images|
    ensures i <= k <= |images| && (k < |images| ==> IsPl(images[k]))
    ensures forall j :: i <= j < k ==> !IsPl(images[j])
    decreases |images| - i
  {
    if i == |images| || IsPl(images[i]) then i else FirstPl(images, i + 1)
  }

  /** The images of a buffer that holds at least the table: as many as it claims, but no more than 32 and no more than have
      a complete header. */
  function Held(buf: seq<Byte>): nat
    requires IHT_LEN <= |buf|
  {
    Min(Min(U32(buf, NUM_IMGS_OFF), MAX_IMAGES), (|buf| - IHT_LEN) / IH_LEN)
  }

  function ImageAt(buf: seq<Byte>, i: nat): Image
    requires IHT_LEN + IH_LEN * (i + 1) <= |buf|
  {
    var base := IHT_LEN + IH_LEN * i;
    Image(U32(buf, base + IMG_ID_OFF), U32(buf, base + UID_OFF), U32(buf, base + PUID_OFF))
  }

  function Images(buf: seq<Byte>, n: nat): (images: seq<Image>)
    requires IHT_LEN + IH_LEN * n <= |buf|
    ensures |images| == n
  {
    seq(n, i requires 0 <= i < n => ImageAt(buf, i))
  }

  function MetaOf(images: seq<Image>): Meta
    requires images != []
  {
    var k := FirstPl(images, 0);
    var chosen := if k < |images| then images[k] else images[0];
    Meta(chosen.uid, chosen.puid, images)
  }

  function Decode(buf: seq<Byte>): Option<Meta> {
    if |buf| < IHT_LEN || U32(buf, NUM_IMGS_OFF) >= INT_LIMIT || Held(buf) == 0 then None
    else Some(MetaOf(Images(buf, Held(buf))))
  }

  /** The decoder's out-parameter. */
  class Out {
    var uid: Word
    var puid: Word
    var numImages: nat
    const images: array<Image>

    constructor ()
      ensures images.Length == MAX_IMAGES && fresh(images)
    {
      images := new Image[MAX_IMAGES](_ => Image(0, 0, 0));
      uid, puid, numImages := 0, 0, 0;
    }
  }

  /** `pdi_rd_u32`. */
  method ReadU32(buf: array<Byte>, at: nat) returns (w: Word)
    requires at + 4 <= buf.Length
    ensures w == U32(buf[..], at)
  {
    w := buf[at] as int + buf[at + 1] as int * 0x100 + buf[at + 2] as int * 0x1_0000 + buf[at + 3] as int * 0x100_0000;
  }

  lemma SameWord(buf: seq<Byte>, len: nat, at: nat)
    requires at + 4 <= len <= |buf|
    ensures U32(buf, at) == U32(buf[..len], at)
  {}

  /** The header loop: the images are filled in until the count or the buffer ends. */
  method ReadHeaders(buf: array<Byte>, len: nat, num: nat, out: Out)
    requires IHT_LEN <= len <= buf.Length && num <= MAX_IMAGES == out.images.Length && out.numImages == 0
    modifies out`numImages, out.images
    ensures out.numImages == Min(num, (len - IHT_LEN) / IH_LEN)
    ensures out.images[..out.numImages] == Images(buf[..len], out.numImages)
  {
    ghost var bytes := buf[..len];
    var i: nat := 0;
    while i < num
      invariant i <= num && out.numImages == i && IHT_LEN + IH_LEN * i <= len
      invariant forall j :: 0 <= j < i ==> out.images[j] == ImageAt(bytes, j)
    {
      var base := IHT_LEN + i * IH_LEN;
      if base + IH_LEN > len {
        break;
      }
      var imgId := ReadU32(buf, base + IMG_ID_OFF);
      var uid := ReadU32(buf, base + UID_OFF);
      var puid := ReadU32(buf, base + PUID_OFF);
      SameWord(buf[..], len, base + IMG_ID_OFF);
      SameWord(buf[..], len, base + UID_OFF);
      SameWord(buf[..], len, base + PUID_OFF);
      out.images[out.numImages] := Image(imgId, uid, puid);
      out.numImages := out.numImages + 1;
      i := i + 1;
    }
    assert out.images[..i] == Images(bytes, i);
  }

  /** The loop that looks for the programmable-logic image; 0 if there is none. */
  method FindPl(out: Out) returns (plIdx: nat)
    requires 0 < out.numImages <= out.images.Length
    ensures var images := out.images[..out.numImages];
      var k := FirstPl(images, 0);
      plIdx == if k < |images| then k else 0
  {
    ghost var images := out.images[..out.numImages];
    var k := 0;
    while k < out.numImages
      invariant 0 <= k <= out.numImages
      invariant FirstPl(images, k) == FirstPl(images, 0)
    {
      assert images[k] == out.images[k];
      if out.images[k].imgId / 0x10_0000 == 0x187 {
        return k;
      }
      k := k + 1;
    }
    return 0;
  }

  /** Everything of the out-parameter set to zero. */
  method Clear(out: Out)
    modifies out, out.images
    ensures out.numImages == 0
  {
    out.uid, out.puid, out.numImages := 0, 0, 0;
    forall j | 0 <= j < out.images.Length {
      out.images[j] := Image(0, 0, 0);
    }
  }

  lemma DecodeIs(bytes: seq<Byte>, num: nat, n: nat)
    requires IHT_LEN <= |bytes| && U32(bytes, NUM_IMGS_OFF) < INT_LIMIT
    requires num == Min(U32(bytes, NUM_IMGS_OFF), MAX_IMAGES) && n == Min(num, (|bytes| - IHT_LEN) / IH_LEN)
    ensures Decode(bytes) == if n == 0 then None else Some(MetaOf(Images(bytes, n)))
  {}

  /** `pdi_parse_meta_buffer`. What it yields depends on the first len bytes alone. */
  method ParseMetaBuffer(buf: array?<Byte>, len: int, out: Out?) returns (r: int)
    requires buf != null ==> len <= buf.Length
    requires out != null ==> out.images.Length == MAX_IMAGES
    modifies out, if out == null then {} else {out.images}
    ensures r == 0 || r == -1
    ensures r == 0 <==> buf != null && out != null && len >= 0 && Decode(buf[..len]).Some?
    ensures r == 0 ==> (
      && out.numImages <= MAX_IMAGES
      && Decode(buf[..len]) == Some(Meta(out.uid, out.puid, out.images[..out.numImages])))
    ensures out != null && (buf == null || len < IHT_LEN) ==> unchanged(out) && unchanged(out.images)
  {
    if buf == null || out == null || len < IHT_LEN {
      return -1;
    }
    Clear(out);
    ghost var bytes := buf[..len];
    var count := ReadU32(buf, NUM_IMGS_OFF);
    SameWord(buf[..], len, NUM_IMGS_OFF);
    var num: int := if count < INT_LIMIT then count else count as int - W32;
    if num < 0 {
      return -1;
    }
    if num > MAX_IMAGES {
      num := MAX_IMAGES;
    }
    ReadHeaders(buf, len, num, out);
    DecodeIs(bytes, num, out.numImages);
    if out.numImages == 0 {
      return -1;
    }
    var plIdx := FindPl(out);
    ghost var images := out.images[..out.numImages];
    assert MetaOf(images) == Meta(images[plIdx].uid, images[plIdx].puid, images);
    out.uid := out.images[plIdx].uid;
    out.puid := out.images[plIdx].puid;
    return 0;
  }

  // ---------------------------------------------------------------- encoding

  /** An image header: the image's words at their places, whatever else stands around them. */
  function Header(image: Image, rest: seq<Byte>): (bytes: seq<Byte>)
    requires |rest| == IH_LEN
    ensures |bytes| == IH_LEN
  {
    rest[..IMG_ID_OFF] + Le32(image.imgId) + Le32(image.uid) + Le32(image.puid) + rest[PUID_OFF + 4..]
  }

  /** Image headers back to back, each with what else stands in it. */
  function Headers(images: seq<Image>, rests: seq<seq<Byte>>): (bytes: seq<Byte>)
    requires |rests| == |images| && forall i :: 0 <= i < |rests| ==> |rests[i]| == IH_LEN
    ensures |bytes| == IH_LEN * |images|
  {
    if images == [] then [] else Header(images[0], rests[0]) + Headers(images[1..], rests[1..])
  }

  /** A metaheader for the images: the table with their number in it, their headers, and what follows them. */
  function Encode(images: seq<Image>, table: seq<Byte>, rests: seq<seq<Byte>>, tail: seq<Byte>): (bytes: seq<Byte>)
    requires |table| == IHT_LEN && |images| < W32
    requires |rests| == |images| && forall i :: 0 <= i < |rests| ==> |rests[i]| == IH_LEN
    ensures |bytes| == IHT_LEN + IH_LEN * |images| + |tail|
  {
    table[..NUM_IMGS_OFF] + Le32(|images|) + table[NUM_IMGS_OFF + 4..] + Headers(images, rests) + tail
  }

  lemma HeaderReadsBack(buf: seq<Byte>, before: seq<Byte>, image: Image, rest: seq<Byte>, after: seq<Byte>)
    requires |rest| == IH_LEN && buf == before + Header(image, rest) + after
    ensures U32(buf, |before| + IMG_ID_OFF) == image.imgId
    ensures U32(buf, |before| + UID_OFF) == image.uid
    ensures U32(buf, |before| + PUID_OFF) == image.puid
  {
    var head, last := rest[..IMG_ID_OFF], rest[PUID_OFF + 4..];
    assert buf == (before + head) + Le32(image.imgId) + (Le32(image.uid) + Le32(image.puid) + last + after);
    WordInside(buf, before + head, image.imgId, Le32(image.uid) + Le32(image.puid) + last + after);
    assert buf == (before + head + Le32(image.imgId)) + Le32(image.uid) + (Le32(image.puid) + last + after);
    WordInside(buf, before + head + Le32(image.imgId), image.uid, Le32(image.puid) + last + after);
    assert buf == (before + head + Le32(image.imgId) + Le32(image.uid)) + Le32(image.puid) + (last + after);
    WordInside(buf, before + head + Le32(image.imgId) + Le32(image.uid), image.puid, last + after);
  }

  lemma {:induction false} HeadersReadBack(buf: seq<Byte>, before: seq<Byte>, images: seq<Image>,
                                           rests: seq<seq<Byte>>, after: seq<Byte>, i: nat)
    requires |rests| == |images| && forall j :: 0 <= j < |rests| ==> |rests[j]| == IH_LEN
    requires buf == before + Headers(images, rests) + after && i < |images|
    ensures U32(buf, |before| + IH_LEN * i + IMG_ID_OFF) == images[i].imgId
    ensures U32(buf, |before| + IH_LEN * i + UID_OFF) == images[i].uid
    ensures U32(buf, |before| + IH_LEN * i + PUID_OFF) == images[i].puid
    decreases |images|
  {
    var first, others := Header(images[0], rests[0]), Headers(images[1..], rests[1..]);
    if i == 0 {
      assert buf == before + first + (others + after);
      HeaderReadsBack(buf, before, images[0], rests[0], others + after);
    } else {
      assert buf == (before + first) + others + after;
      HeadersReadBack(buf, before + first, images[1..], rests[1..], after, i - 1);
    }
  }

  lemma EncodeHoldsCount(images: seq<Image>, table: seq<Byte>, rests: seq<seq<Byte>>, tail: seq<Byte>)
    requires |table| == IHT_LEN && |images| < W32
    requires |rests| == |images| && forall i :: 0 <= i < |rests| ==> |rests[i]| == IH_LEN
    ensures U32(Encode(images, table, rests, tail), NUM_IMGS_OFF) == |images|
  {
    var after := table[NUM_IMGS_OFF + 4..] + Headers(images, rests) + tail;
    assert Encode(images, table, rests, tail) == table[..NUM_IMGS_OFF] + Le32(|images|) + after;
    WordInside(Encode(images, table, rests, tail), table[..NUM_IMGS_OFF], |images|, after);
  }

  lemma EncodeHoldsImage(images: seq<Image>, table: seq<Byte>, rests: seq<seq<Byte>>, tail: seq<Byte>, len: nat, i: nat)
    requires |table| == IHT_LEN && |images| < W32 && i < |images|
    requires |rests| == |images| && forall j :: 0 <= j < |rests| ==> |rests[j]| == IH_LEN
    requires IHT_LEN + IH_LEN * (i + 1) <= len <= |Encode(images, table, rests, tail)|
    ensures ImageAt(Encode(images, table, rests, tail)[..len], i) == images[i]
  {
    var buf := Encode(images, table, rests, tail);
    var start := table[..NUM_IMGS_OFF] + Le32(|images|) + table[NUM_IMGS_OFF + 4..];
    HeadersReadBack(buf, start, images, rests, tail, i);
    var base := IHT_LEN + IH_LEN * i;
    SameWord(buf, len, base + IMG_ID_OFF);
    SameWord(buf, len, base + UID_OFF);
    SameWord(buf, len, base + PUID_OFF);
  }

  /** The image whose ids count: the first of class and subclass 0x187, or the first of all if there is none. */
  predicate Counts(images: seq<Image>, k: nat) {
    && k < |images| && (forall j :: 0 <= j < k ==> images[j].imgId / 0x10_0000 != 0x187)
    && (images[k].imgId / 0x10_0000 == 0x187 || (k == 0 && forall j :: 0 <= j < |images| ==> images[j].imgId / 0x10_0000 != 0x187))
  }

  lemma CountingImage(images: seq<Image>) returns (k: nat)
    requires images != []
    ensures Counts(images, k) && MetaOf(images) == Meta(images[k].uid, images[k].puid, images)
    ensures forall j: nat :: Counts(images, j) ==> j == k
  {
    k := FirstPl(images, 0);
    if k == |images| {
      k := 0;
    }
  }

  /** A buffer cut off anywhere yields the images whose headers are whole, the first 32 of them. */
  lemma DecodeInvertsEncode(images: seq<Image>, table: seq<Byte>, rests: seq<seq<Byte>>, tail: seq<Byte>, len: nat)
    requires |table| == IHT_LEN && |images| < INT_LIMIT
    requires |rests| == |images| && forall i :: 0 <= i < |rests| ==> |rests[i]| == IH_LEN
    requires len <= |Encode(images, table, rests, tail)|
    ensures var whole := if len < IHT_LEN then 0 else Min(Min(|images|, MAX_IMAGES), (len - IHT_LEN) / IH_LEN);
      Decode(Encode(images, table, rests, tail)[..len])
      == if whole == 0 then None else Some(MetaOf(images[..whole]))
    ensures var whole := if len < IHT_LEN then 0 else Min(Min(|images|, MAX_IMAGES), (len - IHT_LEN) / IH_LEN);
      forall k: nat :: Counts(images[..whole], k) ==>
        Decode(Encode(images, table, rests, tail)[..len]) == Some(Meta(images[k].uid, images[k].puid, images[..whole]))
  {
    if len >= IHT_LEN {
      var buf := Encode(images, table, rests, tail);
      EncodeHoldsCount(images, table, rests, tail);
      SameWord(buf, len, NUM_IMGS_OFF);
      var whole := Held(buf[..len]);
      forall i | 0 <= i < whole ensures ImageAt(buf[..len], i) == images[i] {
        EncodeHoldsImage(images, table, rests, tail, len, i);
      }
      assert Images(buf[..len], whole) == images[..whole];
      if whole > 0 {
        var k := CountingImage(images[..whole]);
      }
    }
  }

  /** The bytes of a decoded buffer that its images stand for: four words from 0x20 on in each header of 0x40 bytes behind the
      0x80 of the table. */
  lemma DecodedBytes(buf: seq<Byte>, i: nat)
    requires Decode(buf).Some? && i < |Decode(buf).value.images|
    ensures 0x80 + 0x40 * i + 0x40 <= |buf|
    ensures var image, h := Decode(buf).value.images[i], 0x80 + 0x40 * i;
      && Le32(image.imgId) == buf[h + 0x20..h + 0x24] && Le32(image.uid) == buf[h + 0x24..h + 0x28]
      && Le32(image.puid) == buf[h + 0x28..h + 0x2C]
    ensures |Decode(buf).value.images| <= U32(buf, 4)
  {
    var h := 0x80 + 0x40 * i;
    BytesOfWord(buf, h + 0x20);
    BytesOfWord(buf, h + 0x24);
    BytesOfWord(buf, h + 0x28);
  }

  lemma BytesOfWord(buf: seq<Byte>, at: nat)
    requires at + 4 <= |buf|
    ensures Le32(U32(buf, at)) == buf[at..at + 4]
  {
    var w := U32(buf, at);
    assert w / 0x100 == buf[at + 1] as int + buf[at + 2] as int * 0x100 + buf[at + 3] as int * 0x1_0000;
    assert w / 0x1_0000 == buf[at + 2] as int + buf[at + 3] as int * 0x100;
    assert w / 0x100_0000 == buf[at + 3] as int;
  }

  /** When decoding fails, and how many images it yields when it does not. */
  lemma DecodeFailsExactlyWhen(buf: seq<Byte>)
    ensures Decode(buf).None? <==>
      |buf| < IHT_LEN + IH_LEN || U32(buf, NUM_IMGS_OFF) >= INT_LIMIT || U32(buf, NUM_IMGS_OFF) == 0
    ensures Decode(buf).Some? ==>
      |Decode(buf).value.images| == Min(Min(U32(buf, NUM_IMGS_OFF), MAX_IMAGES), (|buf| - IHT_LEN) / IH_LEN)
  {}

  // ---------------------------------------------------------------- which file

  /** `strcmp` as an order: no letter of b is smaller at the first place they differ. */
  predicate AtMost(a: string, b: string)
    decreases |a|
  {
    a == [] || (b != [] && (a[0] < b[0] || (a[0] == b[0] && AtMost(a[1..], b[1..]))))
  }

  predicate IsPdi(name: string) {
    |name| > 4 && (name[|name| - 4..] == ".pdi" || name[|name| - 4..] == ".PDI")
  }

  /** One name is at most another if it begins it, or has the smaller letter where they first differ. */
  lemma {:induction false} AtMostExactlyWhen(a: string, b: string)
    ensures AtMost(a, b) <==> a <= b || exists k :: 0 <= k < |a| && k < |b| && DifferFirst(a, b, k) && a[k] < b[k]
    decreases |a|
  {
    if a != [] && b != [] && a[0] == b[0] {
      var c, d := a[1..], b[1..];
      AtMostExactlyWhen(c, d);
      assert a <= b <==> c <= d;
      if k :| 0 <= k < |c| && k < |d| && DifferFirst(c, d, k) && c[k] < d[k] {
        assert a[..k + 1] == [a[0]] + c[..k] && b[..k + 1] == [b[0]] + d[..k];
        assert DifferFirst(a, b, k + 1);
      }
      if k :| 0 <= k < |a| && k < |b| && DifferFirst(a, b, k) && a[k] < b[k] {
        assert c[..k - 1] == a[..k][1..] && d[..k - 1] == b[..k][1..];
        assert DifferFirst(c, d, k - 1);
      }
    } else if a != [] && b != [] {
      assert a[0] < b[0] ==> DifferFirst(a, b, 0);
      forall k | 0 <= k < |a| && k < |b| && DifferFirst(a, b, k)
        ensures k == 0
      {
        if k > 0 {
          SameStart(a, b, k);
        }
      }
    }
  }

  lemma SameStart(a: string, b: string, k: nat)
    requires 0 < k < |a| && k < |b| && DifferFirst(a, b, k)
    ensures a[0] == b[0]
  {
    assert a[..k][0] == a[0] && b[..k][0] == b[0];
  }

  predicate DifferFirst(a: string, b: string, k: nat)
    requires k < |a| && k < |b|
  {
    a[..k] == b[..k] && a[k] != b[k]
  }

  /** A metaheader file is named something.pdi or something.PDI. */
  lemma IsPdiExactlyWhen(name: string)
    ensures IsPdi(name) <==> exists stem: string :: stem != "" && (name == stem + ".pdi" || name == stem + ".PDI")
  {
    if IsPdi(name) {
      var stem := name[..|name| - 4];
      assert name == stem + name[|name| - 4..];
    }
    forall stem: string | stem != "" && (name == stem + ".pdi" || name == stem + ".PDI")
      ensures IsPdi(name)
    {
      assert |name| == |stem| + 4 && name[|name| - 4..] == name[|stem|..];
    }
  }

  lemma {:induction false} AtMostIsAntisymmetric(a: string, b: string)
    requires AtMost(a, b) && AtMost(b, a)
    ensures a == b
    decreases |a|
  {
    if a != [] {
      AtMostIsAntisymmetric(a[1..], b[1..]);
      assert a == [a[0]] + a[1..] && b == [b[0]] + b[1..];
    }
  }

  lemma {:induction false} AtMostIsTotal(a: string, b: string)
    ensures AtMost(a, b) || AtMost(b, a)
    decreases |a|
  {
    if a != [] && b != [] {
      AtMostIsTotal(a[1..], b[1..]);
    }
  }

  lemma {:induction false} AtMostIsTransitive(a: string, b: string, c: string)
    requires AtMost(a, b) && AtMost(b, c)
    ensures AtMost(a, c)
    decreases |a|
  {
    if a != [] && a[0] == b[0] && b[0] == c[0] {
      AtMostIsTransitive(a[1..], b[1..], c[1..]);
    }
  }

  /** The smallest metaheader file among some names. */
  predicate IsPick(names: seq<string>, best: Option<string>) {
    match best
    case None => forall i :: 0 <= i < |names| ==> !IsPdi(names[i])
    case Some(name) =>
      && name in names && IsPdi(name)
      && forall i :: 0 <= i < |names| && IsPdi(names[i]) ==> AtMost(name, names[i])
  }

  /** The directory loop of `pdi_parse_dir`. */
  method PickFile(names: seq<string>) returns (best: Option<string>)
    ensures IsPick(names, best)
  {
    best := None;
    var i := 0;
    while i < |names|
      invariant i <= |names|
      invariant IsPick(names[..i], best)
    {
      assert names[..i + 1] == names[..i] + [names[i]];
      if IsPdi(names[i]) {
        if best.None? || !AtMost(best.value, names[i]) {
          if best.Some? {
            ghost var was := best.value;
            AtMostIsTotal(was, names[i]);
            forall j | 0 <= j < i && IsPdi(names[j]) ensures AtMost(names[i], names[j]) {
              assert names[..i][j] == names[j];
              AtMostIsTransitive(names[i], was, names[j]);
            }
          } else {
            assert forall j :: 0 <= j < i ==> !IsPdi(names[..i][j]);
          }
          AtMostIsTotal(names[i], names[i]);
          best := Some(names[i]);
        }
      }
      i := i + 1;
    }
    assert names[..|names|] == names;
  }

  lemma PickIsBelow(names: seq<string>, others: seq<string>, best: string, other: Option<string>)
    requires IsPick(names, Some(best)) && IsPick(others, other)
    requires forall name :: name in names <==> name in others
    ensures other.Some? && AtMost(other.value, best)
  {
    assert best in others;
  }

  /** The order in which the directory is read makes no difference. */
  lemma PickIsStable(names: seq<string>, others: seq<string>, best: Option<string>, other: Option<string>)
    requires IsPick(names, best) && IsPick(others, other)
    requires forall name :: name in names <==> name in others
    ensures best == other
  {
    if best.Some? {
      PickIsBelow(names, others, best.value, other);
    }
    if other.Some? {
      PickIsBelow(others, names, other.value, best);
      AtMostIsAntisymmetric(best.value, other.value);
    }
  }

  // ---------------------------------------------------------------- which image was booted

  /** The root programmable-logic image: a unique id, no parent. */
  predicate IsRoot(e: Image) {
    e.puid == 0 && e.uid != 0 && IsPl(e)
  }

  function BootUid(entries: seq<Image>): Word {
    if entries == [] then 0 else if IsRoot(entries[0]) then entries[0].uid else BootUid(entries[1..])
  }

  function EntryAt(words: seq<Word>, i: nat): Image
    requires 4 * i + 4 <= |words|
  {
    Image(words[4 * i], words[4 * i + 1], words[4 * i + 2])
  }

  function Entries(words: seq<Word>, n: nat): (entries: seq<Image>)
    requires 4 * n <= |words|
    ensures |entries| == n
  {
    seq(n, i requires 0 <= i < n => EntryAt(words, i))
  }

  /** `pdi_filter_boot_pl_uid`, without the conversion of the unique id to int. */
  method FilterBootUid(words: array?<Word>, nbytes: int) returns (uid: Word)
    requires words != null && nbytes > 0 ==> 4 * (nbytes / 16) <= words.Length
    ensures uid == if words == null || nbytes <= 0 then 0 else BootUid(Entries(words[..], nbytes / 16))
  {
    if words == null || nbytes <= 0 {
      return 0;
    }
    var n := nbytes / 16;
    ghost var entries := Entries(words[..], n);
    var i := 0;
    while i < n
      invariant 0 <= i <= n
      invariant BootUid(entries[i..]) == BootUid(entries)
    {
      assert entries[i..][1..] == entries[i + 1..];
      var imgId, id, parent := words[4 * i], words[4 * i + 1], words[4 * i + 2];
      assert entries[i] == Image(imgId, id, parent);
      if parent == 0 && id != 0 && imgId / 0x10_0000 == 0x187 {
        return id;
      }
      i := i + 1;
    }
    return 0;
  }

  /** Images loaded on top of another one leave the answer as it is, wherever they are listed. */
  lemma {:induction false} ChildrenAreIgnored(before: seq<Image>, child: Image, after: seq<Image>)
    requires child.puid != 0
    ensures BootUid(before + [child] + after) == BootUid(before + after)
    decreases |before|
  {
    if before == [] {
      assert before + [child] + after == [child] + after && before + after == after;
    } else {
      ChildrenAreIgnored(before[1..], child, after);
      assert (before + [child] + after)[1..] == before[1..] + [child] + after;
      assert (before + after)[1..] == before[1..] + after;
    }
  }

  /** The answer is the id of the first entry of class and subclass 0x187 that has an id and no parent; 0 if there is none. */
  lemma {:induction false} BootUidIs(entries: seq<Image>)
    ensures forall k: nat :: FirstRoot(entries, k) ==> BootUid(entries) == entries[k].uid
    ensures (forall k: nat :: !FirstRoot(entries, k)) ==> BootUid(entries) == 0
    decreases |entries|
  {
    if entries != [] {
      var rest := entries[1..];
      BootUidIs(rest);
      if RootEntry(entries[0]) {
        assert FirstRoot(entries, 0);
      }
      forall k: nat | k > 0 && !RootEntry(entries[0])
        ensures FirstRoot(entries, k) <==> FirstRoot(rest, k - 1)
      {
        assert forall j :: 0 < j < |entries| ==> entries[j] == rest[j - 1];
      }
      forall k: nat
        ensures FirstRoot(rest, k) && !RootEntry(entries[0]) ==> FirstRoot(entries, k + 1)
      {
      }
    }
  }

  predicate RootEntry(e: Image) {
    e.imgId / 0x10_0000 == 0x187 && e.uid != 0 && e.puid == 0
  }

  predicate FirstRoot(entries: seq<Image>, k: nat) {
    k < |entries| && RootEntry(entries[k]) && forall j :: 0 <= j < k ==> !RootEntry(entries[j])
  }
}
