/** Names of rpmsg devices: `virtio<n>.<channel>`, taken apart and put together. */
module RpmsgNames {
  import opened Common

  // ---------------------------------------------------------------- putting a name together

  /** What %d prints of a number that is not negative. */
  function Decimal(n: nat): (r: string)
    ensures r != "" && forall i :: 0 <= i < |r| ==> IsDigit(r[i])
  {
    if n < 10 then [Digit(n)] else Decimal(n / 10) + [Digit(n % 10)]
  }

  function Digit(d: nat): (c: char)
    requires d < 10
    ensures IsDigit(c) && c as int - '0' as int == d
  {
    (d + '0' as int) as char
  }

  function PrintInt(n: int): string {
    if n < 0 then "-" + Decimal(-n) else Decimal(n)
  }

  /** What the names of the devices of one RPU begin with. */
  function Head(virtio: int): string {
    "virtio" + PrintInt(virtio) + "."
  }

  function FullName(virtio: int, channel: string): string {
    Head(virtio) + channel
  }

  // ---------------------------------------------------------------- taking a name apart

  /** The first dot from i on, or the end. */
  function DotFrom(s: string, i: nat): (k: nat)
    requires i <= |s|
    ensures i <= k <= |s| && (k < |s| ==> s[k] == '.')
    ensures forall m :: i <= m < k ==> s[m] != '.'
    decreases |s| - i
  {
    if i == |s| || s[i] == '.' then i else DotFrom(s, i + 1)
  }

  /** The first character from i on that is no dot, or the end. */
  function SkipDots(s: string, i: nat): (k: nat)
    requires i <= |s|
    ensures i <= k <= |s| && (k < |s| ==> s[k] != '.')
    ensures forall m :: i <= m < k ==> s[m] == '.'
    decreases |s| - i
  {
    if i == |s| || s[i] != '.' then i else SkipDots(s, i + 1)
  }

  /** What `strtok` with "." gives first; empty where it gives NULL. */
  function FirstToken(s: string): string {
    var from := SkipDots(s, 0);
    s[from..DotFrom(s, from)]
  }

  /** What stands behind the first dot. */
  function ChannelOf(name: string): string {
    var dot := DotFrom(name, 0);
    if dot < |name| then name[dot + 1..] else ""
  }

  const LONG_MAX := 0x7FFF_FFFF_FFFF_FFFF

  /** `strtol` on the digits from i on: where they end, and their value going on from v, at most LONG_MAX. */
  function DigitsEnd(s: string, i: nat): (k: nat)
    requires i <= |s|
    ensures i <= k <= |s|
    ensures i < |s| && IsDigit(s[i]) ==> i < k
    ensures (k < |s| ==> !IsDigit(s[k])) && forall m :: i <= m < k ==> IsDigit(s[m])
    decreases |s| - i
  {
    if i == |s| || !IsDigit(s[i]) then i else DigitsEnd(s, i + 1)
  }

  function DigitsValue(s: string, i: nat, v: nat): nat
    requires i <= |s|
    decreases |s| - i
  {
    if i == |s| || !IsDigit(s[i]) then v else DigitsValue(s, i + 1, v * 10 + (s[i] as int - '0' as int))
  }

  function Strtol(s: string, i: nat): (r: nat)
    requires i <= |s|
    ensures r <= LONG_MAX
  {
    var v := DigitsValue(s, i, 0);
    if v > LONG_MAX then LONG_MAX else v
  }

  /** A long stored in an int: the low 32 bits, as a signed number. */
  function ToInt(v: nat): int {
    var low := v % 0x1_0000_0000;
    if low >= 0x8000_0000 then low - 0x1_0000_0000 else low
  }

  /** The last number in s from i on, or `num` if there is none. */
  function LastNumber(s: string, i: nat, num: int): int
    requires i <= |s|
    decreases |s| - i
  {
    if i == |s| then num
    else if IsDigit(s[i]) then LastNumber(s, DigitsEnd(s, i), ToInt(Strtol(s, i)))
    else LastNumber(s, i + 1, num)
  }

  function VirtioNumber(name: string): int {
    LastNumber(FirstToken(name), 0, 0)
  }

  /** `get_virtio_number`: a cursor moves over the first token and remembers the last number it passed. */
  method GetVirtioNumber(name: string) returns (num: int)
    ensures num == VirtioNumber(name)
  {
    var token := FirstToken(name);
    num := 0;
    var cursor := 0;
    while cursor < |token|
      invariant cursor <= |token|
      invariant LastNumber(token, cursor, num) == VirtioNumber(name)
    {
      if IsDigit(token[cursor]) {
        num := ToInt(Strtol(token, cursor));
        cursor := DigitsEnd(token, cursor);
      } else {
        cursor := cursor + 1;
      }
    }
  }

  // ---------------------------------------------------------------- the two are inverse

  lemma {:induction false} DotAfter(a: string, b: string, i: nat)
    requires i <= |a| && forall k :: i <= k < |a| ==> a[k] != '.'
    ensures DotFrom(a + "." + b, i) == |a|
    decreases |a| - i
  {
    assert (a + "." + b)[|a|] == '.';
    if i < |a| {
      assert (a + "." + b)[i] == a[i];
      DotAfter(a, b, i + 1);
    }
  }

  lemma {:induction false} DigitsToEnd(s: string, i: nat)
    requires i <= |s| && forall k :: i <= k < |s| ==> IsDigit(s[k])
    ensures DigitsEnd(s, i) == |s|
    decreases |s| - i
  {
    if i < |s| {
      DigitsToEnd(s, i + 1);
    }
  }

  /** Reading digits one more than before. */
  lemma {:induction false} DigitsSnoc(s: string, c: char, i: nat, v: nat)
    requires i <= |s| && IsDigit(c) && forall k :: i <= k < |s| ==> IsDigit(s[k])
    ensures DigitsValue(s + [c], i, v) == DigitsValue(s, i, v) * 10 + (c as int - '0' as int)
    decreases |s| - i
  {
    if i < |s| {
      assert (s + [c])[i] == s[i];
      DigitsSnoc(s, c, i + 1, v * 10 + (s[i] as int - '0' as int));
    } else {
      assert (s + [c])[i] == c;
      assert DigitsValue(s + [c], i + 1, v * 10 + (c as int - '0' as int)) == v * 10 + (c as int - '0' as int);
    }
  }

  /** Printing a number behind other text and reading it from there gives it back. */
  lemma {:induction false} DecimalReads(prefix: string, n: nat)
    ensures DigitsValue(prefix + Decimal(n), |prefix|, 0) == n
    decreases n
  {
    var s := prefix + Decimal(n);
    if n < 10 {
      assert s[|prefix|] == Digit(n);
      assert DigitsValue(s, |prefix| + 1, Digit(n) as int - '0' as int) == n;
    } else {
      DecimalReads(prefix, n / 10);
      var t := prefix + Decimal(n / 10);
      assert s == t + [Digit(n % 10)];
      forall k | |prefix| <= k < |t|
        ensures IsDigit(t[k])
      {
        assert t[k] == Decimal(n / 10)[k - |prefix|];
      }
      DigitsSnoc(t, Digit(n % 10), |prefix|, 0);
    }
  }

  lemma {:induction false} NumberBehind(prefix: string, n: nat, i: nat, num: int)
    requires n < 0x8000_0000 && i <= |prefix| && forall k :: i <= k < |prefix| ==> !IsDigit(prefix[k])
    ensures LastNumber(prefix + Decimal(n), i, num) == n
    decreases |prefix| - i
  {
    var s := prefix + Decimal(n);
    if i < |prefix| {
      assert s[i] == prefix[i];
      NumberBehind(prefix, n, i + 1, num);
    } else {
      DecimalReads(prefix, n);
      assert s[i] == Decimal(n)[0];
      forall k | i <= k < |s|
        ensures IsDigit(s[k])
      {
        assert s[k] == Decimal(n)[k - |prefix|];
      }
      DigitsToEnd(s, i);
    }
  }

  /** A name of the form virtio<n>.<channel> gives back its number and its channel. */
  lemma {:induction false} NameRoundTrip(n: nat, channel: string)
    requires n < 0x8000_0000
    ensures VirtioNumber(FullName(n, channel)) == n
    ensures ChannelOf(FullName(n, channel)) == channel
  {
    var head := "virtio" + Decimal(n);
    var name := FullName(n, channel);
    assert name == head + "." + channel;
    forall k | 0 <= k < |head|
      ensures head[k] != '.'
    {
      assert k < 6 || head[k] == Decimal(n)[k - 6];
    }
    DotAfter(head, channel, 0);
    assert name[0] == 'v';
    assert SkipDots(name, 0) == 0;
    assert FirstToken(name) == head;
    NumberBehind("virtio", n, 0, 0);
    assert name[|head| + 1..] == channel;
  }

  // ---------------------------------------------------------------- which entries concern an RPU

  /** `part` occurs in `s`. */
  predicate Contains(s: string, part: string) {
    part <= s || (s != "" && Contains(s[1..], part))
  }

  /** The scan passes over the directory itself, its parent, name services, control devices and the devices of other
      RPUs. */
  predicate Relevant(name: string, virtio: int) {
    && name != "." && name != ".." && !Contains(name, "rpmsg_ns") && !Contains(name, "rpmsg_ctrl")
    && VirtioNumber(name) == virtio
  }
}
