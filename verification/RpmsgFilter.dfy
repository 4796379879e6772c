/** Which entries of the device directory are passed over, said of their names alone, and that they play no part. */
module RpmsgFilter {
  import opened Common
  import opened RpmsgNames
  import opened RpmsgSpec
  import opened RpmsgList

  // ---------------------------------------------------------------- words in a name

  /** The word stands in the name, from index i on. */
  predicate StandsAt(word: string, name: string, i: nat) {
    i + |word| <= |name| && name[i..i + |word|] == word
  }

  predicate StandsIn(word: string, name: string) {
    exists i :: 0 <= i <= |name| && StandsAt(word, name, i)
  }

  lemma SliceBehind(s: string, i: nat, n: nat)
    requires 0 < i && i + n <= |s|
    ensures s[i..i + n] == s[1..][i - 1..i - 1 + n]
  {
    var a, b := s[i..i + n], s[1..][i - 1..i - 1 + n];
    forall k | 0 <= k < n
      ensures a[k] == b[k]
    {
    }
  }

  lemma {:induction false} ContainsIsStandsIn(name: string, word: string)
    ensures Contains(name, word) <==> StandsIn(word, name)
  {
    if word <= name {
      assert StandsAt(word, name, 0);
    } else if name != "" {
      var rest := name[1..];
      ContainsIsStandsIn(rest, word);
      if i :| 0 <= i <= |rest| && StandsAt(word, rest, i) {
        SliceBehind(name, i + 1, |word|);
        assert StandsAt(word, name, i + 1);
      }
      if i :| 0 < i <= |name| && StandsAt(word, name, i) {
        SliceBehind(name, i, |word|);
        assert StandsAt(word, rest, i - 1);
      }
    }
  }

  // ---------------------------------------------------------------- the number in a name

  predicate Digits(s: string, a: nat, b: nat) {
    a <= b <= |s| && forall k :: a <= k < b ==> IsDigit(s[k])
  }

  predicate NoDigits(s: string, a: nat, b: nat) {
    a <= b <= |s| && forall k :: a <= k < b ==> !IsDigit(s[k])
  }

  /** What digits say, read from the right. */
  function Value(s: string): nat
    requires Digits(s, 0, |s|)
  {
    if s == "" then 0 else Value(s[..|s| - 1]) * 10 + (s[|s| - 1] as int - '0' as int)
  }

  /** v is what is left in an int of a number clamped to a long. */
  predicate InInt(n: nat, v: int) {
    -0x8000_0000 <= v < 0x8000_0000 && (v - Min(n, LONG_MAX)) % 0x1_0000_0000 == 0
  }

  /** The last digits of the token, as many as stand together, are from a to b. */
  predicate LastDigits(token: string, a: nat, b: nat) {
    a < b && Digits(token, a, b) && (a == 0 || !IsDigit(token[a - 1])) && NoDigits(token, b, |token|)
  }

  /** They say v; a token without digits says 0. */
  ghost predicate TokenSays(token: string, v: int) {
    if NoDigits(token, 0, |token|) then v == 0
    else exists a: nat, b: nat :: LastDigits(token, a, b) && InInt(Value(token[a..b]), v)
  }

  /** The name is some dots, the token, and a rest from the next dot on. */
  predicate FirstPart(name: string, dots: string, token: string, rest: string) {
    && name == dots + token + rest
    && (forall k :: 0 <= k < |dots| ==> dots[k] == '.')
    && (forall k :: 0 <= k < |token| ==> token[k] != '.')
    && (rest == "" || rest[0] == '.') && (token == "" ==> rest == "")
  }

  /** The number of the first part of the name is v. */
  ghost predicate NumberIs(name: string, v: int) {
    exists dots: string, token: string, rest: string :: FirstPart(name, dots, token, rest) && TokenSays(token, v)
  }

  lemma {:induction false} DotsEnd(s: string, i: nat, k: nat)
    requires i <= k <= |s| && (forall m :: i <= m < k ==> s[m] == '.') && (k < |s| ==> s[k] != '.')
    ensures SkipDots(s, i) == k
    decreases k - i
  {
    if i < k {
      DotsEnd(s, i + 1, k);
    }
  }

  lemma {:induction false} DigitsStop(s: string, i: nat, k: nat)
    requires Digits(s, i, k) && (k < |s| ==> !IsDigit(s[k]))
    ensures DigitsEnd(s, i) == k
    decreases k - i
  {
    if i < k {
      DigitsStop(s, i + 1, k);
    }
  }

  lemma FirstPartIsToken(name: string, dots: string, token: string, rest: string)
    requires FirstPart(name, dots, token, rest)
    ensures FirstToken(name) == token
  {
    var d, t := |dots|, |dots| + |token|;
    assert forall k :: 0 <= k < d ==> name[k] == dots[k];
    assert forall k :: d <= k < t ==> name[k] == token[k - d];
    assert t < |name| ==> name[t] == rest[0];
    DotsEnd(name, 0, d);
    assert name[d..t] == token;
  }

  lemma TokenIsFirstPart(name: string)
    ensures var from := SkipDots(name, 0);
      FirstPart(name, name[..from], FirstToken(name), name[DotFrom(name, from)..])
  {
  }

  /** Reading the digits from a to b from the left. */
  lemma {:induction false} DigitsValueIs(s: string, a: nat, m: nat, b: nat)
    requires Digits(s, a, b) && a <= m <= b
    ensures DigitsValue(s, a, 0) == DigitsValue(s, m, Value(s[a..m]))
    decreases m
  {
    if a < m {
      DigitsValueIs(s, a, m - 1, b);
      assert s[a..m][..m - a - 1] == s[a..m - 1];
    }
  }

  lemma {:induction false} NoMoreNumbers(s: string, i: nat, num: int)
    requires NoDigits(s, i, |s|)
    ensures LastNumber(s, i, num) == num
    decreases |s| - i
  {
    if i < |s| {
      NoMoreNumbers(s, i + 1, num);
    }
  }

  lemma {:induction false} LastNumberIs(s: string, i: nat, num: int, a: nat, b: nat)
    requires LastDigits(s, a, b) && i <= a
    ensures LastNumber(s, i, num) == ToInt(Strtol(s, a))
    decreases |s| - i
  {
    if i == a {
      DigitsStop(s, a, b);
      NoMoreNumbers(s, b, ToInt(Strtol(s, a)));
    } else if IsDigit(s[i]) {
      var end := DigitsEnd(s, i);
      assert end <= a - 1;
      LastNumberIs(s, end, ToInt(Strtol(s, i)), a, b);
    } else {
      LastNumberIs(s, i + 1, num, a, b);
    }
  }

  lemma StrtolIs(s: string, a: nat, b: nat)
    requires a < b && Digits(s, a, b) && (b < |s| ==> !IsDigit(s[b]))
    ensures Strtol(s, a) == Min(Value(s[a..b]), LONG_MAX)
  {
    DigitsValueIs(s, a, b, b);
  }

  lemma IntIs(n: nat, v: int)
    ensures InInt(n, v) <==> v == ToInt(Min(n, LONG_MAX))
  {
  }

  /** Where the last digits of a token are. */
  lemma {:induction false} LastDigitsOf(s: string, n: nat) returns (a: nat, b: nat)
    requires n <= |s| && NoDigits(s, n, |s|) && !NoDigits(s, 0, n)
    ensures LastDigits(s, a, b)
    decreases n
  {
    if IsDigit(s[n - 1]) {
      b, a := n, n - 1;
      while a > 0 && IsDigit(s[a - 1])
        invariant a < b && Digits(s, a, b)
      {
        a := a - 1;
      }
    } else {
      a, b := LastDigitsOf(s, n - 1);
    }
  }

  lemma TokenSaysExactly(token: string, v: int)
    ensures TokenSays(token, v) <==> v == LastNumber(token, 0, 0)
  {
    if NoDigits(token, 0, |token|) {
      NoMoreNumbers(token, 0, 0);
    } else {
      forall a: nat, b: nat | LastDigits(token, a, b)
        ensures InInt(Value(token[a..b]), v) <==> v == LastNumber(token, 0, 0)
      {
        LastNumberIs(token, 0, 0, a, b);
        StrtolIs(token, a, b);
        IntIs(Value(token[a..b]), v);
      }
      var a, b := LastDigitsOf(token, |token|);
    }
  }

  /** The number that is found is that of the first part. */
  lemma NumberIsExactly(name: string, v: int)
    ensures NumberIs(name, v) <==> v == VirtioNumber(name)
  {
    TokenIsFirstPart(name);
    TokenSaysExactly(FirstToken(name), v);
    forall dots: string, token: string, rest: string | FirstPart(name, dots, token, rest)
      ensures token == FirstToken(name)
    {
      FirstPartIsToken(name, dots, token, rest);
    }
  }

  // ---------------------------------------------------------------- what is passed over

  /** The directory itself and its parent, name services, control devices, and whatever is of another RPU. */
  ghost predicate PassedOver(name: string, virtio: int) {
    || name == "." || name == ".."
    || StandsIn("rpmsg_ns", name) || StandsIn("rpmsg_ctrl", name)
    || !NumberIs(name, virtio)
  }

  lemma RelevantExactlyWhen(name: string, virtio: int)
    ensures Relevant(name, virtio) <==> !PassedOver(name, virtio)
  {
    ContainsIsStandsIn(name, "rpmsg_ns");
    ContainsIsStandsIn(name, "rpmsg_ctrl");
    NumberIsExactly(name, virtio);
  }

  lemma {:induction false} ScanSkips(devs: seq<Dev>, head: string, before: seq<Found>, e: Found, after: seq<Found>, m: nat)
    requires !e.relevant && m <= |after|
    ensures Scan(devs, head, before + [e] + after, |before| + 1 + m) == Scan(devs, head, before + after, |before| + m)
    decreases m
  {
    var long, short := before + [e] + after, before + after;
    if m > 0 {
      ScanSkips(devs, head, before, e, after, m - 1);
      assert long[|before| + m] == after[m - 1] == short[|before| + m - 1];
    } else {
      SameScan(devs, head, long, short, |before|);
      assert long[|before|] == e;
    }
  }

  lemma {:induction false} SameScan(devs: seq<Dev>, head: string, a: seq<Found>, b: seq<Found>, n: nat)
    requires n <= |a| && n <= |b| && a[..n] == b[..n]
    ensures Scan(devs, head, a, n) == Scan(devs, head, b, n)
  {
    if n > 0 {
      assert a[n - 1] == a[..n][n - 1] && b[n - 1] == b[..n][n - 1];
      assert a[..n - 1] == a[..n][..n - 1] && b[..n - 1] == b[..n][..n - 1];
      SameScan(devs, head, a, b, n - 1);
    }
  }

  /** An entry that is passed over makes no difference to an update, wherever it is listed: it brings no node and keeps none. */
  lemma PassedOverIsIgnored(devs: seq<Dev>, virtio: int, before: seq<DirEntry>, e: DirEntry, after: seq<DirEntry>)
    requires PassedOver(e.name, virtio)
    ensures Updated(devs, Head(virtio), Classified(before + [e] + after, virtio))
         == Updated(devs, Head(virtio), Classified(before + after, virtio))
  {
    RelevantExactlyWhen(e.name, virtio);
    var b, f, a := Classified(before, virtio), Classify(e, virtio), Classified(after, virtio);
    ClassifiedJoin(before, after, virtio);
    ClassifiedJoin(before, [e], virtio);
    ClassifiedJoin(before + [e], after, virtio);
    assert Classified([e], virtio) == [f];
    UpdateSkips(devs, Head(virtio), b, f, a);
  }

  lemma ClassifiedJoin(a: seq<DirEntry>, b: seq<DirEntry>, virtio: int)
    ensures Classified(a + b, virtio) == Classified(a, virtio) + Classified(b, virtio)
  {
  }

  lemma UpdateSkips(devs: seq<Dev>, head: string, before: seq<Found>, e: Found, after: seq<Found>)
    requires !e.relevant
    ensures Updated(devs, head, before + [e] + after) == Updated(devs, head, before + after)
  {
    ScanSkips(Reset(devs), head, before, e, after, |after|);
  }

  lemma {:induction false} NothingIsLeft(devs: seq<Dev>)
    requires forall i :: 0 <= i < |devs| ==> !devs[i].active
    ensures Sweep(devs) == []
    decreases |devs|
  {
    if devs != [] {
      var n := |devs| - 1;
      NothingIsLeft(devs[..n]);
      assert Flags(devs)[..n] == Flags(devs[..n]);
    }
  }

  /** So a directory of such entries alone empties the list. */
  lemma {:induction false} PassedOverEmpties(devs: seq<Dev>, virtio: int, dir: seq<DirEntry>)
    requires forall i :: 0 <= i < |dir| ==> PassedOver(dir[i].name, virtio)
    ensures Updated(devs, Head(virtio), Classified(dir, virtio)) == []
    decreases |dir|
  {
    if dir == [] {
      NothingIsLeft(Reset(devs));
    } else {
      var n := |dir| - 1;
      assert dir == dir[..n] + [dir[n]] + [] && dir[..n] == dir[..n] + [];
      PassedOverIsIgnored(devs, virtio, dir[..n], dir[n], []);
      PassedOverEmpties(devs, virtio, dir[..n]);
    }
  }

  /** And any other entry that can be set up is a device of a list that was empty. */
  lemma OthersAreTaken(virtio: int, e: DirEntry)
    requires !PassedOver(e.name, virtio) && e.setup.Made?
    ensures Updated([], Head(virtio), Classified([e], virtio)) == [Dev(ChannelOf(e.name), e.setup.ept, true)]
  {
    RelevantExactlyWhen(e.name, virtio);
    var found := Classified([e], virtio);
    assert Reset([]) == [];
    assert Scan([], Head(virtio), found, 0) == [];
    assert Scan([], Head(virtio), found, 1) == [Dev(ChannelOf(e.name), e.setup.ept, true)];
    KeepAll([Dev(ChannelOf(e.name), e.setup.ept, true)], Flags([Dev(ChannelOf(e.name), e.setup.ept, true)]));
  }
}
