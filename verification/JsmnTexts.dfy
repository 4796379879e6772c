/** What the text under each token is: quoted bodies, plain words and brackets. Said of the text alone. */
module JsmnTexts {
  import opened Common
  import opened JsonText
  import opened JsmnSpec
  import opened JsmnBrackets

  // ---------------------------------------------------------------- what may stand between quotes

  const SHORT_ESCAPES: set<char> := {'"', '\\', '/', 'b', 'f', 'n', 'r', 't'}

  predicate AllHex(s: string) {
    forall i :: 0 <= i < |s| ==> IsHexDigit(s[i])
  }

  /** No bare quote and no end of the text; every backslash begins one of the eight short escapes, or \u and four hex digits. */
  predicate Quotable(s: string) {
    s == "" ||
    if s[0] != '\\' then s[0] != '"' && s[0] != '\0' && Quotable(s[1..])
    else if |s| >= 2 && s[1] in SHORT_ESCAPES then Quotable(s[2..])
    else |s| >= 6 && s[1] == 'u' && AllHex(s[2..6]) && Quotable(s[6..])
  }

  /** The text ends at k. */
  predicate Ends(js: string, k: nat) {
    k >= |js| || js[k] == '\0'
  }

  predicate HexFrom(js: string, k: nat, m: nat) {
    k + m <= |js| && AllHex(js[k..k + m])
  }

  /** From k on there are m hex digits, less than four, and then something else. */
  predicate HexThenOther(js: string, k: nat, m: nat) {
    m < 4 && HexFrom(js, k, m) && !Ends(js, k + m) && !IsHexDigit(js[k + m])
  }

  predicate HexThenEnd(js: string, k: nat, m: nat) {
    m < 4 && HexFrom(js, k, m) && Ends(js, k + m)
  }

  /** From k on fewer than four hex digits stand before another character. */
  ghost predicate HexBroken(js: string, k: nat) {
    exists m: nat :: HexThenOther(js, k, m)
  }

  /** Or before the end of the text. */
  ghost predicate HexUnfinished(js: string, k: nat) {
    exists m: nat :: HexThenEnd(js, k, m)
  }

  /** At k a backslash begins what is no escape. */
  ghost predicate BadEscape(js: string, k: nat) {
    && k + 1 < |js| && js[k] == '\\' && js[k + 1] !in SHORT_ESCAPES
    && (js[k + 1] == 'u' ==> HexBroken(js, k + 2))
  }

  /** The text ends at k, or in an escape that begins there. */
  ghost predicate CutShort(js: string, k: nat) {
    || Ends(js, k)
    || (js[k] == '\\' && k + 1 == |js|)
    || (js[k] == '\\' && k + 1 < |js| && js[k + 1] == 'u' && HexUnfinished(js, k + 2))
  }

  // ---------------------------------------------------------------- the string scan, exactly

  lemma SameEscapes(c: char)
    ensures IsSimpleEscape(c) <==> c in SHORT_ESCAPES
    ensures IsHex(c) <==> IsHexDigit(c)
  {
  }

  /** How many hex digits there are, up to n. */
  function HexCount(js: string, pos: nat, n: nat): (m: nat)
    requires pos <= |js|
    ensures m <= n && pos + m <= |js|
    decreases n
  {
    if n == 0 || pos == |js| || !IsHexDigit(js[pos]) then 0 else 1 + HexCount(js, pos + 1, n - 1)
  }

  lemma {:induction false} HexEndIs(js: string, pos: nat, n: nat)
    requires pos <= |js|
    ensures var m := HexCount(js, pos, n);
      && HexFrom(js, pos, m) && (m < n ==> Ends(js, pos + m) || !IsHexDigit(js[pos + m]))
      && HexEnd(js, pos, n) == if m == n || Ends(js, pos + m) then Found(pos + m) else Fail(INVAL)
    decreases n
  {
    if n > 0 && pos < |js| && IsHexDigit(js[pos]) {
      HexEndIs(js, pos + 1, n - 1);
      var m := HexCount(js, pos, n);
      assert js[pos..pos + m] == [js[pos]] + js[pos + 1..pos + m];
    }
  }

  /** What follows fewer than n hex digits decides how many there are. */
  lemma {:induction false} HexCountIs(js: string, pos: nat, n: nat, m: nat)
    requires pos <= |js| && HexFrom(js, pos, m) && m <= n && (m < n ==> Ends(js, pos + m) || !IsHexDigit(js[pos + m]))
    ensures HexCount(js, pos, n) == m
    decreases n
  {
    if m > 0 {
      assert js[pos] == js[pos..pos + m][0];
      assert js[pos + 1..pos + m] == js[pos..pos + m][1..];
      HexCountIs(js, pos + 1, n - 1, m - 1);
    }
  }

  lemma UnicodeStops(js: string, k: nat)
    requires k <= |js|
    ensures HexBroken(js, k) <==> HexEnd(js, k, 4) == Fail(INVAL)
    ensures HexUnfinished(js, k) <==>
      HexCount(js, k, 4) < 4 && HexEnd(js, k, 4) == Found(k + HexCount(js, k, 4)) && Ends(js, k + HexCount(js, k, 4))
  {
    HexEndIs(js, k, 4);
    var n := HexCount(js, k, 4);
    assert HexThenOther(js, k, n) || HexThenEnd(js, k, n) || n == 4;
    forall m: nat | HexThenOther(js, k, m) || HexThenEnd(js, k, m)
      ensures m == n
    {
      HexCountIs(js, k, 4, m);
    }
  }

  /** At a closing quote, a bad escape or the end the scan stops, with the code that says so. */
  lemma {:induction false} ScanStops(js: string, k: nat)
    requires k <= |js|
    ensures k < |js| && js[k] == '"' ==> StringEnd(js, k) == Found(k)
    ensures BadEscape(js, k) ==> StringEnd(js, k) == Fail(INVAL)
    ensures CutShort(js, k) ==> StringEnd(js, k) == Fail(PART)
  {
    if k + 1 < |js| && js[k] == '\\' {
      SameEscapes(js[k + 1]);
      UnicodeStops(js, k + 2);
    }
  }

  lemma SliceOfSlice(js: string, a: nat, b: nat)
    requires a + 6 <= b <= |js|
    ensures js[a..b][2..6] == js[a + 2..a + 6]
  {
    var s, t := js[a..b][2..6], js[a + 2..a + 6];
    forall i | 0 <= i < 4
      ensures s[i] == t[i]
    {
      assert s[i] == js[a..b][2 + i];
    }
  }

  /** What may stand between quotes is passed. */
  lemma {:induction false} ScanPasses(js: string, pos: nat, k: nat)
    requires pos <= k <= |js| && Quotable(js[pos..k])
    ensures StringEnd(js, pos) == StringEnd(js, k)
    decreases k - pos
  {
    if pos < k {
      var s := js[pos..k];
      assert s[0] == js[pos];
      if s[0] != '\\' {
        assert s[1..] == js[pos + 1..k];
        ScanPasses(js, pos + 1, k);
      } else {
        assert s[1] == js[pos + 1];
        SameEscapes(js[pos + 1]);
        if s[1] in SHORT_ESCAPES {
          assert s[2..] == js[pos + 2..k];
          ScanPasses(js, pos + 2, k);
        } else {
          assert s[6..] == js[pos + 6..k];
          SliceOfSlice(js, pos, k);
          HexCountIs(js, pos + 2, 4, 4);
          HexEndIs(js, pos + 2, 4);
          ScanPasses(js, pos + 6, k);
        }
      }
    }
  }

  /** The scan gets to the first place where it has to stop. */
  lemma {:induction false} ScanGets(js: string, pos: nat) returns (k: nat)
    requires pos <= |js|
    ensures pos <= k <= |js| && Quotable(js[pos..k])
    ensures (k < |js| && js[k] == '"') || BadEscape(js, k) || CutShort(js, k)
    decreases |js| - pos
  {
    if (pos < |js| && js[pos] == '"') || BadEscape(js, pos) || CutShort(js, pos) {
      k := pos;
    } else {
      var n := EscapeLength(js, pos);
      k := ScanGets(js, pos + n);
      ghost var s := js[pos..k];
      assert s[n..] == js[pos + n..k];
      if n == 6 {
        SliceOfSlice(js, pos, k);
      }
    }
  }

  /** Where the scan does not stop there is a character or an escape as a whole. */
  lemma EscapeLength(js: string, k: nat) returns (n: nat)
    requires k < |js| && js[k] != '"' && !BadEscape(js, k) && !CutShort(js, k)
    ensures (n == 1 && js[k] != '\\')
         || (n == 2 && k + 2 <= |js| && js[k] == '\\' && js[k + 1] in SHORT_ESCAPES)
         || (n == 6 && k + 6 <= |js| && js[k] == '\\' && js[k + 1] == 'u' && AllHex(js[k + 2..k + 6]))
  {
    if js[k] != '\\' {
      n := 1;
    } else if js[k + 1] in SHORT_ESCAPES {
      n := 2;
    } else {
      n := 6;
      HexEndIs(js, k + 2, 4);
      UnicodeStops(js, k + 2);
    }
  }

  /** A string is scanned to its closing quote exactly if what is before it may stand there; it is refused as invalid exactly
      if a bad escape comes first, and as unfinished exactly if the end of the text does. */
  lemma {:induction false} StringExactlyWhen(js: string, pos: nat)
    requires pos <= |js|
    ensures forall at: nat :: StringEnd(js, pos) == Found(at) <==>
              pos <= at < |js| && js[at] == '"' && Quotable(js[pos..at])
    ensures StringEnd(js, pos) == Fail(INVAL) <==> exists k: nat :: pos <= k <= |js| && Quotable(js[pos..k]) && BadEscape(js, k)
    ensures StringEnd(js, pos) == Fail(PART) <==> exists k: nat :: pos <= k <= |js| && Quotable(js[pos..k]) && CutShort(js, k)
  {
    forall k: nat | pos <= k <= |js| && Quotable(js[pos..k])
      ensures StringEnd(js, pos) == StringEnd(js, k)
      ensures k < |js| && js[k] == '"' ==> StringEnd(js, k) == Found(k)
      ensures BadEscape(js, k) ==> StringEnd(js, k) == Fail(INVAL)
      ensures CutShort(js, k) ==> StringEnd(js, k) == Fail(PART)
    {
      ScanPasses(js, pos, k);
      ScanStops(js, k);
    }
    var k := ScanGets(js, pos);
  }

  // ---------------------------------------------------------------- the word scan, exactly

  const DELIMITERS: set<char> := {' ', '\t', '\n', '\r', ':', ',', ']', '}'}

  predicate Plain(c: char) {
    ' ' <= c <= '~' && c !in DELIMITERS
  }

  predicate AllPlain(s: string) {
    forall i :: 0 <= i < |s| ==> Plain(s[i])
  }

  /** A word is over: at a delimiter, or with the text. */
  predicate WordEnds(js: string, k: nat) {
    Ends(js, k) || js[k] in DELIMITERS
  }

  lemma {:induction false} WordPasses(js: string, pos: nat, k: nat)
    requires pos <= k <= |js| && AllPlain(js[pos..k])
    ensures PrimitiveEnd(js, pos) == PrimitiveEnd(js, k)
    decreases k - pos
  {
    if pos < k {
      assert js[pos..k][0] == js[pos];
      assert js[pos + 1..k] == js[pos..k][1..];
      WordPasses(js, pos + 1, k);
    }
  }

  lemma WordStops(js: string, k: nat)
    requires k <= |js|
    ensures WordEnds(js, k) ==> PrimitiveEnd(js, k) == Found(k)
    ensures !WordEnds(js, k) && !Plain(js[k]) ==> PrimitiveEnd(js, k) == Fail(INVAL)
  {
  }

  lemma {:induction false} WordGets(js: string, pos: nat) returns (k: nat)
    requires pos <= |js|
    ensures pos <= k <= |js| && AllPlain(js[pos..k]) && (WordEnds(js, k) || !Plain(js[k]))
    decreases |js| - pos
  {
    if WordEnds(js, pos) || !Plain(js[pos]) {
      k := pos;
    } else {
      k := WordGets(js, pos + 1);
      assert js[pos..k] == [js[pos]] + js[pos + 1..k];
    }
  }

  /** A word is scanned up to the first delimiter or the end, exactly if all characters before it are printable; it is refused
      exactly if one that is not comes first. */
  lemma {:induction false} WordExactlyWhen(js: string, pos: nat)
    requires pos <= |js|
    ensures forall at: nat :: PrimitiveEnd(js, pos) == Found(at) <==>
              pos <= at <= |js| && AllPlain(js[pos..at]) && WordEnds(js, at)
    ensures PrimitiveEnd(js, pos).Fail? <==>
      exists k: nat :: pos <= k < |js| && AllPlain(js[pos..k]) && !WordEnds(js, k) && !Plain(js[k])
  {
    forall k: nat | pos <= k <= |js| && AllPlain(js[pos..k])
      ensures PrimitiveEnd(js, pos) == PrimitiveEnd(js, k)
      ensures WordEnds(js, k) ==> PrimitiveEnd(js, k) == Found(k)
      ensures !WordEnds(js, k) && !Plain(js[k]) ==> PrimitiveEnd(js, k) == Fail(INVAL)
    {
      WordPasses(js, pos, k);
      WordStops(js, k);
    }
    var k := WordGets(js, pos);
    assert k < |js| || WordEnds(js, k);
  }

  // ---------------------------------------------------------------- what the tokens of a run stand for

  /** A string has a quote on each side and between them what may stand there; a word is plain and goes as far as it can; a
      container begins with its bracket, and once closed ends with the other one. */
  predicate TokenStands(js: string, t: Token) {
    match t.kind
    case String => 1 <= t.start <= t.end < |js| && js[t.start - 1] == '"' == js[t.end] && Quotable(js[t.start..t.end])
    case Primitive =>
      0 <= t.start < t.end <= |js| && AllPlain(js[t.start..t.end]) && WordEnds(js, t.end)
      && js[t.start] !in {'"', '{', '['}
    case Object => BracketStands(js, t, '{', '}')
    case Array => BracketStands(js, t, '[', ']')
  }

  predicate BracketStands(js: string, t: Token, opening: char, closing: char) {
    0 <= t.start < |js| && js[t.start] == opening && (!Open(t) ==> t.start < t.end <= |js| && js[t.end - 1] == closing)
  }

  predicate AllStand(js: string, toks: seq<Token>) {
    forall i :: 0 <= i < |toks| ==> TokenStands(js, toks[i])
  }

  lemma {:induction false} LeafStands(js: string, pos: nat)
    requires !AtEnd(js, pos)
    ensures js[pos] == '"' && StringEnd(js, pos + 1).Found? ==>
      TokenStands(js, Token(String, pos + 1, StringEnd(js, pos + 1).at, 0, -1))
    ensures js[pos] !in DELIMITERS && js[pos] !in {'"', '{', '['} && PrimitiveEnd(js, pos).Found? ==>
      TokenStands(js, Token(Primitive, pos, PrimitiveEnd(js, pos).at, 0, -1))
  {
    StringExactlyWhen(js, pos + 1);
    WordExactlyWhen(js, pos);
  }

  /** What is said of a token does not depend on its children or its parent. */
  lemma AppendStands(build: Build, js: string, p: Parser, t: Token)
    requires Valid(p) && AllStand(js, p.toks) && TokenStands(js, t) && 0 <= t.start && (Open(t) ==> IsContainer(t.kind))
    ensures AllStand(js, Append(build, p, t))
  {
    var r := Append(build, p, t);
    forall i | 0 <= i < |r|
      ensures TokenStands(js, r[i])
    {
      assert i < |p.toks| ==> TokenStands(js, p.toks[i]);
    }
  }

  lemma CloseStands(js: string, p: Parser, k: nat)
    requires k < |p.toks| && AllStand(js, p.toks) && Open(p.toks[k]) && IsContainer(p.toks[k].kind) && p.pos < |js|
    requires js[p.pos] == if p.toks[k].kind == Object then '}' else ']'
    requires p.toks[k].start < p.pos
    ensures AllStand(js, CloseAt(p, k))
  {
    forall i | 0 <= i < |p.toks|
      ensures TokenStands(js, CloseAt(p, k)[i])
    {
      assert TokenStands(js, p.toks[i]);
    }
  }

  /** The character belongs to a string or a word. */
  predicate InLeaf(t: Token, j: nat) {
    (t.kind == String && t.start - 1 <= j <= t.end) || (t.kind == Primitive && t.start <= j < t.end)
  }

  /** Every character that was read is white space, punctuation, or part of a string or a word. */
  ghost predicate Accounted(js: string, toks: seq<Token>, j: nat)
    requires j < |js|
  {
    js[j] in DELIMITERS + {'{', '['} || exists i :: 0 <= i < |toks| && InLeaf(toks[i], j)
  }

  /** What a run keeps. */
  ghost predicate Standing(js: string, p: Parser) {
    && p.pos <= |js| && AllStand(js, p.toks)
    && (forall i :: 0 <= i < |p.toks| ==> p.toks[i].start < p.pos)
    && (forall j :: 0 <= j < p.pos ==> Accounted(js, p.toks, j))
  }

  /** Tokens that are still there, but for their children and their ends, account for the same characters. */
  lemma StillAccounted(js: string, toks: seq<Token>, more: seq<Token>, j: nat)
    requires j < |js| && Accounted(js, toks, j) && |toks| <= |more|
    requires forall i :: 0 <= i < |toks| && !IsContainer(toks[i].kind) ==>
      more[i].kind == toks[i].kind && more[i].start == toks[i].start && more[i].end == toks[i].end
    ensures Accounted(js, more, j)
  {
    if js[j] !in DELIMITERS + {'{', '['} {
      var i :| 0 <= i < |toks| && InLeaf(toks[i], j);
      assert InLeaf(more[i], j);
    }
  }

  /** A token is added whose characters are those from p to q. */
  lemma AddedStands(build: Build, js: string, p: Parser, t: Token, q: Parser)
    requires Valid(p) && Standing(js, p) && TokenStands(js, t) && 0 <= t.start && (Open(t) ==> IsContainer(t.kind))
    requires q.toks == Append(build, p, t) && p.pos <= t.start < q.pos <= |js|
    requires forall j :: p.pos <= j < q.pos ==> js[j] in DELIMITERS + {'{', '['} || InLeaf(t, j)
    ensures Standing(js, q)
  {
    AppendStands(build, js, p, t);
    forall j | 0 <= j < q.pos
      ensures Accounted(js, q.toks, j)
    {
      if j < p.pos {
        StillAccounted(js, p.toks, q.toks, j);
      } else {
        assert InLeaf(t, j) ==> InLeaf(q.toks[|p.toks|], j);
      }
    }
  }

  lemma ClosedStands(js: string, p: Parser, k: nat, q: Parser)
    requires Valid(p) && Standing(js, p) && k < |p.toks| && Open(p.toks[k]) && p.pos < |js|
    requires js[p.pos] == if p.toks[k].kind == Object then '}' else ']'
    requires q.toks == CloseAt(p, k) && q.pos == p.pos + 1
    ensures Standing(js, q)
  {
    CloseStands(js, p, k);
    forall j | 0 <= j < q.pos
      ensures Accounted(js, q.toks, j)
    {
      if j < p.pos {
        StillAccounted(js, p.toks, q.toks, j);
      }
    }
  }

  lemma PassedStands(js: string, p: Parser, q: Parser)
    requires Standing(js, p) && p.pos < |js| && js[p.pos] in DELIMITERS
    requires q.toks == p.toks && q.pos == p.pos + 1
    ensures Standing(js, q)
  {
    forall j | 0 <= j < q.pos
      ensures Accounted(js, q.toks, j)
    {
    }
  }

  lemma ClosingStands(build: Build, capacity: nat, js: string, p: Parser)
    requires Valid(p) && !AtEnd(js, p.pos) && Standing(js, p) && (js[p.pos] == '}' || js[p.pos] == ']')
    requires Step(build, capacity, js, p).Next?
    ensures Standing(js, Step(build, capacity, js, p).parser)
  {
    var q := Step(build, capacity, js, p).parser;
    var k := if build == ParentLinks then WalkStop(p.toks, |p.toks| - 1) else LastOpen(p.toks, |p.toks|);
    if Open(p.toks[k]) {
      ClosedStands(js, p, k, q);
    } else {
      PassedStands(js, p, q);
    }
  }

  lemma LeafTurnStands(build: Build, capacity: nat, js: string, p: Parser)
    requires Valid(p) && !AtEnd(js, p.pos) && Standing(js, p)
    requires js[p.pos] !in DELIMITERS && js[p.pos] !in {'{', '['} && Step(build, capacity, js, p).Next?
    ensures Standing(js, Step(build, capacity, js, p).parser)
  {
    LeafStands(js, p.pos);
    var q := Step(build, capacity, js, p).parser;
    if js[p.pos] == '"' {
      AddedStands(build, js, p, Token(String, p.pos + 1, StringEnd(js, p.pos + 1).at, 0, -1), q);
    } else {
      AddedStands(build, js, p, Token(Primitive, p.pos, PrimitiveEnd(js, p.pos).at, 0, -1), q);
    }
  }

  lemma TurnStands(build: Build, capacity: nat, js: string, p: Parser)
    requires Valid(p) && !AtEnd(js, p.pos) && Standing(js, p) && Step(build, capacity, js, p).Next?
    ensures Standing(js, Step(build, capacity, js, p).parser)
  {
    var c, q := js[p.pos], Step(build, capacity, js, p).parser;
    if c == '}' || c == ']' {
      ClosingStands(build, capacity, js, p);
    } else if c == '{' || c == '[' {
      AddedStands(build, js, p, Token(if c == '{' then Object else Array, p.pos, -1, 0, -1), q);
    } else if c in DELIMITERS {
      PassedStands(js, p, q);
    } else {
      LeafTurnStands(build, capacity, js, p);
    }
  }

  /** In every state of every run, in both builds, whatever the text, each token stands for such a text, and every character read
      is accounted for. */
  lemma {:induction false} RunStands(build: Build, capacity: nat, js: string, p: Parser)
    requires Valid(p) && Standing(js, p)
    ensures Standing(js, Run(build, capacity, js, p).parser)
    decreases |js| - p.pos
  {
    if !AtEnd(js, p.pos) && Step(build, capacity, js, p).Next? {
      TurnStands(build, capacity, js, p);
      RunStands(build, capacity, js, Step(build, capacity, js, p).parser);
    }
  }

  /** So for every text that is accepted, up to where it ends. */
  lemma AcceptedTexts(build: Build, capacity: nat, js: string)
    requires Run(build, capacity, js, INIT).code >= 0
    ensures var o := Run(build, capacity, js, INIT);
      && o.parser.pos <= |js| && Ends(js, o.parser.pos)
      && (forall i :: 0 <= i < |o.parser.toks| ==> TokenStands(js, o.parser.toks[i]))
      && (forall j :: 0 <= j < o.parser.pos ==> Accounted(js, o.parser.toks, j))
  {
    RunStands(build, capacity, js, INIT);
    RunEnds(build, capacity, js, INIT);
  }

  /** A run that succeeds has come to the end of the text; one that fails stops in front of the character that is to blame, and
      at a quote or at a word says why. */
  lemma {:induction false} RunEnds(build: Build, capacity: nat, js: string, p: Parser)
    requires Valid(p) && p.pos <= |js|
    ensures var o := Run(build, capacity, js, p);
      && (o.code >= 0 ==> Ends(js, o.parser.pos))
      && (!Ends(js, o.parser.pos) && o.parser.pos < |js| ==> Blamed(js, o.parser.pos, o.code))
    decreases |js| - p.pos
  {
    if !AtEnd(js, p.pos) {
      var s := Step(build, capacity, js, p);
      if s.Stop? {
        StopIsBlamed(build, capacity, js, p);
      } else {
        StepStaysInText(build, capacity, js, p);
        RunEnds(build, capacity, js, s.parser);
      }
    }
  }

  lemma StepStaysInText(build: Build, capacity: nat, js: string, p: Parser)
    requires Valid(p) && !AtEnd(js, p.pos) && Step(build, capacity, js, p).Next?
    ensures Step(build, capacity, js, p).parser.pos <= |js|
  {
  }

  /** What a run that stops at `at` with this code says of the text there. */
  ghost predicate Blamed(js: string, at: nat, code: int)
    requires at < |js|
  {
    if js[at] == '"' then QuoteBlamed(js, at + 1, code)
    else if js[at] == '}' || js[at] == ']' then code == INVAL
    else if js[at] == '{' || js[at] == '[' then code == NOMEM
    else js[at] !in DELIMITERS && WordBlamed(js, at, code)
  }

  /** A string whose text goes on at pos: a bad escape, the end of the text, or no room although it is whole. */
  ghost predicate QuoteBlamed(js: string, pos: nat, code: int)
    requires pos <= |js|
  {
    && (code == INVAL <==> exists k: nat :: pos <= k <= |js| && Quotable(js[pos..k]) && BadEscape(js, k))
    && (code == PART <==> exists k: nat :: pos <= k <= |js| && Quotable(js[pos..k]) && CutShort(js, k))
    && (code == NOMEM <==> exists k: nat :: pos <= k < |js| && Quotable(js[pos..k]) && js[k] == '"')
  }

  /** A word: a character that is not printable, or no room. */
  ghost predicate WordBlamed(js: string, pos: nat, code: int)
    requires pos <= |js|
  {
    && (code == INVAL <==> exists k: nat :: pos <= k < |js| && AllPlain(js[pos..k]) && !WordEnds(js, k) && !Plain(js[k]))
    && (code == NOMEM <==> exists k: nat :: pos <= k <= |js| && AllPlain(js[pos..k]) && WordEnds(js, k))
  }

  lemma QuoteIsBlamed(js: string, pos: nat, code: int)
    requires pos <= |js|
    requires code == if StringEnd(js, pos).Fail? then StringEnd(js, pos).code else NOMEM
    ensures QuoteBlamed(js, pos, code)
  {
    StringExactlyWhen(js, pos);
  }

  lemma WordIsBlamed(js: string, pos: nat, code: int)
    requires pos <= |js|
    requires code == if PrimitiveEnd(js, pos).Fail? then PrimitiveEnd(js, pos).code else NOMEM
    ensures WordBlamed(js, pos, code)
  {
    WordExactlyWhen(js, pos);
  }

  lemma {:induction false} StopIsBlamed(build: Build, capacity: nat, js: string, p: Parser)
    requires Valid(p) && !AtEnd(js, p.pos) && Step(build, capacity, js, p).Stop?
    ensures Blamed(js, p.pos, Step(build, capacity, js, p).code)
  {
    var code := Step(build, capacity, js, p).code;
    if js[p.pos] == '"' {
      QuoteIsBlamed(js, p.pos + 1, code);
    } else if js[p.pos] !in {'{', '[', '}', ']'} {
      WordIsBlamed(js, p.pos, code);
    }
  }
}
