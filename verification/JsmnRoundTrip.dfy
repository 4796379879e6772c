/** Tokenizing the rendering of any RFC 8259 text gives the preorder of its value, in both builds. */
module JsmnRoundTrip {
  import opened Common
  import opened JsmnSpec
  import opened JsmnCapacity
  import opened JsmnBrackets
  import opened JsonText

  // ---------------------------------------------------------------- what the tokens should be

  function ParentIn(build: Build, parent: int): int {
    if build == ParentLinks then parent else -1
  }

  /** The tokens of a value that stands at `at`, when the first of them gets index `index`: the value itself, with its
      span, the number of its elements or keys and its parent, and then what it contains, in order. */
  function Tokens(build: Build, v: Value, at: nat, index: nat, parent: int): (r: seq<Token>)
    ensures |r| > 0
    decreases v
  {
    match v
    case Literal(text) => [Token(Primitive, at, at + |text|, 0, ParentIn(build, parent))]
    case Text(body) => [Token(String, at + 1, at + 1 + |body|, 0, ParentIn(build, parent))]
    case ArrayOf(gap, elements) =>
      [Token(Array, at, at + |Render(v)|, |elements|, ParentIn(build, parent))]
      + ElementTokens(build, elements, at + 1, index + 1, index)
    case ObjectOf(gap, members) =>
      [Token(Object, at, at + |Render(v)|, |members|, ParentIn(build, parent))]
      + MemberTokens(build, members, at + 1, index + 1, index)
  }

  function ElementTokens(build: Build, es: seq<Element>, at: nat, index: nat, parent: nat): seq<Token>
    decreases es
  {
    if es == [] then []
    else
      var first := Tokens(build, es[0].value, at + |es[0].before|, index, parent);
      first + ElementTokens(build, es[1..], at + |RenderElement(es[0])| + 1, index + |first|, parent)
  }

  /** A key counts one child, its value, which has the key for its parent. */
  function MemberTokens(build: Build, ms: seq<Member>, at: nat, index: nat, parent: nat): seq<Token>
    decreases ms
  {
    if ms == [] then []
    else
      var first := OneMember(build, ms[0], at, index, parent);
      first + MemberTokens(build, ms[1..], at + |RenderMember(ms[0])| + 1, index + |first|, parent)
  }

  function KeyToken(build: Build, m: Member, at: nat, size: nat, parent: nat): Token {
    Token(String, at + |m.before| + 1, at + |m.before| + 1 + |m.key|, size, ParentIn(build, parent))
  }

  function ValueAt(m: Member, at: nat): nat {
    at + |m.before| + |m.key| + 2 + |m.middle| + 1
  }

  function OneMember(build: Build, m: Member, at: nat, index: nat, parent: nat): seq<Token>
    decreases m
  {
    [KeyToken(build, m, at, 1, parent)]
    + Tokens(build, m.element.value, ValueAt(m, at) + |m.element.before|, index + 1, index)
  }

  predicate SameButParents(a: seq<Token>, b: seq<Token>) {
    |a| == |b| && forall i :: 0 <= i < |a| ==> a[i].(parent := -1) == b[i].(parent := -1)
  }

  /** The two builds differ in the parents only; without links every parent is -1. */
  lemma {:induction false} BuildsGiveSameTokens(v: Value, at: nat, index: nat, parent: int)
    ensures SameButParents(Tokens(ParentLinks, v, at, index, parent), Tokens(BackwardScan, v, at, index, parent))
    ensures forall t :: t in Tokens(BackwardScan, v, at, index, parent) ==> t.parent == -1
    decreases v
  {
    match v
    case Literal(text) =>
    case Text(body) =>
    case ArrayOf(gap, elements) => ElementsGiveSameTokens(elements, at + 1, index + 1, index);
    case ObjectOf(gap, members) => MembersGiveSameTokens(members, at + 1, index + 1, index);
  }

  lemma {:induction false} ElementsGiveSameTokens(es: seq<Element>, at: nat, index: nat, parent: nat)
    ensures SameButParents(ElementTokens(ParentLinks, es, at, index, parent),
                           ElementTokens(BackwardScan, es, at, index, parent))
    ensures forall t :: t in ElementTokens(BackwardScan, es, at, index, parent) ==> t.parent == -1
    decreases es
  {
    if es != [] {
      BuildsGiveSameTokens(es[0].value, at + |es[0].before|, index, parent);
      ElementsGiveSameTokens(es[1..], at + |RenderElement(es[0])| + 1,
                             index + |Tokens(ParentLinks, es[0].value, at + |es[0].before|, index, parent)|, parent);
    }
  }

  lemma {:induction false} MembersGiveSameTokens(ms: seq<Member>, at: nat, index: nat, parent: nat)
    ensures SameButParents(MemberTokens(ParentLinks, ms, at, index, parent),
                           MemberTokens(BackwardScan, ms, at, index, parent))
    ensures forall t :: t in MemberTokens(BackwardScan, ms, at, index, parent) ==> t.parent == -1
    decreases ms
  {
    if ms != [] {
      var m := ms[0];
      BuildsGiveSameTokens(m.element.value, ValueAt(m, at) + |m.element.before|, index + 1, index);
      MembersGiveSameTokens(ms[1..], at + |RenderMember(m)| + 1,
                            index + |OneMember(ParentLinks, m, at, index, parent)|, parent);
    }
  }

  lemma {:induction false} TokensClosed(build: Build, v: Value, at: nat, index: nat, parent: int)
    ensures forall t :: t in Tokens(build, v, at, index, parent) ==> !Open(t)
    decreases v
  {
    match v
    case Literal(text) =>
    case Text(body) =>
    case ArrayOf(gap, elements) => ElementTokensClosed(build, elements, at + 1, index + 1, index);
    case ObjectOf(gap, members) => MemberTokensClosed(build, members, at + 1, index + 1, index);
  }

  lemma {:induction false} ElementTokensClosed(build: Build, es: seq<Element>, at: nat, index: nat, parent: nat)
    ensures forall t :: t in ElementTokens(build, es, at, index, parent) ==> !Open(t)
    decreases es
  {
    if es != [] {
      var first := Tokens(build, es[0].value, at + |es[0].before|, index, parent);
      TokensClosed(build, es[0].value, at + |es[0].before|, index, parent);
      ElementTokensClosed(build, es[1..], at + |RenderElement(es[0])| + 1, index + |first|, parent);
    }
  }

  lemma {:induction false} MemberTokensClosed(build: Build, ms: seq<Member>, at: nat, index: nat, parent: nat)
    ensures forall t :: t in MemberTokens(build, ms, at, index, parent) ==> !Open(t)
    decreases ms
  {
    if ms != [] {
      var first := OneMember(build, ms[0], at, index, parent);
      TokensClosed(build, ms[0].element.value, ValueAt(ms[0], at) + |ms[0].element.before|, index + 1, index);
      MemberTokensClosed(build, ms[1..], at + |RenderMember(ms[0])| + 1, index + |first|, parent);
    }
  }

  /** Tokens without an open one do not change what the highest open token is. */
  lemma {:induction false} LastOpenOverClosed(toks: seq<Token>, more: seq<Token>)
    requires forall t :: t in more ==> !Open(t)
    ensures LastOpen(toks + more, |toks + more|) == LastOpen(toks, |toks|)
    decreases |more|
  {
    if more == [] {
      assert toks + more == toks;
    } else {
      var n := |more| - 1;
      LastOpenOverClosed(toks, more[..n]);
      LastOpenSame(toks + more[..n], toks + more, |toks| + n);
      assert (toks + more)[|toks| + n] == more[n];
    }
  }

  lemma {:induction false} LastOpenSame(a: seq<Token>, b: seq<Token>, n: nat)
    requires n <= |a| && n <= |b|
    requires forall i :: 0 <= i < n ==> Open(a[i]) == Open(b[i])
    ensures LastOpen(a, n) == LastOpen(b, n)
  {
    if n > 0 {
      LastOpenSame(a, b, n - 1);
    }
  }

  // ---------------------------------------------------------------- lexing what was rendered

  predicate Delimited(js: string, pos: nat) {
    AtEnd(js, pos) || IsDelimiter(js[pos])
  }

  lemma {:induction false} HexStands(js: string, pos: nat, n: nat)
    requires pos + n <= |js| && forall i :: pos <= i < pos + n ==> IsHexDigit(js[i])
    ensures HexEnd(js, pos, n) == Found(pos + n)
    decreases n
  {
    if n > 0 {
      HexStands(js, pos + 1, n - 1);
    }
  }

  /** A well-formed string body is scanned up to the quote after it. */
  lemma {:induction false} BodyStands(js: string, pos: nat, s: string)
    requires IsBody(s) && StandsAt(js, pos, s) && pos + |s| < |js| && js[pos + |s|] == '"'
    ensures StringEnd(js, pos) == Found(pos + |s|)
    decreases |s|
  {
    if s != "" {
      StandsChar(js, pos, s, 0);
      var n := if s[0] != '\\' then 1 else if s[1] != 'u' then 2 else 6;
      StandsRest(js, pos, s, n);
      BodyStands(js, pos + n, s[n..]);
      if n > 1 {
        StandsChar(js, pos, s, 1);
      }
      if n == 6 {
        forall i | pos + 2 <= i < pos + 6
          ensures IsHexDigit(js[i])
        {
          StandsChar(js, pos, s, i - pos);
        }
        HexStands(js, pos + 2, 4);
      }
    }
  }

  /** What a number, null, true and false have in common for the tokenizer. */
  predicate IsPlain(s: string) {
    && |s| > 0 && s[0] != '"' && s[0] != '[' && s[0] != '{'
    && forall i :: 0 <= i < |s| ==> IsPrintable(s[i]) && !IsDelimiter(s[i])
  }

  predicate NumberChars(s: string) {
    forall i :: 0 <= i < |s| ==>
      IsDigit(s[i]) || s[i] == '-' || s[i] == '+' || s[i] == '.' || s[i] == 'e' || s[i] == 'E'
  }

  lemma LiteralIsPlain(s: string)
    requires IsLiteral(s)
    ensures IsPlain(s)
  {
    if IsNumber(s) {
      NumberIsNumberChars(s);
    }
  }

  lemma NumberIsNumberChars(s: string)
    requires IsNumber(s)
    ensures |s| > 0 && NumberChars(s)
  {
    var minus: string, whole: string, frac: string, exp: string :|
      && s == minus + whole + frac + exp
      && (minus == "" || minus == "-")
      && IsWhole(whole) && IsFraction(frac) && IsExponent(exp);
    FractionChars(frac);
    ExponentChars(exp);
    assert NumberChars(minus) && NumberChars(whole);
    assert NumberChars(s);
  }

  lemma FractionChars(s: string)
    requires IsFraction(s)
    ensures NumberChars(s)
  {
    forall i | 1 <= i < |s|
      ensures IsDigit(s[i])
    {
      assert s[i] == s[1..][i - 1];
    }
  }

  lemma ExponentChars(s: string)
    requires IsExponent(s)
    ensures NumberChars(s)
  {
    if s != "" {
      var k := if AllDigits(s[1..]) then 1 else 2;
      forall i | k <= i < |s|
        ensures IsDigit(s[i])
      {
        assert s[i] == s[k..][i - k];
      }
    }
  }

  lemma {:induction false} PlainStands(js: string, pos: nat, end: nat)
    requires pos <= end <= |js| && Delimited(js, end)
    requires forall i :: pos <= i < end ==> IsPrintable(js[i]) && !IsDelimiter(js[i])
    ensures PrimitiveEnd(js, pos) == Found(end)
    decreases end - pos
  {
    if pos < end {
      PlainStands(js, pos + 1, end);
    }
  }

  // ---------------------------------------------------------------- single turns

  /** A parser value that either build can be in. */
  predicate Sound(build: Build, p: Parser) {
    Valid(p) && (build == ParentLinks ==> Linked(p))
  }

  /** A run over `js`. Of where it ends, `final`, only one thing matters here: a successful turn does not change it. */
  datatype Session = Session(build: Build, capacity: nat, js: string, final: Parser -> Outcome) {
    ghost predicate Lawful() {
      forall p {:trigger Step(build, capacity, js, p)} ::
        Sound(build, p) && !AtEnd(js, p.pos) && Step(build, capacity, js, p).Next? ==>
          final(p) == final(Step(build, capacity, js, p).parser)
    }
  }

  /** The run from p goes through q. */
  ghost predicate LeadsTo(run: Session, p: Parser, q: Parser) {
    Sound(run.build, q) && run.final(p) == run.final(q)
  }

  lemma Turn(run: Session, p: Parser, q: Parser)
    requires run.Lawful() && Sound(run.build, p) && !AtEnd(run.js, p.pos)
    requires Step(run.build, run.capacity, run.js, p) == Next(q)
    ensures LeadsTo(run, p, q)
  {
    if run.build == ParentLinks {
      LinkedStep(run.capacity, run.js, p);
    }
  }

  lemma Through(run: Session, p: Parser, q: Parser, r: Parser, s: Parser)
    requires LeadsTo(run, p, q) && LeadsTo(run, q, r) && r == s
    ensures LeadsTo(run, p, s)
  {
  }

  lemma {:induction false} SkipBlank(run: Session, p: Parser, s: string)
    requires run.Lawful() && Sound(run.build, p) && IsBlank(s) && StandsAt(run.js, p.pos, s)
    ensures LeadsTo(run, p, p.(pos := p.pos + |s|))
    decreases |s|
  {
    if s != "" {
      StandsChar(run.js, p.pos, s, 0);
      var q := p.(pos := p.pos + 1);
      Turn(run, p, q);
      StandsRest(run.js, p.pos, s, 1);
      SkipBlank(run, q, s[1..]);
    }
  }

  /** A closing bracket of the right kind closes the highest open token; what is superior then depends on the build. */
  lemma {:induction false} CloseTurn(run: Session, p: Parser, k: nat, q: Parser)
    requires run.Lawful() && Sound(run.build, p) && !AtEnd(run.js, p.pos)
    requires k == LastOpen(p.toks, |p.toks|)
    requires run.js[p.pos] == if p.toks[k].kind == Object then '}' else ']'
    requires q == Parser(p.pos + 1, if run.build == ParentLinks then p.toks[k].parent else LastOpen(p.toks, k),
                         CloseAt(p, k))
    ensures LeadsTo(run, p, q)
  {
    if run.build == ParentLinks {
      assert OnChain(p.toks, |p.toks| - 1, k);
      WalkFindsLastOpen(p.toks, |p.toks| - 1);
    }
    Turn(run, p, q);
  }

  // ---------------------------------------------------------------- values

  /** Where a value leaves the tokenizer: its tokens are there, its parent counts one child more. Behind a container
      the builds differ in what is superior. */
  function AfterValue(build: Build, p: Parser, v: Value, at: nat, end: nat): Parser
    requires Valid(p)
  {
    Parser(end,
           if (v.Literal? || v.Text?) || build == ParentLinks then p.toksuper else LastOpen(p.toks, |p.toks|),
           Bump(p.toks, p.toksuper) + Tokens(build, v, at, |p.toks|, p.toksuper))
  }

  /** There is room for the tokens of the value. */
  predicate RoomFor(capacity: nat, p: Parser, tokens: seq<Token>) {
    |p.toks| + |tokens| <= capacity
  }

  lemma {:induction false} LiteralTurn(run: Session, p: Parser, v: Value)
    requires run.Lawful() && Sound(run.build, p) && v.Literal? && WellFormed(v)
    requires StandsAt(run.js, p.pos, v.text) && Delimited(run.js, p.pos + |v.text|)
    requires |p.toks| < run.capacity
    ensures LeadsTo(run, p, AfterValue(run.build, p, v, p.pos, p.pos + |v.text|))
  {
    LiteralIsPlain(v.text);
    forall i | p.pos <= i < p.pos + |v.text|
      ensures run.js[i] == v.text[i - p.pos]
    {
      StandsChar(run.js, p.pos, v.text, i - p.pos);
    }
    PlainStands(run.js, p.pos, p.pos + |v.text|);
    var q := AfterValue(run.build, p, v, p.pos, p.pos + |v.text|);
    assert Leaf(run.build, run.capacity, p, Primitive, p.pos, p.pos + |v.text|, p.pos + |v.text|) == Next(q);
    Turn(run, p, q);
  }

  lemma {:induction false} TextTurn(run: Session, p: Parser, v: Value)
    requires run.Lawful() && Sound(run.build, p) && v.Text? && WellFormed(v)
    requires StandsAt(run.js, p.pos, Render(v))
    requires |p.toks| < run.capacity
    ensures LeadsTo(run, p, AfterValue(run.build, p, v, p.pos, p.pos + |v.body| + 2))
  {
    StandsBetween(run.js, p.pos, '"', v.body, '"');
    BodyStands(run.js, p.pos + 1, v.body);
    var q := AfterValue(run.build, p, v, p.pos, p.pos + |v.body| + 2);
    assert Leaf(run.build, run.capacity, p, String, p.pos + 1, p.pos + 1 + |v.body|, q.pos) == Next(q);
    Turn(run, p, q);
  }

  /** A text between two characters. */
  lemma {:induction false} StandsBetween(js: string, at: nat, left: char, inner: string, right: char)
    requires StandsAt(js, at, [left] + inner + [right])
    ensures at + 1 + |inner| < |js|
    ensures js[at] == left && js[at + 1 + |inner|] == right && StandsAt(js, at + 1, inner)
  {
    StandsSplit(js, at, [left] + inner, [right]);
    StandsSplit(js, at, [left], inner);
    StandsChar(js, at, [left], 0);
    StandsChar(js, at + 1 + |inner|, [right], 0);
  }

  /** A text, a comma, a text. */
  lemma {:induction false} StandsJoined(js: string, at: nat, left: string, right: string)
    requires StandsAt(js, at, left + ("," + right))
    ensures StandsAt(js, at, left) && StandsAt(js, at + |left| + 1, right)
    ensures at + |left| < |js| && js[at + |left|] == ','
  {
    StandsSplit(js, at, left, "," + right);
    StandsSplit(js, at + |left|, ",", right);
    StandsChar(js, at + |left|, ",", 0);
  }

  /** A value, wherever it stands, leaves its preorder behind. */
  lemma {:induction false} ValueRuns(run: Session, p: Parser, v: Value)
    requires run.Lawful() && Sound(run.build, p) && WellFormed(v)
    requires StandsAt(run.js, p.pos, Render(v)) && (v.Literal? ==> Delimited(run.js, p.pos + |Render(v)|))
    requires RoomFor(run.capacity, p, Tokens(run.build, v, p.pos, |p.toks|, p.toksuper))
    ensures LeadsTo(run, p, AfterValue(run.build, p, v, p.pos, p.pos + |Render(v)|))
    decreases v, 1
  {
    match v
    case Literal(text) => LiteralTurn(run, p, v);
    case Text(body) => TextTurn(run, p, v);
    case ArrayOf(gap, elements) => ArrayRuns(run, p, v);
    case ObjectOf(gap, members) => ObjectRuns(run, p, v);
  }

  /** The tokenizer behind the opening bracket of a container. */
  function Opened(build: Build, p: Parser, kind: Kind): Parser
    requires Valid(p) && IsContainer(kind)
  {
    Parser(p.pos + 1, |p.toks|, Append(build, p, Token(kind, p.pos, -1, 0, -1)))
  }

  lemma {:induction false} OpenTurn(run: Session, p: Parser, kind: Kind)
    requires run.Lawful() && Sound(run.build, p) && IsContainer(kind) && !AtEnd(run.js, p.pos) && |p.toks| < run.capacity
    requires run.js[p.pos] == if kind == Object then '{' else '['
    ensures LeadsTo(run, p, Opened(run.build, p, kind))
    ensures var q := Opened(run.build, p, kind); LastOpen(q.toks, |q.toks|) == |p.toks|
  {
    Turn(run, p, Opened(run.build, p, kind));
  }

  lemma {:induction false} ArrayRuns(run: Session, p: Parser, v: Value)
    requires run.Lawful() && Sound(run.build, p) && v.ArrayOf? && WellFormed(v)
    requires StandsAt(run.js, p.pos, Render(v))
    requires RoomFor(run.capacity, p, Tokens(run.build, v, p.pos, |p.toks|, p.toksuper))
    ensures LeadsTo(run, p, AfterValue(run.build, p, v, p.pos, p.pos + |Render(v)|))
    decreases v, 0
  {
    var n := |p.toks|;
    var inner := Inner(v);
    StandsBetween(run.js, p.pos, '[', inner, ']');
    OpenTurn(run, p, Array);
    var q := Opened(run.build, p, Array);
    var contents := ElementTokens(run.build, v.elements, q.pos, n + 1, n);
    ArrayContentsRun(run, q, v, n);
    ContentsAreValue(run.build, p, v, Array, inner, |v.elements|, contents);
    Through(run, p, q, AfterContents(run.build, q, n, |v.elements|, q.pos + |inner|, contents),
            AfterValue(run.build, p, v, p.pos, p.pos + |Render(v)|));
  }

  /** What is between the brackets of array k, and the closing one. */
  lemma {:induction false} ArrayContentsRun(run: Session, p: Parser, v: Value, k: nat)
    requires run.Lawful() && Sound(run.build, p) && v.ArrayOf? && WellFormed(v)
    requires p.toksuper == k == LastOpen(p.toks, |p.toks|) && p.toks[k].kind == Array
    requires StandsAt(run.js, p.pos, Inner(v)) && !AtEnd(run.js, p.pos + |Inner(v)|)
    requires run.js[p.pos + |Inner(v)|] == ']'
    requires RoomFor(run.capacity, p, ElementTokens(run.build, v.elements, p.pos, |p.toks|, k))
    ensures LeadsTo(run, p, AfterContents(run.build, p, k, |v.elements|, p.pos + |Inner(v)|,
                                          ElementTokens(run.build, v.elements, p.pos, |p.toks|, k)))
    decreases v.elements, 2
  {
    if v.elements == [] {
      EmptyRuns(run, p, v.gap, k);
    } else {
      ElementsRun(run, p, v.elements, k);
    }
  }

  function Inner(v: Value): string
    requires v.ArrayOf?
  {
    if v.elements == [] then v.gap else RenderElements(v.elements)
  }

  lemma {:induction false} ObjectRuns(run: Session, p: Parser, v: Value)
    requires run.Lawful() && Sound(run.build, p) && v.ObjectOf? && WellFormed(v)
    requires StandsAt(run.js, p.pos, Render(v))
    requires RoomFor(run.capacity, p, Tokens(run.build, v, p.pos, |p.toks|, p.toksuper))
    ensures LeadsTo(run, p, AfterValue(run.build, p, v, p.pos, p.pos + |Render(v)|))
    decreases v, 0
  {
    var n := |p.toks|;
    var inner := if v.members == [] then v.gap else RenderMembers(v.members);
    StandsBetween(run.js, p.pos, '{', inner, '}');
    OpenTurn(run, p, Object);
    var q := Opened(run.build, p, Object);
    var contents := MemberTokens(run.build, v.members, q.pos, n + 1, n);
    if v.members == [] {
      EmptyRuns(run, q, v.gap, n);
    } else {
      MembersRun(run, q, v.members, n);
    }
    ContentsAreValue(run.build, p, v, Object, inner, |v.members|, contents);
    Through(run, p, q, AfterContents(run.build, q, n, |v.members|, q.pos + |inner|, contents),
            AfterValue(run.build, p, v, p.pos, p.pos + |Render(v)|));
  }

  /** Where the contents of the container k and its closing bracket, at `end`, leave the tokenizer that came to them
      as p: the container has `count` more children and is closed, and the contents are there. */
  function AfterContents(build: Build, p: Parser, k: nat, count: nat, end: nat, contents: seq<Token>): Parser
    requires Valid(p) && k < |p.toks|
  {
    Parser(end + 1,
           if build == ParentLinks then p.toks[k].parent else LastOpen(p.toks, k),
           p.toks[k := p.toks[k].(size := p.toks[k].size + count, end := end + 1)] + contents)
  }

  /** An opened container with its contents and its closing bracket is the tokens of the value. */
  lemma {:induction false} ContentsAreValue(build: Build, p: Parser, v: Value, kind: Kind, inner: string, count: nat,
                                            contents: seq<Token>)
    requires Valid(p) && IsContainer(kind) && (v.ArrayOf? || v.ObjectOf?) && |Render(v)| == |inner| + 2
    requires Tokens(build, v, p.pos, |p.toks|, p.toksuper)
          == [Token(kind, p.pos, p.pos + |Render(v)|, count, ParentIn(build, p.toksuper))] + contents
    ensures var q := Opened(build, p, kind);
      AfterContents(build, q, |p.toks|, count, q.pos + |inner|, contents)
      == AfterValue(build, p, v, p.pos, p.pos + |Render(v)|)
  {
    var q := Opened(build, p, kind);
    LastOpenSame(p.toks, q.toks, |p.toks|);
    var r := AfterContents(build, q, |p.toks|, count, q.pos + |inner|, contents);
    assert r.toks == Bump(p.toks, p.toksuper) + Tokens(build, v, p.pos, |p.toks|, p.toksuper);
  }

  /** The bracket that closes k, met in q, when the run came to the contents as p. */
  lemma {:induction false} ContentsClose(run: Session, p: Parser, q: Parser, k: nat,
                                         count: nat, contents: seq<Token>)
    requires run.Lawful()
    requires Valid(p) && k == LastOpen(p.toks, |p.toks|)
    requires Sound(run.build, q) && !AtEnd(run.js, q.pos)
    requires run.js[q.pos] == if p.toks[k].kind == Object then '}' else ']'
    requires q.toks == p.toks[k := p.toks[k].(size := p.toks[k].size + count)] + contents
    requires forall t :: t in contents ==> !Open(t)
    ensures LeadsTo(run, q, AfterContents(run.build, p, k, count, q.pos, contents))
  {
    var bumped := p.toks[k := p.toks[k].(size := p.toks[k].size + count)];
    LastOpenOverClosed(bumped, contents);
    LastOpenSame(p.toks, bumped, |p.toks|);
    LastOpenSame(p.toks, q.toks, k);
    var r := AfterContents(run.build, p, k, count, q.pos, contents);
    assert r.toks == CloseAt(q, k);
    CloseTurn(run, q, k, r);
  }

  lemma {:induction false} EmptyRuns(run: Session, p: Parser, gap: string, k: nat)
    requires run.Lawful() && Sound(run.build, p) && IsBlank(gap) && StandsAt(run.js, p.pos, gap)
    requires k == LastOpen(p.toks, |p.toks|) && !AtEnd(run.js, p.pos + |gap|)
    requires run.js[p.pos + |gap|] == if p.toks[k].kind == Object then '}' else ']'
    ensures LeadsTo(run, p, AfterContents(run.build, p, k, 0, p.pos + |gap|, []))
  {
    SkipBlank(run, p, gap);
    ContentsClose(run, p, p.(pos := p.pos + |gap|), k, 0, []);
  }

  // ---------------------------------------------------------------- elements

  /** White space, a value, white space. */
  lemma {:induction false} ElementRuns(run: Session, p: Parser, e: Element)
    requires run.Lawful() && Sound(run.build, p) && WellFormedElement(e)
    requires StandsAt(run.js, p.pos, RenderElement(e)) && Delimited(run.js, p.pos + |RenderElement(e)|)
    requires RoomFor(run.capacity, p, Tokens(run.build, e.value, p.pos + |e.before|, |p.toks|, p.toksuper))
    ensures LeadsTo(run, p,
                    AfterValue(run.build, p, e.value, p.pos + |e.before|, p.pos + |RenderElement(e)|))
    decreases e, 0
  {
    ElementParts(run.js, p.pos, e);
    SkipBlank(run, p, e.before);
    var p1 := p.(pos := p.pos + |e.before|);
    ValueRuns(run, p1, e.value);
    var p2 := AfterValue(run.build, p1, e.value, p1.pos, p1.pos + |Render(e.value)|);
    GapBehind(run, p, e, p2);
    Through(run, p, p1, p2, p2);
    Through(run, p, p2, AfterValue(run.build, p, e.value, p.pos + |e.before|, p.pos + |RenderElement(e)|),
            AfterValue(run.build, p, e.value, p.pos + |e.before|, p.pos + |RenderElement(e)|));
  }

  lemma {:induction false} GapBehind(run: Session, p: Parser, e: Element, q: Parser)
    requires run.Lawful() && Valid(p) && Sound(run.build, q) && WellFormedElement(e)
    requires q == AfterValue(run.build, p.(pos := p.pos + |e.before|), e.value, p.pos + |e.before|,
                             p.pos + |e.before| + |Render(e.value)|)
    requires StandsAt(run.js, q.pos, e.after)
    ensures LeadsTo(run, q, AfterValue(run.build, p, e.value, p.pos + |e.before|, p.pos + |RenderElement(e)|))
  {
    SkipBlank(run, q, e.after);
    ValueFromGap(run.build, p, e);
  }

  /** The cursor in front of a value plays no part in the tokens it leaves. */
  lemma ValueFromGap(build: Build, p: Parser, e: Element)
    requires Valid(p)
    ensures var p1 := p.(pos := p.pos + |e.before|);
      var p2 := AfterValue(build, p1, e.value, p1.pos, p1.pos + |Render(e.value)|);
      p2.(pos := p2.pos + |e.after|)
      == AfterValue(build, p, e.value, p.pos + |e.before|, p.pos + |RenderElement(e)|)
  {
  }

  lemma {:induction false} ElementParts(js: string, at: nat, e: Element)
    requires WellFormedElement(e)
    requires StandsAt(js, at, RenderElement(e)) && Delimited(js, at + |RenderElement(e)|)
    ensures StandsAt(js, at, e.before) && StandsAt(js, at + |e.before|, Render(e.value))
    ensures var end := at + |e.before| + |Render(e.value)|; StandsAt(js, end, e.after) && Delimited(js, end)
    ensures |RenderElement(e)| == |e.before| + |Render(e.value)| + |e.after|
  {
    StandsSplit(js, at, e.before + Render(e.value), e.after);
    StandsSplit(js, at, e.before, Render(e.value));
    if e.after != "" {
      StandsChar(js, at + |e.before + Render(e.value)|, e.after, 0);
    }
  }

  /** The first element, when array k is superior at it. */
  lemma {:induction false} FirstElement(run: Session, p: Parser, e: Element, k: nat)
    requires run.Lawful() && Sound(run.build, p) && WellFormedElement(e)
    requires p.toksuper == k == LastOpen(p.toks, |p.toks|)
    requires StandsAt(run.js, p.pos, RenderElement(e)) && Delimited(run.js, p.pos + |RenderElement(e)|)
    requires RoomFor(run.capacity, p, Tokens(run.build, e.value, p.pos + |e.before|, |p.toks|, k))
    ensures LeadsTo(run, p, AfterElement(run.build, p, e, k))
    ensures var q := AfterElement(run.build, p, e, k); LastOpen(q.toks, |q.toks|) == k
    decreases e, 1
  {
    ElementRuns(run, p, e);
    var first := Tokens(run.build, e.value, p.pos + |e.before|, |p.toks|, k);
    TokensClosed(run.build, e.value, p.pos + |e.before|, |p.toks|, k);
    LastOpenOverClosed(Bump(p.toks, k), first);
    LastOpenSame(p.toks, Bump(p.toks, k), |p.toks|);
  }

  function AfterElement(build: Build, p: Parser, e: Element, k: nat): Parser
    requires Valid(p) && k < |p.toks|
  {
    Parser(p.pos + |RenderElement(e)|, k,
           Bump(p.toks, k) + Tokens(build, e.value, p.pos + |e.before|, |p.toks|, k))
  }

  /** The first of several elements, and the comma behind it. */
  lemma {:induction false} ElementComma(run: Session, p: Parser, es: seq<Element>, k: nat)
    requires run.Lawful() && Sound(run.build, p) && |es| > 1 && WellFormedElements(es)
    requires p.toksuper == k == LastOpen(p.toks, |p.toks|) && p.toks[k].kind == Array
    requires StandsAt(run.js, p.pos, RenderElements(es))
    requires RoomFor(run.capacity, p, ElementTokens(run.build, es, p.pos, |p.toks|, k))
    ensures var q := BehindComma(AfterElement(run.build, p, es[0], k), k);
      && LeadsTo(run, p, q)
      && LastOpen(q.toks, |q.toks|) == k && q.toks[k].kind == Array
      && StandsAt(run.js, q.pos, RenderElements(es[1..]))
    decreases es, 0
  {
    StandsJoined(run.js, p.pos, RenderElement(es[0]), RenderElements(es[1..]));
    FirstElement(run, p, es[0], k);
    var p1 := AfterElement(run.build, p, es[0], k);
    assert p1.toks[k].kind == Array;
    assert Comma(run.build, p1) == Next(BehindComma(p1, k));
    Turn(run, p1, BehindComma(p1, k));
  }

  /** The elements of array k from p on, and its closing bracket. */
  lemma {:induction false} ElementsRun(run: Session, p: Parser, es: seq<Element>, k: nat)
    requires run.Lawful() && Sound(run.build, p) && es != [] && WellFormedElements(es)
    requires p.toksuper == k == LastOpen(p.toks, |p.toks|) && p.toks[k].kind == Array
    requires StandsAt(run.js, p.pos, RenderElements(es))
    requires var end := p.pos + |RenderElements(es)|; !AtEnd(run.js, end) && run.js[end] == ']'
    requires RoomFor(run.capacity, p, ElementTokens(run.build, es, p.pos, |p.toks|, k))
    ensures LeadsTo(run, p, AfterElements(run.build, p, es, k))
    decreases es, 1
  {
    if |es| == 1 {
      LastElement(run, p, es, k);
    } else {
      ElementComma(run, p, es, k);
      ElementsJoin(run.build, p, es, k);
      ElementsRun(run, BehindComma(AfterElement(run.build, p, es[0], k), k), es[1..], k);
    }
  }

  function AfterElements(build: Build, p: Parser, es: seq<Element>, k: nat): Parser
    requires Valid(p) && k < |p.toks| && es != []
  {
    AfterContents(build, p, k, |es|, p.pos + |RenderElements(es)|, ElementTokens(build, es, p.pos, |p.toks|, k))
  }

  lemma {:induction false} LastElement(run: Session, p: Parser, es: seq<Element>, k: nat)
    requires run.Lawful() && Sound(run.build, p) && |es| == 1 && WellFormedElements(es)
    requires p.toksuper == k == LastOpen(p.toks, |p.toks|) && p.toks[k].kind == Array
    requires StandsAt(run.js, p.pos, RenderElements(es))
    requires var end := p.pos + |RenderElements(es)|; !AtEnd(run.js, end) && run.js[end] == ']'
    requires RoomFor(run.capacity, p, ElementTokens(run.build, es, p.pos, |p.toks|, k))
    ensures LeadsTo(run, p, AfterElements(run.build, p, es, k))
    decreases es, 0
  {
    var first := Tokens(run.build, es[0].value, p.pos + |es[0].before|, |p.toks|, k);
    assert ElementTokens(run.build, es, p.pos, |p.toks|, k) == first;
    FirstElement(run, p, es[0], k);
    ElementTokensClosed(run.build, es, p.pos, |p.toks|, k);
    ContentsClose(run, p, AfterElement(run.build, p, es[0], k), k, 1, first);
  }

  lemma ElementTokensJoin(build: Build, es: seq<Element>, at: nat, n: nat, k: nat)
    requires |es| > 1
    ensures |RenderElements(es)| == |RenderElement(es[0])| + 1 + |RenderElements(es[1..])|
    ensures var first := Tokens(build, es[0].value, at + |es[0].before|, n, k);
      ElementTokens(build, es, at, n, k)
      == first + ElementTokens(build, es[1..], at + |RenderElement(es[0])| + 1, n + |first|, k)
  {
  }

  /** The rest of the elements behind the first is all the elements. */
  lemma {:induction false} ElementsJoin(build: Build, p: Parser, es: seq<Element>, k: nat)
    requires Valid(p) && |es| > 1 && k < |p.toks|
    requires Valid(BehindComma(AfterElement(build, p, es[0], k), k))
    ensures var q := BehindComma(AfterElement(build, p, es[0], k), k);
      && p.pos + |RenderElements(es)| == q.pos + |RenderElements(es[1..])|
      && |p.toks| + |ElementTokens(build, es, p.pos, |p.toks|, k)|
          == |q.toks| + |ElementTokens(build, es[1..], q.pos, |q.toks|, k)|
      && AfterElements(build, q, es[1..], k) == AfterElements(build, p, es, k)
  {
    var first := Tokens(build, es[0].value, p.pos + |es[0].before|, |p.toks|, k);
    var q := BehindComma(AfterElement(build, p, es[0], k), k);
    var rest := ElementTokens(build, es[1..], q.pos, |q.toks|, k);
    ElementTokensJoin(build, es, p.pos, |p.toks|, k);
    ContentsJoin(build, p, q, k, |es| - 1, p.pos + |RenderElements(es)|, first, rest);
  }

  /** Counting one child and leaving its tokens, and then the others, is counting and leaving them all. */
  lemma {:induction false} ContentsJoin(build: Build, p: Parser, q: Parser, k: nat, count: nat, end: nat,
                                        first: seq<Token>, rest: seq<Token>)
    requires Valid(p) && Valid(q) && k < |p.toks|
    requires q.toks == Bump(p.toks, k) + first
    ensures AfterContents(build, q, k, count, end, rest)
         == AfterContents(build, p, k, count + 1, end, first + rest)
  {
    LastOpenSame(p.toks, q.toks, k);
    assert AfterContents(build, q, k, count, end, rest).toks
        == AfterContents(build, p, k, count + 1, end, first + rest).toks;
  }

  // ---------------------------------------------------------------- members

  /** The object counts the key, and the key counts the value. Behind a container value the backward-scan build has
      the object superior again, otherwise the key still is. */
  function AfterMember(build: Build, p: Parser, m: Member, k: nat): Parser
    requires Valid(p) && k < |p.toks|
  {
    var v := m.element.value;
    Parser(p.pos + |RenderMember(m)|,
           if (v.Literal? || v.Text?) || build == ParentLinks then |p.toks| else k,
           Bump(p.toks, k) + OneMember(build, m, p.pos, |p.toks|, k))
  }

  /** The tokenizer behind the colon of a member: the key is superior. */
  function AfterColon(build: Build, p: Parser, m: Member, k: nat): Parser
    requires Valid(p) && k < |p.toks|
  {
    Parser(ValueAt(m, p.pos), |p.toks|, Bump(p.toks, k) + [KeyToken(build, m, p.pos, 0, k)])
  }

  lemma {:induction false} MemberParts(js: string, at: nat, m: Member)
    requires StandsAt(js, at, RenderMember(m))
    ensures StandsAt(js, at, m.before) && StandsAt(js, at + |m.before|, Render(Text(m.key)))
    ensures StandsAt(js, at + |m.before| + |m.key| + 2, m.middle)
    ensures var colon := ValueAt(m, at) - 1;
      colon < |js| && js[colon] == ':' && StandsAt(js, colon + 1, RenderElement(m.element))
    ensures |RenderMember(m)| == ValueAt(m, 0) + |RenderElement(m.element)|
  {
    var quoted := "\"" + m.key + "\"";
    StandsSplit(js, at, m.before + quoted + m.middle, ":" + RenderElement(m.element));
    StandsSplit(js, at, m.before + quoted, m.middle);
    StandsSplit(js, at, m.before, quoted);
    StandsSplit(js, ValueAt(m, at) - 1, ":", RenderElement(m.element));
    StandsChar(js, ValueAt(m, at) - 1, ":", 0);
  }

  /** The tokenizer behind the closing quote of a key. */
  function AfterKey(build: Build, p: Parser, m: Member, k: nat): Parser
    requires Valid(p) && k < |p.toks|
  {
    Parser(p.pos + |m.before| + |m.key| + 2, k, Bump(p.toks, k) + [KeyToken(build, m, p.pos, 0, k)])
  }

  lemma {:induction false} KeyTurns(run: Session, p: Parser, m: Member, k: nat)
    requires run.Lawful() && Sound(run.build, p) && WellFormedMember(m) && |p.toks| < run.capacity
    requires p.toksuper == k < |p.toks|
    requires StandsAt(run.js, p.pos, m.before) && StandsAt(run.js, p.pos + |m.before|, Render(Text(m.key)))
    ensures LeadsTo(run, p, AfterKey(run.build, p, m, k))
  {
    SkipBlank(run, p, m.before);
    var q := p.(pos := p.pos + |m.before|);
    TextTurn(run, q, Text(m.key));
    var r := AfterKey(run.build, p, m, k);
    assert r == AfterValue(run.build, q, Text(m.key), q.pos, r.pos);
  }

  lemma {:induction false} KeyRuns(run: Session, p: Parser, m: Member, k: nat)
    requires run.Lawful() && Sound(run.build, p) && WellFormedMember(m) && |p.toks| < run.capacity
    requires p.toksuper == k == LastOpen(p.toks, |p.toks|)
    requires StandsAt(run.js, p.pos, RenderMember(m))
    ensures LeadsTo(run, p, AfterColon(run.build, p, m, k))
    ensures var q := AfterColon(run.build, p, m, k); LastOpen(q.toks, |q.toks|) == k
  {
    MemberParts(run.js, p.pos, m);
    KeyTurns(run, p, m, k);
    var p2 := AfterKey(run.build, p, m, k);
    SkipBlank(run, p2, m.middle);
    var p3 := p2.(pos := p2.pos + |m.middle|);
    Turn(run, p3, AfterColon(run.build, p, m, k));
    LastOpenOverClosed(Bump(p.toks, k), [KeyToken(run.build, m, p.pos, 0, k)]);
    LastOpenSame(p.toks, Bump(p.toks, k), |p.toks|);
  }

  /** A key, its colon and its value, up to what follows them. */
  lemma {:induction false} MemberRuns(run: Session, p: Parser, m: Member, k: nat)
    requires run.Lawful() && Sound(run.build, p) && WellFormedMember(m)
    requires p.toksuper == k == LastOpen(p.toks, |p.toks|)
    requires StandsAt(run.js, p.pos, RenderMember(m)) && Delimited(run.js, p.pos + |RenderMember(m)|)
    requires RoomFor(run.capacity, p, OneMember(run.build, m, p.pos, |p.toks|, k))
    ensures LeadsTo(run, p, AfterMember(run.build, p, m, k))
    ensures var q := AfterMember(run.build, p, m, k); LastOpen(q.toks, |q.toks|) == k
    decreases m
  {
    MemberParts(run.js, p.pos, m);
    KeyRuns(run, p, m, k);
    var q := AfterColon(run.build, p, m, k);
    ElementRuns(run, q, m.element);
    MemberJoin(run.build, p, m, k);
    var first := OneMember(run.build, m, p.pos, |p.toks|, k);
    TokensClosed(run.build, m.element.value, ValueAt(m, p.pos) + |m.element.before|, |p.toks| + 1, |p.toks|);
    LastOpenOverClosed(Bump(p.toks, k), first);
    LastOpenSame(p.toks, Bump(p.toks, k), |p.toks|);
  }

  lemma {:induction false} MemberJoin(build: Build, p: Parser, m: Member, k: nat)
    requires Valid(p) && k == LastOpen(p.toks, |p.toks|)
    requires |RenderMember(m)| == ValueAt(m, 0) + |RenderElement(m.element)|
    requires var q := AfterColon(build, p, m, k); Valid(q) && LastOpen(q.toks, |q.toks|) == k
    ensures var q := AfterColon(build, p, m, k);
      AfterValue(build, q, m.element.value, q.pos + |m.element.before|, q.pos + |RenderElement(m.element)|)
      == AfterMember(build, p, m, k)
  {
    var q := AfterColon(build, p, m, k);
    assert Bump(q.toks, |p.toks|) == Bump(p.toks, k) + [KeyToken(build, m, p.pos, 1, k)];
    var r := AfterValue(build, q, m.element.value, q.pos + |m.element.before|, q.pos + |RenderElement(m.element)|);
    assert r.toks == Bump(p.toks, k) + OneMember(build, m, p.pos, |p.toks|, k);
  }

  /** The comma behind a member makes the object superior again, in both builds. */
  lemma {:induction false} MemberComma(run: Session, p: Parser, m: Member, k: nat)
    requires run.Lawful()
    requires Valid(p) && k == LastOpen(p.toks, |p.toks|)
    requires var q := AfterMember(run.build, p, m, k);
      Sound(run.build, q) && !AtEnd(run.js, q.pos) && run.js[q.pos] == ',' && LastOpen(q.toks, |q.toks|) == k
    ensures var q := AfterMember(run.build, p, m, k);
      LeadsTo(run, q, Parser(q.pos + 1, k, q.toks))
  {
    var q := AfterMember(run.build, p, m, k);
    assert q.toks[|p.toks|] == KeyToken(run.build, m, p.pos, 1, k);
    assert q.toks[k].kind == p.toks[k].kind;
    assert Comma(run.build, q) == Next(Parser(q.pos + 1, k, q.toks));
    Turn(run, q, Parser(q.pos + 1, k, q.toks));
  }

  /** The first of several members, and the comma behind it. */
  lemma {:induction false} FirstMember(run: Session, p: Parser, ms: seq<Member>, k: nat)
    requires run.Lawful() && Sound(run.build, p) && |ms| > 1 && WellFormedMembers(ms)
    requires p.toksuper == k == LastOpen(p.toks, |p.toks|) && p.toks[k].kind == Object
    requires StandsAt(run.js, p.pos, RenderMembers(ms))
    requires RoomFor(run.capacity, p, MemberTokens(run.build, ms, p.pos, |p.toks|, k))
    ensures var q := BehindComma(AfterMember(run.build, p, ms[0], k), k);
      && LeadsTo(run, p, q)
      && LastOpen(q.toks, |q.toks|) == k && q.toks[k].kind == Object
      && StandsAt(run.js, q.pos, RenderMembers(ms[1..]))
    decreases ms, 0
  {
    StandsJoined(run.js, p.pos, RenderMember(ms[0]), RenderMembers(ms[1..]));
    MemberRuns(run, p, ms[0], k);
    MemberComma(run, p, ms[0], k);
  }

  /** The members of object k from p on, and its closing bracket. */
  lemma {:induction false} MembersRun(run: Session, p: Parser, ms: seq<Member>, k: nat)
    requires run.Lawful() && Sound(run.build, p) && ms != [] && WellFormedMembers(ms)
    requires p.toksuper == k == LastOpen(p.toks, |p.toks|) && p.toks[k].kind == Object
    requires StandsAt(run.js, p.pos, RenderMembers(ms))
    requires var end := p.pos + |RenderMembers(ms)|; !AtEnd(run.js, end) && run.js[end] == '}'
    requires RoomFor(run.capacity, p, MemberTokens(run.build, ms, p.pos, |p.toks|, k))
    ensures LeadsTo(run, p, AfterMembers(run.build, p, ms, k))
    decreases ms, 1
  {
    if |ms| == 1 {
      LastMember(run, p, ms, k);
    } else {
      FirstMember(run, p, ms, k);
      MembersJoin(run.build, p, ms, k);
      MembersRun(run, BehindComma(AfterMember(run.build, p, ms[0], k), k), ms[1..], k);
    }
  }

  function BehindComma(p: Parser, k: nat): Parser {
    Parser(p.pos + 1, k, p.toks)
  }

  function AfterMembers(build: Build, p: Parser, ms: seq<Member>, k: nat): Parser
    requires Valid(p) && k < |p.toks| && ms != []
  {
    AfterContents(build, p, k, |ms|, p.pos + |RenderMembers(ms)|, MemberTokens(build, ms, p.pos, |p.toks|, k))
  }

  lemma {:induction false} LastMember(run: Session, p: Parser, ms: seq<Member>, k: nat)
    requires run.Lawful() && Sound(run.build, p) && |ms| == 1 && WellFormedMembers(ms)
    requires p.toksuper == k == LastOpen(p.toks, |p.toks|) && p.toks[k].kind == Object
    requires StandsAt(run.js, p.pos, RenderMembers(ms))
    requires var end := p.pos + |RenderMembers(ms)|; !AtEnd(run.js, end) && run.js[end] == '}'
    requires RoomFor(run.capacity, p, MemberTokens(run.build, ms, p.pos, |p.toks|, k))
    ensures LeadsTo(run, p, AfterMembers(run.build, p, ms, k))
    decreases ms, 0
  {
    var first := OneMember(run.build, ms[0], p.pos, |p.toks|, k);
    assert MemberTokens(run.build, ms, p.pos, |p.toks|, k) == first;
    MemberRuns(run, p, ms[0], k);
    MemberTokensClosed(run.build, ms, p.pos, |p.toks|, k);
    ContentsClose(run, p, AfterMember(run.build, p, ms[0], k), k, 1, first);
  }

  /** The rest of the members behind the first is all the members. */
  lemma {:induction false} MembersJoin(build: Build, p: Parser, ms: seq<Member>, k: nat)
    requires Valid(p) && |ms| > 1 && k < |p.toks|
    requires Valid(BehindComma(AfterMember(build, p, ms[0], k), k))
    ensures var q := BehindComma(AfterMember(build, p, ms[0], k), k);
      && p.pos + |RenderMembers(ms)| == q.pos + |RenderMembers(ms[1..])|
      && |p.toks| + |MemberTokens(build, ms, p.pos, |p.toks|, k)|
          == |q.toks| + |MemberTokens(build, ms[1..], q.pos, |q.toks|, k)|
      && AfterMembers(build, q, ms[1..], k) == AfterMembers(build, p, ms, k)
  {
    var first := OneMember(build, ms[0], p.pos, |p.toks|, k);
    var q := BehindComma(AfterMember(build, p, ms[0], k), k);
    var rest := MemberTokens(build, ms[1..], q.pos, |q.toks|, k);
    assert MemberTokens(build, ms, p.pos, |p.toks|, k) == first + rest;
    ContentsJoin(build, p, q, k, |ms| - 1, p.pos + |RenderMembers(ms)|, first, rest);
  }

  // ---------------------------------------------------------------- whole texts

  /** The preorder of a text. */
  function Preorder(build: Build, e: Element): seq<Token> {
    Tokens(build, e.value, |e.before|, 0, -1)
  }

  /** Every JSON text, with any white space, is accepted when there is a token for each value and key; the tokens are
      its preorder with kinds, spans, child counts and, with parent links, parents. */
  lemma {:induction false} RoundTrip(build: Build, capacity: nat, e: Element)
    requires WellFormedElement(e)
    ensures var n := |Preorder(build, e)|;
      && (n <= capacity ==>
            var r := Run(build, capacity, RenderElement(e), INIT);
            r.code == n && r.parser.toks == Preorder(build, e) && r.parser.pos == |RenderElement(e)|)
      && (n > capacity ==> Run(build, capacity, RenderElement(e), INIT).code == NOMEM)
      && DryRun(RenderElement(e), 0, 0).code == n
  {
    var js := RenderElement(e);
    var tokens := Preorder(build, e);
    var room := if |tokens| <= capacity then capacity else |tokens|;
    var run := Session(build, room, js, (p: Parser) => if Valid(p) then Run(build, room, js, p) else Outcome(0, p));
    assert run.Lawful();
    ElementRuns(run, INIT, e);
    var q := AfterValue(build, INIT, e.value, |e.before|, |js|);
    assert q.toks == tokens;
    TokensClosed(build, e.value, |e.before|, 0, -1);
    LastOpenOverClosed([], tokens);
    assert [] + tokens == tokens;
    assert Run(build, room, js, q) == Finish(q);
    DryRunIsExact(build, room, js, capacity);
  }
}
