/** Reading a token array back into the value it stands for, by child counts and spans only. */
module JsmnReadBack {
  import opened JsmnSpec
  import opened JsonText
  import opened JsmnRoundTrip

  /** A JSON value without its white space. */
  datatype Plain =
    | PlainLiteral(text: string)
    | PlainText(body: string)
    | PlainArray(items: seq<Plain>)
    | PlainObject(pairs: seq<(string, Plain)>)

  function Strip(v: Value): Plain
    decreases v
  {
    match v
    case Literal(text) => PlainLiteral(text)
    case Text(body) => PlainText(body)
    case ArrayOf(gap, elements) => PlainArray(StripElements(elements))
    case ObjectOf(gap, members) => PlainObject(StripMembers(members))
  }

  function StripElements(es: seq<Element>): (r: seq<Plain>)
    decreases es
  {
    if es == [] then [] else [Strip(es[0].value)] + StripElements(es[1..])
  }

  function StripMembers(ms: seq<Member>): (r: seq<(string, Plain)>)
    decreases ms
  {
    if ms == [] then [] else [(ms[0].key, Strip(ms[0].element.value))] + StripMembers(ms[1..])
  }

  // ---------------------------------------------------------------- the reader

  /** A value read, and the token after it. */
  datatype Reading<T> = Reading(value: T, next: nat) | Unreadable

  function Span(js: string, t: Token): Reading<string> {
    if 0 <= t.start <= t.end <= |js| then Reading(js[t.start..t.end], 0) else Unreadable
  }

  function ReadValue(js: string, toks: seq<Token>, i: nat): (r: Reading<Plain>)
    ensures r.Reading? ==> i < r.next <= |toks|
    decreases |toks| - i, 1, 0
  {
    if i >= |toks| then Unreadable
    else
      var span := Span(js, toks[i]);
      if span.Unreadable? then Unreadable
      else
        match toks[i].kind
        case Primitive => Reading(PlainLiteral(span.value), i + 1)
        case String => Reading(PlainText(span.value), i + 1)
        case Array =>
          var items := ReadItems(js, toks, i + 1, toks[i].size);
          if items.Unreadable? then Unreadable else Reading(PlainArray(items.value), items.next)
        case Object =>
          var pairs := ReadPairs(js, toks, i + 1, toks[i].size);
          if pairs.Unreadable? then Unreadable else Reading(PlainObject(pairs.value), pairs.next)
  }

  function ReadItems(js: string, toks: seq<Token>, i: nat, n: nat): (r: Reading<seq<Plain>>)
    requires i <= |toks|
    ensures r.Reading? ==> i <= r.next <= |toks|
    decreases |toks| - i, 2, n
  {
    if n == 0 then Reading([], i)
    else
      var first := ReadValue(js, toks, i);
      if first.Unreadable? then Unreadable
      else
        var rest := ReadItems(js, toks, first.next, n - 1);
        if rest.Unreadable? then Unreadable else Reading([first.value] + rest.value, rest.next)
  }

  function ReadPairs(js: string, toks: seq<Token>, i: nat, n: nat): (r: Reading<seq<(string, Plain)>>)
    requires i <= |toks|
    ensures r.Reading? ==> i <= r.next <= |toks|
    decreases |toks| - i, 2, n
  {
    if n == 0 then Reading([], i)
    else if i >= |toks| || toks[i].kind != String then Unreadable
    else
      var key := Span(js, toks[i]);
      var first := ReadValue(js, toks, i + 1);
      if key.Unreadable? || first.Unreadable? then Unreadable
      else
        var rest := ReadPairs(js, toks, first.next, n - 1);
        if rest.Unreadable? then Unreadable else Reading([(key.value, first.value)] + rest.value, rest.next)
  }

  // ---------------------------------------------------------------- it reads what was rendered

  /** `part` stands in `toks` from i on. */
  predicate TokensAt(toks: seq<Token>, i: nat, part: seq<Token>) {
    i + |part| <= |toks| && toks[i..i + |part|] == part
  }

  lemma TokensSplit(toks: seq<Token>, i: nat, a: seq<Token>, b: seq<Token>)
    requires TokensAt(toks, i, a + b)
    ensures TokensAt(toks, i, a) && TokensAt(toks, i + |a|, b)
  {
    assert toks[i..i + |a|] == (a + b)[..|a|] == a;
    assert toks[i + |a|..i + |a| + |b|] == (a + b)[|a|..] == b;
  }

  lemma TokenHead(toks: seq<Token>, i: nat, t: Token, b: seq<Token>)
    requires TokensAt(toks, i, [t] + b)
    ensures i < |toks| && toks[i] == t && TokensAt(toks, i + 1, b)
  {
    TokensSplit(toks, i, [t], b);
    assert toks[i..i + 1][0] == t;
  }

  lemma {:induction false} ReadsValue(build: Build, js: string, toks: seq<Token>, v: Value, at: nat, i: nat, parent: int)
    requires StandsAt(js, at, Render(v)) && TokensAt(toks, i, Tokens(build, v, at, i, parent))
    ensures ReadValue(js, toks, i) == Reading(Strip(v), i + |Tokens(build, v, at, i, parent)|)
    decreases v
  {
    match v
    case Literal(text) =>
      TokenHead(toks, i, Tokens(build, v, at, i, parent)[0], []);
    case Text(body) =>
      StandsBetween(js, at, '"', body, '"');
      TokenHead(toks, i, Tokens(build, v, at, i, parent)[0], []);
    case ArrayOf(gap, elements) =>
      var contents := ElementTokens(build, elements, at + 1, i + 1, i);
      TokenHead(toks, i, Tokens(build, v, at, i, parent)[0], contents);
      if elements != [] {
        StandsBetween(js, at, '[', RenderElements(elements), ']');
      }
      ReadsElements(build, js, toks, elements, at + 1, i + 1, i);
    case ObjectOf(gap, members) =>
      var contents := MemberTokens(build, members, at + 1, i + 1, i);
      TokenHead(toks, i, Tokens(build, v, at, i, parent)[0], contents);
      if members != [] {
        StandsBetween(js, at, '{', RenderMembers(members), '}');
      }
      ReadsMembers(build, js, toks, members, at + 1, i + 1, i);
  }

  /** The value of the first element, and the others behind its comma. */
  lemma {:induction false} ElementsText(js: string, at: nat, es: seq<Element>)
    requires es != [] && StandsAt(js, at, RenderElements(es))
    ensures StandsAt(js, at + |es[0].before|, Render(es[0].value))
    ensures |es| > 1 ==> StandsAt(js, at + |RenderElement(es[0])| + 1, RenderElements(es[1..]))
  {
    var e := es[0];
    if |es| > 1 {
      StandsJoined(js, at, RenderElement(e), RenderElements(es[1..]));
    } else {
      assert RenderElements(es) == RenderElement(e);
    }
    ElementText(js, at, e);
  }

  lemma {:induction false} ElementText(js: string, at: nat, e: Element)
    requires StandsAt(js, at, RenderElement(e))
    ensures StandsAt(js, at + |e.before|, Render(e.value))
  {
    StandsSplit(js, at, e.before + Render(e.value), e.after);
    StandsSplit(js, at, e.before, Render(e.value));
  }

  lemma {:induction false} ReadsElements(build: Build, js: string, toks: seq<Token>, es: seq<Element>, at: nat, i: nat,
                                         parent: nat)
    requires es != [] ==> StandsAt(js, at, RenderElements(es))
    requires i <= |toks| && TokensAt(toks, i, ElementTokens(build, es, at, i, parent))
    ensures ReadItems(js, toks, i, |es|) == Reading(StripElements(es), i + |ElementTokens(build, es, at, i, parent)|)
    decreases es
  {
    if es != [] {
      var first := Tokens(build, es[0].value, at + |es[0].before|, i, parent);
      var next := at + |RenderElement(es[0])| + 1;
      var rest := ElementTokens(build, es[1..], next, i + |first|, parent);
      assert ElementTokens(build, es, at, i, parent) == first + rest;
      TokensSplit(toks, i, first, rest);
      ElementsText(js, at, es);
      ReadsValue(build, js, toks, es[0].value, at + |es[0].before|, i, parent);
      ReadsElements(build, js, toks, es[1..], next, i + |first|, parent);
      ItemsStep(js, toks, i, |es|, Strip(es[0].value), StripElements(es[1..]), i + |first|, i + |first| + |rest|);
      assert StripElements(es) == [Strip(es[0].value)] + StripElements(es[1..]);
    }
  }

  lemma {:induction false} ItemsStep(js: string, toks: seq<Token>, i: nat, n: nat, first: Plain, rest: seq<Plain>,
                                     middle: nat, next: nat)
    requires i <= |toks| && n > 0 && middle <= |toks|
    requires ReadValue(js, toks, i) == Reading(first, middle)
    requires ReadItems(js, toks, middle, n - 1) == Reading(rest, next)
    ensures ReadItems(js, toks, i, n) == Reading([first] + rest, next)
  {
  }

  lemma {:induction false} PairsStep(js: string, toks: seq<Token>, i: nat, n: nat, key: string, first: Plain,
                                     rest: seq<(string, Plain)>, middle: nat, next: nat)
    requires i < |toks| && n > 0 && middle <= |toks|
    requires toks[i].kind == String && Span(js, toks[i]) == Reading(key, 0)
    requires ReadValue(js, toks, i + 1) == Reading(first, middle)
    requires ReadPairs(js, toks, middle, n - 1) == Reading(rest, next)
    ensures ReadPairs(js, toks, i, n) == Reading([(key, first)] + rest, next)
  {
  }

  lemma {:induction false} MembersText(js: string, at: nat, ms: seq<Member>)
    requires ms != [] && StandsAt(js, at, RenderMembers(ms))
    ensures StandsAt(js, at, RenderMember(ms[0]))
    ensures |ms| > 1 ==> StandsAt(js, at + |RenderMember(ms[0])| + 1, RenderMembers(ms[1..]))
  {
    if |ms| > 1 {
      StandsJoined(js, at, RenderMember(ms[0]), RenderMembers(ms[1..]));
    } else {
      assert RenderMembers(ms) == RenderMember(ms[0]);
    }
  }

  lemma {:induction false} ReadsMembers(build: Build, js: string, toks: seq<Token>, ms: seq<Member>, at: nat, i: nat,
                                        parent: nat)
    requires ms != [] ==> StandsAt(js, at, RenderMembers(ms))
    requires i <= |toks| && TokensAt(toks, i, MemberTokens(build, ms, at, i, parent))
    ensures ReadPairs(js, toks, i, |ms|) == Reading(StripMembers(ms), i + |MemberTokens(build, ms, at, i, parent)|)
    decreases ms
  {
    if ms != [] {
      var m := ms[0];
      var first := OneMember(build, m, at, i, parent);
      var next := at + |RenderMember(m)| + 1;
      var rest := MemberTokens(build, ms[1..], next, i + |first|, parent);
      assert MemberTokens(build, ms, at, i, parent) == first + rest;
      TokensSplit(toks, i, first, rest);
      MembersText(js, at, ms);
      ReadsMember(build, js, toks, m, at, i, parent);
      ReadsMembers(build, js, toks, ms[1..], next, i + |first|, parent);
      PairsStep(js, toks, i, |ms|, m.key, Strip(m.element.value), StripMembers(ms[1..]), i + |first|,
                i + |first| + |rest|);
      assert StripMembers(ms) == [(m.key, Strip(m.element.value))] + StripMembers(ms[1..]);
    }
  }

  lemma {:induction false} ReadsMember(build: Build, js: string, toks: seq<Token>, m: Member, at: nat, i: nat,
                                       parent: nat)
    requires StandsAt(js, at, RenderMember(m)) && TokensAt(toks, i, OneMember(build, m, at, i, parent))
    ensures i < |toks| && toks[i].kind == String && Span(js, toks[i]) == Reading(m.key, 0)
    ensures ReadValue(js, toks, i + 1) == Reading(Strip(m.element.value), i + |OneMember(build, m, at, i, parent)|)
    decreases m
  {
    var p := ValueAt(m, at);
    TokenHead(toks, i, KeyToken(build, m, at, 1, parent),
              Tokens(build, m.element.value, p + |m.element.before|, i + 1, i));
    MemberParts(js, at, m);
    KeySpan(build, js, m, at, parent);
    ElementText(js, p, m.element);
    ReadsValue(build, js, toks, m.element.value, p + |m.element.before|, i + 1, i);
  }

  lemma {:induction false} KeySpan(build: Build, js: string, m: Member, at: nat, parent: nat)
    requires StandsAt(js, at + |m.before|, Render(Text(m.key)))
    ensures Span(js, KeyToken(build, m, at, 1, parent)) == Reading(m.key, 0)
  {
    StandsBetween(js, at + |m.before|, '"', m.key, '"');
  }

  /** Rendering, tokenizing and reading back is the identity on JSON values, whatever the white space and the build,
      and the reader uses every token. */
  lemma {:induction false} RenderTokenizeRead(build: Build, capacity: nat, e: Element)
    requires WellFormedElement(e) && |Preorder(build, e)| <= capacity
    ensures var js := RenderElement(e);
      var r := Run(build, capacity, js, INIT);
      r.code >= 0 && ReadValue(js, r.parser.toks, 0) == Reading(Strip(e.value), r.code)
  {
    RoundTrip(build, capacity, e);
    var js := RenderElement(e);
    var toks := Preorder(build, e);
    StandsSplit(js, 0, e.before + Render(e.value), e.after);
    StandsSplit(js, 0, e.before, Render(e.value));
    ReadsValue(build, js, toks, e.value, |e.before|, 0, -1);
  }

  /** No text renders two values: what the tokenizer finds in it decides. */
  lemma {:induction false} SameTextSameValue(a: Element, b: Element)
    requires WellFormedElement(a) && WellFormedElement(b) && RenderElement(a) == RenderElement(b)
    ensures Strip(a.value) == Strip(b.value)
  {
    var capacity := |Preorder(ParentLinks, a)|;
    RoundTrip(ParentLinks, capacity, b);
    RenderTokenizeRead(ParentLinks, capacity, a);
    RenderTokenizeRead(ParentLinks, capacity, b);
  }
}
