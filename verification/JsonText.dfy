/** JSON texts in the grammar of RFC 8259, sections 2 to 7, with every place where white space may stand.

    One character of the model is one byte of the text, so a character outside ASCII is the bytes of its encoding. */
module JsonText {
  import opened Common

  datatype Value =
    | Literal(text: string)                               // null, true, false or a number
    | Text(body: string)                                  // what stands between the quotes, escapes as written
    | ArrayOf(gap: string, elements: seq<Element>)        // `gap` stands between the brackets of an empty one
    | ObjectOf(gap: string, members: seq<Member>)

  datatype Element = Element(before: string, value: Value, after: string)

  datatype Member = Member(before: string, key: string, middle: string, element: Element)

  // ---------------------------------------------------------------- rendering

  function Render(v: Value): string
    decreases v
  {
    match v
    case Literal(text) => text
    case Text(body) => "\"" + body + "\""
    case ArrayOf(gap, elements) => "[" + (if elements == [] then gap else RenderElements(elements)) + "]"
    case ObjectOf(gap, members) => "{" + (if members == [] then gap else RenderMembers(members)) + "}"
  }

  function RenderElement(e: Element): string
    decreases e
  {
    e.before + Render(e.value) + e.after
  }

  function RenderElements(es: seq<Element>): string
    requires es != []
    decreases es
  {
    RenderElement(es[0]) + if |es| == 1 then "" else "," + RenderElements(es[1..])
  }

  function RenderMember(m: Member): string
    decreases m
  {
    m.before + ("\"" + m.key + "\"") + m.middle + (":" + RenderElement(m.element))
  }

  function RenderMembers(ms: seq<Member>): string
    requires ms != []
    decreases ms
  {
    RenderMember(ms[0]) + if |ms| == 1 then "" else "," + RenderMembers(ms[1..])
  }

  // ---------------------------------------------------------------- well-formed texts

  predicate IsBlank(s: string) {
    forall i :: 0 <= i < |s| ==> s[i] == ' ' || s[i] == '\t' || s[i] == '\n' || s[i] == '\r'
  }

  predicate IsHexDigit(c: char) {
    IsDigit(c) || 'A' <= c <= 'F' || 'a' <= c <= 'f'
  }

  predicate AllDigits(s: string) {
    forall i :: 0 <= i < |s| ==> IsDigit(s[i])
  }

  /** Section 6: an optional minus, an integer part without leading zeros, a fraction, an exponent. */
  ghost predicate IsNumber(s: string) {
    exists minus: string, whole: string, frac: string, exp: string ::
      && s == minus + whole + frac + exp
      && (minus == "" || minus == "-")
      && IsWhole(whole) && IsFraction(frac) && IsExponent(exp)
  }

  predicate IsWhole(s: string) {
    |s| > 0 && AllDigits(s) && (s[0] == '0' ==> |s| == 1)
  }

  predicate IsFraction(s: string) {
    s == "" || (|s| > 1 && s[0] == '.' && AllDigits(s[1..]))
  }

  predicate IsExponent(s: string) {
    s == "" ||
    (|s| > 1 && (s[0] == 'e' || s[0] == 'E') &&
     (AllDigits(s[1..]) || (|s| > 2 && (s[1] == '+' || s[1] == '-') && AllDigits(s[2..]))))
  }

  ghost predicate IsLiteral(s: string) {
    s == "null" || s == "true" || s == "false" || IsNumber(s)
  }

  /** Section 7: unescaped characters, two-character escapes, and \u with four hex digits. */
  predicate IsBody(s: string) {
    s == "" ||
    if s[0] != '\\' then s[0] != '"' && s[0] as int >= 0x20 && IsBody(s[1..])
    else if |s| >= 2 && s[1] != 'u' then
      (s[1] == '"' || s[1] == '\\' || s[1] == '/' || s[1] == 'b' || s[1] == 'f' || s[1] == 'n' || s[1] == 'r' ||
       s[1] == 't') && IsBody(s[2..])
    else |s| >= 6 && (forall i :: 2 <= i < 6 ==> IsHexDigit(s[i])) && IsBody(s[6..])
  }

  ghost predicate WellFormed(v: Value)
    decreases v
  {
    match v
    case Literal(text) => IsLiteral(text)
    case Text(body) => IsBody(body)
    case ArrayOf(gap, elements) => IsBlank(gap) && WellFormedElements(elements)
    case ObjectOf(gap, members) => IsBlank(gap) && WellFormedMembers(members)
  }

  ghost predicate WellFormedElement(e: Element)
    decreases e
  {
    IsBlank(e.before) && WellFormed(e.value) && IsBlank(e.after)
  }

  ghost predicate WellFormedElements(es: seq<Element>)
    decreases es
  {
    es == [] || (WellFormedElement(es[0]) && WellFormedElements(es[1..]))
  }

  ghost predicate WellFormedMember(m: Member)
    decreases m
  {
    IsBlank(m.before) && IsBody(m.key) && IsBlank(m.middle) && WellFormedElement(m.element)
  }

  ghost predicate WellFormedMembers(ms: seq<Member>)
    decreases ms
  {
    ms == [] || (WellFormedMember(ms[0]) && WellFormedMembers(ms[1..]))
  }

  // ---------------------------------------------------------------- texts inside texts

  /** `s` stands in `js` from `at` on. */
  predicate StandsAt(js: string, at: nat, s: string) {
    at + |s| <= |js| && js[at..at + |s|] == s
  }

  lemma StandsSplit(js: string, at: nat, a: string, b: string)
    ensures StandsAt(js, at, a + b) <==> StandsAt(js, at, a) && StandsAt(js, at + |a|, b)
  {
    if at + |a| + |b| <= |js| {
      assert js[at..at + |a| + |b|] == js[at..at + |a|] + js[at + |a|..at + |a| + |b|];
      if StandsAt(js, at, a + b) {
        assert js[at..at + |a|] == (a + b)[..|a|] == a;
        assert js[at + |a|..at + |a| + |b|] == (a + b)[|a|..] == b;
      }
    }
  }

  lemma StandsChar(js: string, at: nat, s: string, i: nat)
    requires StandsAt(js, at, s) && i < |s|
    ensures js[at + i] == s[i]
  {
    assert js[at..at + |s|][i] == s[i];
  }

  lemma StandsRest(js: string, at: nat, s: string, i: nat)
    requires StandsAt(js, at, s) && i <= |s|
    ensures StandsAt(js, at + i, s[i..])
  {
    assert s == s[..i] + s[i..];
    StandsSplit(js, at, s[..i], s[i..]);
  }
}
