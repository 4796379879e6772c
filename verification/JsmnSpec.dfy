/** The jsmn tokenizer as a step function over parser values.

    A parser value is what the C parser and the filled part of its token array hold together: `toks` is
    `tokens[0..toknext]`. `Step` is one turn of the loop in `jsmn_parse`, for either compile-time way of matching
    brackets, and `Run` is the whole loop. The imperative tokenizer in JsmnTokenizer.dfy is proved equal to it. */
module JsmnSpec {

  datatype Kind = Object | Array | String | Primitive

  datatype Token = Token(kind: Kind, start: int, end: int, size: nat, parent: int)

  /** Compiled with JSMN_PARENT_LINKS or without. Without it there is no `parent` field; it stays -1 here. */
  datatype Build = ParentLinks | BackwardScan

  datatype Parser = Parser(pos: nat, toksuper: int, toks: seq<Token>)

  const NOMEM := -1
  const INVAL := -2
  const PART := -3

  const INIT := Parser(0, -1, [])

  datatype Outcome = Outcome(code: int, parser: Parser)

  datatype Progress = Next(parser: Parser) | Stop(code: int, parser: Parser)

  datatype Scan = Found(at: nat) | Fail(code: int)

  // ---------------------------------------------------------------- characters

  predicate AtEnd(js: string, pos: nat) {
    pos >= |js| || js[pos] == '\0'
  }

  predicate IsSpace(c: char) {
    c == '\t' || c == '\r' || c == '\n' || c == ' '
  }

  predicate IsDelimiter(c: char) {
    IsSpace(c) || c == ':' || c == ',' || c == ']' || c == '}'
  }

  predicate IsPrintable(c: char) {
    32 <= c as int < 127
  }

  predicate IsHex(c: char) {
    '0' <= c <= '9' || 'A' <= c <= 'F' || 'a' <= c <= 'f'
  }

  predicate IsSimpleEscape(c: char) {
    c == '"' || c == '/' || c == '\\' || c == 'b' || c == 'f' || c == 'r' || c == 'n' || c == 't'
  }

  // ---------------------------------------------------------------- lexing one leaf

  /** Where the primitive whose text goes on at `pos` ends: at a delimiter or at the end of the text. */
  function PrimitiveEnd(js: string, pos: nat): (r: Scan)
    ensures r.Found? ==> pos <= r.at && (pos <= |js| ==> r.at <= |js|)
    ensures r.Found? && !AtEnd(js, pos) && !IsDelimiter(js[pos]) ==> pos < r.at
    ensures r.Fail? ==> r.code == INVAL
    decreases |js| - pos
  {
    if AtEnd(js, pos) || IsDelimiter(js[pos]) then Found(pos)
    else if !IsPrintable(js[pos]) then Fail(INVAL)
    else PrimitiveEnd(js, pos + 1)
  }

  /** Where up to `n` hex digits from `pos` on end; fails on another character before the text does. */
  function HexEnd(js: string, pos: nat, n: nat): (r: Scan)
    ensures r.Found? ==> pos <= r.at && (pos <= |js| ==> r.at <= |js|)
    ensures r.Fail? ==> r.code == INVAL
    decreases n
  {
    if n == 0 || AtEnd(js, pos) then Found(pos)
    else if !IsHex(js[pos]) then Fail(INVAL)
    else HexEnd(js, pos + 1, n - 1)
  }

  /** Where the closing quote of the string whose text goes on at `pos` is. */
  function StringEnd(js: string, pos: nat): (r: Scan)
    ensures r.Found? ==> pos <= r.at < |js|
    ensures r.Fail? ==> r.code == INVAL || r.code == PART
    decreases |js| - pos
  {
    if AtEnd(js, pos) then Fail(PART)
    else if js[pos] == '"' then Found(pos)
    else if js[pos] == '\\' && pos + 1 < |js| then
      if IsSimpleEscape(js[pos + 1]) then StringEnd(js, pos + 2)
      else if js[pos + 1] == 'u' then
        var hex := HexEnd(js, pos + 2, 4);
        if hex.Fail? then hex else StringEnd(js, hex.at)
      else Fail(INVAL)
    else StringEnd(js, pos + 1)
  }

  // ---------------------------------------------------------------- the token array

  predicate IsContainer(k: Kind) {
    k == Object || k == Array
  }

  /** A bracket token whose closing bracket has not been seen. */
  predicate Open(t: Token) {
    t.start != -1 && t.end == -1
  }

  /** What a parser value made by `jsmn_init` and `jsmn_parse` satisfies; it makes every token access legal. */
  predicate Valid(p: Parser) {
    && -1 <= p.toksuper < |p.toks|
    && ValidTokens(p.toks)
  }

  predicate ValidTokens(toks: seq<Token>) {
    forall i :: 0 <= i < |toks| ==>
      && 0 <= toks[i].start
      && -1 <= toks[i].parent < i
      && (Open(toks[i]) ==> IsContainer(toks[i].kind))
  }

  /** The highest index below `n` of an open token, or -1. */
  function LastOpen(toks: seq<Token>, n: nat): (k: int)
    requires n <= |toks|
    ensures -1 <= k < n
    ensures k != -1 ==> Open(toks[k])
    ensures forall i :: k < i < n ==> !Open(toks[i])
  {
    if n == 0 then -1
    else if Open(toks[n - 1]) then n - 1
    else LastOpen(toks, n - 1)
  }

  /** Where the parent-link walk from token `i` stops: at an open token or at one without a parent. */
  function WalkStop(toks: seq<Token>, i: nat): (k: nat)
    requires ValidTokens(toks)
    requires i < |toks|
    ensures k <= i
    ensures Open(toks[k]) || toks[k].parent == -1
  {
    if Open(toks[i]) || toks[i].parent == -1 then i else WalkStop(toks, toks[i].parent)
  }

  /** One more child counted in the token `i`, if there is one. */
  function Bump(toks: seq<Token>, i: int): (r: seq<Token>)
    requires -1 <= i < |toks|
    ensures |r| == |toks|
  {
    if i == -1 then toks else toks[i := toks[i].(size := toks[i].size + 1)]
  }

  /** The token `t` is added as the next child of the superior token. */
  function Append(build: Build, p: Parser, t: Token): (r: seq<Token>)
    requires Valid(p) && 0 <= t.start && (Open(t) ==> IsContainer(t.kind))
    ensures |r| == |p.toks| + 1
    ensures ValidTokens(r)
  {
    Bump(p.toks, p.toksuper) + [t.(parent := if build == ParentLinks then p.toksuper else -1)]
  }

  // ---------------------------------------------------------------- one turn of the loop

  function OpenBracket(build: Build, capacity: nat, p: Parser, kind: Kind): (r: Progress)
    requires Valid(p) && IsContainer(kind)
    ensures Valid(r.parser)
    ensures r.Next? ==> r.parser.pos == p.pos + 1
    ensures r.Stop? ==> r.code < 0 && r.parser == p
  {
    if |p.toks| >= capacity then Stop(NOMEM, p)
    else Next(Parser(p.pos + 1, |p.toks|, Append(build, p, Token(kind, p.pos, -1, 0, -1))))
  }

  function Leaf(build: Build, capacity: nat, p: Parser, kind: Kind, start: nat, end: nat, pos: nat): (r: Progress)
    requires Valid(p)
    ensures Valid(r.parser)
    ensures r.Next? ==> r.parser.pos == pos
    ensures r.Stop? ==> r.code < 0 && r.parser == p
  {
    if |p.toks| >= capacity then Stop(NOMEM, p)
    else Next(Parser(pos, p.toksuper, Append(build, p, Token(kind, start, end, 0, -1))))
  }

  function CloseAt(p: Parser, k: nat): (r: seq<Token>)
    requires k < |p.toks|
  {
    p.toks[k := p.toks[k].(end := p.pos + 1)]
  }

  function CloseByLinks(p: Parser, kind: Kind): (r: Progress)
    requires Valid(p)
    ensures Valid(r.parser)
    ensures r.Next? ==> r.parser.pos == p.pos + 1
    ensures r.Stop? ==> r.code < 0 && r.parser == p
  {
    if |p.toks| < 1 then Stop(INVAL, p)
    else
      var k := WalkStop(p.toks, |p.toks| - 1);
      if Open(p.toks[k]) then
        if p.toks[k].kind != kind then Stop(INVAL, p)
        else Next(Parser(p.pos + 1, p.toks[k].parent, CloseAt(p, k)))
      else if p.toks[k].kind != kind || p.toksuper == -1 then Stop(INVAL, p)
      else Next(p.(pos := p.pos + 1))
  }

  function CloseByScan(p: Parser, kind: Kind): (r: Progress)
    requires Valid(p)
    ensures Valid(r.parser)
    ensures r.Next? ==> r.parser.pos == p.pos + 1
    ensures r.Stop? ==> r.code < 0 && r.parser == p
  {
    var k := LastOpen(p.toks, |p.toks|);
    if k == -1 || p.toks[k].kind != kind then Stop(INVAL, p)
    else Next(Parser(p.pos + 1, LastOpen(p.toks, k), CloseAt(p, k)))
  }

  /** After a comma the superior token is the enclosing container again, not the key. */
  function Comma(build: Build, p: Parser): (r: Progress)
    requires Valid(p)
    ensures Valid(r.parser)
    ensures r.Next? ==> r.parser.pos == p.pos + 1
    ensures r.Stop? ==> r.code < 0 && r.parser == p
  {
    if p.toksuper == -1 || IsContainer(p.toks[p.toksuper].kind) then Next(p.(pos := p.pos + 1))
    else if build == ParentLinks then Next(Parser(p.pos + 1, p.toks[p.toksuper].parent, p.toks))
    else
      var k := LastOpen(p.toks, |p.toks|);
      Next(Parser(p.pos + 1, if k == -1 then p.toksuper else k, p.toks))
  }

  function Step(build: Build, capacity: nat, js: string, p: Parser): (r: Progress)
    requires Valid(p)
    requires !AtEnd(js, p.pos)
    ensures Valid(r.parser)
    ensures r.Next? ==> p.pos < r.parser.pos
    ensures r.Stop? ==> r.code < 0 && r.parser == p
  {
    var c := js[p.pos];
    if c == '{' || c == '[' then
      OpenBracket(build, capacity, p, if c == '{' then Object else Array)
    else if c == '}' || c == ']' then
      var kind := if c == '}' then Object else Array;
      if build == ParentLinks then CloseByLinks(p, kind) else CloseByScan(p, kind)
    else if c == '"' then
      var scan := StringEnd(js, p.pos + 1);
      if scan.Fail? then Stop(scan.code, p)
      else Leaf(build, capacity, p, String, p.pos + 1, scan.at, scan.at + 1)
    else if IsSpace(c) then Next(p.(pos := p.pos + 1))
    else if c == ':' then Next(Parser(p.pos + 1, |p.toks| - 1, p.toks))
    else if c == ',' then Comma(build, p)
    else
      var scan := PrimitiveEnd(js, p.pos);
      if scan.Fail? then Stop(scan.code, p)
      else Leaf(build, capacity, p, Primitive, p.pos, scan.at, scan.at)
  }

  /** The whole loop of `jsmn_parse` with an array of `capacity` tokens. */
  function Run(build: Build, capacity: nat, js: string, p: Parser): (r: Outcome)
    requires Valid(p)
    ensures Valid(r.parser)
    decreases |js| - p.pos
  {
    if AtEnd(js, p.pos) then Finish(p)
    else
      var s := Step(build, capacity, js, p);
      if s.Stop? then Outcome(s.code, s.parser) else Run(build, capacity, js, s.parser)
  }

  /** One successful turn does not change where the run leads. */
  lemma RunTurn(build: Build, capacity: nat, js: string, p: Parser, q: Parser)
    requires Valid(p) && !AtEnd(js, p.pos)
    requires Step(build, capacity, js, p) == Next(q)
    ensures Run(build, capacity, js, p) == Run(build, capacity, js, q)
  {
  }

  function Finish(p: Parser): (r: Outcome) {
    Outcome(if LastOpen(p.toks, |p.toks|) != -1 then PART else |p.toks|, p)
  }

  // ---------------------------------------------------------------- without a token array

  /** One turn of the loop when `tokens` is NULL: where it goes on and how many tokens it counted. */
  datatype DryProgress = DryNext(pos: nat, counted: nat) | DryStop(code: int)

  function DryStep(js: string, pos: nat): (r: DryProgress)
    requires !AtEnd(js, pos)
    ensures r.DryNext? ==> pos < r.pos
  {
    var c := js[pos];
    if c == '{' || c == '[' then DryNext(pos + 1, 1)
    else if c == '"' then
      var scan := StringEnd(js, pos + 1);
      if scan.Fail? then DryStop(scan.code) else DryNext(scan.at + 1, 1)
    else if IsDelimiter(c) then DryNext(pos + 1, 0)
    else
      var scan := PrimitiveEnd(js, pos);
      if scan.Fail? then DryStop(scan.code) else DryNext(scan.at, 1)
  }

  datatype DryOutcome = DryOutcome(code: int, pos: nat)

  function DryRun(js: string, pos: nat, count: nat): (r: DryOutcome)
    decreases |js| - pos
  {
    if AtEnd(js, pos) then DryOutcome(count, pos)
    else
      var s := DryStep(js, pos);
      if s.DryStop? then DryOutcome(s.code, pos) else DryRun(js, s.pos, count + s.counted)
  }
}
