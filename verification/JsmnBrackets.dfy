/** The two ways of matching brackets, compared with each other and with a recognizer that keeps a stack. */
module JsmnBrackets {
  import opened JsmnSpec
  import opened JsmnCapacity

  // ---------------------------------------------------------------- parent chains

  /** Token k is token i, or its parent, or its parent's parent, and so on. */
  predicate OnChain(toks: seq<Token>, i: int, k: int)
    requires ValidTokens(toks) && -1 <= i < |toks|
    decreases i + 1
  {
    i != -1 && (i == k || OnChain(toks, toks[i].parent, k))
  }

  /** What the parent-link build keeps: every open token is on the chain of the last token and on the chain of the
      superior token, so that a walk from either cannot miss one. */
  predicate Linked(p: Parser)
    requires Valid(p)
  {
    && (forall k {:trigger OnChain(p.toks, p.toksuper, k)} :: 0 <= k < |p.toks| && Open(p.toks[k]) ==>
          OnChain(p.toks, p.toksuper, k))
    && (forall k {:trigger OnChain(p.toks, |p.toks| - 1, k)} :: 0 <= k < |p.toks| && Open(p.toks[k]) ==>
          OnChain(p.toks, |p.toks| - 1, k))
  }

  lemma {:induction false} ChainGoesDown(toks: seq<Token>, i: int, k: int)
    requires ValidTokens(toks) && -1 <= i < |toks| && OnChain(toks, i, k)
    ensures 0 <= k <= i
    decreases i + 1
  {
    if i != k {
      ChainGoesDown(toks, toks[i].parent, k);
    }
  }

  /** Chains depend on the parent fields only. */
  lemma {:induction false} SameParentsSameChain(a: seq<Token>, b: seq<Token>, i: int, k: int)
    requires ValidTokens(a) && ValidTokens(b) && -1 <= i < |a| && |a| <= |b|
    requires forall j :: 0 <= j < |a| ==> a[j].parent == b[j].parent
    ensures OnChain(a, i, k) == OnChain(b, i, k)
    decreases i + 1
  {
    if i != -1 && i != k {
      SameParentsSameChain(a, b, a[i].parent, k);
    }
  }

  /** Two tokens on one chain: the lower one is on the chain of the other. */
  lemma {:induction false} LowerOnChain(toks: seq<Token>, i: int, k: int, j: int)
    requires ValidTokens(toks) && -1 <= i < |toks|
    requires OnChain(toks, i, k) && OnChain(toks, i, j) && j < k
    ensures 0 <= k < |toks| && OnChain(toks, toks[k].parent, j)
    decreases i + 1
  {
    ChainGoesDown(toks, i, k);
    if i != k {
      LowerOnChain(toks, toks[i].parent, k, j);
    }
  }

  /** The parent walk stops at the highest open token, wherever it starts on a chain through it. */
  lemma {:induction false} WalkFindsLastOpen(toks: seq<Token>, i: nat)
    requires ValidTokens(toks) && i < |toks|
    requires var k := LastOpen(toks, |toks|); k != -1 ==> OnChain(toks, i, k)
    ensures var k := LastOpen(toks, |toks|);
      if k == -1 then !Open(toks[WalkStop(toks, i)]) else WalkStop(toks, i) == k
    decreases i
  {
    var k := LastOpen(toks, |toks|);
    if k != -1 {
      ChainGoesDown(toks, i, k);
    }
    if !Open(toks[i]) && toks[i].parent != -1 {
      WalkFindsLastOpen(toks, toks[i].parent);
    }
  }

  lemma {:induction false} LinkedAppend(p: Parser, t: Token, q: Parser)
    requires Valid(p) && Linked(p) && Valid(q) && 0 <= t.start && (Open(t) ==> IsContainer(t.kind))
    requires q.toks == Append(ParentLinks, p, t)
    requires (q.toksuper == p.toksuper && !Open(t)) || q.toksuper == |p.toks|
    ensures Linked(q)
  {
    var n := |p.toks|;
    forall k | 0 <= k < |q.toks| && Open(q.toks[k])
      ensures OnChain(q.toks, q.toksuper, k) && OnChain(q.toks, n, k)
    {
      if k < n {
        assert Open(p.toks[k]);
        SameParentsSameChain(p.toks, q.toks, p.toksuper, k);
        assert q.toks[n].parent == p.toksuper;
      }
    }
  }

  lemma {:induction false} LinkedClose(p: Parser, kind: Kind)
    requires Valid(p) && Linked(p) && CloseByLinks(p, kind).Next?
    requires Valid(CloseByLinks(p, kind).parser)
    ensures Linked(CloseByLinks(p, kind).parser)
  {
    var q := CloseByLinks(p, kind).parser;
    var last := |p.toks| - 1;
    WalkFindsLastOpen(p.toks, last);
    var k := WalkStop(p.toks, last);
    if Open(p.toks[k]) {
      forall j | 0 <= j < |q.toks| && Open(q.toks[j])
        ensures OnChain(q.toks, q.toksuper, j) && OnChain(q.toks, last, j)
      {
        assert Open(p.toks[j]) && j < k;
        LowerOnChain(p.toks, last, k, j);
        SameParentsSameChain(p.toks, q.toks, last, j);
        SameParentsSameChain(p.toks, q.toks, p.toks[k].parent, j);
      }
    }
  }

  lemma {:induction false} LinkedComma(p: Parser)
    requires Valid(p) && Linked(p)
    requires Valid(Comma(ParentLinks, p).parser)
    ensures Linked(Comma(ParentLinks, p).parser)
  {
    var q := Comma(ParentLinks, p).parser;
    forall k | 0 <= k < |q.toks| && Open(q.toks[k])
      ensures OnChain(q.toks, q.toksuper, k) && OnChain(q.toks, |q.toks| - 1, k)
    {
      assert OnChain(p.toks, p.toksuper, k) && OnChain(p.toks, |p.toks| - 1, k);
    }
  }

  /** A turn that makes no token and changes none, with what was superior still so, or the last token. */
  lemma LinkedSkip(p: Parser, q: Parser)
    requires Valid(p) && Linked(p) && q.toks == p.toks && (q.toksuper == p.toksuper || q.toksuper == |p.toks| - 1)
    ensures Valid(q) && Linked(q)
  {
    var n := |p.toks| - 1;
    forall k | 0 <= k < |q.toks| && Open(q.toks[k])
      ensures OnChain(q.toks, q.toksuper, k) && OnChain(q.toks, n, k)
    {
      assert OnChain(p.toks, p.toksuper, k) && OnChain(p.toks, |p.toks| - 1, k);
    }
    assert |q.toks| - 1 == n;
  }

  /** Every turn of the parent-link build keeps the chains complete. */
  lemma {:induction false} LinkedStep(capacity: nat, js: string, p: Parser)
    requires Valid(p) && Linked(p) && !AtEnd(js, p.pos)
    ensures Linked(Step(ParentLinks, capacity, js, p).parser)
  {
    var s := Step(ParentLinks, capacity, js, p);
    var c := js[p.pos];
    if s.Next? {
      if c == '{' || c == '[' {
        LinkedAppend(p, Token(if c == '{' then Object else Array, p.pos, -1, 0, -1), s.parser);
      } else if c == '}' || c == ']' {
        LinkedClose(p, if c == '}' then Object else Array);
      } else if c == ',' {
        LinkedComma(p);
      } else if c == '"' {
        LinkedAppend(p, Token(String, p.pos + 1, StringEnd(js, p.pos + 1).at, 0, -1), s.parser);
      } else if !IsDelimiter(c) {
        LinkedAppend(p, Token(Primitive, p.pos, PrimitiveEnd(js, p.pos).at, 0, -1), s.parser);
      } else {
        LinkedSkip(p, s.parser);
      }
    }
  }

  // ---------------------------------------------------------------- one build against the other

  /** The same tokens but for their sizes and parents. */
  predicate SameSpans(a: seq<Token>, b: seq<Token>) {
    && |a| == |b|
    && forall i :: 0 <= i < |a| ==> a[i].kind == b[i].kind && a[i].start == b[i].start && a[i].end == b[i].end
  }

  predicate Alike(p: Parser, q: Parser) {
    p.pos == q.pos && SameSpans(p.toks, q.toks)
  }

  lemma {:induction false} SameSpansSameOpen(a: seq<Token>, b: seq<Token>, n: nat)
    requires SameSpans(a, b) && n <= |a|
    ensures LastOpen(a, n) == LastOpen(b, n)
  {
    if n > 0 {
      SameSpansSameOpen(a, b, n - 1);
    }
  }

  predicate IsClosing(c: char) {
    c == '}' || c == ']'
  }

  /** A closing bracket where none is open. */
  predicate Stray(js: string, p: Parser)
    requires !AtEnd(js, p.pos)
  {
    IsClosing(js[p.pos]) && LastOpen(p.toks, |p.toks|) == -1
  }

  lemma {:induction false} AppendAlike(p: Parser, q: Parser, t: Token)
    requires Valid(p) && Valid(q) && Alike(p, q) && 0 <= t.start && (Open(t) ==> IsContainer(t.kind))
    ensures SameSpans(Append(BackwardScan, p, t), Append(ParentLinks, q, t))
  {
  }

  lemma {:induction false} CloseAlike(p: Parser, q: Parser, kind: Kind)
    requires Valid(p) && Valid(q) && Linked(q) && Alike(p, q)
    ensures var s, l := CloseByScan(p, kind), CloseByLinks(q, kind);
      if LastOpen(p.toks, |p.toks|) == -1 then s == Stop(INVAL, p)
      else s.Next? == l.Next? && Alike(s.parser, l.parser) && (s.Stop? ==> s.code == l.code)
  {
    SameSpansSameOpen(p.toks, q.toks, |p.toks|);
    if LastOpen(p.toks, |p.toks|) != -1 {
      WalkFindsLastOpen(q.toks, |q.toks| - 1);
    }
  }

  /** The two builds take the same turn on alike parsers, but for a stray closing bracket. */
  lemma {:induction false} StepAlike(capacity: nat, js: string, p: Parser, q: Parser)
    requires Valid(p) && Valid(q) && Linked(q) && Alike(p, q) && !AtEnd(js, p.pos)
    ensures var s, l := Step(BackwardScan, capacity, js, p), Step(ParentLinks, capacity, js, q);
      Alike(s.parser, l.parser) || Stray(js, p)
    ensures var s, l := Step(BackwardScan, capacity, js, p), Step(ParentLinks, capacity, js, q);
      if Stray(js, p) then s == Stop(INVAL, p)
      else s.Next? == l.Next? && (s.Stop? ==> s.code == l.code)
  {
    var c := js[p.pos];
    if IsClosing(c) {
      CloseAlike(p, q, if c == '}' then Object else Array);
    } else if c == '{' || c == '[' {
      AppendAlike(p, q, Token(if c == '{' then Object else Array, p.pos, -1, 0, -1));
    } else if c == '"' {
      var scan := StringEnd(js, p.pos + 1);
      if scan.Found? {
        AppendAlike(p, q, Token(String, p.pos + 1, scan.at, 0, -1));
      }
    } else if !IsDelimiter(c) {
      var scan := PrimitiveEnd(js, p.pos);
      if scan.Found? {
        AppendAlike(p, q, Token(Primitive, p.pos, scan.at, 0, -1));
      }
    }
  }

  /** What the backward-scan build accepts, the parent-link build accepts with the same tokens, but for sizes and
      parents. */
  lemma {:induction false} LinksRefineScan(capacity: nat, js: string, p: Parser, q: Parser)
    requires Valid(p) && Valid(q) && Linked(q) && Alike(p, q)
    requires Run(BackwardScan, capacity, js, p).code >= 0
    ensures var s, l := Run(BackwardScan, capacity, js, p), Run(ParentLinks, capacity, js, q);
      l.code == s.code && Alike(s.parser, l.parser)
    decreases |js| - p.pos
  {
    if AtEnd(js, p.pos) {
      SameSpansSameOpen(p.toks, q.toks, |p.toks|);
    } else {
      StepAlike(capacity, js, p, q);
      LinkedStep(capacity, js, q);
      LinksRefineScan(capacity, js, Step(BackwardScan, capacity, js, p).parser,
                      Step(ParentLinks, capacity, js, q).parser);
    }
  }

  // ---------------------------------------------------------------- a recognizer with a stack

  /** The text from `pos` on consists of whole strings, primitives and separators, and its brackets close in kind
      and in order what `stack` holds open, and what they open themselves. */
  predicate Balanced(js: string, pos: nat, stack: seq<Kind>)
    decreases |js| - pos
  {
    if AtEnd(js, pos) then stack == []
    else
      var d := DryStep(js, pos);
      d.DryNext? &&
      var c := js[pos];
      if c == '{' then Balanced(js, d.pos, stack + [Object])
      else if c == '[' then Balanced(js, d.pos, stack + [Array])
      else if IsClosing(c) then
        && stack != []
        && stack[|stack| - 1] == (if c == '}' then Object else Array)
        && Balanced(js, d.pos, stack[..|stack| - 1])
      else Balanced(js, d.pos, stack)
  }

  /** No closing bracket outside strings comes before its opening bracket, whatever their kinds. */
  predicate NeverUnderflows(js: string, pos: nat, depth: nat)
    decreases |js| - pos
  {
    AtEnd(js, pos) ||
    var d := DryStep(js, pos);
    d.DryStop? ||
    var c := js[pos];
    if c == '{' || c == '[' then NeverUnderflows(js, d.pos, depth + 1)
    else if IsClosing(c) then depth > 0 && NeverUnderflows(js, d.pos, depth - 1)
    else NeverUnderflows(js, d.pos, depth)
  }

  /** The kinds of the open ones among the first n tokens: the stack that the token array stands for. */
  function OpenKinds(toks: seq<Token>, n: nat): (r: seq<Kind>)
    requires n <= |toks|
  {
    if n == 0 then [] else OpenKinds(toks, n - 1) + if Open(toks[n - 1]) then [toks[n - 1].kind] else []
  }

  ghost function Stack(p: Parser): seq<Kind> {
    OpenKinds(p.toks, |p.toks|)
  }

  lemma {:induction false} OpenKindsSame(a: seq<Token>, b: seq<Token>, n: nat)
    requires n <= |a| && n <= |b|
    requires forall i :: 0 <= i < n ==> Open(a[i]) == Open(b[i]) && a[i].kind == b[i].kind
    ensures OpenKinds(a, n) == OpenKinds(b, n)
  {
    if n > 0 {
      OpenKindsSame(a, b, n - 1);
    }
  }

  /** The highest open token is the top of the stack. */
  lemma {:induction false} LastOpenIsTop(toks: seq<Token>, n: nat)
    requires n <= |toks|
    ensures var k := LastOpen(toks, n);
      OpenKinds(toks, n) == if k == -1 then [] else OpenKinds(toks, k) + [toks[k].kind]
  {
    if n > 0 && !Open(toks[n - 1]) {
      LastOpenIsTop(toks, n - 1);
    }
  }

  lemma {:induction false} CloseAtPops(p: Parser)
    requires LastOpen(p.toks, |p.toks|) != -1
    ensures var k := LastOpen(p.toks, |p.toks|);
      OpenKinds(CloseAt(p, k), |p.toks|) == OpenKinds(p.toks, k)
  {
    var k := LastOpen(p.toks, |p.toks|);
    var closed := CloseAt(p, k);
    OpenKindsSame(p.toks, closed, k);
    NoneOpenAbove(closed, k, |p.toks|);
  }

  lemma {:induction false} NoneOpenAbove(toks: seq<Token>, k: nat, n: nat)
    requires k <= n <= |toks|
    requires forall i :: k <= i < n ==> !Open(toks[i])
    ensures OpenKinds(toks, n) == OpenKinds(toks, k)
  {
    if k < n {
      NoneOpenAbove(toks, k, n - 1);
    }
  }

  lemma {:induction false} AppendPushes(build: Build, p: Parser, t: Token)
    requires Valid(p) && 0 <= t.start && (Open(t) ==> IsContainer(t.kind))
    ensures var toks := Append(build, p, t);
      OpenKinds(toks, |toks|) == Stack(p) + if Open(t) then [t.kind] else []
  {
    var toks := Append(build, p, t);
    OpenKindsSame(p.toks, toks, |p.toks|);
  }

  /** What one successful turn of the backward-scan build does to the stack. */
  lemma {:induction false} StepOnStack(capacity: nat, js: string, p: Parser)
    requires Valid(p) && !AtEnd(js, p.pos)
    requires Step(BackwardScan, capacity, js, p).Next?
    ensures var c, next := js[p.pos], Stack(Step(BackwardScan, capacity, js, p).parser);
      if c == '{' then next == Stack(p) + [Object]
      else if c == '[' then next == Stack(p) + [Array]
      else if IsClosing(c) then Stack(p) == next + [if c == '}' then Object else Array]
      else next == Stack(p)
  {
    var c := js[p.pos];
    if c == '{' || c == '[' {
      AppendPushes(BackwardScan, p, Token(if c == '{' then Object else Array, p.pos, -1, 0, -1));
    } else if IsClosing(c) {
      LastOpenIsTop(p.toks, |p.toks|);
      CloseAtPops(p);
    } else if c == '"' {
      AppendPushes(BackwardScan, p, Token(String, p.pos + 1, StringEnd(js, p.pos + 1).at, 0, -1));
    } else if !IsDelimiter(c) {
      AppendPushes(BackwardScan, p, Token(Primitive, p.pos, PrimitiveEnd(js, p.pos).at, 0, -1));
    }
  }

  /** The backward-scan build stops exactly for want of room, at a lexical error, or at a bracket that does not match
      the top of the stack. */
  lemma {:induction false} StepStops(capacity: nat, js: string, p: Parser)
    requires Valid(p) && !AtEnd(js, p.pos)
    ensures var c, d := js[p.pos], DryStep(js, p.pos);
      Step(BackwardScan, capacity, js, p).Next? <==>
        && d.DryNext?
        && (d.counted == 0 || |p.toks| < capacity)
        && (IsClosing(c) ==>
              Stack(p) != [] && Stack(p)[|Stack(p)| - 1] == if c == '}' then Object else Array)
  {
    LastOpenIsTop(p.toks, |p.toks|);
  }

  lemma {:induction false} DryRunCountsUp(js: string, pos: nat, count: nat)
    ensures DryRun(js, pos, count).code >= 0 ==> DryRun(js, pos, count).code >= count
    decreases |js| - pos
  {
    if !AtEnd(js, pos) && DryStep(js, pos).DryNext? {
      DryRunCountsUp(js, DryStep(js, pos).pos, count + DryStep(js, pos).counted);
    }
  }

  lemma {:induction false} ScanRunIsBalanced(capacity: nat, js: string, p: Parser)
    requires Valid(p) && |p.toks| <= capacity
    ensures Run(BackwardScan, capacity, js, p).code >= 0 <==>
      Balanced(js, p.pos, Stack(p)) && 0 <= DryRun(js, p.pos, |p.toks|).code <= capacity
    decreases |js| - p.pos
  {
    if AtEnd(js, p.pos) {
      LastOpenIsTop(p.toks, |p.toks|);
    } else {
      StepStops(capacity, js, p);
      StepIsDryStep(BackwardScan, capacity, js, p);
      var d := DryStep(js, p.pos);
      var s := Step(BackwardScan, capacity, js, p);
      if s.Next? {
        StepOnStack(capacity, js, p);
        ScanRunIsBalanced(capacity, js, s.parser);
        if IsClosing(js[p.pos]) {
          assert Stack(p)[..|Stack(p)| - 1] == Stack(s.parser);
        }
      } else if d.DryNext? {
        DryRunCountsUp(js, d.pos, |p.toks| + d.counted);
      }
    }
  }

  /** The backward-scan build accepts exactly the texts whose brackets match, as a stack would match them, when there
      is a token for each bracket pair, string and primitive. */
  lemma {:induction false} ScanAcceptsBalanced(capacity: nat, js: string)
    ensures Run(BackwardScan, capacity, js, INIT).code >= 0 <==>
      Balanced(js, 0, []) && 0 <= DryRun(js, 0, 0).code <= capacity
  {
    ScanRunIsBalanced(capacity, js, INIT);
  }

  // ---------------------------------------------------------------- when the builds agree

  /** Where no bracket is stray, the builds either both stop, alike, or both go on from alike parsers. */
  lemma AgreeingTurn(capacity: nat, js: string, p: Parser, q: Parser)
    requires Valid(p) && Valid(q) && Linked(q) && Alike(p, q) && !AtEnd(js, p.pos)
    requires NeverUnderflows(js, p.pos, |Stack(p)|)
    ensures var s, l := Step(BackwardScan, capacity, js, p), Step(ParentLinks, capacity, js, q);
      && s.Next? == l.Next? && Alike(s.parser, l.parser)
      && (s.Stop? ==> s.code == l.code)
      && (s.Next? ==> Linked(l.parser) && NeverUnderflows(js, s.parser.pos, |Stack(s.parser)|))
  {
    LastOpenIsTop(p.toks, |p.toks|);
    StepIsDryStep(BackwardScan, capacity, js, p);
    StepAlike(capacity, js, p, q);
    LinkedStep(capacity, js, q);
    if Step(BackwardScan, capacity, js, p).Next? {
      StepOnStack(capacity, js, p);
    }
  }

  lemma {:induction false} BuildsAgreeFrom(capacity: nat, js: string, p: Parser, q: Parser)
    requires Valid(p) && Valid(q) && Linked(q) && Alike(p, q)
    requires NeverUnderflows(js, p.pos, |Stack(p)|)
    ensures var s, l := Run(BackwardScan, capacity, js, p), Run(ParentLinks, capacity, js, q);
      s.code == l.code && Alike(s.parser, l.parser)
    decreases |js| - p.pos
  {
    if AtEnd(js, p.pos) {
      SameSpansSameOpen(p.toks, q.toks, |p.toks|);
    } else {
      AgreeingTurn(capacity, js, p, q);
      var s, l := Step(BackwardScan, capacity, js, p), Step(ParentLinks, capacity, js, q);
      if s.Next? {
        BuildsAgreeFrom(capacity, js, s.parser, l.parser);
      }
    }
  }

  lemma {:induction false} BalancedNeverUnderflows(js: string, pos: nat, stack: seq<Kind>)
    requires Balanced(js, pos, stack)
    ensures NeverUnderflows(js, pos, |stack|)
    decreases |js| - pos
  {
    if !AtEnd(js, pos) {
      var c, next := js[pos], DryStep(js, pos).pos;
      if c == '{' || c == '[' {
        BalancedNeverUnderflows(js, next, stack + [if c == '{' then Object else Array]);
      } else if IsClosing(c) {
        BalancedNeverUnderflows(js, next, stack[..|stack| - 1]);
      } else {
        BalancedNeverUnderflows(js, next, stack);
      }
    }
  }

  /** The builds give the same code and the same token spans on every text without a stray closing bracket, and the
      parent-link build accepts more than the backward-scan build only on texts that have one. */
  lemma {:induction false} BuildsAgree(capacity: nat, js: string)
    ensures var s, l := Run(BackwardScan, capacity, js, INIT), Run(ParentLinks, capacity, js, INIT);
      && (NeverUnderflows(js, 0, 0) ==> s.code == l.code && Alike(s.parser, l.parser))
      && (s.code >= 0 <==> l.code >= 0 && NeverUnderflows(js, 0, 0))
  {
    if NeverUnderflows(js, 0, 0) {
      BuildsAgreeFrom(capacity, js, INIT, INIT);
    }
    ScanAcceptsBalanced(capacity, js);
    if Balanced(js, 0, []) {
      BalancedNeverUnderflows(js, 0, []);
    }
  }

  /** A single open object is closed by both builds, and none is superior afterwards. */
  lemma {:induction false} CloseOnly(build: Build, js: string, p: Parser, q: Parser)
    requires |js| == 4 && js[1] == '}'
    requires p == Parser(1, 0, [Token(Object, 0, -1, 0, -1)])
    requires q == Parser(2, -1, [Token(Object, 0, 2, 0, -1)])
    ensures Step(build, 1, js, p) == Next(q)
  {
    assert CloseAt(p, 0) == q.toks;
    if build == ParentLinks {
      assert WalkStop(p.toks, 0) == 0;
      assert CloseByLinks(p, Object) == Next(q);
    } else {
      assert LastOpen(p.toks, 1) == 0;
      assert CloseByScan(p, Object) == Next(q);
    }
  }

  lemma {:induction false} OpenFirst(build: Build, js: string)
    requires |js| == 4 && js[0] == '{'
    ensures Step(build, 1, js, INIT) == Next(Parser(1, 0, [Token(Object, 0, -1, 0, -1)]))
  {
    assert OpenBracket(build, 1, INIT, Object) == Next(Parser(1, 0, [Token(Object, 0, -1, 0, -1)]));
  }

  lemma {:induction false} StrayEnd(js: string, p: Parser)
    requires js == "{}:}" && p == Parser(3, 0, [Token(Object, 0, 2, 0, -1)])
    ensures Run(ParentLinks, 1, js, p).code == 1
    ensures Run(BackwardScan, 1, js, p).code == INVAL
  {
    assert Step(BackwardScan, 1, js, p) == Stop(INVAL, p);
    assert Step(ParentLinks, 1, js, p) == Next(p.(pos := 4));
  }

  /** The builds do differ: `{}:}` has a stray bracket that only the parent-link build lets pass. */
  lemma {:induction false} BuildsDiffer(js: string)
    requires js == "{}:}"
    ensures Run(ParentLinks, 1, js, INIT).code == 1
    ensures Run(BackwardScan, 1, js, INIT).code == INVAL
  {
    var closed := [Token(Object, 0, 2, 0, -1)];
    var p1, p2, p3 := Parser(1, 0, [Token(Object, 0, -1, 0, -1)]), Parser(2, -1, closed), Parser(3, 0, closed);
    forall build: Build
      ensures Run(build, 1, js, INIT) == Run(build, 1, js, p3)
    {
      OpenFirst(build, js);
      CloseOnly(build, js, p1, p2);
      RunTurn(build, 1, js, INIT, p1);
      RunTurn(build, 1, js, p1, p2);
      RunTurn(build, 1, js, p2, p3);
    }
    StrayEnd(js, p3);
  }
}
