/** How the token spans of a run lie: in the text, in order, nested or disjoint. */
module JsmnSpans {
  import opened JsmnSpec
  import opened JsmnBrackets

  /** Each span lies in the text read so far; starts strictly increase; a closed span ends before a later token starts
      or closes around it. */
  predicate Laminar(js: string, p: Parser) {
    && p.pos <= |js|
    && (forall i :: 0 <= i < |p.toks| ==> InText(p.toks[i], p.pos))
    && (forall i, j :: 0 <= i < j < |p.toks| ==> p.toks[i].start < p.toks[j].start)
    && (forall i, j :: 0 <= i < j < |p.toks| ==> BeforeOrAround(p.toks[i], p.toks[j]))
  }

  predicate InText(t: Token, pos: nat) {
    0 <= t.start < pos && (!Open(t) ==> t.start <= t.end <= pos)
  }

  predicate BeforeOrAround(a: Token, b: Token) {
    !Open(a) ==> a.end <= b.start || (!Open(b) && b.end <= a.end)
  }

  lemma {:induction false} LaminarAppend(build: Build, js: string, p: Parser, t: Token, q: Parser)
    requires Valid(p) && Laminar(js, p)
    requires 0 <= t.start && (Open(t) ==> IsContainer(t.kind))
    requires p.pos <= t.start && InText(t, q.pos) && p.pos <= q.pos <= |js|
    requires q.toks == Append(build, p, t)
    ensures Laminar(js, q)
  {
    var n := |p.toks|;
    forall i | 0 <= i < n
      ensures q.toks[i] == p.toks[i].(size := q.toks[i].size)
    {
    }
    assert q.toks[n].start == t.start && q.toks[n].end == t.end;
  }

  lemma {:induction false} LaminarClose(js: string, p: Parser, k: nat, q: Parser)
    requires Laminar(js, p) && p.pos < |js| && k < |p.toks| && Open(p.toks[k])
    requires k == LastOpen(p.toks, |p.toks|)
    requires q.pos == p.pos + 1 && q.toks == CloseAt(p, k)
    ensures Laminar(js, q)
  {
    forall i, j | 0 <= i < j < |q.toks|
      ensures BeforeOrAround(q.toks[i], q.toks[j])
    {
      assert BeforeOrAround(p.toks[i], p.toks[j]);
    }
  }

  lemma {:induction false} LaminarScanned(js: string, p: Parser, kind: Kind)
    requires Valid(p) && p.pos < |js| && Laminar(js, p) && CloseByScan(p, kind).Next?
    ensures Laminar(js, CloseByScan(p, kind).parser)
  {
    LaminarClose(js, p, LastOpen(p.toks, |p.toks|), CloseByScan(p, kind).parser);
  }

  lemma {:induction false} LaminarLinked(js: string, p: Parser, kind: Kind)
    requires Valid(p) && p.pos < |js| && Laminar(js, p) && Linked(p) && CloseByLinks(p, kind).Next?
    ensures Laminar(js, CloseByLinks(p, kind).parser)
  {
    var k, q := LastOpen(p.toks, |p.toks|), CloseByLinks(p, kind).parser;
    WalkFindsLastOpen(p.toks, |p.toks| - 1);
    if k == -1 {
      LaminarSkip(js, p, q);
    } else {
      LaminarClose(js, p, k, q);
    }
  }

  /** Moving on over one character that makes no token. */
  lemma {:induction false} LaminarSkip(js: string, p: Parser, q: Parser)
    requires Laminar(js, p) && p.pos <= q.pos <= |js| && q.toks == p.toks
    ensures Laminar(js, q)
  {
    forall i | 0 <= i < |q.toks|
      ensures InText(q.toks[i], q.pos)
    {
      assert InText(p.toks[i], p.pos);
    }
  }

  /** A turn that makes a token. */
  lemma {:induction false} LaminarToken(build: Build, capacity: nat, js: string, p: Parser)
    requires Valid(p) && !AtEnd(js, p.pos) && Laminar(js, p)
    requires js[p.pos] == '"' || js[p.pos] == '{' || js[p.pos] == '[' || !IsDelimiter(js[p.pos])
    requires Step(build, capacity, js, p).Next?
    ensures Laminar(js, Step(build, capacity, js, p).parser)
  {
    var q := Step(build, capacity, js, p).parser;
    var c := js[p.pos];
    if c == '{' || c == '[' {
      LaminarAppend(build, js, p, Token(if c == '{' then Object else Array, p.pos, -1, 0, -1), q);
    } else if c == '"' {
      LaminarAppend(build, js, p, Token(String, p.pos + 1, StringEnd(js, p.pos + 1).at, 0, -1), q);
    } else {
      LaminarAppend(build, js, p, Token(Primitive, p.pos, PrimitiveEnd(js, p.pos).at, 0, -1), q);
    }
  }

  lemma {:induction false} LaminarStep(build: Build, capacity: nat, js: string, p: Parser)
    requires Valid(p) && !AtEnd(js, p.pos) && Laminar(js, p)
    requires build == ParentLinks ==> Linked(p)
    ensures Laminar(js, Step(build, capacity, js, p).parser)
  {
    var s := Step(build, capacity, js, p);
    var c := js[p.pos];
    if s.Next? {
      if !IsClosing(c) && (c == '"' || c == '{' || c == '[' || !IsDelimiter(c)) {
        LaminarToken(build, capacity, js, p);
      } else if !IsClosing(c) {
        LaminarSkip(js, p, s.parser);
      } else if build == ParentLinks {
        LaminarLinked(js, p, if c == '}' then Object else Array);
      } else {
        LaminarScanned(js, p, if c == '}' then Object else Array);
      }
    }
  }

  lemma {:induction false} RunIsLaminar(build: Build, capacity: nat, js: string, p: Parser)
    requires Valid(p) && Laminar(js, p)
    requires build == ParentLinks ==> Linked(p)
    ensures Laminar(js, Run(build, capacity, js, p).parser)
    decreases |js| - p.pos
  {
    if !AtEnd(js, p.pos) {
      LaminarStep(build, capacity, js, p);
      var s := Step(build, capacity, js, p);
      if s.Next? {
        if build == ParentLinks {
          LinkedStep(capacity, js, p);
        }
        RunIsLaminar(build, capacity, js, s.parser);
      }
    }
  }

  predicate Inside(a: Token, b: Token) {
    b.start <= a.start && a.end <= b.end
  }

  predicate Disjoint(a: Token, b: Token) {
    a.end <= b.start
  }

  /** Of every accepted text, in both builds: starts increase strictly, spans lie in the text, any two spans are
      nested or disjoint, and a parent comes before its child. */
  lemma {:induction false} AcceptedSpans(build: Build, capacity: nat, js: string)
    requires Run(build, capacity, js, INIT).code >= 0
    ensures var toks := Run(build, capacity, js, INIT).parser.toks;
      && (forall i :: 0 <= i < |toks| ==> 0 <= toks[i].start <= toks[i].end <= |js| && toks[i].parent < i)
      && (forall i, j :: 0 <= i < j < |toks| ==> toks[i].start < toks[j].start)
      && (forall i, j :: 0 <= i < j < |toks| ==> Disjoint(toks[i], toks[j]) || Inside(toks[j], toks[i]))
  {
    RunIsLaminar(build, capacity, js, INIT);
    var toks := Run(build, capacity, js, INIT).parser.toks;
    AcceptedIsClosed(build, capacity, js, INIT);
    forall i, j | 0 <= i < j < |toks|
      ensures Disjoint(toks[i], toks[j]) || Inside(toks[j], toks[i])
    {
      assert BeforeOrAround(toks[i], toks[j]);
    }
  }

  lemma {:induction false} AcceptedIsClosed(build: Build, capacity: nat, js: string, p: Parser)
    requires Valid(p) && Run(build, capacity, js, p).code >= 0
    ensures var toks := Run(build, capacity, js, p).parser.toks;
      forall i :: 0 <= i < |toks| ==> !Open(toks[i])
    decreases |js| - p.pos
  {
    if !AtEnd(js, p.pos) {
      AcceptedIsClosed(build, capacity, js, Step(build, capacity, js, p).parser);
    }
  }

  // ---------------------------------------------------------------- child counts

  /** How many of the first n tokens have token k as their parent. */
  function Children(toks: seq<Token>, n: nat, k: nat): nat
    requires n <= |toks|
  {
    if n == 0 then 0 else Children(toks, n - 1, k) + if toks[n - 1].parent == k then 1 else 0
  }

  predicate SizesCount(toks: seq<Token>) {
    forall k :: 0 <= k < |toks| ==> toks[k].size == Children(toks, |toks|, k)
  }

  lemma {:induction false} SameParentsSameChildren(a: seq<Token>, b: seq<Token>, n: nat, k: nat)
    requires n <= |a| && n <= |b| && forall i :: 0 <= i < n ==> a[i].parent == b[i].parent
    ensures Children(a, n, k) == Children(b, n, k)
  {
    if n > 0 {
      SameParentsSameChildren(a, b, n - 1, k);
    }
  }

  /** Parents come first, so a token that is the last has no children. */
  lemma {:induction false} NoChildren(toks: seq<Token>, n: nat, k: nat)
    requires ValidTokens(toks) && n <= |toks| && n <= k + 1
    ensures Children(toks, n, k) == 0
  {
    if n > 0 {
      NoChildren(toks, n - 1, k);
    }
  }

  lemma AppendCounts(p: Parser, t: Token)
    requires Valid(p) && SizesCount(p.toks) && 0 <= t.start && (Open(t) ==> IsContainer(t.kind)) && t.size == 0
    ensures SizesCount(Append(ParentLinks, p, t))
  {
    var r, n := Append(ParentLinks, p, t), |p.toks|;
    forall k | 0 <= k < |r|
      ensures r[k].size == Children(r, |r|, k)
    {
      SameParentsSameChildren(p.toks, r, n, k);
      if k == n {
        NoChildren(r, n, k);
      }
    }
  }

  lemma CloseCounts(p: Parser, k: nat)
    requires k < |p.toks| && SizesCount(p.toks)
    ensures SizesCount(CloseAt(p, k))
  {
    forall i | 0 <= i < |p.toks|
      ensures CloseAt(p, k)[i].size == Children(CloseAt(p, k), |p.toks|, i)
    {
      SameParentsSameChildren(p.toks, CloseAt(p, k), |p.toks|, i);
    }
  }

  lemma {:induction false} StepCounts(capacity: nat, js: string, p: Parser)
    requires Valid(p) && !AtEnd(js, p.pos) && SizesCount(p.toks)
    ensures SizesCount(Step(ParentLinks, capacity, js, p).parser.toks)
  {
    var c := js[p.pos];
    if c == '{' || c == '[' {
      AppendCounts(p, Token(if c == '{' then Object else Array, p.pos, -1, 0, -1));
    } else if c == '"' && StringEnd(js, p.pos + 1).Found? {
      AppendCounts(p, Token(String, p.pos + 1, StringEnd(js, p.pos + 1).at, 0, -1));
    } else if IsClosing(c) && |p.toks| > 0 {
      CloseCounts(p, WalkStop(p.toks, |p.toks| - 1));
    } else if c != '"' && !IsDelimiter(c) && PrimitiveEnd(js, p.pos).Found? {
      AppendCounts(p, Token(Primitive, p.pos, PrimitiveEnd(js, p.pos).at, 0, -1));
    }
  }

  /** In every run with parent links the size of a token is the number of tokens that have it as their parent. */
  lemma {:induction false} RunCounts(capacity: nat, js: string, p: Parser)
    requires Valid(p) && SizesCount(p.toks)
    ensures SizesCount(Run(ParentLinks, capacity, js, p).parser.toks)
    decreases |js| - p.pos
  {
    if !AtEnd(js, p.pos) {
      StepCounts(capacity, js, p);
      if Step(ParentLinks, capacity, js, p).Next? {
        RunCounts(capacity, js, Step(ParentLinks, capacity, js, p).parser);
      }
    }
  }
}
