/** The jsmn tokenizer as it is written: cursor fields updated in place, a token array filled and later patched. */
module JsmnTokenizer {
  import opened JsmnSpec

  class Tokenizer {
    const build: Build
    var pos: nat
    var toknext: nat
    var toksuper: int

    /** The parser value that the cursor and the filled tokens stand for. */
    ghost function Abs(tokens: array<Token>): (p: Parser)
      requires toknext <= tokens.Length
      reads this, tokens
    {
      Parser(pos, toksuper, tokens[..toknext])
    }

    ghost predicate Ready(tokens: array<Token>)
      reads this, tokens
    {
      toknext <= tokens.Length && Valid(Abs(tokens))
    }

    /** `jsmn_init`. */
    constructor (build: Build)
      ensures this.build == build
      ensures pos == 0 && toknext == 0 && toksuper == -1
    {
      this.build := build;
      pos, toknext, toksuper := 0, 0, -1;
    }

    /** Takes the next free token; -1 when there is none. The kind is left as it was, for the caller to fill. */
    method AllocToken(tokens: array<Token>) returns (i: int)
      modifies this`toknext, tokens
      ensures old(toknext) >= tokens.Length ==> i == -1 && toknext == old(toknext) && tokens[..] == old(tokens[..])
      ensures old(toknext) < tokens.Length ==>
        && i == old(toknext)
        && toknext == old(toknext) + 1
        && tokens[..] == old(tokens[..])[i := Token(tokens[i].kind, -1, -1, 0, -1)]
    {
      if toknext >= tokens.Length {
        return -1;
      }
      i := toknext;
      toknext := toknext + 1;
      tokens[i] := tokens[i].(start := -1, end := -1, size := 0);
      tokens[i] := tokens[i].(parent := -1);
    }

    /** Appends a filled leaf token under the superior token, or reports that there is no room. */
    method AddLeaf(tokens: array<Token>, kind: Kind, start: nat, end: nat) returns (ok: bool)
      requires Ready(tokens)
      modifies this`toknext, tokens
      ensures ok <==> old(toknext) < tokens.Length
      ensures !ok ==> toknext == old(toknext) && tokens[..] == old(tokens[..])
      ensures ok ==>
        && toknext == old(toknext) + 1
        && tokens[..] == old(tokens[..])[old(toknext) :=
             Token(kind, start, end, 0, if build == ParentLinks then toksuper else -1)]
    {
      var i := AllocToken(tokens);
      if i == -1 {
        return false;
      }
      tokens[i] := tokens[i].(kind := kind, start := start, end := end, size := 0);
      if build == ParentLinks {
        tokens[i] := tokens[i].(parent := toksuper);
      }
      ok := true;
    }

    /** `jsmn_parse_primitive`; it leaves the cursor on the last character of the primitive. */
    method ParsePrimitive(js: string, tokens: array?<Token>) returns (r: int)
      requires !AtEnd(js, pos) && !IsDelimiter(js[pos])
      requires tokens != null ==> Ready(tokens)
      modifies this`pos, this`toknext, tokens
      ensures var scan := PrimitiveEnd(js, old(pos));
        if scan.Fail? then r == scan.code && pos == old(pos) && toknext == old(toknext)
        else if tokens != null && old(toknext) >= tokens.Length then
          r == NOMEM && pos == old(pos) && toknext == old(toknext)
        else
          r == 0 && pos == scan.at - 1 && toknext == old(toknext) + if tokens == null then 0 else 1
      ensures tokens != null && r != 0 ==> tokens[..] == old(tokens[..])
      ensures tokens != null && r == 0 ==>
        tokens[..] == old(tokens[..])[old(toknext) :=
          Token(Primitive, old(pos), pos + 1, 0, if build == ParentLinks then toksuper else -1)]
    {
      var start := pos;
      while pos < |js| && js[pos] != '\0' && !IsDelimiter(js[pos])
        invariant start <= pos
        invariant pos == start ==> !AtEnd(js, pos) && !IsDelimiter(js[pos])
        invariant PrimitiveEnd(js, pos) == PrimitiveEnd(js, start)
        modifies this`pos
        decreases |js| - pos
      {
        if js[pos] as int < 32 || js[pos] as int >= 127 {
          pos := start;
          return INVAL;
        }
        pos := pos + 1;
      }
      if tokens == null {
        pos := pos - 1;
        return 0;
      }
      var ok := AddLeaf(tokens, Primitive, start, pos);
      if !ok {
        pos := start;
        return NOMEM;
      }
      pos := pos - 1;
      return 0;
    }

    /** The four digits of a \u escape; false at a character that is no hex digit. */
    method SkipHex(js: string) returns (ok: bool)
      modifies this`pos
      ensures var hex := HexEnd(js, old(pos), 4);
        if ok then hex == Found(pos) else hex.Fail?
    {
      var i := 0;
      while i < 4 && pos < |js| && js[pos] != '\0'
        invariant 0 <= i <= 4
        invariant HexEnd(js, pos, 4 - i) == HexEnd(js, old(pos), 4)
      {
        if !IsHex(js[pos]) {
          return false;
        }
        pos := pos + 1;
        i := i + 1;
      }
      ok := true;
    }

    /** `jsmn_parse_string`; it leaves the cursor on the closing quote. */
    method ParseString(js: string, tokens: array?<Token>) returns (r: int)
      requires !AtEnd(js, pos) && js[pos] == '"'
      requires tokens != null ==> Ready(tokens)
      modifies this`pos, this`toknext, tokens
      ensures var scan := StringEnd(js, old(pos) + 1);
        if scan.Fail? then r == scan.code && pos == old(pos) && toknext == old(toknext)
        else if tokens != null && old(toknext) >= tokens.Length then
          r == NOMEM && pos == old(pos) && toknext == old(toknext)
        else
          r == 0 && pos == scan.at && toknext == old(toknext) + if tokens == null then 0 else 1
      ensures tokens != null && r != 0 ==> tokens[..] == old(tokens[..])
      ensures tokens != null && r == 0 ==>
        tokens[..] == old(tokens[..])[old(toknext) :=
          Token(String, old(pos) + 1, pos, 0, if build == ParentLinks then toksuper else -1)]
    {
      var start := pos;
      pos := pos + 1;
      while pos < |js| && js[pos] != '\0'
        invariant start < pos
        invariant StringEnd(js, pos) == StringEnd(js, start + 1)
        invariant toknext == old(toknext)
        invariant tokens != null ==> tokens[..] == old(tokens[..])
        decreases |js| - pos
      {
        var c := js[pos];
        if c == '"' {
          if tokens == null {
            return 0;
          }
          var ok := AddLeaf(tokens, String, start + 1, pos);
          if !ok {
            pos := start;
            return NOMEM;
          }
          return 0;
        }
        if c == '\\' && pos + 1 < |js| {
          pos := pos + 1;
          if js[pos] == 'u' {
            pos := pos + 1;
            var ok := SkipHex(js);
            if !ok {
              pos := start;
              return INVAL;
            }
            pos := pos - 1;
          } else if !IsSimpleEscape(js[pos]) {
            pos := start;
            return INVAL;
          }
        }
        pos := pos + 1;
      }
      pos := start;
      return PART;
    }

    /** The closing bracket, found by walking the parent links from the last token. */
    method CloseLinked(tokens: array<Token>, kind: Kind) returns (ok: bool)
      requires Ready(tokens)
      modifies this`toksuper, tokens
      ensures ok <==> CloseByLinks(old(Abs(tokens)), kind).Next?
      ensures ok ==> CloseByLinks(old(Abs(tokens)), kind).parser == Abs(tokens).(pos := pos + 1)
      ensures !ok ==> toksuper == old(toksuper) && tokens[..] == old(tokens[..])
      ensures tokens[toknext..] == old(tokens[toknext..])
    {
      if toknext < 1 {
        return false;
      }
      var i := toknext - 1;
      ghost var toks := tokens[..toknext];
      while true
        invariant 0 <= i < toknext
        invariant tokens[..] == old(tokens[..]) && toksuper == old(toksuper)
        invariant WalkStop(toks, i) == WalkStop(toks, toknext - 1)
        decreases i
      {
        assert tokens[i] == toks[i];
        if tokens[i].start != -1 && tokens[i].end == -1 {
          if tokens[i].kind != kind {
            return false;
          }
          tokens[i] := tokens[i].(end := pos + 1);
          toksuper := tokens[i].parent;
          assert tokens[..toknext] == CloseAt(old(Abs(tokens)), i);
          return true;
        }
        if tokens[i].parent == -1 {
          return tokens[i].kind == kind && toksuper != -1;
        }
        i := tokens[i].parent;
      }
    }

    /** The closing bracket, found by scanning the tokens backwards. */
    method CloseScanned(tokens: array<Token>, kind: Kind) returns (ok: bool)
      requires Ready(tokens)
      modifies this`toksuper, tokens
      ensures ok <==> CloseByScan(old(Abs(tokens)), kind).Next?
      ensures ok ==> CloseByScan(old(Abs(tokens)), kind).parser == Abs(tokens).(pos := pos + 1)
      ensures !ok ==> toksuper == old(toksuper) && tokens[..] == old(tokens[..])
      ensures tokens[toknext..] == old(tokens[toknext..])
    {
      var i: int := toknext - 1;
      ghost var p := Abs(tokens);
      while i >= 0
        invariant -1 <= i < toknext
        invariant tokens[..] == old(tokens[..]) && toksuper == old(toksuper)
        invariant LastOpen(p.toks, i + 1) == LastOpen(p.toks, toknext)
      {
        assert tokens[i] == p.toks[i];
        if tokens[i].start != -1 && tokens[i].end == -1 {
          if tokens[i].kind != kind {
            return false;
          }
          toksuper := -1;
          tokens[i] := tokens[i].(end := pos + 1);
          break;
        }
        i := i - 1;
      }
      if i == -1 {
        return false;
      }
      ghost var k := i;
      ghost var closed := tokens[..toknext];
      assert closed == CloseAt(p, k);
      while i >= 0
        invariant -1 <= i <= k
        invariant tokens[..toknext] == closed && tokens[toknext..] == old(tokens[toknext..])
        invariant toksuper == -1
        invariant LastOpen(closed, i + 1) == LastOpen(closed, k)
      {
        assert tokens[i] == closed[i];
        if tokens[i].start != -1 && tokens[i].end == -1 {
          toksuper := i;
          break;
        }
        i := i - 1;
      }
      LastOpenPrefix(p.toks, closed, k);
      ok := true;
    }

    /** A comma after a key's value makes the enclosing container superior again. */
    method CommaSuper(tokens: array<Token>)
      requires Ready(tokens)
      modifies this`toksuper
      ensures Comma(build, old(Abs(tokens))).parser == Abs(tokens).(pos := pos + 1)
    {
      if toksuper != -1 && tokens[toksuper].kind != Array && tokens[toksuper].kind != Object {
        if build == ParentLinks {
          toksuper := tokens[toksuper].parent;
        } else {
          var i: int := toknext - 1;
          ghost var toks := tokens[..toknext];
          while i >= 0
            invariant -1 <= i < toknext
            invariant toksuper == old(toksuper)
            invariant LastOpen(toks, i + 1) == LastOpen(toks, toknext)
          {
            assert tokens[i] == toks[i];
            if tokens[i].kind == Array || tokens[i].kind == Object {
              if tokens[i].start != -1 && tokens[i].end == -1 {
                toksuper := i;
                break;
              }
            }
            i := i - 1;
          }
        }
      }
    }

    /** An opening bracket: a new token under the superior one, and superior itself from now on. */
    method OpenToken(tokens: array<Token>, kind: Kind) returns (ok: bool)
      requires Ready(tokens) && IsContainer(kind)
      modifies this`toknext, this`toksuper, tokens
      ensures ok <==> OpenBracket(build, tokens.Length, old(Abs(tokens)), kind).Next?
      ensures toknext <= tokens.Length
      ensures ok ==> OpenBracket(build, tokens.Length, old(Abs(tokens)), kind).parser == Abs(tokens).(pos := pos + 1)
      ensures !ok ==> Abs(tokens) == old(Abs(tokens))
      ensures tokens[toknext..] == old(tokens[..])[toknext..]
    {
      ghost var before := tokens[..];
      var i := AllocToken(tokens);
      if i == -1 {
        return false;
      }
      if toksuper != -1 {
        tokens[toksuper] := tokens[toksuper].(size := tokens[toksuper].size + 1);
        if build == ParentLinks {
          tokens[i] := tokens[i].(parent := toksuper);
        }
      }
      tokens[i] := tokens[i].(kind := kind);
      tokens[i] := tokens[i].(start := pos);
      assert tokens[..toknext] == Append(build, old(Abs(tokens)), Token(kind, pos, -1, 0, -1));
      toksuper := toknext - 1;
      ok := true;
    }

    /** A finished leaf is one more child of the superior token. */
    method CountChild(tokens: array<Token>, ghost before: Parser, ghost leaf: Token)
      requires 0 < toknext <= tokens.Length
      requires Valid(before) && toksuper == before.toksuper && 0 <= leaf.start && !Open(leaf)
      requires tokens[..toknext] == before.toks + [leaf.(parent := if build == ParentLinks then toksuper else -1)]
      modifies tokens
      ensures tokens[..toknext] == Append(build, before, leaf)
      ensures tokens[toknext..] == old(tokens[toknext..])
    {
      if toksuper != -1 {
        tokens[toksuper] := tokens[toksuper].(size := tokens[toksuper].size + 1);
      }
    }

    /** Whether some bracket is still open at the end of the text. */
    method AnyOpen(tokens: array<Token>) returns (open: bool)
      requires Ready(tokens)
      ensures open <==> LastOpen(tokens[..toknext], toknext) != -1
    {
      var i: int := toknext - 1;
      ghost var toks := tokens[..toknext];
      while i >= 0
        invariant -1 <= i < toknext
        invariant LastOpen(toks, i + 1) == LastOpen(toks, toknext)
      {
        assert tokens[i] == toks[i];
        if tokens[i].start != -1 && tokens[i].end == -1 {
          return true;
        }
        i := i - 1;
      }
      return false;
    }

    /** A string or a primitive: its text is scanned, then it gets a token, then its parent is told. */
    method LeafTurn(js: string, tokens: array<Token>) returns (r: int)
      requires Ready(tokens) && !AtEnd(js, pos)
      requires js[pos] != '{' && js[pos] != '[' && (js[pos] == '"' || !IsDelimiter(js[pos]))
      modifies this`pos, this`toknext, tokens
      ensures toknext <= tokens.Length
      ensures tokens[toknext..] == old(tokens[..])[toknext..]
      ensures var step := Step(build, tokens.Length, js, old(Abs(tokens)));
        if r < 0 then step == Stop(r, Abs(tokens))
        else r == 1 && step == Next(Abs(tokens).(pos := pos + 1)) && toknext == old(toknext) + 1
    {
      ghost var p := Abs(tokens);
      if js[pos] == '"' {
        r := ParseString(js, tokens);
        if r < 0 {
          assert tokens[..toknext] == p.toks;
          return;
        }
        assert tokens[..toknext] == p.toks + [tokens[toknext - 1]];
        CountChild(tokens, p, Token(String, p.pos + 1, pos, 0, -1));
      } else {
        r := ParsePrimitive(js, tokens);
        if r < 0 {
          assert tokens[..toknext] == p.toks;
          return;
        }
        assert tokens[..toknext] == p.toks + [tokens[toknext - 1]];
        CountChild(tokens, p, Token(Primitive, p.pos, pos + 1, 0, -1));
      }
      r := 1;
    }

    /** One turn of the loop, up to the cursor's last move: the tokens it counted, or the error it stops with. */
    method Turn(js: string, tokens: array<Token>) returns (r: int)
      requires Ready(tokens) && !AtEnd(js, pos)
      modifies this, tokens
      ensures toknext <= tokens.Length
      ensures tokens[toknext..] == old(tokens[..])[toknext..]
      ensures var step := Step(build, tokens.Length, js, old(Abs(tokens)));
        if r < 0 then step == Stop(r, Abs(tokens))
        else step == Next(Abs(tokens).(pos := pos + 1)) && toknext == old(toknext) + r
    {
      var c := js[pos];
      if c == '{' || c == '[' {
        var ok := OpenToken(tokens, if c == '{' then Object else Array);
        return if ok then 1 else NOMEM;
      } else if c == '}' || c == ']' {
        var ok;
        if build == ParentLinks {
          ok := CloseLinked(tokens, if c == '}' then Object else Array);
        } else {
          ok := CloseScanned(tokens, if c == '}' then Object else Array);
        }
        return if ok then 0 else INVAL;
      } else if IsSpace(c) {
        return 0;
      } else if c == ':' {
        toksuper := toknext - 1;
        return 0;
      } else if c == ',' {
        CommaSuper(tokens);
        return 0;
      } else {
        r := LeafTurn(js, tokens);
      }
    }

    /** `jsmn_parse` with a token array. */
    method Parse(js: string, tokens: array<Token>) returns (r: int)
      requires Ready(tokens)
      modifies this, tokens
      ensures Ready(tokens)
      ensures Outcome(r, Abs(tokens)) == Run(build, tokens.Length, js, old(Abs(tokens)))
      ensures tokens[toknext..] == old(tokens[..])[toknext..]
    {
      var count := toknext;
      while pos < |js| && js[pos] != '\0'
        invariant Ready(tokens) && count == toknext
        invariant Run(build, tokens.Length, js, Abs(tokens)) == Run(build, tokens.Length, js, old(Abs(tokens)))
        invariant tokens[toknext..] == old(tokens[..])[toknext..]
        decreases |js| - pos
      {
        r := Turn(js, tokens);
        if r < 0 {
          return;
        }
        count := count + r;
        pos := pos + 1;
      }
      var open := AnyOpen(tokens);
      return if open then PART else count;
    }

    /** `jsmn_parse` with `tokens` NULL: it only counts. */
    method Count(js: string) returns (r: int)
      modifies this
      ensures DryOutcome(r, pos) == DryRun(js, old(pos), old(toknext))
      ensures toknext == old(toknext)
    {
      var count := toknext;
      while pos < |js| && js[pos] != '\0'
        invariant toknext == old(toknext)
        invariant DryRun(js, pos, count) == DryRun(js, old(pos), old(toknext))
        decreases |js| - pos
      {
        var c := js[pos];
        if c == '{' || c == '[' {
          count := count + 1;
        } else if c == '}' || c == ']' {
        } else if c == '"' {
          r := ParseString(js, null);
          if r < 0 {
            return;
          }
          count := count + 1;
        } else if IsSpace(c) {
        } else if c == ':' {
          toksuper := toknext - 1;
        } else if c == ',' {
        } else {
          r := ParsePrimitive(js, null);
          if r < 0 {
            return;
          }
          count := count + 1;
        }
        pos := pos + 1;
      }
      return count;
    }
  }

  /** Closing token k does not change what is open below it. */
  lemma LastOpenPrefix(a: seq<Token>, b: seq<Token>, n: nat)
    requires n <= |a| && n <= |b|
    requires forall i :: 0 <= i < n ==> a[i] == b[i]
    ensures LastOpen(a, n) == LastOpen(b, n)
  {
  }
}
