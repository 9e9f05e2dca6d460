// The tokenizer with its parser record and its token array, updated in place.
module JsmnParser {
  import opened Jsmn
  import opened JsmnCount

  const ERROR_NOMEM: int := -1
  const ERROR_INVAL: int := -2
  const ERROR_PART: int := -3

  function Code(e: Error): (r: int)
    ensures (e == NoMem ==> r == -1) && (e == Inval ==> r == -2) && (e == Part ==> r == -3)
  {
    match e
    case NoMem => ERROR_NOMEM
    case Inval => ERROR_INVAL
    case Part => ERROR_PART
  }

  class Parser {
    var pos: nat
    var toknext: nat
    var toksuper: int

    constructor ()
      ensures pos == 0 && toknext == 0 && toksuper == -1
    {
      pos, toknext, toksuper := 0, 0, -1;
    }

    /** The state of the abstract tokenizer this record and the allocated tokens stand for. */
    ghost function Current(tokens: array<Token>): State
      reads this, tokens
      requires toknext <= tokens.Length
    {
      State(pos, tokens[..toknext], toksuper)
    }

    ghost predicate Ready(js: string, tokens: array<Token>)
      reads this, tokens
    {
      toknext <= tokens.Length && Sane(Current(tokens))
    }

    /** The next free token, or failure when the array is full. */
    method AllocToken(tokens: array<Token>) returns (tok: int)
      requires toknext <= tokens.Length
      modifies this`toknext, tokens
      ensures tok == -1 <==> old(toknext) == tokens.Length
      ensures tok == -1 ==> toknext == old(toknext) && tokens[..] == old(tokens[..])
      ensures tok != -1 ==>
        && tok == old(toknext) && toknext == tok + 1
        && tokens[..] == old(tokens[..])[tok := Token(old(tokens[toknext]).kind, -1, -1, 0, -1)]
    {
      if toknext >= tokens.Length {
        return -1;
      }
      tok := toknext;
      toknext := toknext + 1;
      tokens[tok] := tokens[tok].(start := -1, end := -1);
      tokens[tok] := tokens[tok].(size := 0);
      tokens[tok] := tokens[tok].(parent := -1);
    }

    /** Allocate and fill a token that hangs below the current owner. */
    method FillNext(tokens: array<Token>, kind: Kind, start: int, end: int) returns (ok: bool)
      requires toknext <= tokens.Length
      modifies this`toknext, tokens
      ensures ok <==> old(toknext) < tokens.Length
      ensures ok ==>
        && toknext == old(toknext) + 1
        && tokens[..toknext] == old(tokens[..toknext]) + [Token(kind, start, end, 0, toksuper)]
      ensures !ok ==> toknext == old(toknext) && tokens[..] == old(tokens[..])
    {
      ghost var was := tokens[..];
      var token := AllocToken(tokens);
      if token == -1 {
        return false;
      }
      tokens[token] := Token(kind, start, end, 0, tokens[token].parent);
      tokens[token] := tokens[token].(parent := toksuper);
      assert tokens[..token] == was[..token];
      return true;
    }

    /** From the first character of a primitive to the one after it. */
    method ScanToDelimiter(js: string) returns (r: int)
      requires !AtEnd(js, pos) && StartsPrimitive(js[pos])
      modifies this`pos
      ensures r == 0 ==> ScanPrimitive(js, old(pos)) == Found(pos) && old(pos) < pos
      ensures r != 0 ==> pos == old(pos)
      ensures r != 0 ==>
        match ScanPrimitive(js, old(pos))
        case Found(_) => false
        case Bad => r == ERROR_INVAL
        case Open => r == ERROR_PART
    {
      var start := pos;
      PrimitiveAdvances(js, pos);
      while !AtEnd(js, pos) && !EndsPrimitive(js[pos])
        invariant start <= pos
        invariant ScanPrimitive(js, start) == ScanPrimitive(js, pos)
        invariant pos == start ==> !AtEnd(js, pos) && !EndsPrimitive(js[pos])
        decreases |js| - pos
      {
        if js[pos] as int < 32 || js[pos] as int >= 127 {
          pos := start;
          return ERROR_INVAL;
        }
        pos := pos + 1;
      }
      if AtEnd(js, pos) {
        pos := start;
        return ERROR_PART;
      }
      return 0;
    }

    /** From the first character of a primitive to its last. */
    method ParsePrimitive(js: string, tokens: array<Token>) returns (r: int)
      requires toknext <= tokens.Length && !AtEnd(js, pos) && StartsPrimitive(js[pos])
      modifies this`pos, this`toknext, tokens
      ensures r == 0 ==>
        && toknext <= tokens.Length && ScanPrimitive(js, old(pos)) == Found(pos + 1)
        && old(toknext) < tokens.Length
        && tokens[..toknext] == old(tokens[..toknext]) + [Token(Primitive, old(pos), pos + 1, 0, toksuper)]
      ensures r != 0 ==> pos == old(pos) && toknext == old(toknext) && tokens[..] == old(tokens[..])
      ensures r != 0 ==>
        match ScanPrimitive(js, old(pos))
        case Found(_) => old(toknext) == tokens.Length && r == ERROR_NOMEM
        case Bad => r == ERROR_INVAL
        case Open => r == ERROR_PART
    {
      var start := pos;
      r := ScanToDelimiter(js);
      if r < 0 { return; }
      var ok := FillNext(tokens, Primitive, start, pos);
      if !ok {
        pos := start;
        return ERROR_NOMEM;
      }
      pos := pos - 1;
      return 0;
    }

    /** Up to four hexadecimal digits. */
    method SkipHex(js: string) returns (ok: bool)
      modifies this`pos
      ensures ok ==> ScanHex(js, old(pos), 4) == Found(pos)
      ensures !ok ==> ScanHex(js, old(pos), 4).Bad?
    {
      ghost var start := pos;
      var i := 0;
      while i < 4 && !AtEnd(js, pos)
        invariant i <= 4 && ScanHex(js, start, 4) == ScanHex(js, pos, 4 - i)
      {
        if !IsHex(js[pos]) {
          return false;
        }
        pos := pos + 1;
        i := i + 1;
      }
      return true;
    }

    /** From a backslash to the last character of its escape sequence. */
    method SkipEscape(js: string) returns (ok: bool)
      requires !AtEnd(js, pos) && js[pos] == '\\' && pos + 1 < |js|
      modifies this`pos
      ensures ok ==> old(pos) < pos && ScanString(js, old(pos)) == ScanString(js, pos + 1)
      ensures !ok ==> ScanString(js, old(pos)).Bad?
    {
      hide ScanHex, IsHex, IsSimpleEscape;
      pos := pos + 1;
      if IsSimpleEscape(js[pos]) {
        return true;
      } else if js[pos] == 'u' {
        pos := pos + 1;
        ok := SkipHex(js);
        if ok { pos := pos - 1; }
      } else {
        return false;
      }
    }

    /** From the opening quote of a string to its closing quote. */
    method ScanToQuote(js: string) returns (r: int)
      requires !AtEnd(js, pos)
      modifies this`pos
      ensures r == 0 ==> ScanString(js, old(pos) + 1) == Found(pos)
      ensures r != 0 ==> pos == old(pos)
      ensures r != 0 ==>
        match ScanString(js, old(pos) + 1)
        case Found(_) => false
        case Bad => r == ERROR_INVAL
        case Open => r == ERROR_PART
    {
      var start := pos;
      pos := pos + 1;
      while !AtEnd(js, pos)
        invariant start < pos
        invariant ScanString(js, start + 1) == ScanString(js, pos)
        decreases |js| - pos
      {
        var c := js[pos];
        if c == '\"' {
          return 0;
        }
        if c == '\\' && pos + 1 < |js| {
          var ok := SkipEscape(js);
          if !ok {
            pos := start;
            return ERROR_INVAL;
          }
        }
        pos := pos + 1;
      }
      pos := start;
      return ERROR_PART;
    }

    /** A string, from its opening to its closing quote, as a token. */
    method ParseString(js: string, tokens: array<Token>) returns (r: int)
      requires toknext <= tokens.Length && !AtEnd(js, pos)
      modifies this`pos, this`toknext, tokens
      ensures r == 0 ==>
        && toknext <= tokens.Length && ScanString(js, old(pos) + 1) == Found(pos)
        && old(toknext) < tokens.Length
        && tokens[..toknext] == old(tokens[..toknext]) + [Token(String, old(pos) + 1, pos, 0, toksuper)]
      ensures r != 0 ==> pos == old(pos) && toknext == old(toknext) && tokens[..] == old(tokens[..])
      ensures r != 0 ==>
        match ScanString(js, old(pos) + 1)
        case Found(_) => old(toknext) == tokens.Length && r == ERROR_NOMEM
        case Bad => r == ERROR_INVAL
        case Open => r == ERROR_PART
    {
      var start := pos;
      r := ScanToQuote(js);
      if r < 0 { return; }
      var ok := FillNext(tokens, String, start + 1, pos);
      if !ok {
        pos := start;
        return ERROR_NOMEM;
      }
      return 0;
    }

    /** Count one more child for the current owner. */
    method GrowOwner(tokens: array<Token>)
      requires toknext <= tokens.Length && -1 <= toksuper < toknext
      modifies tokens
      ensures tokens[..toknext] == Grow(old(tokens[..toknext]), toksuper)
    {
      if toksuper != -1 {
        tokens[toksuper] := tokens[toksuper].(size := tokens[toksuper].size + 1);
      }
    }

    /** An opening bracket: allocate an open container, count it, and make it the owner. */
    method OpenBracket(js: string, tokens: array<Token>) returns (r: int)
      requires Ready(js, tokens) && !AtEnd(js, pos) && (js[pos] == '{' || js[pos] == '[')
      modifies this, tokens
      ensures toknext <= tokens.Length
      ensures Follows(js, old(Current(tokens)), tokens.Length, r, 1, Current(tokens))
    {
      var c := js[pos];
      ghost var was := tokens[..toknext];
      var token := AllocToken(tokens);
      if token == -1 {
        return ERROR_NOMEM;
      }
      if toksuper != -1 {
        tokens[toksuper] := tokens[toksuper].(size := tokens[toksuper].size + 1);
        tokens[token] := tokens[token].(parent := toksuper);
      }
      tokens[token] := tokens[token].(kind := if c == '{' then Object else Array);
      tokens[token] := tokens[token].(start := pos);
      assert tokens[..token] == Grow(was, toksuper);
      toksuper := toknext - 1;
      return 0;
    }

    /** A closing bracket: walk up from the last token to the innermost open container and close it. */
    method CloseBracket(js: string, tokens: array<Token>) returns (r: int)
      requires Ready(js, tokens) && !AtEnd(js, pos) && (js[pos] == '}' || js[pos] == ']')
      modifies this, tokens
      ensures toknext <= tokens.Length
      ensures Follows(js, old(Current(tokens)), tokens.Length, r, 1, Current(tokens))
    {
      var kind := if js[pos] == '}' then Object else Array;
      ghost var was := tokens[..toknext];
      if toknext < 1 {
        return ERROR_INVAL;
      }
      var t := toknext - 1;
      while true
        invariant 0 <= t < toknext && tokens[..toknext] == was
        invariant WalkUp(was, toknext - 1) == WalkUp(was, t)
        invariant pos == old(pos) && toknext == old(toknext) && toksuper == old(toksuper)
        decreases t
      {
        if tokens[t].start != -1 && tokens[t].end == -1 {
          if tokens[t].kind != kind {
            return ERROR_INVAL;
          }
          tokens[t] := tokens[t].(end := pos + 1);
          toksuper := tokens[t].parent;
          return 0;
        }
        if tokens[t].parent == -1 {
          return if tokens[t].kind != kind || toksuper == -1 then ERROR_INVAL else 0;
        }
        t := tokens[t].parent;
      }
    }

    /** A string, which counts as a child of the current owner. */
    method StringValue(js: string, tokens: array<Token>) returns (r: int)
      requires Ready(js, tokens) && !AtEnd(js, pos) && js[pos] == '\"'
      modifies this, tokens
      ensures toknext <= tokens.Length
      ensures Follows(js, old(Current(tokens)), tokens.Length, r, 1, Current(tokens))
    {
      hide Step, ScanString;
      StringStep(js, Current(tokens), tokens.Length);
      ghost var was := tokens[..toknext];
      r := ParseString(js, tokens);
      if r < 0 { return; }
      ghost var added := tokens[toknext - 1];
      GrowOwner(tokens);
      GrowSnoc(was, added, toksuper);
    }

    /** A number or literal, unless strict mode forbids one here. */
    method PrimitiveValue(js: string, tokens: array<Token>) returns (r: int)
      requires Ready(js, tokens) && !AtEnd(js, pos) && StartsPrimitive(js[pos])
      modifies this, tokens
      ensures toknext <= tokens.Length
      ensures Follows(js, old(Current(tokens)), tokens.Length, r, 1, Current(tokens))
    {
      hide Step, ScanPrimitive, ScanString;
      PrimitiveStep(js, Current(tokens), tokens.Length);
      ghost var was := tokens[..toknext];
      if toksuper != -1 {
        var t := tokens[toksuper];
        if t.kind == Object || (t.kind == String && t.size != 0) {
          return ERROR_INVAL;
        }
      }
      r := ParsePrimitive(js, tokens);
      if r < 0 { return; }
      ghost var added := tokens[toknext - 1];
      GrowOwner(tokens);
      GrowSnoc(was, added, toksuper);
    }

    /** One turn of the loop, up to the advance of the read position. */
    method Turn(js: string, tokens: array<Token>) returns (r: int)
      requires Ready(js, tokens) && !AtEnd(js, pos)
      modifies this, tokens
      ensures toknext <= tokens.Length
      ensures Follows(js, old(Current(tokens)), tokens.Length, r, 1, Current(tokens))
    {
      r := 0;
      var c := js[pos];
      if c == '{' || c == '[' {
        r := OpenBracket(js, tokens);
      } else if c == '}' || c == ']' {
        r := CloseBracket(js, tokens);
      } else if c == '\"' {
        r := StringValue(js, tokens);
      } else if IsSpace(c) {
      } else if c == ':' {
        toksuper := toknext - 1;
      } else if c == ',' {
        if toksuper != -1 && tokens[toksuper].kind != Array && tokens[toksuper].kind != Object {
          toksuper := tokens[toksuper].parent;
        }
      } else if StartsPrimitive(c) {
        r := PrimitiveValue(js, tokens);
      } else {
        r := ERROR_INVAL;
      }
    }

    /** The first pass, without a token array: how many tokens there are, or an error code. */
    method CountTokens(js: string) returns (r: int)
      requires pos == 0 && toknext == 0
      modifies this`pos, this`toksuper
      ensures match CountFrom(js, 0, 0)
        case Counted(n) => r == n
        case Failed(e) => r == Code(e)
    {
      var count := 0;
      while !AtEnd(js, pos)
        invariant 0 <= count && CountFrom(js, 0, 0) == CountFrom(js, pos, count)
        decreases |js| - pos
      {
        var c := js[pos];
        if c == '{' || c == '[' {
          count := count + 1;
        } else if c == '}' || c == ']' {
        } else if c == '\"' {
          r := ScanToQuote(js);
          if r < 0 { return; }
          count := count + 1;
        } else if IsSpace(c) {
        } else if c == ':' {
          toksuper := toknext - 1;
        } else if c == ',' {
        } else if StartsPrimitive(c) {
          r := ScanToDelimiter(js);
          if r < 0 { return; }
          pos := pos - 1;
          count := count + 1;
        } else {
          return ERROR_INVAL;
        }
        pos := pos + 1;
      }
      return count;
    }

    /** Fill `tokens` from the text: the number of tokens, or an error code. */
    method Parse(js: string, tokens: array<Token>) returns (r: int)
      requires pos == 0 && toknext == 0 && toksuper == -1
      modifies this, tokens
      ensures toknext <= tokens.Length
      ensures match Jsmn.Parse(js, tokens.Length)
        case Next(t) => r == toknext && tokens[..toknext] == t.toks
        case Fail(e) => r == Code(e)
    {
      hide Step;
      while !AtEnd(js, pos)
        invariant Ready(js, tokens)
        invariant Loop(js, INIT, tokens.Length) == Loop(js, Current(tokens), tokens.Length)
        decreases |js| - pos
      {
        ghost var st := Current(tokens);
        r := Turn(js, tokens);
        if r < 0 { return; }
        pos := pos + 1;
        assert Step(js, st, tokens.Length) == Next(Current(tokens));
      }
      var i := toknext - 1;
      ghost var toks := tokens[..toknext];
      while i >= 0
        invariant -1 <= i < toknext && tokens[..toknext] == toks
        invariant forall k :: i < k < toknext ==> !IsOpen(toks[k])
      {
        if tokens[i].start != -1 && tokens[i].end == -1 {
          assert IsOpen(toks[i]);
          return ERROR_PART;
        }
        i := i - 1;
      }
      return toknext;
    }
  }

  lemma GrowSnoc(toks: seq<Token>, t: Token, i: int)
    requires -1 <= i < |toks|
    ensures Grow(toks + [t], i) == Grow(toks, i) + [t]
  {
  }

  /** Return code `r` and state `t` are what the abstract step prescribes, the read position still `lag` behind. */
  ghost predicate Follows(js: string, st: State, cap: nat, r: int, lag: nat, t: State)
    requires Sane(st) && !AtEnd(js, st.pos)
  {
    match Step(js, st, cap)
    case Next(u) => r == 0 && t.(pos := t.pos + lag) == u
    case Fail(e) => r == Code(e)
  }
}
