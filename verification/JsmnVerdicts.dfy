// What the tokenizer's verdicts mean: INVAL that no text starting like this is accepted, PART that some is, NOMEM that
// the array was too small.
module JsmnVerdicts {
  import opened Jsmn
  import opened JsmnStack
  import opened JsmnBrackets

  predicate NoNul(s: string) {
    forall i :: 0 <= i < |s| ==> s[i] != '\0'
  }

  // ---------- scanning a longer text ----------

  lemma {:induction false} HexExtends(js: string, more: string, pos: nat, k: nat)
    requires NoNul(js) && pos <= |js|
    ensures !ScanHex(js, pos, k).Open?
    ensures ScanHex(js, pos, k).Bad? ==> ScanHex(js + more, pos, k).Bad?
    ensures ScanHex(js, pos, k).Found? ==> ScanHex(js, pos, k).at <= |js|
    ensures ScanHex(js, pos, k).Found? && ScanHex(js, pos, k).at < |js| ==>
      ScanHex(js + more, pos, k) == ScanHex(js, pos, k) == Found(pos + k)
    decreases k
  {
    if k == 0 || pos == |js| {
    } else {
      assert (js + more)[pos] == js[pos];
      HexExtends(js, more, pos + 1, k - 1);
    }
  }

  /** A string that ends, or is bad, stays so however the text goes on. */
  lemma {:induction false} StringExtends(js: string, more: string, pos: nat)
    requires NoNul(js) && pos <= |js| && !ScanString(js, pos).Open?
    ensures ScanString(js + more, pos) == ScanString(js, pos)
    decreases |js| - pos
  {
    hide ScanHex, IsSimpleEscape;
    var all := js + more;
    assert pos < |js| && all[pos] == js[pos];
    if js[pos] == '\"' {
    } else if js[pos] == '\\' && pos + 1 < |js| {
      assert all[pos + 1] == js[pos + 1];
      if IsSimpleEscape(js[pos + 1]) {
        StringExtends(js, more, pos + 2);
      } else if js[pos + 1] == 'u' {
        HexExtends(js, more, pos + 2, 4);
        var h := ScanHex(js, pos + 2, 4);
        if h.Found? {
          assert h.at < |js|;
          StringExtends(js, more, h.at);
        }
      }
    } else {
      assert pos + 1 < |js|;
      StringExtends(js, more, pos + 1);
    }
  }

  lemma {:induction false} PrimitiveExtends(js: string, more: string, pos: nat)
    requires NoNul(js) && pos <= |js| && !ScanPrimitive(js, pos).Open?
    ensures ScanPrimitive(js + more, pos) == ScanPrimitive(js, pos)
    decreases |js| - pos
  {
    var all := js + more;
    assert pos < |js| && all[pos] == js[pos];
    if EndsPrimitive(js[pos]) || js[pos] as int < 32 || js[pos] as int >= 127 {
    } else {
      PrimitiveExtends(js, more, pos + 1);
    }
  }

  // ---------- one step in a longer text ----------

  /** A step that succeeds, or finds the text invalid, does so in every longer text, whatever the capacity. */
  lemma StepExtends(js: string, more: string, st: State, cap: nat, room: nat)
    requires Sane(st) && NoNul(js) && st.pos < |js| && |st.toks| <= cap && |st.toks| <= room
    ensures Step(js, st, cap).Next? ==>
      Step(js + more, st, room)
      == if |Step(js, st, cap).st.toks| <= room then Step(js, st, cap) else Fail(NoMem)
    ensures Step(js, st, cap) == Fail(Inval) ==> Step(js + more, st, room) == Fail(Inval)
  {
    hide ScanString, ScanPrimitive, WalkUp, Grow, PrimitiveMisplaced;
    var all := js + more;
    assert all[st.pos] == js[st.pos];
    if js[st.pos] == '\"' {
      StringStep(js, st, cap);
      StringStep(all, st, room);
      if !ScanString(js, st.pos + 1).Open? { StringExtends(js, more, st.pos + 1); }
    } else if StartsPrimitive(js[st.pos]) {
      PrimitiveStep(js, st, cap);
      PrimitiveStep(all, st, room);
      if !ScanPrimitive(js, st.pos).Open? { PrimitiveExtends(js, more, st.pos); }
    }
  }

  /** Tokens never outnumber the characters read. */
  predicate Roomy(st: State) {
    |st.toks| <= st.pos
  }

  lemma StepRoomy(js: string, st: State, cap: nat)
    requires Sane(st) && !AtEnd(js, st.pos) && Roomy(st) && st.pos < cap
    ensures Step(js, st, cap) != Fail(NoMem)
    ensures Step(js, st, cap).Next? ==> Roomy(Step(js, st, cap).st)
  {
    hide ScanString, ScanPrimitive, WalkUp, PrimitiveMisplaced;
  }

  // ---------- INVAL ----------

  lemma {:induction false} InvalStays(js: string, more: string, st: State, cap: nat, room: nat)
    requires Sane(st) && NoNul(js) && st.pos <= |js| <= cap && Roomy(st) && |st.toks| <= room
    requires Loop(js, st, cap) == Fail(Inval)
    ensures Loop(js + more, st, room).Fail?
    decreases |js| - st.pos
  {
    hide Step;
    assert (js + more)[st.pos] == js[st.pos];
    StepRoomy(js, st, cap);
    StepExtends(js, more, st, cap, room);
    match Step(js, st, cap)
    case Fail(_) =>
    case Next(t) =>
      if |t.toks| <= room { InvalStays(js, more, t, cap, room); }
  }

  // ---------- PART ----------

  function CloserOf(kind: Kind): char { if kind == Object then '}' else ']' }

  /** The bracket that closes the innermost open container is accepted. */
  lemma ClosesTop(js: string, st: State, cap: nat)
    requires Inv(st) && Stack(st.toks) != [] && st.pos < |js|
    requires var s := Stack(st.toks); s[|s| - 1] < |st.toks| && js[st.pos] == CloserOf(st.toks[s[|s| - 1]].kind)
    ensures Step(js, st, cap).Next? && Step(js, st, cap).st.pos == st.pos + 1
  {
    hide OnChain, Nested, Children, Stack;
    StackSound(st.toks, |Stack(st.toks)| - 1);
    WalkIsTop(st);
  }

  lemma CloserStep(js: string, all: string, st: State, cap: nat)
    requires Sane(st) && st.pos < |js| && st.pos < |all| && all[st.pos] == js[st.pos]
    requires js[st.pos] == '}' || js[st.pos] == ']'
    ensures Step(js, st, cap) == Step(all, st, cap)
  {
  }

  /** Any open containers can be closed. */
  lemma {:induction false} CloseAll(js: string, st: State, cap: nat) returns (more: string)
    requires Inv(st) && st.pos == |js|
    ensures Sane(st) && Loop(js + more, st, cap).Next? && Stack(Loop(js + more, st, cap).st.toks) == []
    decreases |Stack(st.toks)|
  {
    hide Inv, Step, Stack;
    InvSane(st);
    var s := Stack(st.toks);
    if s == [] {
      more := "";
      assert js + more == js;
    } else {
      StackSound(st.toks, |s| - 1);
      var c := [CloserOf(st.toks[s[|s| - 1]].kind)];
      ClosesTop(js + c, st, cap);
      StepKeeps(js + c, st, cap);
      var rest := CloseAll(js + c, Step(js + c, st, cap).st, cap);
      more := c + rest;
      assert js + more == js + c + rest;
      CloserStep(js + c, js + more, st, cap);
    }
  }

  /** This ends a string wherever it was cut: after a backslash, in the digits of a `\u`, or anywhere else. */
  const REST: string := "b0000\""

  lemma {:induction false} RestScanned(js: string, pos: nat)
    requires |js| <= pos <= |js| + 5
    ensures ScanString(js + REST, pos) == Found(|js| + 5)
    decreases |js| + 5 - pos
  {
    var all := js + REST;
    assert all[pos] == REST[pos - |js|];
    if pos == |js| + 5 {
    } else {
      RestScanned(js, pos + 1);
    }
  }

  lemma {:induction false} HexCompletes(js: string, pos: nat, k: nat)
    requires NoNul(js) && pos <= |js| && k <= 4 && !ScanHex(js, pos, k).Bad? && |js| <= pos + k
    ensures ScanHex(js + REST, pos, k) == Found(pos + k)
    decreases k
  {
    var all := js + REST;
    if k == 0 {
    } else if pos < |js| {
      assert all[pos] == js[pos];
      HexCompletes(js, pos + 1, k - 1);
    } else {
      HexInRest(js, pos, k);
    }
  }

  lemma {:induction false} HexInRest(js: string, pos: nat, k: nat)
    requires |js| <= pos && pos + k <= |js| + 5
    ensures ScanHex(js + REST, pos, k) == Found(pos + k)
    decreases k
  {
    if k == 0 {
    } else {
      assert (js + REST)[pos] == REST[pos - |js|];
      HexInRest(js, pos + 1, k - 1);
    }
  }

  lemma {:induction false} StringCompletes(js: string, pos: nat)
    requires NoNul(js) && pos <= |js| && ScanString(js, pos).Open?
    ensures ScanString(js + REST, pos) == Found(|js| + 5)
    decreases |js| - pos
  {
    hide ScanHex, IsSimpleEscape;
    var all := js + REST;
    if pos == |js| {
      RestScanned(js, pos);
    } else if js[pos] == '\\' {
      assert all[pos] == '\\' && pos + 1 < |all|;
      if pos + 1 == |js| {
        RestEscape(js);
        RestScanned(js, pos + 2);
      } else if IsSimpleEscape(js[pos + 1]) {
        assert all[pos + 1] == js[pos + 1];
        StringCompletes(js, pos + 2);
      } else {
        assert all[pos + 1] == js[pos + 1] == 'u';
        HexExtends(js, REST, pos + 2, 4);
        var h := ScanHex(js, pos + 2, 4);
        if h.at < |js| {
          StringCompletes(js, h.at);
        } else {
          HexCompletes(js, pos + 2, 4);
          RestScanned(js, pos + 6);
        }
      }
    } else {
      assert all[pos] == js[pos];
      StringCompletes(js, pos + 1);
    }
  }

  lemma RestEscape(js: string)
    ensures (js + REST)[|js|] == 'b' && IsSimpleEscape('b')
  {
  }

  lemma {:induction false} PrimitiveCompletes(js: string, pos: nat)
    requires NoNul(js) && pos <= |js| && ScanPrimitive(js, pos).Open?
    ensures ScanPrimitive(js + " ", pos) == Found(|js|)
    decreases |js| - pos
  {
    if pos == |js| {
      assert (js + " ")[pos] == ' ';
    } else {
      assert (js + " ")[pos] == js[pos];
      PrimitiveCompletes(js, pos + 1);
    }
  }

  /** A string or primitive that was cut short can be completed. */
  lemma LexemeCompletes(js: string, st: State, cap: nat) returns (more: string)
    requires Sane(st) && NoNul(js) && st.pos < |js| && |st.toks| < cap && Step(js, st, cap) == Fail(Part)
    ensures NoNul(js + more) && Step(js + more, st, cap).Next?
    ensures var t, all := Step(js + more, st, cap).st, js + more;
      t.pos == |all| || (t.pos + 1 == |all| && all[t.pos] == ' ')
  {
    hide ScanString, ScanPrimitive, Close, PrimitiveMisplaced, WalkUp;
    PartIsLexeme(js, st, cap);
    more := if js[st.pos] == '\"' then REST else " ";
    var all := js + more;
    assert all[st.pos] == js[st.pos];
    RestPlain();
    if js[st.pos] == '\"' {
      StringStep(js, st, cap);
      StringCompletes(js, st.pos + 1);
      StringStep(all, st, cap);
    } else {
      PrimitiveStep(js, st, cap);
      PrimitiveCompletes(js, st.pos);
      PrimitiveStep(all, st, cap);
    }
  }

  lemma RestPlain()
    ensures |REST| == 6 && NoNul(REST) && NoNul(" ")
  {
  }

  lemma PartIsLexeme(js: string, st: State, cap: nat)
    requires Sane(st) && !AtEnd(js, st.pos) && Step(js, st, cap) == Fail(Part)
    ensures js[st.pos] == '\"' || StartsPrimitive(js[st.pos])
  {
    hide ScanString, ScanPrimitive, WalkUp, PrimitiveMisplaced;
  }

  /** Text that is not invalid so far can be completed to a text that is accepted. */
  lemma {:induction false} Completable(js: string, st: State, cap: nat) returns (more: string)
    requires Inv(st) && NoNul(js) && st.pos <= |js| <= cap && Roomy(st)
    requires Sane(st) && Loop(js, st, cap) != Fail(Inval)
    ensures Loop(js + more, st, cap).Next? && Stack(Loop(js + more, st, cap).st.toks) == []
    decreases |js| - st.pos
  {
    hide Inv, Step, Stack;
    if st.pos == |js| {
      more := CloseAll(js, st, cap);
    } else {
      assert js[st.pos] != '\0';
      StepRoomy(js, st, cap);
      if Step(js, st, cap).Next? {
        StepKeeps(js, st, cap);
        InvSane(Step(js, st, cap).st);
        more := Completable(js, Step(js, st, cap).st, cap);
        StepExtends(js, more, st, cap, cap);
        assert !AtEnd(js + more, st.pos);
      } else {
        assert Step(js, st, cap).error.Part?;
        var lexeme := LexemeCompletes(js, st, cap);
        var all := js + lexeme;
        assert all[st.pos] == js[st.pos];
        StepKeeps(all, st, cap);
        StepWithin(all, st, cap);
        var t := Step(all, st, cap).st;
        var rest := CloseRest(all, t, cap);
        more := lexeme + rest;
        assert js + more == all + rest && (js + more)[st.pos] == js[st.pos];
        StepExtends(all, rest, st, cap, cap);
      }
    }
  }

  /** The same with one blank left to read. */
  lemma CloseRest(js: string, st: State, cap: nat) returns (more: string)
    requires Inv(st) && NoNul(js) && |st.toks| <= cap
    requires st.pos == |js| || (st.pos + 1 == |js| && js[st.pos] == ' ')
    ensures Sane(st) && Loop(js + more, st, cap).Next? && Stack(Loop(js + more, st, cap).st.toks) == []
  {
    hide Inv, Step, Stack;
    InvSane(st);
    if st.pos == |js| {
      more := CloseAll(js, st, cap);
    } else {
      StepPunctuation(js, st, cap);
      StepKeeps(js, st, cap);
      more := CloseAll(js, Step(js, st, cap).st, cap);
      assert (js + more)[st.pos] == js[st.pos];
      StepExtends(js, more, st, cap, cap);
    }
  }

  // ---------- the verdicts ----------

  lemma {:induction false} LoopRoomy(js: string, st: State, cap: nat)
    requires Sane(st) && NoNul(js) && |js| <= cap && Roomy(st)
    ensures Loop(js, st, cap) != Fail(NoMem)
    decreases |js| - st.pos
  {
    hide Step;
    if AtEnd(js, st.pos) {
    } else {
      StepRoomy(js, st, cap);
      if Step(js, st, cap).Next? { LoopRoomy(js, Step(js, st, cap).st, cap); }
    }
  }

  lemma ClosedAccepted(js: string, cap: nat)
    requires Loop(js, INIT, cap).Next? && Stack(Loop(js, INIT, cap).st.toks) == []
    ensures Parse(js, cap).Next?
  {
    hide Loop, Stack;
    var toks := Loop(js, INIT, cap).st.toks;
    if i :| 0 <= i < |toks| && IsOpen(toks[i]) { StackHas(toks, i); }
  }

  ghost predicate Accepted(js: string, room: nat) { Parse(js, room).Next? }

  /** With room for a token per character: INVAL is the verdict exactly on text that no continuation makes acceptable,
      PART exactly on text that is not accepted yet but can be completed. */
  lemma Verdicts(js: string, cap: nat)
    requires NoNul(js) && |js| <= cap
    ensures Parse(js, cap) != Fail(NoMem)
    ensures Parse(js, cap) == Fail(Inval) <==> forall more, room :: !Accepted(js + more, room)
    ensures Parse(js, cap) == Fail(Part) <==>
      !Accepted(js, cap) && exists more, room :: Accepted(js + more, room)
  {
    hide Loop, Stack, Inv;
    InitInv();
    LoopRoomy(js, INIT, cap);
    if Loop(js, INIT, cap) == Fail(Inval) {
      forall more: string, room: nat ensures !Accepted(js + more, room) {
        InvalStays(js, more, INIT, cap, room);
      }
    } else {
      match Loop(js, INIT, cap) {
        case Next(_) =>
        case Fail(e) => assert e.Part?;
      }
      var more := Completable(js, INIT, cap);
      ClosedAccepted(js + more, cap);
      assert Accepted(js + more, cap);
    }
  }

  // ---------- NUL ----------

  lemma {:induction false} LoopExtends(js: string, rest: string, st: State, cap: nat)
    requires Sane(st) && NoNul(js) && st.pos <= |js| && |st.toks| <= cap && Loop(js, st, cap).Next?
    ensures Loop(js + ("\0" + rest), st, cap) == Loop(js, st, cap)
    decreases |js| - st.pos
  {
    hide Step;
    var more := "\0" + rest;
    var all := js + more;
    if st.pos == |js| {
      assert all[st.pos] == more[0] == '\0';
    } else {
      assert all[st.pos] == js[st.pos];
      StepExtends(js, more, st, cap, cap);
      StepWithin(js, st, cap);
      LoopExtends(js, rest, Step(js, st, cap).st, cap);
    }
  }

  lemma StepWithin(js: string, st: State, cap: nat)
    requires Sane(st) && !AtEnd(js, st.pos) && |st.toks| <= cap && Step(js, st, cap).Next?
    ensures |Step(js, st, cap).st.toks| <= cap
  {
    hide ScanString, ScanPrimitive, WalkUp, PrimitiveMisplaced;
  }

  /** An accepted text ends at the first NUL, whatever follows. */
  lemma NulEnds(js: string, rest: string, cap: nat)
    requires NoNul(js) && Parse(js, cap).Next?
    ensures Parse(js + ("\0" + rest), cap) == Parse(js, cap)
  {
    hide Loop;
    InitSane();
    LoopExtends(js, rest, INIT, cap);
  }

  lemma InitSane()
    ensures Sane(INIT) && INIT.pos == 0 && INIT.toks == []
  {
  }

  // ---------- NOMEM ----------

  lemma StepCapacity(js: string, st: State, cap: nat, room: nat)
    requires Sane(st) && !AtEnd(js, st.pos) && |st.toks| <= cap && |st.toks| <= room && Step(js, st, room).Next?
    ensures Step(js, st, cap) == if |Step(js, st, room).st.toks| <= cap then Step(js, st, room) else Fail(NoMem)
  {
    hide ScanString, ScanPrimitive, WalkUp, PrimitiveMisplaced;
  }

  lemma {:induction false} LoopCapacity(js: string, st: State, cap: nat, room: nat)
    requires Sane(st) && |st.toks| <= cap && |st.toks| <= room && Loop(js, st, room).Next?
    ensures Loop(js, st, cap) == if |Loop(js, st, room).st.toks| <= cap then Loop(js, st, room) else Fail(NoMem)
    decreases |js| - st.pos
  {
    hide Step;
    if AtEnd(js, st.pos) {
    } else {
      var t := Step(js, st, room).st;
      StepCapacity(js, st, cap, room);
      StepWithin(js, st, room);
      LoopMonotone(js, t, room);
      if |t.toks| <= cap { LoopCapacity(js, t, cap, room); }
    }
  }

  lemma {:induction false} LoopMonotone(js: string, st: State, cap: nat)
    requires Sane(st) && Loop(js, st, cap).Next?
    ensures |st.toks| <= |Loop(js, st, cap).st.toks|
    decreases |js| - st.pos
  {
    hide Step;
    if AtEnd(js, st.pos) {
    } else {
      LoopMonotone(js, Step(js, st, cap).st, cap);
    }
  }

  /** A text that some array is large enough for is parsed alike with any array that holds its tokens, and with a
      smaller one the verdict is NOMEM. */
  lemma Capacity(js: string, cap: nat, room: nat)
    requires Parse(js, room).Next?
    ensures Parse(js, cap) == if |Parse(js, room).st.toks| <= cap then Parse(js, room) else Fail(NoMem)
  {
    hide Loop;
    InitSane();
    LoopCapacity(js, INIT, cap, room);
  }
}
