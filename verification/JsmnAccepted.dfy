// What the tokenizer accepts: the characters it reads, the text of its tokens, and where primitives may stand.
module JsmnAccepted {
  import opened Jsmn
  import opened JsmnStack
  import opened JsmnBrackets
  import opened JsonSyntax
  import UnescapeLaws

  // ---------- the characters ----------

  predicate Known(c: char) {
    || c == '{' || c == '}' || c == '[' || c == ']' || c == ':' || c == ',' || c == '\"'
    || White(c) || LiteralStart(c)
  }

  lemma StepKnown(js: string, st: State, cap: nat)
    requires Sane(st) && !AtEnd(js, st.pos) && Step(js, st, cap).Next?
    ensures Known(js[st.pos])
  {
    hide WalkUp, Grow, ScanString, ScanPrimitive, PrimitiveMisplaced;
  }

  lemma {:induction false} LoopKnown(js: string, st: State, cap: nat, at: nat)
    requires Sane(st) && Loop(js, st, cap).Next? && JsmnBrackets.Reads(js, st.pos, at)
    ensures Known(js[at])
    decreases |js| - st.pos
  {
    hide Step, After, Known;
    StepKnown(js, st, cap);
    if st.pos == at {
    } else {
      StepReads(js, st, cap);
      LoopKnown(js, Step(js, st, cap).st, cap, at);
    }
  }

  /** Outside strings and primitives an accepted text has only these characters. */
  lemma ParsedCharacters(js: string, cap: nat, at: nat)
    requires Parse(js, cap).Next? && JsmnBrackets.Reads(js, 0, at)
    ensures js[at] in "{}[]:,\"-0123456789tfn" || js[at] as int in {0x09, 0x0a, 0x0d, 0x20}
  {
    LoopKnown(js, INIT, cap, at);
    Listed(js[at]);
  }

  lemma Listed(c: char)
    requires Known(c)
    ensures c in "{}[]:,\"-0123456789tfn" || c as int in {0x09, 0x0a, 0x0d, 0x20}
  {
    var s := "{}[]:,\"-0123456789tfn";
    assert s[0] == '{' && s[1] == '}' && s[2] == '[' && s[3] == ']' && s[4] == ':' && s[5] == ',' && s[6] == '\"';
    assert s[7] == '-' && s[18] == 't' && s[19] == 'f' && s[20] == 'n';
    if '0' <= c <= '9' { assert s[8 + (c as int - '0' as int)] == c; }
  }

  // ---------- the text of tokens ----------

  /** A string stands between quotes; a primitive is a literal, up to the white space, comma or bracket that ends it. */
  ghost predicate Bodied(js: string, t: Token) {
    && t.kind != Undefined
    && (t.kind == String ==>
          && 0 < t.start <= t.end < |js| && js[t.start - 1] == '\"' && js[t.end] == '\"'
          && Escaped(js[t.start..t.end]))
    && (t.kind == Primitive ==>
          && 0 <= t.start < t.end < |js| && LiteralText(js[t.start..t.end])
          && (White(js[t.end]) || js[t.end] == ',' || js[t.end] == ']' || js[t.end] == '}'))
  }

  ghost predicate AllBodied(js: string, toks: seq<Token>) {
    forall i :: 0 <= i < |toks| ==> Bodied(js, toks[i])
  }

  lemma {:induction false} ScannedParts(js: string, pos: nat)
    requires ScanPrimitive(js, pos).Found?
    ensures forall k :: pos <= k < ScanPrimitive(js, pos).at ==> LiteralPart(js[k])
    ensures EndsPrimitive(js[ScanPrimitive(js, pos).at])
    decreases |js| - pos
  {
    if EndsPrimitive(js[pos]) {
    } else {
      ScannedParts(js, pos + 1);
    }
  }

  lemma PrimitiveBodied(js: string, pos: nat, parent: int, size: nat)
    requires !AtEnd(js, pos) && StartsPrimitive(js[pos]) && ScanPrimitive(js, pos).Found?
    ensures Bodied(js, Token(Primitive, pos, ScanPrimitive(js, pos).at, size, parent))
  {
    ScannedParts(js, pos);
    PrimitiveAdvances(js, pos);
  }

  lemma StringBodied(js: string, pos: nat, parent: int, size: nat)
    requires !AtEnd(js, pos) && js[pos] == '\"' && ScanString(js, pos + 1).Found?
    ensures Bodied(js, Token(String, pos + 1, ScanString(js, pos + 1).at, size, parent))
  {
    UnescapeLaws.ScannedEscaped(js, pos + 1);
  }

  /** Counting a child changes nothing here. */
  lemma GrownBodied(js: string, toks: seq<Token>, super: int, t: Token)
    requires AllBodied(js, toks) && -1 <= super < |toks| && Bodied(js, t)
    ensures AllBodied(js, Grow(toks, super) + [t])
  {
    hide Escaped, LiteralText;
    var r := Grow(toks, super) + [t];
    forall i | 0 <= i < |r| ensures Bodied(js, r[i]) {
      if i < |toks| { assert Bodied(js, toks[i]); }
    }
  }

  lemma ClosedBodied(js: string, st: State, kind: Kind)
    requires Sane(st) && AllBodied(js, st.toks) && (kind == Object || kind == Array) && Close(st, kind).Next?
    ensures AllBodied(js, Close(st, kind).st.toks)
  {
    hide Escaped, LiteralText, WalkUp;
  }

  lemma StepBodied(js: string, st: State, cap: nat)
    requires Sane(st) && !AtEnd(js, st.pos) && Step(js, st, cap).Next? && AllBodied(js, st.toks)
    ensures AllBodied(js, Step(js, st, cap).st.toks)
  {
    hide Bodied, ScanString, ScanPrimitive, Close, Grow, PrimitiveMisplaced;
    var c := js[st.pos];
    if c == '{' || c == '[' {
      var t := Token(if c == '{' then Object else Array, st.pos, -1, 0, st.super);
      OpenBodied(js, t);
      GrownBodied(js, st.toks, st.super, t);
    } else if c == '}' || c == ']' {
      ClosedBodied(js, st, if c == '}' then Object else Array);
    } else if c == '\"' {
      StringStep(js, st, cap);
      StringBodied(js, st.pos, st.super, 0);
      GrownBodied(js, st.toks, st.super, Token(String, st.pos + 1, ScanString(js, st.pos + 1).at, 0, st.super));
    } else if StartsPrimitive(c) {
      PrimitiveStep(js, st, cap);
      PrimitiveBodied(js, st.pos, st.super, 0);
      GrownBodied(js, st.toks, st.super, Token(Primitive, st.pos, ScanPrimitive(js, st.pos).at, 0, st.super));
    }
  }

  lemma OpenBodied(js: string, t: Token)
    requires t.kind == Object || t.kind == Array
    ensures Bodied(js, t)
  {
  }

  lemma {:induction false} LoopBodied(js: string, st: State, cap: nat)
    requires Sane(st) && AllBodied(js, st.toks) && Loop(js, st, cap).Next?
    ensures AllBodied(js, Loop(js, st, cap).st.toks)
    decreases |js| - st.pos
  {
    hide Step, Bodied;
    if AtEnd(js, st.pos) {
    } else {
      StepBodied(js, st, cap);
      LoopBodied(js, Step(js, st, cap).st, cap);
    }
  }

  /** Every token of an accepted text has the text its kind asks for. */
  lemma ParsedBodies(js: string, cap: nat, i: nat)
    requires Parse(js, cap).Next? && i < |Parse(js, cap).st.toks|
    ensures Bodied(js, Parse(js, cap).st.toks[i])
  {
    hide Bodied, Loop;
    LoopBodied(js, INIT, cap);
  }

  // ---------- where primitives stand ----------

  /** A primitive is no member of an object, and the first child of its key. */
  ghost predicate Owned(toks: seq<Token>, i: nat)
    requires i < |toks|
  {
    var p := toks[i].parent;
    toks[i].kind == Primitive && 0 <= p < |toks| ==>
      toks[p].kind != Object && (toks[p].kind == String ==> forall j :: 0 <= j < i ==> toks[j].parent != p)
  }

  ghost predicate AllOwned(toks: seq<Token>) {
    forall i :: 0 <= i < |toks| ==> Owned(toks, i)
  }

  lemma {:induction false} Childless(toks: seq<Token>, p: int)
    requires Children(toks, p) == 0
    ensures forall j :: 0 <= j < |toks| ==> toks[j].parent != p
  {
    if toks == [] {
    } else {
      var k := |toks| - 1;
      Childless(toks[..k], p);
      forall j | 0 <= j < |toks| ensures toks[j].parent != p {
        if j < k { assert toks[..k][j] == toks[j]; }
      }
    }
  }

  /** Kinds and parents stay as they are. */
  ghost predicate Same(a: seq<Token>, b: seq<Token>) {
    |a| <= |b| && forall i :: 0 <= i < |a| ==> b[i].kind == a[i].kind && b[i].parent == a[i].parent
  }

  lemma StepSame(js: string, st: State, cap: nat)
    requires Sane(st) && !AtEnd(js, st.pos) && Step(js, st, cap).Next?
    ensures var a, b := st.toks, Step(js, st, cap).st.toks;
      Same(a, b) && |b| <= |a| + 1 && (|b| == |a| + 1 ==> b[|a|].parent == st.super)
      && (|b| == |a| + 1 && b[|a|].kind == Primitive ==> !PrimitiveMisplaced(st))
  {
    hide ScanString, ScanPrimitive;
  }

  lemma StepOwned(js: string, st: State, cap: nat)
    requires Inv(st) && !AtEnd(js, st.pos) && Step(js, st, cap).Next? && AllOwned(st.toks)
    ensures AllOwned(Step(js, st, cap).st.toks)
  {
    hide Step, OnChain, Nested, Children;
    StepSame(js, st, cap);
    var a, b := st.toks, Step(js, st, cap).st.toks;
    forall i | 0 <= i < |b| ensures Owned(b, i) {
      if i < |a| {
        assert Owned(a, i) && a[i].parent < i;
      } else if b[i].kind == Primitive && st.super >= 0 && a[st.super].kind == String {
        Childless(a, st.super);
      }
    }
  }

  lemma {:induction false} LoopOwned(js: string, st: State, cap: nat)
    requires Inv(st) && AllOwned(st.toks) && Loop(js, st, cap).Next?
    ensures AllOwned(Loop(js, st, cap).st.toks)
    decreases |js| - st.pos
  {
    hide Step, Inv, Owned;
    InvSane(st);
    if AtEnd(js, st.pos) {
    } else {
      StepKeeps(js, st, cap);
      StepOwned(js, st, cap);
      LoopOwned(js, Step(js, st, cap).st, cap);
    }
  }

  /** In an accepted text no primitive is a key or a second value of its key. */
  lemma ParsedPrimitives(js: string, cap: nat, i: nat)
    requires Parse(js, cap).Next? && i < |Parse(js, cap).st.toks| && Parse(js, cap).st.toks[i].kind == Primitive
    ensures var toks := Parse(js, cap).st.toks;
      var p := toks[i].parent;
      -1 <= p < i && (p >= 0 ==> toks[p].kind != Object)
      && (p >= 0 && toks[p].kind == String ==> forall j :: 0 <= j < i ==> toks[j].parent != p)
  {
    hide Loop;
    InitInv();
    LoopKeeps(js, INIT, cap);
    LoopOwned(js, INIT, cap);
    assert Owned(Parse(js, cap).st.toks, i);
  }
}
