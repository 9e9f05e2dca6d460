// Tokenizing JSON text with any white space: the tokens are the preorder flattening
// if the members of all objects are separated by commas.  JsonFaults.dfy has the converse.
module JsonTokens {
  import opened Jsmn
  import opened JsonSyntax

  // ---------- text in place ----------

  ghost predicate At(js: string, pos: nat, t: string) {
    pos + |t| <= |js| && js[pos..pos + |t|] == t
  }

  lemma AtSplit(js: string, pos: nat, a: string, b: string)
    requires At(js, pos, a + b)
    ensures At(js, pos, a) && At(js, pos + |a|, b)
  {
    assert js[pos..pos + |a|] == (a + b)[..|a|];
    assert js[pos + |a|..pos + |a| + |b|] == (a + b)[|a|..];
  }

  lemma AtChar(js: string, pos: nat, t: string, k: nat)
    requires At(js, pos, t) && k < |t|
    ensures pos + k < |js| && js[pos + k] == t[k]
  {
    assert js[pos..pos + |t|][k] == t[k];
  }

  lemma AtTail(js: string, pos: nat, t: string, k: nat)
    requires At(js, pos, t) && k <= |t|
    ensures At(js, pos + k, t[k..])
  {
    assert t == t[..k] + t[k..];
    AtSplit(js, pos, t[..k], t[k..]);
  }

  // ---------- scanning ----------

  lemma {:induction false} ScanEscaped(js: string, pos: nat, s: string)
    requires At(js, pos, s) && Escaped(s)
    requires pos + |s| < |js| && js[pos + |s|] == '\"'
    ensures ScanString(js, pos) == Found(pos + |s|)
    decreases |s|
  {
    hide At, Escaped;
    if s == [] {
    } else {
      var k := ScanOne(js, pos, s);
      AtTail(js, pos, s, k);
      ScanEscaped(js, pos + k, s[k..]);
    }
  }

  /** Past one character or escape sequence. */
  lemma ScanOne(js: string, pos: nat, s: string) returns (k: nat)
    requires At(js, pos, s) && Escaped(s) && s != []
    ensures 0 < k <= |s| && Escaped(s[k..]) && ScanString(js, pos) == ScanString(js, pos + k)
  {
    hide At, ScanHex;
    AtChar(js, pos, s, 0);
    k := 1;
    if s[0] == '\\' {
      AtChar(js, pos, s, 1);
      if IsSimpleEscape(s[1]) {
        k := 2;
      } else {
        HexEscaped(js, pos, s);
        k := 6;
      }
    }
  }

  lemma HexEscaped(js: string, pos: nat, s: string)
    requires At(js, pos, s) && |s| >= 6 && IsHex(s[2]) && IsHex(s[3]) && IsHex(s[4]) && IsHex(s[5])
    ensures ScanHex(js, pos + 2, 4) == Found(pos + 6)
  {
    AtChar(js, pos, s, 2);
    AtChar(js, pos, s, 3);
    AtChar(js, pos, s, 4);
    AtChar(js, pos, s, 5);
    assert ScanHex(js, pos + 6, 0) == Found(pos + 6);
    assert ScanHex(js, pos + 5, 1) == Found(pos + 6);
    assert ScanHex(js, pos + 4, 2) == Found(pos + 6);
    assert ScanHex(js, pos + 3, 3) == Found(pos + 6);
  }

  lemma {:induction false} ScanLiteral(js: string, pos: nat, s: string)
    requires At(js, pos, s) && forall i :: 0 <= i < |s| ==> 32 <= s[i] as int < 127 && !EndsPrimitive(s[i])
    requires pos + |s| < |js| && EndsPrimitive(js[pos + |s|])
    ensures ScanPrimitive(js, pos) == Found(pos + |s|)
    decreases |s|
  {
    if s == [] {
    } else {
      AtChar(js, pos, s, 0);
      AtTail(js, pos, s, 1);
      ScanLiteral(js, pos + 1, s[1..]);
    }
  }

  // ---------- the loop across each piece of text ----------

  lemma OneStep(js: string, st: State, t: State, cap: nat)
    requires Sane(st) && !AtEnd(js, st.pos) && Step(js, st, cap) == Next(t)
    ensures Sane(t) && Loop(js, st, cap) == Loop(js, t, cap)
  {
  }

  lemma SpaceStep(js: string, st: State, cap: nat)
    requires Sane(st) && st.pos < |js| && IsSpace(js[st.pos])
    ensures Loop(js, st, cap) == Loop(js, st.(pos := st.pos + 1), cap)
  {
    OneStep(js, st, st.(pos := st.pos + 1), cap);
  }

  lemma {:induction false} LoopSpaces(js: string, st: State, t: string, cap: nat)
    requires Sane(st) && At(js, st.pos, t) && Spaces(t)
    ensures Sane(st.(pos := st.pos + |t|)) && Loop(js, st, cap) == Loop(js, st.(pos := st.pos + |t|), cap)
    decreases |t|
  {
    hide Loop, Step;
    if t == [] {
      assert st.(pos := st.pos + 0) == st;
    } else {
      AtChar(js, st.pos, t, 0);
      SpaceStep(js, st, cap);
      AtTail(js, st.pos, t, 1);
      LoopSpaces(js, st.(pos := st.pos + 1), t[1..], cap);
    }
  }

  /** The owner after a comma: from a key back to its object. */
  function Owner(st: State, comma: bool): int
    requires Sane(st)
  {
    if comma && st.super != -1 && !IsContainer(st.toks[st.super]) then st.toks[st.super].parent else st.super
  }

  /** Across a gap: white space, and perhaps a comma. */
  lemma LoopGap(js: string, st: State, gap: string, cap: nat)
    requires Sane(st) && At(js, st.pos, gap) && Gap(gap)
    ensures var t := State(st.pos + |gap|, st.toks, Owner(st, HasComma(gap)));
      Sane(t) && Loop(js, st, cap) == Loop(js, t, cap)
  {
    hide Loop, Step, At;
    if HasComma(gap) {
      var k: nat :| k < |gap| && SpacedAt(gap, ',', k);
      LoopAround(js, st, gap, ',', k, cap);
      var s1 := State(st.pos + k, st.toks, st.super);
      LoopComma(js, s1, cap);
      LoopSpaces(js, State(s1.pos + 1, st.toks, Owner(st, true)), gap[k + 1..], cap);
    } else {
      assert Spaces(gap);
      LoopSpaces(js, st, gap, cap);
    }
  }

  /** White space up to a character, and what is left to read after it. */
  lemma LoopAround(js: string, st: State, s: string, c: char, k: nat, cap: nat)
    requires Sane(st) && At(js, st.pos, s) && SpacedAt(s, c, k)
    ensures Loop(js, st, cap) == Loop(js, st.(pos := st.pos + k), cap)
    ensures At(js, st.pos + k, [c]) && At(js, st.pos + k + 1, s[k + 1..])
  {
    hide Loop, Step;
    assert s == s[..k] + ([c] + s[k + 1..]);
    AtSplit(js, st.pos, s[..k], [c] + s[k + 1..]);
    AtSplit(js, st.pos + k, [c], s[k + 1..]);
    LoopSpaces(js, st, s[..k], cap);
  }

  lemma LoopComma(js: string, st: State, cap: nat)
    requires Sane(st) && At(js, st.pos, ",")
    ensures var t := State(st.pos + 1, st.toks, Owner(st, true)); Sane(t) && Loop(js, st, cap) == Loop(js, t, cap)
  {
    AtChar(js, st.pos, ",", 0);
    OneStep(js, st, State(st.pos + 1, st.toks, Owner(st, true)), cap);
  }

  /** A quoted string becomes one token below the owner. */
  lemma LoopString(js: string, st: State, s: string, cap: nat)
    requires Sane(st) && At(js, st.pos, Quoted(s)) && Escaped(s) && |st.toks| < cap
    ensures var t := State(st.pos + |s| + 2, Add(st.toks, st.super, String, st.pos + 1, st.pos + 1 + |s|), st.super);
      Sane(t) && Loop(js, st, cap) == Loop(js, t, cap)
  {
    hide Loop, Step, At, ScanString, Escaped, ParentsBefore, Add;
    AtChar(js, st.pos, Quoted(s), 0);
    AtChar(js, st.pos, Quoted(s), |s| + 1);
    AtSplit(js, st.pos, "\"" + s, "\"");
    AtSplit(js, st.pos, "\"", s);
    ScanEscaped(js, st.pos + 1, s);
    StringStep(js, st, cap);
    var t := State(st.pos + |s| + 2, Add(st.toks, st.super, String, st.pos + 1, st.pos + 1 + |s|), st.super);
    OneStep(js, st, t, cap);
  }

  lemma LoopLiteral(js: string, st: State, s: string, cap: nat)
    requires Sane(st) && At(js, st.pos, s) && LiteralText(s) && |st.toks| < cap && !PrimitiveMisplaced(st)
    requires st.pos + |s| < |js| && EndsPrimitive(js[st.pos + |s|])
    ensures var t := State(st.pos + |s|, Add(st.toks, st.super, Primitive, st.pos, st.pos + |s|), st.super);
      Sane(t) && Loop(js, st, cap) == Loop(js, t, cap)
  {
    AtChar(js, st.pos, s, 0);
    ScanLiteral(js, st.pos, s);
    OneStep(js, st, State(st.pos + |s|, Add(st.toks, st.super, Primitive, st.pos, st.pos + |s|), st.super), cap);
  }

  lemma LoopOpen(js: string, st: State, kind: Kind, cap: nat)
    requires Sane(st) && (kind == Array || kind == Object) && |st.toks| < cap
    requires At(js, st.pos, if kind == Object then "{" else "[")
    ensures var t := State(st.pos + 1, Add(st.toks, st.super, kind, st.pos, -1), |st.toks|);
      Sane(t) && Loop(js, st, cap) == Loop(js, t, cap)
  {
    AtChar(js, st.pos, if kind == Object then "{" else "[", 0);
    OneStep(js, st, State(st.pos + 1, Add(st.toks, st.super, kind, st.pos, -1), |st.toks|), cap);
  }

  /** Everything after the open container `i` is closed and hangs below it. */
  ghost predicate ClosedAbove(toks: seq<Token>, i: nat) {
    i < |toks| && IsOpen(toks[i]) && forall j :: i < j < |toks| ==> !IsOpen(toks[j]) && toks[j].parent >= i
  }

  lemma {:induction false} WalkToContainer(toks: seq<Token>, i: nat, t: nat)
    requires ParentsBefore(toks) && ClosedAbove(toks, i) && i <= t < |toks|
    ensures WalkUp(toks, t) == AtOpen(i)
    decreases t
  {
    if t <= i {
    } else {
      WalkToContainer(toks, i, toks[t].parent);
    }
  }

  lemma LoopClose(js: string, st: State, i: nat, cap: nat)
    requires Sane(st) && ClosedAbove(st.toks, i) && IsContainer(st.toks[i])
    requires At(js, st.pos, if st.toks[i].kind == Object then "}" else "]")
    ensures var t := State(st.pos + 1, st.toks[i := st.toks[i].(end := st.pos + 1)], st.toks[i].parent);
      Sane(t) && Loop(js, st, cap) == Loop(js, t, cap)
  {
    AtChar(js, st.pos, if st.toks[i].kind == Object then "}" else "]", 0);
    WalkToContainer(st.toks, i, |st.toks| - 1);
    OneStep(js, st, State(st.pos + 1, st.toks[i := st.toks[i].(end := st.pos + 1)], st.toks[i].parent), cap);
  }

  lemma LoopColon(js: string, st: State, colon: string, cap: nat)
    requires Sane(st) && At(js, st.pos, colon) && Spaced(colon, ':')
    ensures var t := State(st.pos + |colon|, st.toks, |st.toks| - 1);
      Sane(t) && Loop(js, st, cap) == Loop(js, t, cap)
  {
    hide Loop, Step, At, ParentsBefore, SpacedAt, Spaces;
    var k: nat :| k < |colon| && SpacedAt(colon, ':', k);
    AfterSpaces(colon, ':', k);
    LoopAround(js, st, colon, ':', k, cap);
    ColonStep(js, st.(pos := st.pos + k), cap);
    LoopSpaces(js, State(st.pos + k + 1, st.toks, |st.toks| - 1), colon[k + 1..], cap);
  }

  lemma AfterSpaces(s: string, c: char, k: nat)
    requires SpacedAt(s, c, k)
    ensures k < |s| && Spaces(s[k + 1..])
  {
  }

  lemma ColonStep(js: string, st: State, cap: nat)
    requires Sane(st) && At(js, st.pos, ":")
    ensures var t := State(st.pos + 1, st.toks, |st.toks| - 1); Sane(t) && Loop(js, st, cap) == Loop(js, t, cap)
  {
    AtChar(js, st.pos, ":", 0);
    OneStep(js, st, State(st.pos + 1, st.toks, |st.toks| - 1), cap);
  }

  // ---------- the loop across whole values ----------

  /** `n` more children for the owner. */
  function GrowBy(toks: seq<Token>, i: int, n: nat): (r: seq<Token>)
    requires -1 <= i < |toks|
    ensures |r| == |toks|
  {
    if i == -1 then toks else toks[i := toks[i].(size := toks[i].size + n)]
  }

  /** The state `len` characters on, with `n` more children for the owner and `more` tokens. */
  function Extend(st: State, n: nat, len: nat, more: seq<Token>): State
    requires Sane(st)
  {
    State(st.pos + len, GrowBy(st.toks, st.super, n) + more, st.super)
  }

  /** Tokens of a value are closed, and hang below its parent or below each other. */
  ghost predicate Below(t: seq<Token>, idx: nat, parent: int) {
    forall j :: 0 <= j < |t| ==> !IsOpen(t[j]) && t[j].start != -1 && (t[j].parent == parent || idx <= t[j].parent)
  }

  lemma {:induction false} TokensBelow(v: Syntax, at: nat, idx: nat, parent: int)
    ensures Below(Tokens(v, at, idx, parent), idx, parent)
    decreases v, 0
  {
    if v.Node? { EntriesBelow(v.entries, at + 1, idx + 1, idx); }
  }

  lemma {:induction false} EntriesBelow(entries: seq<Entry>, at: nat, idx: nat, parent: int)
    ensures Below(EntriesTokens(entries, at, idx, parent), idx, parent)
    decreases entries, 1
  {
    hide EntryTokens, EntrySource, EntryCount;
    if entries == [] {
    } else {
      var start, next := at + |entries[0].gap|, idx + EntryCount(entries[0]);
      var rest := start + |EntrySource(entries[0])|;
      EntryBelow(entries[0], start, idx, parent);
      EntriesBelow(entries[1..], rest, next, parent);
      BelowJoin(EntryTokens(entries[0], start, idx, parent), EntriesTokens(entries[1..], rest, next, parent),
                idx, next, parent);
    }
  }

  lemma BelowJoin(a: seq<Token>, b: seq<Token>, idx: nat, next: nat, parent: int)
    requires Below(a, idx, parent) && Below(b, next, parent) && idx <= next
    ensures Below(a + b, idx, parent)
  {
  }

  lemma {:induction false} EntryBelow(e: Entry, at: nat, idx: nat, parent: int)
    ensures Below(EntryTokens(e, at, idx, parent), idx, parent)
    decreases e, 0
  {
    if e.Field? {
      TokensBelow(e.value, at + |Prefix(e)|, idx + 1, idx);
    } else {
      TokensBelow(e.value, at, idx, parent);
    }
  }

  /** A literal is safe where its end can be seen, in an array or below a key without value. */
  ghost predicate LiteralSafe(js: string, st: State, v: Syntax)
    requires Sane(st)
  {
    v.Literal? ==> !PrimitiveMisplaced(st) && Ended(js, st.pos + |Source(v)|)
  }

  /** A primitive ends before this character. */
  predicate Ended(js: string, at: nat) {
    at < |js| && EndsPrimitive(js[at])
  }

  /** Across a value: its tokens are appended, its owner has one more child. */
  lemma {:induction false} LoopValue(js: string, st: State, v: Syntax, cap: nat)
    requires Sane(st) && At(js, st.pos, Source(v)) && Lexical(v) && Separated(v)
    requires |st.toks| + Count(v) <= cap && LiteralSafe(js, st, v)
    ensures var t := Extend(st, 1, |Source(v)|, Tokens(v, st.pos, |st.toks|, st.super));
      Sane(t) && Loop(js, st, cap) == Loop(js, t, cap)
    decreases v, 0
  {
    hide Loop, Step;
    match v
    case Quote(s) => LoopString(js, st, s, cap);
    case Literal(t) => LoopLiteral(js, st, t, cap);
    case Node(_, _, _) => LoopNode(js, st, v, cap);
  }

  /** The text of a container, cut at its brackets. */
  lemma NodeText(js: string, pos: nat, v: Syntax)
    requires v.Node? && At(js, pos, Source(v))
    ensures var inner := pos + 1 + |EntriesSource(v.entries)|;
      && At(js, pos, Opener(v.record)) && At(js, pos + 1, EntriesSource(v.entries))
      && At(js, inner, v.tail) && At(js, inner + |v.tail|, Closer(v.record))
      && |Source(v)| == inner + |v.tail| + 1 - pos
  {
    hide *;
    NodeSource(v);
    AtSplit(js, pos, Opener(v.record) + EntriesSource(v.entries), v.tail + Closer(v.record));
    AtSplit(js, pos, Opener(v.record), EntriesSource(v.entries));
    AtSplit(js, pos + 1 + |EntriesSource(v.entries)|, v.tail, Closer(v.record));
  }

  lemma NodeSource(v: Syntax)
    requires v.Node?
    ensures Source(v) == Opener(v.record) + EntriesSource(v.entries) + (v.tail + Closer(v.record))
    ensures |Opener(v.record)| == |Closer(v.record)| == 1
    ensures |Source(v)| == 2 + |EntriesSource(v.entries)| + |v.tail|
  {
    hide EntriesSource;
  }

  /** Inside container `p`; `need`: a comma must come first, since the last key still owns what follows. */
  ghost predicate Inside(st: State, p: nat, record: bool, need: bool) {
    && Sane(st) && p < |st.toks| && st.toks[p].kind == KindOf(record) && (need ==> record)
    && if need then
         && 0 <= st.super && st.toks[st.super].kind == String
         && st.toks[st.super].parent == p && st.toks[st.super].size > 0
       else st.super == p
  }

  /** The state inside a container just opened. */
  function OpenState(st: State, record: bool): (t: State)
    requires Sane(st)
    ensures t.pos == st.pos + 1 && |t.toks| == |st.toks| + 1
  {
    State(st.pos + 1, Add(st.toks, st.super, KindOf(record), st.pos, -1), |st.toks|)
  }

  lemma Opened(st: State, record: bool)
    requires Sane(st)
    ensures Inside(OpenState(st, record), |st.toks|, record, false)
  {
  }

  /** The state before the closing bracket and after it. */
  lemma Closed(st: State, record: bool, n: nat, inner: seq<Token>, end: int)
    requires Sane(st) && Below(inner, |st.toks| + 1, |st.toks|)
    ensures var i, t := |st.toks|, GrowBy(OpenState(st, record).toks, |st.toks|, n) + inner;
      && ClosedAbove(t, i) && t[i].kind == KindOf(record) && IsContainer(t[i]) && t[i].parent == st.super
      && t[i := t[i].(end := end)]
         == GrowBy(st.toks, st.super, 1) + ([Token(KindOf(record), st.pos, end, n, st.super)] + inner)
  {
  }

  lemma {:induction false} LoopNode(js: string, st: State, v: Syntax, cap: nat)
    requires Sane(st) && v.Node? && At(js, st.pos, Source(v)) && Lexical(v) && Separated(v)
    requires |st.toks| + Count(v) <= cap
    ensures var t := Extend(st, 1, |Source(v)|, Tokens(v, st.pos, |st.toks|, st.super));
      Sane(t) && Loop(js, st, cap) == Loop(js, t, cap)
    decreases v.entries, 2
  {
    hide *;
    var i, record, entries := |st.toks|, v.record, v.entries;
    NodeParts(v);
    LoopOpened(js, st, v, cap);
    NodeText(js, st.pos, v);
    Opened(st, record);
    var s1 := OpenState(st, record);
    var end := s1.pos + |EntriesSource(entries)|;
    TailEnds(js, end, v.tail, v.record);
    var super := LoopEntries(js, s1, i, entries, record, true, false, cap);
    var toks := EntriesTokens(entries, s1.pos, i + 1, i);
    var s2 := State(end, GrowBy(s1.toks, i, |entries|) + toks, super);
    LoopSpaces(js, s2, v.tail, cap);
    EntriesBelow(entries, s1.pos, i + 1, i);
    LoopClosed(js, s2.(pos := end + |v.tail|), st, v, toks, cap);
  }

  lemma NodeParts(v: Syntax)
    requires v.Node?
    ensures Lexical(v) ==> Spaces(v.tail) && LexicalEntries(v.entries, v.record, true)
    ensures Separated(v) ==> SeparatedEntries(v.entries, v.record, false)
    ensures Count(v) == 1 + EntriesCount(v.entries)
  {
  }

  lemma LoopOpened(js: string, st: State, v: Syntax, cap: nat)
    requires Sane(st) && v.Node? && At(js, st.pos, Source(v)) && |st.toks| < cap
    ensures Sane(OpenState(st, v.record)) && Loop(js, st, cap) == Loop(js, OpenState(st, v.record), cap)
  {
    hide Loop, Step, At, ParentsBefore, Add, Source;
    NodeText(js, st.pos, v);
    LoopOpen(js, st, KindOf(v.record), cap);
  }

  lemma LoopClosed(js: string, st: State, before: State, v: Syntax, inner: seq<Token>, cap: nat)
    requires Sane(before) && Sane(st) && v.Node? && At(js, st.pos, Closer(v.record))
    requires Below(inner, |before.toks| + 1, |before.toks|)
    requires st.toks == GrowBy(OpenState(before, v.record).toks, |before.toks|, |v.entries|) + inner
    requires inner == EntriesTokens(v.entries, before.pos + 1, |before.toks| + 1, |before.toks|)
    requires st.pos + 1 == before.pos + |Source(v)|
    ensures var t := Extend(before, 1, |Source(v)|, Tokens(v, before.pos, |before.toks|, before.super));
      Sane(t) && Loop(js, st, cap) == Loop(js, t, cap)
  {
    hide Loop, Step, At, GrowBy, ParentsBefore, ClosedAbove, Below, Source, EntriesTokens, OpenState;
    Closed(before, v.record, |v.entries|, inner, st.pos + 1);
    LoopClose(js, st, |before.toks|, cap);
  }

  /** A primitive before the end of a container ends there. */
  lemma TailEnds(js: string, at: nat, tail: string, record: bool)
    requires At(js, at, tail) && At(js, at + |tail|, Closer(record)) && Spaces(tail)
    ensures Ended(js, at)
  {
    AtChar(js, at + |tail|, Closer(record), 0);
    if tail != "" { AtChar(js, at, tail, 0); }
  }

  /** Across the entries of container `p`; `super` is the container itself or the last key. */
  lemma {:induction false} LoopEntries(js: string, st: State, p: nat, entries: seq<Entry>, record: bool, first: bool,
                                       need: bool, cap: nat)
    returns (super: int)
    requires Inside(st, p, record, need) && At(js, st.pos, EntriesSource(entries))
    requires |st.toks| + EntriesCount(entries) <= cap
    requires LexicalEntries(entries, record, first) && SeparatedEntries(entries, record, need)
    requires Ended(js, st.pos + |EntriesSource(entries)|)
    ensures var t := State(st.pos + |EntriesSource(entries)|,
                           GrowBy(st.toks, p, |entries|) + EntriesTokens(entries, st.pos, |st.toks|, p), super);
      Sane(t) && Loop(js, st, cap) == Loop(js, t, cap)
    decreases entries, 1
  {
    hide *;
    if entries == [] {
      super := st.super;
      NoEntries(st, p, record, need);
    } else {
      EntriesParts(js, st, p, entries, record, first, need);
      var e, rest := entries[0], entries[1..];
      LoopGap(js, st, e.gap, cap);
      var s1 := State(st.pos + |e.gap|, st.toks, p);
      NextEnds(js, s1.pos + |EntrySource(e)|, rest, record);
      LoopEntry(js, s1, p, e, record, cap);
      var s2 := EntryState(s1, e);
      EntriesCompose(st, p, entries, record, need);
      super := LoopEntries(js, s2, p, rest, record, false, record, cap);
    }
  }

  /** The state after an entry of the owner. */
  function EntryState(st: State, e: Entry): (t: State)
    requires Sane(st)
    ensures t.pos == st.pos + |EntrySource(e)|
  {
    State(st.pos + |EntrySource(e)|, GrowBy(st.toks, st.super, 1) + EntryTokens(e, st.pos, |st.toks|, st.super),
          if e.Field? then |st.toks| else st.super)
  }

  lemma NoEntries(st: State, p: nat, record: bool, need: bool)
    requires Inside(st, p, record, need)
    ensures Sane(st)
    ensures st == State(st.pos + |EntriesSource([])|,
                        GrowBy(st.toks, p, 0) + EntriesTokens([], st.pos, |st.toks|, p), st.super)
  {
  }

  /** The first entry and the others: text, conditions, and the owner after the gap. */
  lemma EntriesParts(js: string, st: State, p: nat, entries: seq<Entry>, record: bool, first: bool, need: bool)
    requires entries != [] && Inside(st, p, record, need) && At(js, st.pos, EntriesSource(entries))
    requires LexicalEntries(entries, record, first)
    ensures var e, rest := entries[0], entries[1..];
      && At(js, st.pos, e.gap) && At(js, st.pos + |e.gap|, EntrySource(e))
      && At(js, st.pos + |e.gap| + |EntrySource(e)|, EntriesSource(rest))
      && |EntriesSource(entries)| == |e.gap| + |EntrySource(e)| + |EntriesSource(rest)|
      && EntriesCount(entries) == EntryCount(e) + EntriesCount(rest)
      && Gap(e.gap) && LexicalEntry(e, record) && e.Field? == record && LexicalEntries(rest, record, false)
    ensures Sane(st) && (need ==> record)
    ensures (need ==> HasComma(entries[0].gap)) ==> Owner(st, HasComma(entries[0].gap)) == p
    ensures SeparatedEntries(entries, record, need) <==>
      && (need ==> HasComma(entries[0].gap)) && SeparatedEntry(entries[0])
      && SeparatedEntries(entries[1..], record, record)
    ensures Inside(State(st.pos + |entries[0].gap|, st.toks, p), p, record, false)
  {
    hide EntrySource, ParentsBefore, Lexical, Separated;
    var e, rest := entries[0], entries[1..];
    AtSplit(js, st.pos, e.gap + EntrySource(e), EntriesSource(rest));
    AtSplit(js, st.pos, e.gap, EntrySource(e));
  }

  /** After an entry comes a gap or the end of the container. */
  lemma NextEnds(js: string, at: nat, rest: seq<Entry>, record: bool)
    requires At(js, at, EntriesSource(rest)) && LexicalEntries(rest, record, false)
    requires Ended(js, at + |EntriesSource(rest)|)
    ensures Ended(js, at)
  {
    if rest != [] {
      var gap := rest[0].gap;
      assert EntriesSource(rest)[0] == gap[0];
      AtChar(js, at, EntriesSource(rest), 0);
      GapStarts(gap);
    }
  }

  lemma GapStarts(gap: string)
    requires Gap(gap) && gap != ""
    ensures EndsPrimitive(gap[0])
  {
    if !Spaces(gap) {
      var k: nat :| k < |gap| && SpacedAt(gap, ',', k);
      if k > 0 { assert gap[0] == gap[..k][0]; }
    }
  }

  /** After the first entry, still inside `p`; its tokens and the others' are the tokens of all. */
  lemma EntriesCompose(st: State, p: nat, entries: seq<Entry>, record: bool, need: bool)
    requires Inside(st, p, record, need) && entries != [] && entries[0].Field? == record
    requires var s1 := State(st.pos + |entries[0].gap|, st.toks, p); Sane(s1) && Sane(EntryState(s1, entries[0]))
    ensures var e, rest := entries[0], entries[1..];
      var s2 := EntryState(State(st.pos + |e.gap|, st.toks, p), e);
      && Inside(s2, p, record, record) && |s2.toks| == |st.toks| + EntryCount(e)
      && GrowBy(s2.toks, p, |rest|) + EntriesTokens(rest, s2.pos, |s2.toks|, p)
         == GrowBy(st.toks, p, |entries|) + EntriesTokens(entries, st.pos, |st.toks|, p)
  {
    hide ParentsBefore, Tokens, Source, EntrySource, EntryTokens, GrowBy, EntryCount;
    EntryInside(st, p, entries[0], record, need);
    var e, rest, at := entries[0], entries[1..], st.pos + |entries[0].gap|;
    var own := EntryTokens(e, at, |st.toks|, p);
    GrowAppend(st.toks, p, own, |rest|, EntriesTokens(rest, at + |EntrySource(e)|, |st.toks| + |own|, p));
  }

  lemma EntryInside(st: State, p: nat, e: Entry, record: bool, need: bool)
    requires Inside(st, p, record, need) && e.Field? == record
    requires var s1 := State(st.pos + |e.gap|, st.toks, p); Sane(s1) && Sane(EntryState(s1, e))
    ensures Inside(EntryState(State(st.pos + |e.gap|, st.toks, p), e), p, record, record)
  {
    hide ParentsBefore, Tokens, Source, EntrySource, EntryTokens;
    if record { EntryKey(State(st.pos + |e.gap|, st.toks, p), e); }
  }

  lemma EntryKey(st: State, e: Entry)
    requires Sane(st) && 0 <= st.super && e.Field?
    ensures var t := EntryState(st, e).toks[|st.toks|]; t.kind == String && t.parent == st.super && t.size > 0
  {
  }

  lemma GrowAppend(toks: seq<Token>, p: nat, a: seq<Token>, n: nat, b: seq<Token>)
    requires p < |toks|
    ensures GrowBy(GrowBy(toks, p, 1) + a, p, n) + b == GrowBy(toks, p, n + 1) + (a + b)
  {
  }

  /** Across one entry: key and colon, if any, and the value. */
  lemma {:induction false} LoopEntry(js: string, st: State, p: nat, e: Entry, record: bool, cap: nat)
    requires Inside(st, p, record, false) && At(js, st.pos, EntrySource(e)) && |st.toks| + EntryCount(e) <= cap
    requires LexicalEntry(e, record) && SeparatedEntry(e) && Ended(js, st.pos + |EntrySource(e)|)
    ensures Sane(st) && Sane(EntryState(st, e)) && Loop(js, st, cap) == Loop(js, EntryState(st, e), cap)
    decreases e, 0
  {
    hide *;
    EntryParts(js, st, p, e, record);
    if e.Field? {
      LoopKey(js, st, e, cap);
      LoopValue(js, KeyState(st, e), e.value, cap);
      FieldCompose(st, e);
    } else {
      LoopValue(js, st, e.value, cap);
      ItemCompose(st, e);
    }
  }

  /** After key and colon the key, a new token, owns what follows. */
  function KeyState(st: State, e: Entry): (t: State)
    requires Sane(st) && e.Field?
    ensures t.pos == st.pos + |Prefix(e)| && |t.toks| == |st.toks| + 1 && t.super == |st.toks|
  {
    State(st.pos + |Prefix(e)|, Add(st.toks, st.super, String, st.pos + 1, st.pos + 1 + |e.key|), |st.toks|)
  }

  lemma LoopKey(js: string, st: State, e: Entry, cap: nat)
    requires Sane(st) && e.Field? && At(js, st.pos, Prefix(e)) && Escaped(e.key) && Spaced(e.colon, ':')
    requires |st.toks| < cap
    ensures Sane(KeyState(st, e)) && Loop(js, st, cap) == Loop(js, KeyState(st, e), cap)
  {
    hide *;
    KeyParts(st, e);
    AtSplit(js, st.pos, Quoted(e.key), e.colon);
    LoopString(js, st, e.key, cap);
    LoopColon(js, KeyState(st, e).(pos := st.pos + |e.key| + 2, super := st.super), e.colon, cap);
  }

  lemma KeyParts(st: State, e: Entry)
    requires Sane(st) && e.Field?
    ensures Prefix(e) == Quoted(e.key) + e.colon && |Quoted(e.key)| == |e.key| + 2
    ensures KeyState(st, e).toks == Add(st.toks, st.super, String, st.pos + 1, st.pos + 1 + |e.key|)
    ensures -1 <= st.super < |st.toks|
  {
  }

  /** The text and conditions of an entry, cut after key and colon. */
  lemma EntryParts(js: string, st: State, p: nat, e: Entry, record: bool)
    requires Inside(st, p, record, false) && At(js, st.pos, EntrySource(e)) && LexicalEntry(e, record)
    ensures Sane(st) && st.super == p && e.Field? == record && Lexical(e.value)
    ensures Separated(e.value) == SeparatedEntry(e)
    ensures EntryCount(e) == Count(e.value) + if e.Field? then 1 else 0
    ensures |EntrySource(e)| == |Prefix(e)| + |Source(e.value)| && At(js, st.pos + |Prefix(e)|, Source(e.value))
    ensures e.Field? ==> At(js, st.pos, Prefix(e)) && Escaped(e.key) && Spaced(e.colon, ':')
    ensures e.Field? && Sane(KeyState(st, e)) && Ended(js, st.pos + |EntrySource(e)|)
      ==> LiteralSafe(js, KeyState(st, e), e.value)
    ensures !e.Field? ==> Prefix(e) == "" && (Ended(js, st.pos + |EntrySource(e)|) ==> LiteralSafe(js, st, e.value))
  {
    hide Lexical, Separated, Escaped, Spaced, ParentsBefore, Ended, Source;
    AtSplit(js, st.pos, Prefix(e), Source(e.value));
  }

  lemma ItemCompose(st: State, e: Entry)
    requires Sane(st) && !e.Field?
    ensures Extend(st, 1, |Source(e.value)|, Tokens(e.value, st.pos, |st.toks|, st.super)) == EntryState(st, e)
  {
  }

  /** With the value's tokens it is the member. */
  lemma FieldCompose(st: State, e: Entry)
    requires Sane(st) && e.Field? && 0 <= st.super && Sane(KeyState(st, e))
    ensures var k, s2 := |st.toks|, KeyState(st, e);
      Extend(s2, 1, |Source(e.value)|, Tokens(e.value, s2.pos, k + 1, k)) == EntryState(st, e)
  {
    hide ParentsBefore, Tokens, Source, Prefix;
    var k := |st.toks|;
    KeyGrows(st.toks, st.super, Token(String, st.pos + 1, st.pos + 1 + |e.key|, 0, st.super),
             Tokens(e.value, st.pos + |Prefix(e)|, k + 1, k));
  }

  lemma KeyGrows(toks: seq<Token>, super: nat, key: Token, value: seq<Token>)
    requires super < |toks|
    ensures GrowBy(Grow(toks, super) + [key], |toks|, 1) + value
         == GrowBy(toks, super, 1) + ([key.(size := key.size + 1)] + value)
  {
  }
}
