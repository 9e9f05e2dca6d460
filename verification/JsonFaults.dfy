// A member that is not set off by a comma is filed below the key before it: then the
// tokens are not those of the text.
module JsonFaults {
  import opened Jsmn
  import opened JsmnCount
  import opened JsonSyntax
  import opened JsonTokens

  /** Index of the first key whose member is not followed by a comma although another member is. */
  function FaultAt(v: Syntax, idx: nat): nat
    requires Lexical(v) && !Separated(v)
    decreases v, 0
  {
    FaultIn(v.entries, v.record, true, false, 0, idx + 1)
  }

  /** `key` is the index of the key before the entries, if they need a comma in front. */
  function FaultIn(entries: seq<Entry>, record: bool, first: bool, need: bool, key: nat, idx: nat): nat
    requires LexicalEntries(entries, record, first) && !SeparatedEntries(entries, record, need)
    decreases entries, 1
  {
    var e := entries[0];
    if need && !HasComma(e.gap) then key
    else if !SeparatedEntry(e) then FaultInEntry(e, record, idx)
    else FaultIn(entries[1..], record, false, record, idx, idx + EntryCount(e))
  }

  function FaultInEntry(e: Entry, record: bool, idx: nat): nat
    requires LexicalEntry(e, record) && !SeparatedEntry(e)
    decreases e, 0
  {
    FaultAt(e.value, if e.Field? then idx + 1 else idx)
  }

  // ---------- a reader expects a key with one child there ----------

  lemma {:induction false} ShapedFault(toks: seq<Token>, i: nat, parent: int, v: Syntax)
    requires Shaped(toks, i, parent, v) && Lexical(v) && !Separated(v)
    ensures FaultAt(v, i) < |toks| && toks[FaultAt(v, i)].size == 1
    decreases v, 0
  {
    ShapedFaultIn(toks, i + 1, i, v.entries, v.record, true, false, 0);
  }

  lemma {:induction false} ShapedFaultIn(toks: seq<Token>, i: nat, parent: int, entries: seq<Entry>, record: bool,
                                         first: bool, need: bool, key: nat)
    requires ShapedEntries(toks, i, parent, entries, record)
    requires LexicalEntries(entries, record, first) && !SeparatedEntries(entries, record, need)
    requires need ==> key < |toks| && toks[key].size == 1
    ensures var f := FaultIn(entries, record, first, need, key, i); f < |toks| && toks[f].size == 1
    decreases entries, 1
  {
    var e := entries[0];
    if need && !HasComma(e.gap) {
    } else if !SeparatedEntry(e) {
      ShapedFaultInEntry(toks, i, parent, e, record);
    } else {
      ShapedFaultIn(toks, i + EntryCount(e), parent, entries[1..], record, false, record, i);
    }
  }

  lemma {:induction false} ShapedFaultInEntry(toks: seq<Token>, i: nat, parent: int, e: Entry, record: bool)
    requires ShapedEntry(toks, i, parent, e) && LexicalEntry(e, record) && !SeparatedEntry(e)
    ensures var f := FaultInEntry(e, record, i); f < |toks| && toks[f].size == 1
    decreases e, 0
  {
    if e.Field? { ShapedFault(toks, i + 1, i, e.value); } else { ShapedFault(toks, i, parent, e.value); }
  }

  // ---------- sizes never shrink ----------

  lemma StepGrows(js: string, st: State, cap: nat, i: nat)
    requires Sane(st) && !AtEnd(js, st.pos) && Step(js, st, cap).Next? && i < |st.toks|
    ensures var t := Step(js, st, cap).st;
      i < |t.toks| && st.toks[i].kind == t.toks[i].kind && st.toks[i].size <= t.toks[i].size
  {
  }

  lemma {:induction false} LoopGrows(js: string, st: State, cap: nat, i: nat)
    requires Sane(st) && Loop(js, st, cap).Next? && i < |st.toks|
    ensures var t := Loop(js, st, cap).st;
      i < |t.toks| && st.toks[i].kind == t.toks[i].kind && st.toks[i].size <= t.toks[i].size
    decreases |js| - st.pos
  {
    if AtEnd(js, st.pos) {
    } else {
      StepGrows(js, st, cap, i);
      LoopGrows(js, Step(js, st, cap).st, cap, i);
    }
  }

  // ---------- the tokenizer gives it two ----------

  /** If there are tokens at all, token `f` is a string with more than one child. */
  ghost predicate Overfull(r: Outcome, f: nat) {
    r.Next? ==> f < |r.st.toks| && r.st.toks[f].kind == String && r.st.toks[f].size > 1
  }

  lemma {:induction false} LoopFault(js: string, st: State, v: Syntax, cap: nat)
    requires Sane(st) && At(js, st.pos, Source(v)) && Lexical(v) && !Separated(v) && |st.toks| + Count(v) <= cap
    ensures Overfull(Loop(js, st, cap), FaultAt(v, |st.toks|))
    decreases v, 0
  {
    hide *;
    FaultNode(v, |st.toks|);
    NodeParts(v);
    LoopOpened(js, st, v, cap);
    NodeText(js, st.pos, v);
    Opened(st, v.record);
    var s1 := OpenState(st, v.record);
    TailEnds(js, s1.pos + |EntriesSource(v.entries)|, v.tail, v.record);
    LoopFaultIn(js, s1, |st.toks|, v.entries, v.record, true, false, 0, cap);
  }

  lemma FaultNode(v: Syntax, idx: nat)
    requires Lexical(v) && !Separated(v)
    ensures v.Node? && LexicalEntries(v.entries, v.record, true) && !SeparatedEntries(v.entries, v.record, false)
    ensures FaultAt(v, idx) == FaultIn(v.entries, v.record, true, false, 0, idx + 1)
  {
  }

  lemma {:induction false} LoopFaultIn(js: string, st: State, p: nat, entries: seq<Entry>, record: bool, first: bool,
                                       need: bool, key: nat, cap: nat)
    requires Inside(st, p, record, need) && At(js, st.pos, EntriesSource(entries))
    requires |st.toks| + EntriesCount(entries) <= cap
    requires LexicalEntries(entries, record, first) && !SeparatedEntries(entries, record, need)
    requires Ended(js, st.pos + |EntriesSource(entries)|) && (need ==> key == st.super)
    ensures Sane(st) && Overfull(Loop(js, st, cap), FaultIn(entries, record, first, need, key, |st.toks|))
    decreases entries, 1
  {
    hide *;
    FaultFirst(entries, record, first, need, key, |st.toks|);
    EntriesParts(js, st, p, entries, record, first, need);
    var e := entries[0];
    if need && !HasComma(e.gap) {
      LoopMisfiled(js, st, p, e, record, key, cap);
    } else {
      LoopGap(js, st, e.gap, cap);
      var s1 := State(st.pos + |e.gap|, st.toks, p);
      if !SeparatedEntry(e) {
        LoopFaultInEntry(js, s1, p, e, record, cap);
      } else {
        LoopFaultLater(js, st, p, entries, record, first, need, cap);
      }
    }
  }

  /** The fault is beyond the first entry. */
  lemma {:induction false} LoopFaultLater(js: string, st: State, p: nat, entries: seq<Entry>, record: bool,
                                          first: bool, need: bool, cap: nat)
    requires Inside(st, p, record, need) && At(js, st.pos, EntriesSource(entries))
    requires |st.toks| + EntriesCount(entries) <= cap
    requires LexicalEntries(entries, record, first) && Ended(js, st.pos + |EntriesSource(entries)|) && entries != []
    requires (need ==> HasComma(entries[0].gap)) && SeparatedEntry(entries[0])
    requires LexicalEntries(entries[1..], record, false) && !SeparatedEntries(entries[1..], record, record)
    ensures Sane(st)
    ensures Overfull(Loop(js, st, cap),
                     FaultIn(entries[1..], record, false, record, |st.toks|, |st.toks| + EntryCount(entries[0])))
    decreases entries, 0
  {
    hide *;
    EntriesParts(js, st, p, entries, record, first, need);
    var e, rest := entries[0], entries[1..];
    LoopGap(js, st, e.gap, cap);
    var s1 := State(st.pos + |e.gap|, st.toks, p);
    NextEnds(js, s1.pos + |EntrySource(e)|, rest, record);
    LoopEntry(js, s1, p, e, record, cap);
    EntriesCompose(st, p, entries, record, need);
    KeyOwns(s1, e, record);
    LoopFaultIn(js, EntryState(s1, e), p, rest, record, false, record, |st.toks|, cap);
  }

  lemma KeyOwns(st: State, e: Entry, record: bool)
    requires Sane(st) && e.Field? == record
    ensures record ==> EntryState(st, e).super == |st.toks|
  {
  }

  lemma FaultFirst(entries: seq<Entry>, record: bool, first: bool, need: bool, key: nat, idx: nat)
    requires LexicalEntries(entries, record, first) && !SeparatedEntries(entries, record, need)
    ensures entries != [] && LexicalEntry(entries[0], record) && LexicalEntries(entries[1..], record, false)
    ensures EntriesCount(entries) == EntryCount(entries[0]) + EntriesCount(entries[1..])
    ensures var e, f := entries[0], FaultIn(entries, record, first, need, key, idx);
      if need && !HasComma(e.gap) then f == key
      else if !SeparatedEntry(e) then f == FaultInEntry(e, record, idx)
      else !SeparatedEntries(entries[1..], record, record)
           && f == FaultIn(entries[1..], record, false, record, idx, idx + EntryCount(e))
  {
  }

  /** The key of a member without comma in front becomes one more child of the key before it. */
  lemma LoopMisfiled(js: string, st: State, p: nat, e: Entry, record: bool, key: nat, cap: nat)
    requires Inside(st, p, record, true) && e.Field? && LexicalEntry(e, record) && !HasComma(e.gap) && key == st.super
    requires At(js, st.pos, e.gap) && At(js, st.pos + |e.gap|, EntrySource(e)) && |st.toks| + EntryCount(e) <= cap
    ensures Sane(st) && Overfull(Loop(js, st, cap), key)
  {
    hide Loop, Step, At, Escaped, Spaced, Gap, Lexical, ParentsBefore, Source;
    LoopGap(js, st, e.gap, cap);
    var s1 := st.(pos := st.pos + |e.gap|);
    AtSplit(js, s1.pos, Prefix(e), Source(e.value));
    AtSplit(js, s1.pos, Quoted(e.key), e.colon);
    LoopString(js, s1, e.key, cap);
    var t := State(s1.pos + |e.key| + 2, Add(s1.toks, s1.super, String, s1.pos + 1, s1.pos + 1 + |e.key|), s1.super);
    if Loop(js, t, cap).Next? { LoopGrows(js, t, cap, key); }
  }

  lemma {:induction false} LoopFaultInEntry(js: string, st: State, p: nat, e: Entry, record: bool, cap: nat)
    requires Inside(st, p, record, false) && At(js, st.pos, EntrySource(e)) && |st.toks| + EntryCount(e) <= cap
    requires LexicalEntry(e, record) && !SeparatedEntry(e)
    ensures Sane(st) && Overfull(Loop(js, st, cap), FaultInEntry(e, record, |st.toks|))
    decreases e, 0
  {
    hide *;
    FaultEntry(e, record, |st.toks|);
    EntryParts(js, st, p, e, record);
    if e.Field? {
      LoopKey(js, st, e, cap);
      LoopFault(js, KeyState(st, e), e.value, cap);
    } else {
      LoopFault(js, st, e.value, cap);
    }
  }

  lemma FaultEntry(e: Entry, record: bool, idx: nat)
    requires LexicalEntry(e, record) && !SeparatedEntry(e)
    ensures Lexical(e.value) && !Separated(e.value)
    ensures FaultInEntry(e, record, idx) == FaultAt(e.value, if e.Field? then idx + 1 else idx)
  {
  }

  // ---------- whole texts ----------

  /** A value with white space around it; where a literal ends must be seen. */
  ghost predicate Document(js: string, before: string, v: Syntax, after: string) {
    && js == before + Source(v) + after && Spaces(before) && Spaces(after) && Lexical(v)
    && (v.Literal? ==> after != "")
  }

  lemma DocumentAt(js: string, before: string, v: Syntax, after: string)
    requires Document(js, before, v, after)
    ensures At(js, 0, before) && At(js, |before|, Source(v)) && At(js, |before| + |Source(v)|, after)
    ensures |js| == |before| + |Source(v)| + |after|
    ensures Spaces(before) && Spaces(after) && Lexical(v)
    ensures v.Literal? ==> Ended(js, |before| + |Source(v)|)
  {
    hide Source, Lexical;
    assert At(js, 0, before + Source(v) + after);
    AtSplit(js, 0, before + Source(v), after);
    AtSplit(js, 0, before, Source(v));
    if v.Literal? { AtChar(js, |before| + |Source(v)|, after, 0); }
  }

  /** Text whose members are separated is tokenized to its preorder flattening; both passes agree. */
  lemma Tokenized(js: string, before: string, v: Syntax, after: string, cap: nat)
    requires Document(js, before, v, after) && Separated(v) && Count(v) <= cap
    ensures Parse(js, cap) == Next(State(|js|, Tokens(v, |before|, 0, -1), -1))
    ensures CountFrom(js, 0, 0) == Counted(Count(v))
  {
    hide *;
    DocumentAt(js, before, v, after);
    FromInit(js, |before|, |Source(v)|, v);
    var t := Tokens(v, |before|, 0, -1);
    LoopSpaces(js, INIT, before, cap);
    LoopValue(js, INIT.(pos := |before|), v, cap);
    LoopSpaces(js, State(|before| + |Source(v)|, t, -1), after, cap);
    LoopDone(js, State(|js|, t, -1), cap);
    TokensBelow(v, |before|, 0, -1);
    AllClosed(js, t, cap);
    LoopCounts(js, INIT, cap);
  }

  lemma FromInit(js: string, pos: nat, len: nat, v: Syntax)
    requires v.Literal? ==> Ended(js, pos + |Source(v)|)
    ensures INIT == State(0, [], -1) && Sane(INIT)
    ensures var st, t := INIT.(pos := pos), Tokens(v, pos, 0, -1);
      Sane(st) && LiteralSafe(js, st, v) && Extend(st, 1, len, t) == State(pos + len, t, -1)
  {
    hide Tokens;
  }

  lemma AllClosed(js: string, t: seq<Token>, cap: nat)
    requires Loop(js, INIT, cap) == Next(State(|js|, t, -1)) && Below(t, 0, -1)
    ensures Parse(js, cap) == Next(State(|js|, t, -1))
  {
    hide Loop;
  }

  lemma LoopDone(js: string, st: State, cap: nat)
    requires Sane(st) && st.pos >= |js|
    ensures Loop(js, st, cap) == Next(st)
  {
  }

  /** The tokens tell the tree of the text if and only if the members of all its objects are separated by commas. */
  lemma TokenizedIff(js: string, before: string, v: Syntax, after: string, cap: nat)
    requires Document(js, before, v, after) && Count(v) <= cap
    ensures Parse(js, cap).Next? && Shaped(Parse(js, cap).st.toks, 0, -1, v) <==> Separated(v)
  {
    if Separated(v) {
      Tokenized(js, before, v, after, cap);
      var t := Tokens(v, |before|, 0, -1);
      assert t[0..|t|] == t;
      TokensShaped(t, v, |before|, 0, -1);
    } else if Parse(js, cap).Next? && Shaped(Parse(js, cap).st.toks, 0, -1, v) {
      Misfiled(js, before, v, after, cap);
      ShapedFault(Parse(js, cap).st.toks, 0, -1, v);
    }
  }

  lemma Misfiled(js: string, before: string, v: Syntax, after: string, cap: nat)
    requires Document(js, before, v, after) && !Separated(v) && Count(v) <= cap && Parse(js, cap).Next?
    ensures var toks, f := Parse(js, cap).st.toks, FaultAt(v, 0);
      f < |toks| && toks[f].kind == String && toks[f].size > 1
  {
    hide Loop, Step, At, Source, Lexical, Separated, Count, FaultAt;
    DocumentAt(js, before, v, after);
    LoopSpaces(js, INIT, before, cap);
    LoopFault(js, INIT.(pos := |before|), v, cap);
  }
}
