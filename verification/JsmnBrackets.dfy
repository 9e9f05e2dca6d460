// What an accepted text looks like: every bracket the tokenizer reads as one is accounted for by a token.
module JsmnBrackets {
  import opened Jsmn
  import opened JsmnStack

  // ---------- the brackets of a text ----------

  /** Where reading goes on: a string or a primitive is read as a whole, anything else character by character. */
  function After(js: string, pos: nat): (r: nat)
    requires !AtEnd(js, pos)
    ensures pos < r <= |js|
  {
    if js[pos] == '\"' then
      match ScanString(js, pos + 1)
      case Found(at) => at + 1
      case _ => |js|
    else if StartsPrimitive(js[pos]) then
      PrimitiveAdvances(js, pos);
      match ScanPrimitive(js, pos)
      case Found(at) => at
      case _ => |js|
    else pos + 1
  }

  /** Reading from `from` on comes to the character at `at`, which is not inside a string or a primitive. */
  predicate Reads(js: string, from: nat, at: nat): (r: bool)
    ensures r ==> from <= at < |js|
    decreases |js| - from
  {
    !AtEnd(js, from) && (from == at || (from < at && Reads(js, After(js, from), at)))
  }

  predicate Opening(c: char) { c == '{' || c == '[' }

  predicate Closing(c: char) { c == '}' || c == ']' }

  /** One bracket more or less; a closing one with nothing open counts for nothing. */
  function Moved(c: char, h: nat): nat {
    if Opening(c) then h + 1 else if Closing(c) && h > 0 then h - 1 else h
  }

  /** How many brackets are open before `at`, if `h` are open before `from`. */
  function Height(js: string, from: nat, at: nat, h: nat): nat
    decreases |js| - from
  {
    if from >= at || AtEnd(js, from) then h else Height(js, After(js, from), at, Moved(js[from], h))
  }

  function KindAt(c: char): Kind { if c == '{' || c == '}' then Object else Array }

  /** The bracket at `at` starts a container token of its kind. */
  ghost predicate Starts(js: string, toks: seq<Token>, at: nat)
    requires at < |js|
  {
    exists i :: 0 <= i < |toks| && toks[i].start == at && toks[i].kind == KindAt(js[at])
  }

  /** The bracket at `at` is the last character of a container token of its kind. */
  ghost predicate Finishes(js: string, toks: seq<Token>, at: nat)
    requires at < |js|
  {
    exists i :: 0 <= i < |toks| && toks[i].end == at + 1 && toks[i].kind == KindAt(js[at])
  }

  // ---------- one step ----------

  lemma InvSane(st: State)
    requires Inv(st)
    ensures Sane(st)
  {
  }

  lemma StepReads(js: string, st: State, cap: nat)
    requires Sane(st) && !AtEnd(js, st.pos) && Step(js, st, cap).Next?
    ensures Step(js, st, cap).st.pos == After(js, st.pos)
  {
    hide WalkUp, Grow, ScanString, ScanPrimitive, PrimitiveMisplaced;
  }

  lemma StepHeight(js: string, st: State, cap: nat)
    requires Inv(st) && !AtEnd(js, st.pos) && Step(js, st, cap).Next?
    ensures |Stack(Step(js, st, cap).st.toks)| == Moved(js[st.pos], |Stack(st.toks)|)
  {
    hide Inv, Step, Stack;
    StepKeeps(js, st, cap);
  }

  /** Kind and start of a token never change, nor the end once it is known. */
  ghost predicate Kept(a: seq<Token>, b: seq<Token>) {
    |a| <= |b| && forall i :: 0 <= i < |a| ==>
      b[i].kind == a[i].kind && b[i].start == a[i].start && (!IsOpen(a[i]) ==> b[i].end == a[i].end)
  }

  /** A container is still open, or was closed before, or ends beyond `pos`. */
  ghost predicate Later(a: seq<Token>, t: Token, i: nat, pos: nat) {
    IsContainer(t) ==> t.end == -1 || t.end > pos || (i < |a| && a[i].end == t.end)
  }

  ghost predicate AllLater(a: seq<Token>, b: seq<Token>, pos: nat) {
    forall i :: 0 <= i < |b| ==> Later(a, b[i], i, pos)
  }

  lemma StepTokens(js: string, st: State, cap: nat)
    requires Sane(st) && !AtEnd(js, st.pos) && Step(js, st, cap).Next?
    ensures Kept(st.toks, Step(js, st, cap).st.toks) && AllLater(st.toks, Step(js, st, cap).st.toks, st.pos)
  {
    hide ScanString, ScanPrimitive, PrimitiveMisplaced;
  }

  lemma {:induction false} LoopTokens(js: string, st: State, cap: nat)
    requires Sane(st) && Loop(js, st, cap).Next?
    ensures Kept(st.toks, Loop(js, st, cap).st.toks) && AllLater(st.toks, Loop(js, st, cap).st.toks, st.pos)
    decreases |js| - st.pos
  {
    hide Step;
    if AtEnd(js, st.pos) {
    } else {
      var t, u := Step(js, st, cap).st, Loop(js, st, cap).st;
      StepTokens(js, st, cap);
      LoopTokens(js, t, cap);
      forall i | 0 <= i < |u.toks| ensures Later(st.toks, u.toks[i], i, st.pos) {
        assert Later(t.toks, u.toks[i], i, t.pos);
        if i < |t.toks| { assert Later(st.toks, t.toks[i], i, st.pos); }
      }
    }
  }

  // ---------- each bracket where it is read ----------

  lemma OpenerStarts(js: string, st: State, cap: nat)
    requires Inv(st) && !AtEnd(js, st.pos) && Opening(js[st.pos]) && Loop(js, st, cap).Next?
    ensures Starts(js, Loop(js, st, cap).st.toks, st.pos)
  {
    var t := Step(js, st, cap).st;
    LoopTokens(js, t, cap);
    var i := |st.toks|;
    assert t.toks[i].start == st.pos && t.toks[i].kind == KindAt(js[st.pos]);
  }

  lemma CloserFinishes(js: string, st: State, cap: nat)
    requires Inv(st) && !AtEnd(js, st.pos) && Closing(js[st.pos]) && Loop(js, st, cap).Next? && Stack(st.toks) != []
    ensures Finishes(js, Loop(js, st, cap).st.toks, st.pos)
  {
    hide Inv, Step, Stack, WalkUp;
    InvSane(st);
    StackSound(st.toks, 0);
    StepClose(js, st, cap);
    WalkIsTop(st);
    var t, i := Step(js, st, cap).st, WalkUp(st.toks, |st.toks| - 1).i;
    LoopTokens(js, t, cap);
    assert t.toks[i].end == st.pos + 1 && t.toks[i].kind == KindAt(js[st.pos]);
  }

  /** A closing bracket with nothing open ends no token. */
  lemma StrayFinishesNone(js: string, st: State, cap: nat)
    requires Inv(st) && !AtEnd(js, st.pos) && Closing(js[st.pos]) && Loop(js, st, cap).Next? && Stack(st.toks) == []
    ensures !Finishes(js, Loop(js, st, cap).st.toks, st.pos)
  {
    hide Step, Stack, OnChain, Children;
    StrayCloser(js, st, cap);
    var t, u := Step(js, st, cap).st, Loop(js, st, cap).st;
    LoopTokens(js, t, cap);
    forall i | 0 <= i < |u.toks| && u.toks[i].kind == KindAt(js[st.pos]) ensures u.toks[i].end != st.pos + 1 {
      assert Later(t.toks, u.toks[i], i, t.pos);
    }
  }

  /** All brackets from the read position on. */
  lemma {:induction false} LoopAccounts(js: string, st: State, cap: nat, at: nat)
    requires Inv(st) && Loop(js, st, cap).Next? && Reads(js, st.pos, at)
    ensures var toks := Loop(js, st, cap).st.toks;
      && (Opening(js[at]) ==> Starts(js, toks, at))
      && (Closing(js[at]) ==> (Finishes(js, toks, at) <==> Height(js, st.pos, at, |Stack(st.toks)|) > 0))
    decreases |js| - st.pos
  {
    hide Inv, Step, Stack, Starts, Finishes, After;
    InvSane(st);
    if st.pos < at {
      StepReads(js, st, cap);
      StepHeight(js, st, cap);
      StepKeeps(js, st, cap);
      LoopAccounts(js, Step(js, st, cap).st, cap, at);
    } else if Opening(js[at]) {
      OpenerStarts(js, st, cap);
    } else if Closing(js[at]) {
      if Stack(st.toks) == [] {
        StrayFinishesNone(js, st, cap);
      } else {
        CloserFinishes(js, st, cap);
      }
    }
  }

  lemma {:induction false} LoopHeight(js: string, st: State, cap: nat)
    requires Inv(st) && Loop(js, st, cap).Next?
    ensures |Stack(Loop(js, st, cap).st.toks)| == Height(js, st.pos, |js|, |Stack(st.toks)|)
    decreases |js| - st.pos
  {
    hide Inv, Step, Stack, After;
    InvSane(st);
    if AtEnd(js, st.pos) {
    } else {
      StepReads(js, st, cap);
      StepHeight(js, st, cap);
      StepKeeps(js, st, cap);
      LoopHeight(js, Step(js, st, cap).st, cap);
    }
  }

  // ---------- accepted texts ----------

  /** In an accepted text every opening bracket outside strings and primitives starts a container token, and a closing
      one ends a container token if and only if a bracket is open before it. */
  lemma ParsedBrackets(js: string, cap: nat, at: nat)
    requires Parse(js, cap).Next? && Reads(js, 0, at)
    ensures var toks := Parse(js, cap).st.toks;
      && (Opening(js[at]) ==> Starts(js, toks, at))
      && (Closing(js[at]) ==> (Finishes(js, toks, at) <==> Height(js, 0, at, 0) > 0))
  {
    hide Loop, Starts, Finishes, Height;
    InitInv();
    LoopAccounts(js, INIT, cap, at);
  }

  /** And no bracket is left open. */
  lemma ParsedBalanced(js: string, cap: nat)
    requires Parse(js, cap).Next?
    ensures Height(js, 0, |js|, 0) == 0
  {
    hide Loop, Height;
    InitInv();
    LoopHeight(js, INIT, cap);
    var toks := Parse(js, cap).st.toks;
    if Stack(toks) != [] { StackSound(toks, 0); }
  }
}
