// Without a stack of its own the tokenizer keeps one in the parent links.
module JsmnStack {
  import opened Jsmn

  /** `a` is `t` or one of its ancestors. */
  ghost predicate OnChain(toks: seq<Token>, a: int, t: int)
    requires ParentsBefore(toks) && -1 <= t < |toks|
    decreases t
  {
    t >= 0 && (a == t || OnChain(toks, a, toks[t].parent))
  }

  /** The open containers, outermost first. */
  function Stack(toks: seq<Token>): seq<nat> {
    if toks == [] then []
    else
      var k := |toks| - 1;
      if IsOpen(toks[k]) then Stack(toks[..k]) + [k] else Stack(toks[..k])
  }

  lemma {:induction false} StackSound(toks: seq<Token>, p: nat)
    requires p < |Stack(toks)|
    ensures Stack(toks)[p] < |toks| && IsOpen(toks[Stack(toks)[p]])
    ensures forall q :: 0 <= q < p ==> Stack(toks)[q] < Stack(toks)[p]
  {
    var k := |toks| - 1;
    var below := Stack(toks[..k]);
    if p < |below| {
      StackSound(toks[..k], p);
    } else {
      forall q | 0 <= q < p ensures below[q] < k { StackSound(toks[..k], q); }
    }
  }

  lemma {:induction false} StackHas(toks: seq<Token>, i: nat)
    requires i < |toks| && IsOpen(toks[i])
    ensures i in Stack(toks)
  {
    if i >= |toks| - 1 {
    } else {
      StackHas(toks[..|toks| - 1], i);
    }
  }

  /** Number of tokens whose parent is `i`. */
  function Children(toks: seq<Token>, i: int): nat {
    if toks == [] then 0
    else Children(toks[..|toks| - 1], i) + if toks[|toks| - 1].parent == i then 1 else 0
  }

  /** What every reachable state satisfies. */
  ghost predicate Inv(st: State) {
    && Sane(st)
    && (forall i :: 0 <= i < |st.toks| ==> st.toks[i].start != -1)
    && (forall i :: 0 <= i < |st.toks| && IsOpen(st.toks[i]) ==> IsContainer(st.toks[i]))
    && (forall i :: 0 <= i < |st.toks| && IsOpen(st.toks[i]) ==> OnChain(st.toks, i, st.super))
    && (st.super != -1 ==> OnChain(st.toks, st.super, |st.toks| - 1))
    && (forall i :: 0 <= i < |st.toks| ==> st.toks[i].size == Children(st.toks, i))
    && Nested(st.toks, st.pos)
  }

  /** Tokens lie behind the read position, start in order, and a later token starts inside an earlier
      one or after it; inside, it also ends there. */
  ghost predicate Nested(toks: seq<Token>, pos: nat) {
    && (forall i :: 0 <= i < |toks| ==>
          0 <= toks[i].start < pos && (!IsOpen(toks[i]) ==> toks[i].start <= toks[i].end <= pos))
    && (forall i, j :: 0 <= i < j < |toks| ==> Apart(toks[i], toks[j]))
  }

  ghost predicate Apart(a: Token, b: Token) {
    && a.start < b.start
    && (IsOpen(a) || a.end <= b.start || (!IsOpen(b) && b.end <= a.end))
  }

  // ---------- chains ----------

  lemma {:induction false} ChainTransitive(toks: seq<Token>, a: int, b: int, c: int)
    requires ParentsBefore(toks) && -1 <= b < |toks| && -1 <= c < |toks|
    requires OnChain(toks, a, b) && OnChain(toks, b, c)
    ensures OnChain(toks, a, c)
    decreases c
  {
    if b == c {
    } else {
      ChainTransitive(toks, a, b, toks[c].parent);
    }
  }

  lemma {:induction false} ChainBelow(toks: seq<Token>, a: int, t: int)
    requires ParentsBefore(toks) && -1 <= t < |toks| && OnChain(toks, a, t)
    ensures 0 <= a <= t
    decreases t
  {
    if a == t {
    } else {
      ChainBelow(toks, a, toks[t].parent);
    }
  }

  /** Chains depend on the parent links alone, and survive new tokens. */
  lemma {:induction false} ChainFrame(a: seq<Token>, b: seq<Token>, x: int, t: int)
    requires ParentsBefore(a) && ParentsBefore(b) && |a| <= |b| && -1 <= t < |a|
    requires forall i :: 0 <= i < |a| ==> a[i].parent == b[i].parent
    ensures OnChain(a, x, t) <==> OnChain(b, x, t)
    decreases t
  {
    if t < 0 {
    } else {
      ChainFrame(a, b, x, a[t].parent);
    }
  }

  /** With an open container on the chain, the walk stops at the innermost one on it. */
  lemma {:induction false} WalkFinds(toks: seq<Token>, t: nat)
    requires ParentsBefore(toks) && t < |toks|
    ensures var w := WalkUp(toks, t);
      && OnChain(toks, w.i, t)
      && (forall a :: 0 <= a < |toks| && IsOpen(toks[a]) && OnChain(toks, a, t) ==> w.AtOpen? && a <= w.i)
    decreases t
  {
    var w := WalkUp(toks, t);
    if IsOpen(toks[t]) || toks[t].parent == -1 {
    } else {
      WalkFinds(toks, toks[t].parent);
    }
    forall a | 0 <= a < |toks| && IsOpen(toks[a]) && OnChain(toks, a, t) ensures w.AtOpen? && a <= w.i {
      ChainBelow(toks, a, t);
      if !IsOpen(toks[t]) { assert a != t && OnChain(toks, a, toks[t].parent); }
    }
  }

  /** The top of the stack is on the last token's chain. */
  lemma TopOnChain(st: State, i: nat)
    requires Inv(st) && i < |st.toks| && IsOpen(st.toks[i])
    ensures OnChain(st.toks, i, |st.toks| - 1)
  {
    assert OnChain(st.toks, i, st.super);
    ChainTransitive(st.toks, i, st.super, |st.toks| - 1);
  }

  /** In a reachable state the walk from the last token stops at the top of the stack, if there is one. */
  lemma WalkIsTop(st: State)
    requires Inv(st) && |st.toks| > 0
    ensures var s, w := Stack(st.toks), WalkUp(st.toks, |st.toks| - 1);
      if s == [] then w.AtRoot? else w.AtOpen? && w.i == s[|s| - 1]
  {
    hide OnChain, WalkUp, Stack, Nested, Children;
    var s, w := Stack(st.toks), WalkUp(st.toks, |st.toks| - 1);
    WalkFinds(st.toks, |st.toks| - 1);
    if w.AtOpen? {
      StackHas(st.toks, w.i);
      var k :| 0 <= k < |s| && s[k] == w.i;
      StackSound(st.toks, |s| - 1);
      TopOnChain(st, s[|s| - 1]);
    } else if s != [] {
      StackSound(st.toks, 0);
      TopOnChain(st, s[0]);
    }
  }

  lemma InitInv()
    ensures Inv(INIT)
  {
  }

  // ---------- a new token ----------

  lemma {:induction false} ChildrenGrow(a: seq<Token>, b: seq<Token>, i: int)
    requires |a| == |b| && forall j :: 0 <= j < |a| ==> a[j].parent == b[j].parent
    ensures Children(a, i) == Children(b, i)
  {
    if a == [] {
    } else {
      ChildrenGrow(a[..|a| - 1], b[..|b| - 1], i);
    }
  }

  lemma {:induction false} NoChildren(toks: seq<Token>, i: int)
    requires forall j :: 0 <= j < |toks| ==> toks[j].parent < i
    ensures Children(toks, i) == 0
  {
    if toks == [] {
    } else {
      NoChildren(toks[..|toks| - 1], i);
    }
  }

  lemma AddSizes(toks: seq<Token>, super: int, kind: Kind, start: int, end: int)
    requires ParentsBefore(toks) && -1 <= super < |toks|
    requires forall i :: 0 <= i < |toks| ==> toks[i].size == Children(toks, i)
    ensures var r := Add(toks, super, kind, start, end);
      forall i :: 0 <= i < |r| ==> r[i].size == Children(r, i)
  {
    var r := Add(toks, super, kind, start, end);
    assert r[..|toks|] == Grow(toks, super);
    forall i | 0 <= i < |r| ensures r[i].size == Children(r, i) {
      ChildrenGrow(Grow(toks, super), toks, i);
      if i == |toks| { NoChildren(toks, i); }
    }
  }

  /** Allocating a token below `super` keeps all but the chains. */
  lemma AddNested(toks: seq<Token>, super: int, pos: nat, kind: Kind, start: nat, end: int, newPos: nat)
    requires Nested(toks, pos) && -1 <= super < |toks| && pos <= start < newPos
    requires end == -1 || start <= end <= newPos
    ensures Nested(Add(toks, super, kind, start, end), newPos)
  {
    var g, r := Grow(toks, super), Add(toks, super, kind, start, end);
    forall i, j | 0 <= i < j < |r| ensures Apart(r[i], r[j]) {
      if j < |toks| { assert Apart(toks[i], toks[j]); }
    }
  }

  /** The open containers stay on the chain of `super`, and a new last token hangs below `super`. */
  lemma AddChains(st: State, kind: Kind, start: nat, end: int)
    requires Inv(st)
    ensures var r := Add(st.toks, st.super, kind, start, end);
      && ParentsBefore(r)
      && (forall i :: 0 <= i < |st.toks| && IsOpen(st.toks[i]) ==> OnChain(r, i, st.super) && OnChain(r, i, |st.toks|))
      && (st.super != -1 ==> OnChain(r, st.super, |st.toks|))
  {
    var r := Add(st.toks, st.super, kind, start, end);
    forall i | 0 <= i < |st.toks| && IsOpen(st.toks[i]) ensures OnChain(r, i, st.super) && OnChain(r, i, |st.toks|) {
      ChainFrame(st.toks, r, i, st.super);
    }
  }

  /** A string or primitive keeps the invariant; the stack stays. */
  lemma AddLeaf(st: State, kind: Kind, start: nat, end: nat, pos: nat)
    requires Inv(st) && st.pos <= start <= end <= pos && start < pos
    ensures Inv(State(pos, Add(st.toks, st.super, kind, start, end), st.super))
    ensures Stack(Add(st.toks, st.super, kind, start, end)) == Stack(st.toks)
  {
    hide OnChain, Nested, Children, Stack;
    AddSizes(st.toks, st.super, kind, start, end);
    AddNested(st.toks, st.super, st.pos, kind, start, end, pos);
    AddChains(st, kind, start, end);
    AddStack(st.toks, st.super, kind, start, end);
  }

  /** An opening bracket keeps the invariant and is pushed. */
  lemma AddOpen(st: State, kind: Kind, pos: nat)
    requires Inv(st) && st.pos < pos && (kind.Object? || kind.Array?)
    ensures Inv(State(pos, Add(st.toks, st.super, kind, st.pos, -1), |st.toks|))
    ensures Stack(Add(st.toks, st.super, kind, st.pos, -1)) == Stack(st.toks) + [|st.toks|]
  {
    hide Nested, Children, Stack;
    AddSizes(st.toks, st.super, kind, st.pos, -1);
    AddNested(st.toks, st.super, st.pos, kind, st.pos, -1, pos);
    AddChains(st, kind, st.pos, -1);
    AddStack(st.toks, st.super, kind, st.pos, -1);
  }

  lemma AddStack(toks: seq<Token>, super: int, kind: Kind, start: nat, end: int)
    requires -1 <= super < |toks|
    ensures Stack(Add(toks, super, kind, start, end)) == Stack(toks) + if end == -1 then [|toks|] else []
  {
    var r := Add(toks, super, kind, start, end);
    assert r[..|toks|] == Grow(toks, super);
    GrowStack(Grow(toks, super), toks);
  }

  lemma {:induction false} GrowStack(a: seq<Token>, b: seq<Token>)
    requires |a| == |b| && forall i :: 0 <= i < |a| ==> (IsOpen(a[i]) <==> IsOpen(b[i]))
    ensures Stack(a) == Stack(b)
  {
    if a == [] {
    } else {
      GrowStack(a[..|a| - 1], b[..|b| - 1]);
    }
  }

  // ---------- a closing bracket ----------

  function Shut(toks: seq<Token>, i: nat, end: nat): (r: seq<Token>)
    requires i < |toks|
    ensures |r| == |toks|
  {
    toks[i := toks[i].(end := end)]
  }

  lemma {:induction false} ShutStack(toks: seq<Token>, i: nat, end: nat)
    requires i < |toks| && IsOpen(toks[i]) && forall j :: i < j < |toks| ==> !IsOpen(toks[j])
    ensures Stack(toks) != [] && Stack(Shut(toks, i, end)) == Stack(toks)[..|Stack(toks)| - 1]
    ensures Stack(toks)[|Stack(toks)| - 1] == i
  {
    var k := |toks| - 1;
    if i < k {
      ShutStack(toks[..k], i, end);
      assert Shut(toks, i, end)[..k] == Shut(toks[..k], i, end);
    } else {
      assert Shut(toks, i, end)[..k] == toks[..k];
    }
  }

  lemma ShutNested(toks: seq<Token>, i: nat, pos: nat)
    requires Nested(toks, pos) && i < |toks| && IsOpen(toks[i])
    requires forall j :: i < j < |toks| ==> !IsOpen(toks[j])
    ensures Nested(Shut(toks, i, pos + 1), pos + 1)
  {
    var r := Shut(toks, i, pos + 1);
    forall a, b | 0 <= a < b < |r| ensures Apart(r[a], r[b]) {
      assert Apart(toks[a], toks[b]);
    }
  }

  lemma ShutChains(st: State, i: nat)
    requires Inv(st) && i < |st.toks| && IsOpen(st.toks[i]) && forall j :: i < j < |st.toks| ==> !IsOpen(st.toks[j])
    ensures var r := Shut(st.toks, i, st.pos + 1);
      && ParentsBefore(r)
      && (forall k :: 0 <= k < |r| && IsOpen(r[k]) ==> OnChain(r, k, r[i].parent))
      && (r[i].parent != -1 ==> OnChain(r, r[i].parent, |r| - 1))
  {
    hide Nested, Children;
    var r := Shut(st.toks, i, st.pos + 1);
    forall k | 0 <= k < |r| && IsOpen(r[k]) ensures OnChain(r, k, r[i].parent) {
      OpenAbove(st, k, i);
      ChainFrame(st.toks, r, k, r[i].parent);
    }
    if r[i].parent != -1 {
      TopOnChain(st, i);
      assert OnChain(st.toks, r[i].parent, i);
      ChainTransitive(st.toks, r[i].parent, i, |r| - 1);
      ChainFrame(st.toks, r, r[i].parent, |r| - 1);
    }
  }

  lemma ShutSizes(toks: seq<Token>, i: nat, end: nat)
    requires i < |toks| && forall k :: 0 <= k < |toks| ==> toks[k].size == Children(toks, k)
    requires forall k :: 0 <= k < |toks| ==> toks[k].start != -1 && (IsOpen(toks[k]) ==> IsContainer(toks[k]))
    ensures var r := Shut(toks, i, end);
      && (forall k :: 0 <= k < |r| ==> r[k].size == Children(r, k))
      && (forall k :: 0 <= k < |r| ==> r[k].start != -1 && (IsOpen(r[k]) ==> IsContainer(r[k])))
  {
    var r := Shut(toks, i, end);
    forall k | 0 <= k < |r| ensures r[k].size == Children(r, k) { ChildrenGrow(r, toks, k); }
  }

  /** Closing the top of the stack keeps the invariant and pops it. */
  lemma ShutTop(st: State, i: nat)
    requires Inv(st) && i < |st.toks| && IsOpen(st.toks[i]) && forall j :: i < j < |st.toks| ==> !IsOpen(st.toks[j])
    ensures Stack(st.toks) != [] && Stack(st.toks)[|Stack(st.toks)| - 1] == i
    ensures var r := Shut(st.toks, i, st.pos + 1);
      && Inv(State(st.pos + 1, r, st.toks[i].parent))
      && Stack(r) == Stack(st.toks)[..|Stack(st.toks)| - 1]
  {
    ShutStack(st.toks, i, st.pos + 1);
    ShutInv(st, i);
  }

  lemma ShutInv(st: State, i: nat)
    requires Inv(st) && i < |st.toks| && IsOpen(st.toks[i]) && forall j :: i < j < |st.toks| ==> !IsOpen(st.toks[j])
    ensures Inv(State(st.pos + 1, Shut(st.toks, i, st.pos + 1), st.toks[i].parent))
  {
    hide OnChain, Nested, Children;
    ShutNested(st.toks, i, st.pos);
    ShutSizes(st.toks, i, st.pos + 1);
    ShutChains(st, i);
  }

  /** Of two open containers the earlier one is an ancestor of the later one. */
  lemma OpenAbove(st: State, k: nat, i: nat)
    requires Inv(st) && k < i < |st.toks| && IsOpen(st.toks[k]) && IsOpen(st.toks[i])
    ensures OnChain(st.toks, k, st.toks[i].parent)
  {
    ChainLinear(st.toks, k, i, st.super);
  }

  lemma {:induction false} ChainLinear(toks: seq<Token>, a: int, b: int, t: int)
    requires ParentsBefore(toks) && -1 <= t < |toks| && a < b
    requires OnChain(toks, a, t) && OnChain(toks, b, t)
    ensures 0 <= b < |toks| && OnChain(toks, a, toks[b].parent)
    decreases t
  {
    ChainBelow(toks, b, t);
    if b == t {
    } else {
      ChainLinear(toks, a, b, toks[t].parent);
    }
  }

  // ---------- every step ----------

  /** Going to another token of the last token's chain that still has the open containers above it. */
  lemma Retarget(st: State, pos: nat, super: int)
    requires Inv(st) && st.pos <= pos && -1 <= super < |st.toks|
    requires super != -1 ==> OnChain(st.toks, super, |st.toks| - 1)
    requires forall i :: 0 <= i < |st.toks| && IsOpen(st.toks[i]) ==> OnChain(st.toks, i, super)
    ensures Inv(State(pos, st.toks, super))
  {
  }

  lemma AfterColon(st: State)
    requires Inv(st)
    ensures Inv(State(st.pos + 1, st.toks, |st.toks| - 1))
  {
    forall i | 0 <= i < |st.toks| && IsOpen(st.toks[i]) ensures OnChain(st.toks, i, |st.toks| - 1) {
      TopOnChain(st, i);
    }
    Retarget(st, st.pos + 1, |st.toks| - 1);
  }

  lemma AfterComma(st: State)
    requires Inv(st) && st.super != -1 && !IsContainer(st.toks[st.super])
    ensures Inv(State(st.pos + 1, st.toks, st.toks[st.super].parent))
  {
    hide Nested, Children;
    var p := st.toks[st.super].parent;
    if p != -1 { ChainTransitive(st.toks, p, st.super, |st.toks| - 1); }
    Retarget(st, st.pos + 1, p);
  }

  /** How a step moves the stack: an opening bracket pushes its token, a closing bracket pops the most
      recently opened container, which must be of its kind, and nothing else touches the stack. */
  ghost predicate StackMoves(js: string, st: State, t: State)
    requires !AtEnd(js, st.pos)
  {
    var c, s, s' := js[st.pos], Stack(st.toks), Stack(t.toks);
    if c == '{' || c == '[' then s' == s + [|st.toks|]
    else if (c == '}' || c == ']') && s != [] then
      && s' == s[..|s| - 1]
      && var top := s[|s| - 1];
        top < |st.toks| && st.toks[top].kind == (if c == '}' then Object else Array)
    else s' == s
  }

  lemma StepClose(js: string, st: State, cap: nat)
    requires Inv(st) && !AtEnd(js, st.pos) && (js[st.pos] == '}' || js[st.pos] == ']') && Step(js, st, cap).Next?
    ensures |st.toks| > 0
    ensures var w, t := WalkUp(st.toks, |st.toks| - 1), Step(js, st, cap).st;
      var kind := if js[st.pos] == '}' then Object else Array;
      if w.AtOpen? then
        st.toks[w.i].kind == kind && t == State(st.pos + 1, Shut(st.toks, w.i, st.pos + 1), st.toks[w.i].parent)
      else t == State(st.pos + 1, st.toks, st.super)
  {
  }

  lemma AboveTopShut(st: State, i: nat)
    requires Inv(st) && |st.toks| > 0 && WalkUp(st.toks, |st.toks| - 1) == AtOpen(i)
    ensures forall j :: i < j < |st.toks| ==> !IsOpen(st.toks[j])
  {
    WalkFinds(st.toks, |st.toks| - 1);
    forall j | i < j < |st.toks| ensures !IsOpen(st.toks[j]) {
      if IsOpen(st.toks[j]) { TopOnChain(st, j); }
    }
  }

  lemma CloseKeeps(js: string, st: State, cap: nat)
    requires Inv(st) && !AtEnd(js, st.pos) && (js[st.pos] == '}' || js[st.pos] == ']') && Step(js, st, cap).Next?
    ensures Inv(Step(js, st, cap).st) && StackMoves(js, st, Step(js, st, cap).st)
  {
    StepClose(js, st, cap);
    WalkIsTop(st);
    var w := WalkUp(st.toks, |st.toks| - 1);
    if w.AtOpen? {
      AboveTopShut(st, w.i);
      ShutTop(st, w.i);
    } else {
      Retarget(st, st.pos + 1, st.super);
    }
  }

  lemma StepLeaf(js: string, st: State, cap: nat) returns (kind: Kind, start: nat, end: nat)
    requires Inv(st) && !AtEnd(js, st.pos) && (js[st.pos] == '\"' || StartsPrimitive(js[st.pos]))
    requires Step(js, st, cap).Next?
    ensures st.pos <= start <= end <= Step(js, st, cap).st.pos && start < Step(js, st, cap).st.pos
    ensures Step(js, st, cap).st == State(Step(js, st, cap).st.pos, Add(st.toks, st.super, kind, start, end), st.super)
  {
    hide OnChain, Children, Nested, ScanString, ScanPrimitive, PrimitiveMisplaced, Add;
    if js[st.pos] == '\"' {
      kind, start, end := String, st.pos + 1, ScanString(js, st.pos + 1).at;
    } else {
      PrimitiveAdvances(js, st.pos);
      kind, start, end := Primitive, st.pos, Step(js, st, cap).st.pos;
    }
  }

  lemma LeafKeeps(js: string, st: State, cap: nat)
    requires Inv(st) && !AtEnd(js, st.pos) && (js[st.pos] == '\"' || StartsPrimitive(js[st.pos]))
    requires Step(js, st, cap).Next?
    ensures Inv(Step(js, st, cap).st) && StackMoves(js, st, Step(js, st, cap).st)
  {
    var kind, start, end := StepLeaf(js, st, cap);
    AddLeaf(st, kind, start, end, Step(js, st, cap).st.pos);
  }

  lemma OpenKeeps(js: string, st: State, cap: nat)
    requires Inv(st) && !AtEnd(js, st.pos) && (js[st.pos] == '{' || js[st.pos] == '[') && Step(js, st, cap).Next?
    ensures Inv(Step(js, st, cap).st) && StackMoves(js, st, Step(js, st, cap).st)
  {
    AddOpen(st, if js[st.pos] == '{' then Object else Array, st.pos + 1);
  }

  /** The characters that only move `super`. */
  lemma StepPunctuation(js: string, st: State, cap: nat)
    requires Sane(st) && !AtEnd(js, st.pos) && (IsSpace(js[st.pos]) || js[st.pos] == ':' || js[st.pos] == ',')
    ensures Step(js, st, cap) == Next(State(st.pos + 1, st.toks,
      if js[st.pos] == ':' then |st.toks| - 1
      else if js[st.pos] == ',' && st.super != -1 && !IsContainer(st.toks[st.super]) then st.toks[st.super].parent
      else st.super))
  {
  }

  lemma PunctuationKeeps(js: string, st: State, cap: nat)
    requires Inv(st) && !AtEnd(js, st.pos) && (IsSpace(js[st.pos]) || js[st.pos] == ':' || js[st.pos] == ',')
    ensures var r := Step(js, st, cap); r.Next? && r.st.toks == st.toks && Inv(r.st)
  {
    StepPunctuation(js, st, cap);
    if js[st.pos] == ':' {
      AfterColon(st);
    } else if js[st.pos] == ',' && st.super != -1 && !IsContainer(st.toks[st.super]) {
      AfterComma(st);
    } else {
      Retarget(st, st.pos + 1, st.super);
    }
  }

  /** Every step keeps the invariant and treats the open containers as a bracket stack. */
  lemma StepKeeps(js: string, st: State, cap: nat)
    requires Inv(st) && !AtEnd(js, st.pos) && Step(js, st, cap).Next?
    ensures Inv(Step(js, st, cap).st) && StackMoves(js, st, Step(js, st, cap).st)
  {
    var c := js[st.pos];
    if c == '{' || c == '[' {
      OpenKeeps(js, st, cap);
    } else if c == '}' || c == ']' {
      CloseKeeps(js, st, cap);
    } else if IsSpace(c) || c == ':' || c == ',' {
      PunctuationKeeps(js, st, cap);
    } else {
      LeafKeeps(js, st, cap);
    }
  }

  /** A closing bracket of the wrong kind is refused. */
  lemma MismatchRefused(js: string, st: State, cap: nat)
    requires Inv(st) && !AtEnd(js, st.pos) && (js[st.pos] == '}' || js[st.pos] == ']')
    requires Stack(st.toks) != []
    requires var s := Stack(st.toks);
      s[|s| - 1] < |st.toks| && st.toks[s[|s| - 1]].kind != if js[st.pos] == '}' then Object else Array
    ensures Step(js, st, cap) == Fail(Inval)
  {
    StackSound(st.toks, 0);
    WalkIsTop(st);
  }

  /** A closing bracket with nothing open is accepted, without effect, exactly when the outermost ancestor of
      the last token is of its kind and a colon came before. */
  lemma StrayCloser(js: string, st: State, cap: nat)
    requires Inv(st) && !AtEnd(js, st.pos) && (js[st.pos] == '}' || js[st.pos] == ']')
    requires Stack(st.toks) == []
    ensures var kind := if js[st.pos] == '}' then Object else Array;
      if |st.toks| > 0 && st.super != -1 && st.toks[WalkUp(st.toks, |st.toks| - 1).i].kind == kind
      then Step(js, st, cap) == Next(State(st.pos + 1, st.toks, st.super))
      else Step(js, st, cap) == Fail(Inval)
  {
    if |st.toks| > 0 { WalkIsTop(st); }
  }

  /** A closing brace too many, after a colon, is accepted. */
  lemma StrayCloserAccepted()
    ensures Parse("{}:}", 1).Next?
  {
  }

  // ---------- brackets in the text ----------

  /** A container starts at an opening bracket of its kind and, once closed, ends with the matching one. */
  ghost predicate Bracketed(js: string, t: Token) {
    IsContainer(t) ==>
      && 0 <= t.start < |js| && js[t.start] == (if t.kind == Object then '{' else '[')
      && (t.end != -1 ==> 0 < t.end <= |js| && js[t.end - 1] == if t.kind == Object then '}' else ']')
  }

  ghost predicate AllBracketed(js: string, toks: seq<Token>) {
    forall i :: 0 <= i < |toks| ==> Bracketed(js, toks[i])
  }

  lemma StepBrackets(js: string, st: State, cap: nat)
    requires Sane(st) && !AtEnd(js, st.pos) && AllBracketed(js, st.toks) && Step(js, st, cap).Next?
    ensures AllBracketed(js, Step(js, st, cap).st.toks)
  {
    hide ScanString, ScanPrimitive, PrimitiveMisplaced;
  }

  lemma {:induction false} LoopBrackets(js: string, st: State, cap: nat)
    requires Sane(st) && AllBracketed(js, st.toks) && Loop(js, st, cap).Next?
    ensures AllBracketed(js, Loop(js, st, cap).st.toks)
    decreases |js| - st.pos
  {
    if AtEnd(js, st.pos) {
    } else {
      StepBrackets(js, st, cap);
      LoopBrackets(js, Step(js, st, cap).st, cap);
    }
  }

  // ---------- the result ----------

  lemma {:induction false} LoopKeeps(js: string, st: State, cap: nat)
    requires Inv(st)
    ensures Loop(js, st, cap).Next? ==> Inv(Loop(js, st, cap).st)
    decreases |js| - st.pos
  {
    if AtEnd(js, st.pos) {
    } else {
      var r := Step(js, st, cap);
      if r.Next? {
        StepKeeps(js, st, cap);
        LoopKeeps(js, r.st, cap);
      }
    }
  }

  /** On success every container is closed and spans a pair of brackets of its kind, sizes count children, and any two
      tokens are nested or apart. */
  lemma ParsedShape(js: string, cap: nat)
    requires Parse(js, cap).Next?
    ensures var toks := Parse(js, cap).st.toks;
      && (forall i :: 0 <= i < |toks| ==> !IsOpen(toks[i]) && -1 <= toks[i].parent < i)
      && (forall i :: 0 <= i < |toks| ==> 0 <= toks[i].start <= toks[i].end <= |js|)
      && (forall i :: 0 <= i < |toks| && IsContainer(toks[i]) ==>
            && toks[i].start < |js| && js[toks[i].start] == (if toks[i].kind == Object then '{' else '[')
            && toks[i].end > 0 && js[toks[i].end - 1] == if toks[i].kind == Object then '}' else ']')
      && (forall i :: 0 <= i < |toks| ==> toks[i].size == Children(toks, i))
      && (forall i, j :: 0 <= i < j < |toks| ==>
            toks[i].start < toks[j].start && (toks[i].end <= toks[j].start || toks[j].end <= toks[i].end))
  {
    InitInv();
    LoopKeeps(js, INIT, cap);
    LoopPos(js, INIT, cap);
    LoopBrackets(js, INIT, cap);
    var toks := Parse(js, cap).st.toks;
    forall i, j | 0 <= i < j < |toks|
      ensures toks[i].start < toks[j].start && (toks[i].end <= toks[j].start || toks[j].end <= toks[i].end)
    {
      assert Apart(toks[i], toks[j]);
    }
    forall i | 0 <= i < |toks| && IsContainer(toks[i])
      ensures 0 <= toks[i].start < |js| && js[toks[i].start] == if toks[i].kind == Object then '{' else '['
      ensures 0 < toks[i].end <= |js| && js[toks[i].end - 1] == if toks[i].kind == Object then '}' else ']'
    {
      assert Bracketed(js, toks[i]) && !IsOpen(toks[i]);
    }
  }

  lemma {:induction false} LoopPos(js: string, st: State, cap: nat)
    requires Sane(st) && st.pos <= |js|
    ensures Loop(js, st, cap).Next? ==> Loop(js, st, cap).st.pos <= |js|
    decreases |js| - st.pos
  {
    if AtEnd(js, st.pos) {
    } else {
      var r := Step(js, st, cap);
      if r.Next? { LoopPos(js, r.st, cap); }
    }
  }
}
