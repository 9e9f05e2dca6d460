// Resolving the child lists of scene nodes to parent links, and rejecting cycles.
module NodeForest {
  import opened Counting

  const NONE: int := -1
  const SUCCESS: int := 0
  const ERROR_JSON: int := -1

  // ---------- from child lists to parent links ----------

  /** The child lists as parsed: an entry is a node index plus one, or zero. */
  ghost predicate InRange(raw: seq<seq<nat>>) {
    forall a, b :: 0 <= a < |raw| && 0 <= b < |raw[a]| ==> 1 <= raw[a][b] <= |raw|
  }

  /** No two entries name the same node. */
  ghost predicate ListedOnce(raw: seq<seq<nat>>) {
    forall a, b, c, d ::
      0 <= a < |raw| && 0 <= b < |raw[a]| && 0 <= c < |raw| && 0 <= d < |raw[c]| && raw[a][b] == raw[c][d]
      ==> a == c && b == d
  }

  /** Entry `(a, b)` is dealt with before entry `(i, j)`. */
  predicate Before(a: nat, b: nat, i: nat, j: nat) {
    a < i || (a == i && b < j)
  }

  class Nodes {
    const children: array<seq<nat>>
    const parent: array<int>

    constructor (raw: seq<seq<nat>>)
      ensures fresh(children) && fresh(parent) && children[..] == raw
      ensures parent.Length == |raw| && forall c :: 0 <= c < |raw| ==> parent[c] == NONE
    {
      children := new seq<nat>[|raw|](i requires 0 <= i < |raw| => raw[i]);
      parent := new int[|raw|](_ => NONE);
    }

    /** Resolve entry `(i, j)`. */
    method FixEntry(i: nat, j: nat, ghost raw: seq<seq<nat>>, ghost where: map<nat, (nat, nat)>)
      returns (r: int, ghost where': map<nat, (nat, nat)>)
      requires i < |raw| && j < |raw[i]|
      requires Resolved(children[..], raw, i, j) && Placed(parent[..], raw, i, j, where)
      modifies children, parent
      ensures r == SUCCESS ==> Resolved(children[..], raw, i, j + 1) && Placed(parent[..], raw, i, j + 1, where')
      ensures r != SUCCESS ==> r == ERROR_JSON && (!InRange(raw) || !ListedOnce(raw))
    {
      ghost var ch, par := children[..], parent[..];
      where' := where;
      assert EntryIs(ch, raw, i, j, i, j);
      var entry := children[i][j];
      if entry == 0 || entry > children.Length {
        assert !(1 <= raw[i][j] <= |raw|);
        return ERROR_JSON, where;
      }
      var child := entry - 1;
      children[i] := children[i][j := child];
      assert children[..] == ch[i := ch[i][j := child]];
      if parent[child] != NONE {
        TwicePlaced(par, raw, i, j, where, child);
        return ERROR_JSON, where;
      }
      parent[child] := i;
      assert parent[..] == par[child := i];
      where' := where[child := (i, j)];
      ResolveOne(ch, raw, i, j);
      PlaceOne(par, raw, i, j, where, child);
      return SUCCESS, where';
    }

    /** Resolve the entries of list `i`. */
    method FixList(i: nat, ghost raw: seq<seq<nat>>, ghost where: map<nat, (nat, nat)>)
      returns (r: int, ghost where': map<nat, (nat, nat)>)
      requires i < |raw| && Resolved(children[..], raw, i, 0) && Placed(parent[..], raw, i, 0, where)
      modifies children, parent
      ensures r == SUCCESS ==> Resolved(children[..], raw, i + 1, 0) && Placed(parent[..], raw, i + 1, 0, where')
      ensures r != SUCCESS ==> r == ERROR_JSON && (!InRange(raw) || !ListedOnce(raw))
    {
      where' := where;
      var j := 0;
      while j < |children[i]|
        invariant 0 <= j <= |raw[i]|
        invariant Resolved(children[..], raw, i, j) && Placed(parent[..], raw, i, j, where')
        decreases |raw[i]| - j
      {
        r, where' := FixEntry(i, j, raw, where');
        if r != SUCCESS { return; }
        j := j + 1;
      }
      NextList(children[..], parent[..], raw, i, where');
      return SUCCESS, where';
    }

    /** Succeeds exactly when every entry names a node and no node is named twice; then `n` is the parent of
        `c` if and only if `n` lists `c`. */
    method FixupParents() returns (r: int)
      requires children.Length == parent.Length && forall c :: 0 <= c < parent.Length ==> parent[c] == NONE
      modifies children, parent
      ensures r == 0 <==> InRange(old(children[..])) && ListedOnce(old(children[..]))
      ensures r == 0 || r == -1
      ensures r == 0 ==> Agree(old(children[..]), children[..], parent[..])
    {
      ghost var raw := children[..];
      ghost var where: map<nat, (nat, nat)> := map[];
      Unresolved(raw, parent[..]);
      var i := 0;
      while i < children.Length
        invariant 0 <= i <= |raw| == children.Length
        invariant Resolved(children[..], raw, i, 0) && Placed(parent[..], raw, i, 0, where)
      {
        r, where := FixList(i, raw, where);
        if r != SUCCESS { return; }
        i := i + 1;
      }
      AllResolved(children[..], parent[..], raw, where);
      return SUCCESS;
    }
  }

  /** What fixup leaves behind: resolved lists, and parents that agree with them. */
  ghost predicate Agree(raw: seq<seq<nat>>, children: seq<seq<nat>>, parent: seq<int>) {
    && |children| == |parent| == |raw| && Links(parent)
    && (forall a :: 0 <= a < |raw| ==> |children[a]| == |raw[a]|)
    && (forall a, b :: 0 <= a < |raw| && 0 <= b < |raw[a]| ==> children[a][b] == raw[a][b] - 1 < |parent|)
    && (forall c, n :: 0 <= c < |raw| && 0 <= n < |raw| ==> (parent[c] == n <==> c in children[n]))
  }

  // ---------- half-way through the lists ----------

  /** Entry `(a, b)` when everything before `(i, j)` is resolved. */
  ghost predicate EntryIs(children: seq<seq<nat>>, raw: seq<seq<nat>>, i: nat, j: nat, a: nat, b: nat)
    requires a < |raw| == |children| && b < |raw[a]| == |children[a]|
  {
    if Before(a, b, i, j) then raw[a][b] > 0 && children[a][b] == raw[a][b] - 1 < |raw|
    else children[a][b] == raw[a][b]
  }

  ghost predicate Resolved(children: seq<seq<nat>>, raw: seq<seq<nat>>, i: nat, j: nat) {
    && |children| == |raw|
    && (forall a :: 0 <= a < |raw| ==> |children[a]| == |raw[a]|)
    && (forall a, b :: 0 <= a < |raw| && 0 <= b < |raw[a]| ==> EntryIs(children, raw, i, j, a, b))
  }

  /** Entry `(a, b)`, once dealt with, is the one recorded for the node it names. */
  ghost predicate Recorded(raw: seq<seq<nat>>, i: nat, j: nat, where: map<nat, (nat, nat)>, a: nat, b: nat)
    requires a < |raw| && b < |raw[a]|
  {
    Before(a, b, i, j) ==> raw[a][b] > 0 && raw[a][b] - 1 in where && where[raw[a][b] - 1] == (a, b)
  }

  /** The entry recorded for node `c` was dealt with, names `c`, and is in the list of its parent. */
  ghost predicate Found(parent: seq<int>, raw: seq<seq<nat>>, i: nat, j: nat, c: nat, at: (nat, nat)) {
    && c < |parent| && at.0 < |raw| && at.1 < |raw[at.0]|
    && Before(at.0, at.1, i, j) && raw[at.0][at.1] == c + 1 && parent[c] == at.0
  }

  ghost predicate Placed(parent: seq<int>, raw: seq<seq<nat>>, i: nat, j: nat, where: map<nat, (nat, nat)>) {
    && |parent| == |raw|
    && (forall a, b :: 0 <= a < |raw| && 0 <= b < |raw[a]| ==> Recorded(raw, i, j, where, a, b))
    && (forall c :: 0 <= c < |parent| && parent[c] != NONE ==> c in where)
    && (forall c :: c in where ==> Found(parent, raw, i, j, c, where[c]))
  }

  lemma Unresolved(raw: seq<seq<nat>>, parent: seq<int>)
    requires |parent| == |raw| && forall c :: 0 <= c < |parent| ==> parent[c] == NONE
    ensures Resolved(raw, raw, 0, 0) && Placed(parent, raw, 0, 0, map[])
  {
  }

  lemma ResolveOne(children: seq<seq<nat>>, raw: seq<seq<nat>>, i: nat, j: nat)
    requires Resolved(children, raw, i, j) && i < |raw| && j < |raw[i]| && 0 < raw[i][j] <= |raw|
    ensures Resolved(children[i := children[i][j := raw[i][j] - 1]], raw, i, j + 1)
  {
    var after := children[i := children[i][j := raw[i][j] - 1]];
    var next := j + 1;
    forall a, b | 0 <= a < |raw| && 0 <= b < |raw[a]| ensures EntryIs(after, raw, i, next, a, b) {
      assert EntryIs(children, raw, i, j, a, b);
    }
  }

  lemma PlaceOne(parent: seq<int>, raw: seq<seq<nat>>, i: nat, j: nat, where: map<nat, (nat, nat)>, child: nat)
    requires Placed(parent, raw, i, j, where) && i < |raw| && j < |raw[i]| && raw[i][j] == child + 1
    requires child < |parent| && parent[child] == NONE
    ensures Placed(parent[child := i], raw, i, j + 1, where[child := (i, j)])
  {
    var par, wh := parent[child := i], where[child := (i, j)];
    assert child in where ==> Found(parent, raw, i, j, child, where[child]);
    var next := j + 1;
    forall a, b | 0 <= a < |raw| && 0 <= b < |raw[a]| ensures Recorded(raw, i, next, wh, a, b) {
      assert Recorded(raw, i, j, where, a, b);
    }
    forall c | c in wh ensures Found(par, raw, i, j + 1, c, wh[c]) {
      if c != child { assert Found(parent, raw, i, j, c, where[c]); }
    }
  }

  /** A node that already has a parent was named before. */
  lemma TwicePlaced(parent: seq<int>, raw: seq<seq<nat>>, i: nat, j: nat, where: map<nat, (nat, nat)>, child: nat)
    requires Placed(parent, raw, i, j, where) && i < |raw| && j < |raw[i]| && raw[i][j] == child + 1
    requires child < |parent| && parent[child] != NONE
    ensures !ListedOnce(raw)
  {
    var at := where[child];
    assert Found(parent, raw, i, j, child, at);
    assert raw[at.0][at.1] == raw[i][j];
  }

  lemma NextList(children: seq<seq<nat>>, parent: seq<int>, raw: seq<seq<nat>>, i: nat, where: map<nat, (nat, nat)>)
    requires i < |raw| && Resolved(children, raw, i, |raw[i]|) && Placed(parent, raw, i, |raw[i]|, where)
    ensures Resolved(children, raw, i + 1, 0) && Placed(parent, raw, i + 1, 0, where)
  {
    var next := i + 1;
    forall a, b | 0 <= a < |raw| && 0 <= b < |raw[a]| ensures EntryIs(children, raw, next, 0, a, b) {
      assert EntryIs(children, raw, i, |raw[i]|, a, b);
    }
    forall a, b | 0 <= a < |raw| && 0 <= b < |raw[a]| ensures Recorded(raw, next, 0, where, a, b) {
      assert Recorded(raw, i, |raw[i]|, where, a, b);
    }
    forall c | c in where ensures Found(parent, raw, i + 1, 0, c, where[c]) {
      assert Found(parent, raw, i, |raw[i]|, c, where[c]);
    }
  }

  lemma AllResolved(children: seq<seq<nat>>, parent: seq<int>, raw: seq<seq<nat>>, where: map<nat, (nat, nat)>)
    requires Resolved(children, raw, |raw|, 0) && Placed(parent, raw, |raw|, 0, where)
    ensures InRange(raw) && ListedOnce(raw) && Agree(raw, children, parent)
  {
    var n := |raw|;
    forall a, b | 0 <= a < n && 0 <= b < |raw[a]|
      ensures 1 <= raw[a][b] <= n && children[a][b] == raw[a][b] - 1
    {
      assert EntryIs(children, raw, n, 0, a, b);
    }
    forall c | 0 <= c < n ensures NONE <= parent[c] < n {
      if parent[c] != NONE { assert Found(parent, raw, n, 0, c, where[c]); }
    }
    forall c, p | 0 <= c < n && 0 <= p < n ensures parent[c] == p <==> c in children[p] {
      if parent[c] == p {
        assert Found(parent, raw, n, 0, c, where[c]);
        assert children[where[c].0][where[c].1] == c;
      }
      if c in children[p] {
        var b :| 0 <= b < |children[p]| && children[p][b] == c;
        assert Recorded(raw, n, 0, where, p, b) && Found(parent, raw, n, 0, c, where[c]);
      }
    }
    OncePlaced(raw, where);
  }

  lemma OncePlaced(raw: seq<seq<nat>>, where: map<nat, (nat, nat)>)
    requires forall a, b :: 0 <= a < |raw| && 0 <= b < |raw[a]| ==> Recorded(raw, |raw|, 0, where, a, b)
    ensures ListedOnce(raw)
  {
    forall a, b, c, d | 0 <= a < |raw| && 0 <= b < |raw[a]| && 0 <= c < |raw| && 0 <= d < |raw[c]|
                        && raw[a][b] == raw[c][d]
      ensures a == c && b == d
    {
      assert Recorded(raw, |raw|, 0, where, a, b) && Recorded(raw, |raw|, 0, where, c, d);
    }
  }

  // ---------- walking up ----------

  ghost predicate Links(parent: seq<int>) {
    forall c :: 0 <= c < |parent| ==> NONE <= parent[c] < |parent|
  }

  /** The node `k` steps above `c`, or none. */
  function Up(parent: seq<int>, c: int, k: nat): (r: int)
    requires Links(parent) && NONE <= c < |parent|
    ensures NONE <= r < |parent|
  {
    if k == 0 then c
    else
      var d := Up(parent, c, k - 1);
      if d == NONE then NONE else parent[d]
  }

  /** The walk up from `c` comes to an end. */
  ghost predicate Ends(parent: seq<int>, c: int)
    requires Links(parent) && NONE <= c < |parent|
  {
    exists k: nat :: Up(parent, c, k) == NONE
  }

  lemma {:induction false} UpStays(parent: seq<int>, c: int, j: nat, k: nat)
    requires Links(parent) && NONE <= c < |parent| && j <= k
    ensures Up(parent, c, j) == NONE ==> Up(parent, c, k) == NONE
    decreases k
  {
    if j >= k {
    } else {
      UpStays(parent, c, j, k - 1);
    }
  }

  /** Two equal places on a walk stay equal when both go on. */
  lemma {:induction false} UpRepeats(parent: seq<int>, c: int, a: nat, b: nat, t: nat)
    requires Links(parent) && NONE <= c < |parent| && Up(parent, c, a) == Up(parent, c, b)
    ensures Up(parent, c, a + t) == Up(parent, c, b + t)
    decreases t
  {
    if t == 0 {
    } else {
      UpRepeats(parent, c, a, b, t - 1);
    }
  }

  /** From the first repeated place on, going on by any number of periods changes nothing. */
  lemma {:induction false} UpPeriodic(parent: seq<int>, c: int, a: nat, period: nat, x: nat, times: nat)
    requires Links(parent) && NONE <= c < |parent| && a <= x
    requires Up(parent, c, a) == Up(parent, c, a + period)
    ensures Up(parent, c, x) == Up(parent, c, x + times * period)
    decreases times
  {
    if times == 0 {
    } else {
      UpPeriodic(parent, c, a, period, x, times - 1);
      OneMore(x, times, period);
      var y := x + (times - 1) * period;
      UpRepeats(parent, c, a, a + period, y - a);
    }
  }

  lemma OneMore(x: nat, times: nat, period: nat)
    requires times > 0
    ensures x + (times - 1) * period + period == x + times * period
    ensures (times - 1) * period >= 0
  {
  }

  function Walk(parent: seq<int>, c: int, n: nat): (w: seq<int>)
    requires Links(parent) && NONE <= c < |parent|
    ensures |w| == n && forall k :: 0 <= k < n ==> w[k] == Up(parent, c, k)
  {
    seq(n, k requires 0 <= k < n => Up(parent, c, k))
  }

  /** A walk of as many steps as there are nodes repeats a place. */
  lemma WalkRepeats(parent: seq<int>, c: int) returns (a: nat, b: nat)
    requires Links(parent) && NONE <= c < |parent| && Up(parent, c, |parent|) != NONE
    ensures a < b <= |parent| && Up(parent, c, a) == Up(parent, c, b)
  {
    var n := |parent|;
    var w := Walk(parent, c, n + 1);
    forall k | 0 <= k <= n ensures 0 <= w[k] < n {
      if w[k] == NONE { UpStays(parent, c, k, n); }
    }
    var v := seq(n + 1, k requires 0 <= k <= n => w[k] as nat);
    Pigeonhole(v, n);
    a, b :| 0 <= a < b < |v| && v[a] == v[b];
  }

  /** The least multiple of `period` that is positive and at least `a`. */
  lemma Multiple(a: nat, period: nat) returns (t: nat, q: nat)
    requires period > 0
    ensures q == t * period && 1 <= q && a <= q && (q <= a + period - 1 || q == period)
  {
    t := 1;
    while t * period < a
      invariant t >= 1 && (t == 1 || (t - 1) * period < a)
      decreases a - t * period
    {
      assert (t + 1) * period == t * period + period;
      t := t + 1;
    }
    assert (t - 1) * period == t * period - period;
    q := t * period;
  }

  /** On a walk that has not ended after `|parent|` steps the slow and the fast cursor have met by then. */
  lemma CursorsMeet(parent: seq<int>, c: int) returns (q: nat)
    requires Links(parent) && NONE <= c < |parent| && Up(parent, c, |parent|) != NONE
    ensures 1 <= q <= |parent| && Up(parent, c, q) == Up(parent, c, 2 * q)
  {
    hide Up, Links;
    var a, b := WalkRepeats(parent, c);
    var t;
    t, q := Multiple(a, b - a);
    UpPeriodic(parent, c, a, b - a, q, t);
  }

  /** Where the cursors meet, the walk goes round for ever. */
  lemma MeetingNeverEnds(parent: seq<int>, c: int, q: nat)
    requires Links(parent) && NONE <= c < |parent| && q >= 1
    requires Up(parent, c, q) == Up(parent, c, 2 * q) != NONE
    ensures !Ends(parent, c)
  {
    forall k: nat ensures Up(parent, c, k) != NONE {
      UpPeriodic(parent, c, q, q, q, k);
      assert k <= q + k * q;
      UpStays(parent, c, k, q + k * q);
    }
  }

  /** A walk ends within as many steps as there are nodes, or never. */
  lemma EndsInTime(parent: seq<int>, c: int)
    requires Links(parent) && NONE <= c < |parent|
    ensures Ends(parent, c) <==> Up(parent, c, |parent|) == NONE
  {
    if Up(parent, c, |parent|) != NONE {
      var q := CursorsMeet(parent, c);
      if Up(parent, c, q) == NONE { UpStays(parent, c, q, |parent|); }
      MeetingNeverEnds(parent, c, q);
    }
  }

  // ---------- the cycle check ----------

  /** One node: run a slow and a fast cursor up from it.  Ends within as many turns as there are nodes. */
  method WalkEnds(parent: array<int>, c: nat) returns (ok: bool)
    requires Links(parent[..]) && c < parent.Length
    ensures ok <==> Ends(parent[..], c)
  {
    ghost var p := parent[..];
    ghost var k := 1;
    assert Up(p, c, 0) == c;
    assert Up(p, c, 1) == parent[c];
    var p1 := parent[c];
    var p2 := if p1 != NONE then parent[p1] else NONE;
    while p1 != NONE && p2 != NONE
      invariant 1 <= k <= |p| + 1 && p1 == Up(p, c, k) && p2 == Up(p, c, 2 * k)
      invariant forall q :: 1 <= q < k ==> Up(p, c, q) != Up(p, c, 2 * q)
      decreases |p| - k
    {
      if p1 == p2 {
        MeetingNeverEnds(p, c, k);
        return false;
      }
      if k >= |p| {
        UpStays(p, c, |p|, 2 * k);
        var q := CursorsMeet(p, c);
      }
      UpTwice(p, c, k);
      p1 := parent[p1];
      p2 := if parent[p2] != NONE then parent[parent[p2]] else NONE;
      k := k + 1;
    }
    UpStays(p, c, k, 2 * k);
    return true;
  }

  lemma UpTwice(parent: seq<int>, c: int, k: nat)
    requires Links(parent) && NONE <= c < |parent|
    ensures var d := Up(parent, c, 2 * k);
      Up(parent, c, 2 * (k + 1)) == if d == NONE || parent[d] == NONE then NONE else parent[parent[d]]
  {
    assert Up(parent, c, 2 * k + 1) == var d := Up(parent, c, 2 * k); if d == NONE then NONE else parent[d];
  }

  /** The check passes exactly when the walk up from every node ends. */
  method CheckCycles(parent: array<int>) returns (ok: bool)
    requires Links(parent[..])
    ensures ok <==> forall c :: 0 <= c < parent.Length ==> Ends(parent[..], c)
  {
    for i := 0 to parent.Length
      invariant forall c :: 0 <= c < i ==> Ends(parent[..], c)
    {
      var here := WalkEnds(parent, i);
      if !here {
        return false;
      }
    }
    return true;
  }

  /** Fixup, then the cycle check: accepted exactly when every entry names a node, no node is named twice, and no way
      down the lists leads back to where it started. */
  method Accept(nodes: Nodes) returns (ok: bool)
    requires nodes.children.Length == nodes.parent.Length
    requires forall c :: 0 <= c < nodes.parent.Length ==> nodes.parent[c] == NONE
    modifies nodes.children, nodes.parent
    ensures ok <==> var raw := old(nodes.children[..]); InRange(raw) && ListedOnce(raw) && Acyclic(raw)
  {
    ghost var raw := nodes.children[..];
    var r := nodes.FixupParents();
    if r != SUCCESS {
      return false;
    }
    ok := CheckCycles(nodes.parent);
    EndsIffAcyclic(raw, nodes.children[..], nodes.parent[..]);
  }

  /** Fixup and cycle check together: every upward walk ends at a node without parent, within as many steps as
      there are nodes, so the nodes form a forest. */
  lemma Forest(raw: seq<seq<nat>>, children: seq<seq<nat>>, parent: seq<int>, c: nat) returns (k: nat)
    requires Agree(raw, children, parent) && c < |parent| && Ends(parent, c)
    ensures k < |parent| && Up(parent, c, k) != NONE && Up(parent, c, k + 1) == NONE
    ensures forall a, b :: 0 <= a < b <= k ==> Up(parent, c, a) != Up(parent, c, b)
  {
    EndsInTime(parent, c);
    k := 0;
    while Up(parent, c, k + 1) != NONE
      invariant k < |parent| && Up(parent, c, k) != NONE
      decreases |parent| - k
    {
      if k + 1 == |parent| { assert false; }
      k := k + 1;
    }
    forall a, b | 0 <= a < b <= k ensures Up(parent, c, a) != Up(parent, c, b) {
      if Up(parent, c, a) == Up(parent, c, b) {
        UpRepeats(parent, c, a, b, k + 1 - b);
        UpStays(parent, c, a + k + 1 - b, k);
      }
    }
  }

  // ---------- walking down ----------

  /** Every node of `p` is listed as a child by the one before it. */
  ghost predicate Descends(raw: seq<seq<nat>>, p: seq<nat>) {
    && (forall i :: 0 <= i < |p| ==> p[i] < |raw|)
    && (forall i :: 0 <= i < |p| - 1 ==> p[i + 1] + 1 in raw[p[i]])
  }

  /** No way down the child lists leads back to where it started. */
  ghost predicate Acyclic(raw: seq<seq<nat>>) {
    forall p :: |p| > 1 && Descends(raw, p) ==> p[0] != p[|p| - 1]
  }

  lemma ListedBy(raw: seq<seq<nat>>, children: seq<seq<nat>>, parent: seq<int>, n: nat, c: nat)
    requires Agree(raw, children, parent) && n < |raw| && c < |raw|
    ensures c + 1 in raw[n] <==> parent[c] == n
  {
    if c + 1 in raw[n] {
      var b :| 0 <= b < |raw[n]| && raw[n][b] == c + 1;
      assert children[n][b] == c;
    }
    if c in children[n] {
      var b :| 0 <= b < |children[n]| && children[n][b] == c;
      assert raw[n][b] == c + 1;
    }
  }

  /** A way down, walked up again. */
  lemma {:induction false} DescentUp(raw: seq<seq<nat>>, children: seq<seq<nat>>, parent: seq<int>, p: seq<nat>, k: nat)
    requires Agree(raw, children, parent) && Descends(raw, p) && k < |p|
    ensures Up(parent, p[|p| - 1], k) == p[|p| - 1 - k]
  {
    if k == 0 {
    } else {
      DescentUp(raw, children, parent, p, k - 1);
      ListedBy(raw, children, parent, p[|p| - 1 - k], p[|p| - k]);
    }
  }

  lemma CycleNeverEnds(raw: seq<seq<nat>>, children: seq<seq<nat>>, parent: seq<int>, p: seq<nat>)
    requires Agree(raw, children, parent) && |p| > 1 && Descends(raw, p) && p[0] == p[|p| - 1]
    ensures !Ends(parent, p[0])
  {
    var k := |p| - 1;
    DescentUp(raw, children, parent, p, k);
    assert Up(parent, p[0], 0) == p[0];
    UpRepeats(parent, p[0], 0, k, k);
    MeetingNeverEnds(parent, p[0], k);
  }

  /** A walk up that never ends gives a cycle of child lists. */
  lemma EndlessCycle(raw: seq<seq<nat>>, children: seq<seq<nat>>, parent: seq<int>, c: nat)
    requires Agree(raw, children, parent) && c < |parent| && !Ends(parent, c)
    ensures !Acyclic(raw)
  {
    hide Agree, Links, Up, Ends, Descends;
    Agreed(raw, children, parent);
    EndsInTime(parent, c);
    var a, b := WalkRepeats(parent, c);
    UpStays(parent, c, b, |parent|);
    var p := WayDown(parent, c, a, b);
    WayDescends(raw, children, parent, c, a, b);
    assert p[0] == p[|p| - 1];
  }

  /** The places from step `b` back to step `a` of a walk up. */
  function WayDown(parent: seq<int>, c: int, a: nat, b: nat): (p: seq<nat>)
    requires Links(parent) && NONE <= c < |parent| && a <= b && Up(parent, c, b) != NONE
    ensures |p| == b - a + 1 && forall i :: 0 <= i < |p| ==> p[i] == Up(parent, c, b - i)
  {
    UpStays(parent, c, if a < b then b - 1 else b, b);
    [Up(parent, c, b)] + if a == b then [] else WayDown(parent, c, a, b - 1)
  }

  lemma WayDescends(raw: seq<seq<nat>>, children: seq<seq<nat>>, parent: seq<int>, c: nat, a: nat, b: nat)
    requires Agree(raw, children, parent) && c < |parent| && a <= b && Up(parent, c, b) != NONE
    ensures Descends(raw, WayDown(parent, c, a, b))
  {
    hide Agree;
    Agreed(raw, children, parent);
    var p := WayDown(parent, c, a, b);
    forall i | 0 <= i < |p| - 1 ensures p[i + 1] + 1 in raw[p[i]] {
      assert Up(parent, c, b - i - 1 + 1) == parent[p[i + 1]];
      ListedBy(raw, children, parent, p[i], p[i + 1]);
    }
  }

  /** After fixup every walk up ends if and only if the child lists have no cycle. */
  lemma EndsIffAcyclic(raw: seq<seq<nat>>, children: seq<seq<nat>>, parent: seq<int>)
    requires Agree(raw, children, parent)
    ensures (forall c :: 0 <= c < |parent| ==> Ends(parent, c)) <==> Acyclic(raw)
  {
    hide Agree, Ends, Up, Descends;
    Agreed(raw, children, parent);
    if c: nat :| c < |parent| && !Ends(parent, c) {
      EndlessCycle(raw, children, parent, c);
    } else if !Acyclic(raw) {
      var p: seq<nat> :| |p| > 1 && Descends(raw, p) && p[0] == p[|p| - 1];
      Start(raw, p);
      CycleNeverEnds(raw, children, parent, p);
    }
  }

  lemma Agreed(raw: seq<seq<nat>>, children: seq<seq<nat>>, parent: seq<int>)
    requires Agree(raw, children, parent)
    ensures Links(parent) && |parent| == |raw|
  {
  }

  lemma Start(raw: seq<seq<nat>>, p: seq<nat>)
    requires Descends(raw, p) && p != []
    ensures p[0] < |raw|
  {
  }

  /** Without cycles a way down visits no node twice, so that it has at most as many nodes as there are. */
  lemma DescentEnds(raw: seq<seq<nat>>, p: seq<nat>)
    requires Acyclic(raw) && Descends(raw, p)
    ensures NoDup(p) && |p| <= |raw|
  {
    forall i, j | 0 <= i < j < |p| ensures p[i] != p[j] {
      var part := p[i..j + 1];
      forall k | 0 <= k < |part| - 1 ensures part[k + 1] + 1 in raw[part[k]] {
        assert part[k] == p[i + k] && part[k + 1] == p[i + k + 1];
      }
      assert Descends(raw, part);
    }
    if |p| > |raw| {
      Pigeonhole(p, |raw|);
    }
  }
}
