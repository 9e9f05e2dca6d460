// Stepping over a whole value in the token stream with two counters instead of recursion.
module JsonSkip {
  import opened Jsmn
  import opened JsonSyntax

  /** Tokens that belong to a container directly: every member of an object is a key and a value. */
  function Parts(t: Token): nat {
    if t.kind.Object? then 2 * t.size else if t.kind.Array? then t.size else 0
  }

  datatype End = Past(i: nat) | Failed

  ghost predicate Guarded(toks: seq<Token>) {
    |toks| > 0 && toks[|toks| - 1].kind == Undefined
  }

  // ---------- by recursion ----------

  /** Where the value that starts at token `i` ends, following the nesting. */
  function ValueEnd(toks: seq<Token>, i: nat): (r: End)
    ensures r.Past? ==> i < r.i <= |toks|
    decreases |toks| - i, 0, 0
  {
    if i >= |toks| || toks[i].kind == Undefined then Failed
    else PartsEnd(toks, i + 1, Parts(toks[i]))
  }

  /** Where `k` values in a row end. */
  function PartsEnd(toks: seq<Token>, i: nat, k: nat): (r: End)
    requires i <= |toks|
    ensures r.Past? ==> i <= r.i <= |toks|
    decreases |toks| - i, 1, k
  {
    if k == 0 then Past(i)
    else
      match ValueEnd(toks, i)
      case Past(j) => PartsEnd(toks, j, k - 1)
      case Failed => Failed
  }

  // ---------- by counting ----------

  /** The loop: `i` is the current token, `end` the first token known not to belong to the value. */
  function SkipFrom(toks: seq<Token>, i: nat, end: nat): (r: End)
    requires Guarded(toks) && i < |toks| && i <= end
    ensures r.Past? ==> r.i < |toks|
    decreases |toks| - i
  {
    if i >= end then Past(i)
    else if toks[i].kind == Undefined then Failed
    else SkipFrom(toks, i + 1, end + Parts(toks[i]))
  }

  /** `cgltf_skip_json`: never reads past the guard, and ends. */
  method SkipJson(tokens: array<Token>, start: nat) returns (r: int)
    requires Guarded(tokens[..]) && start < tokens.Length
    ensures match SkipFrom(tokens[..], start, start + 1)
      case Past(j) => r == j < tokens.Length
      case Failed => r == -1
  {
    var i, end := start, start + 1;
    while i < end
      invariant start <= i <= end && i < tokens.Length
      invariant SkipFrom(tokens[..], start, start + 1) == SkipFrom(tokens[..], i, end)
      decreases tokens.Length - i
    {
      match tokens[i].kind {
        case Object => end := end + tokens[i].size * 2;
        case Array => end := end + tokens[i].size;
        case Primitive =>
        case String =>
        case Undefined => return -1;
      }
      i := i + 1;
    }
    return i;
  }

  // ---------- both agree ----------

  /** Counting across `k` values, with any number of further tokens still owed. */
  lemma {:induction false} PartsCounted(toks: seq<Token>, i: nat, k: nat, owed: nat)
    requires Guarded(toks) && i < |toks|
    ensures match PartsEnd(toks, i, k)
      case Past(j) => j < |toks| && SkipFrom(toks, i, i + k + owed) == SkipFrom(toks, j, j + owed)
      case Failed => SkipFrom(toks, i, i + k + owed) == Failed
    decreases |toks| - i, 1, k
  {
    if k == 0 {
    } else {
      ValueCounted(toks, i, k - 1 + owed);
      match ValueEnd(toks, i)
      case Past(j) => PartsCounted(toks, j, k - 1, owed);
      case Failed =>
    }
  }

  lemma {:induction false} ValueCounted(toks: seq<Token>, i: nat, owed: nat)
    requires Guarded(toks) && i < |toks|
    ensures match ValueEnd(toks, i)
      case Past(j) => j < |toks| && SkipFrom(toks, i, i + 1 + owed) == SkipFrom(toks, j, j + owed)
      case Failed => SkipFrom(toks, i, i + 1 + owed) == Failed
    decreases |toks| - i, 0, 0
  {
    if toks[i].kind != Undefined {
      PartsCounted(toks, i + 1, Parts(toks[i]), owed);
    }
  }

  /** On every guarded token array flat counting finds the same end as recursive traversal, or fails with it. */
  lemma SkipIsTraversal(toks: seq<Token>, i: nat)
    requires Guarded(toks) && i < |toks|
    ensures SkipFrom(toks, i, i + 1) == ValueEnd(toks, i)
  {
    ValueCounted(toks, i, 0);
  }

  // ---------- values ----------

  /** Where a value ends depends on the shape of the tokens alone. */
  lemma {:induction false} ShapedEnd(toks: seq<Token>, i: nat, parent: int, v: Syntax)
    requires Shaped(toks, i, parent, v)
    ensures ValueEnd(toks, i) == Past(i + Count(v))
    decreases v, 0
  {
    if v.Node? { ShapedEntriesEnd(toks, i + 1, i, v.entries, v.record); }
  }

  lemma {:induction false} ShapedEntriesEnd(toks: seq<Token>, i: nat, parent: int, entries: seq<Entry>, record: bool)
    requires i <= |toks| && ShapedEntries(toks, i, parent, entries, record)
    ensures PartsEnd(toks, i, if record then 2 * |entries| else |entries|) == Past(i + EntriesCount(entries))
    decreases entries, 1
  {
    if entries == [] {
    } else {
      var e, rest := entries[0], entries[1..];
      var k := if record then 2 * |entries| else |entries|;
      ShapedEntryEnd(toks, i, parent, e, k);
      hide *;
      EntriesCons(toks, i, parent, entries, record);
      ShapedEntriesEnd(toks, i + EntryCount(e), parent, rest, record);
    }
  }

  lemma EntriesCons(toks: seq<Token>, i: nat, parent: int, entries: seq<Entry>, record: bool)
    requires entries != [] && ShapedEntries(toks, i, parent, entries, record)
    ensures ShapedEntries(toks, i + EntryCount(entries[0]), parent, entries[1..], record)
    ensures EntriesCount(entries) == EntryCount(entries[0]) + EntriesCount(entries[1..])
  {
  }

  /** A key and its value are two parts, an item is one. */
  lemma {:induction false} ShapedEntryEnd(toks: seq<Token>, i: nat, parent: int, e: Entry, k: nat)
    requires ShapedEntry(toks, i, parent, e) && k >= if e.Field? then 2 else 1
    ensures i + EntryCount(e) <= |toks|
    ensures PartsEnd(toks, i, k) == PartsEnd(toks, i + EntryCount(e), k - if e.Field? then 2 else 1)
    decreases e, 0
  {
    if e.Field? {
      KeyEnd(toks, i, parent, e);
      ShapedEnd(toks, i + 1, i, e.value);
      PartsStep(toks, i, k);
      PartsStep(toks, i + 1, k - 1);
    } else {
      ShapedEnd(toks, i, parent, e.value);
      PartsStep(toks, i, k);
    }
  }

  lemma PartsStep(toks: seq<Token>, i: nat, k: nat)
    requires i <= |toks| && k > 0 && ValueEnd(toks, i).Past?
    ensures PartsEnd(toks, i, k) == PartsEnd(toks, ValueEnd(toks, i).i, k - 1)
  {
  }

  lemma KeyEnd(toks: seq<Token>, i: nat, parent: int, e: Entry)
    requires e.Field? && ShapedEntry(toks, i, parent, e)
    ensures ValueEnd(toks, i) == Past(i + 1)
  {
  }

  /** Started at the first token of any value, the loop ends just past the value's last token. */
  lemma ValueSkipped(toks: seq<Token>, i: nat, parent: int, v: Syntax)
    requires Guarded(toks) && Shaped(toks, i, parent, v)
    ensures SkipFrom(toks, i, i + 1) == Past(i + Count(v))
  {
    ShapedEnd(toks, i, parent, v);
    SkipIsTraversal(toks, i);
  }

  // ---------- values inside values ----------

  /** `w`, with its first token at `j`, is `v` or a value inside it; `v` starts at `i`. */
  ghost predicate Within(v: Syntax, i: nat, w: Syntax, j: nat)
    decreases v, 0
  {
    (w == v && j == i) || (v.Node? && WithinEntries(v.entries, i + 1, w, j))
  }

  ghost predicate WithinEntries(entries: seq<Entry>, i: nat, w: Syntax, j: nat)
    decreases entries, 1
  {
    entries != [] &&
    (WithinEntry(entries[0], i, w, j) || WithinEntries(entries[1..], i + EntryCount(entries[0]), w, j))
  }

  ghost predicate WithinEntry(e: Entry, i: nat, w: Syntax, j: nat)
    decreases e, 0
  {
    Within(e.value, if e.Field? then i + 1 else i, w, j)
  }

  lemma {:induction false} ShapedWithin(toks: seq<Token>, i: nat, parent: int, v: Syntax, w: Syntax, j: nat)
    returns (p: int)
    requires Shaped(toks, i, parent, v) && Within(v, i, w, j)
    ensures Shaped(toks, j, p, w)
    decreases v, 0
  {
    if w == v && j == i { p := parent; } else { p := ShapedWithinEntries(toks, i + 1, i, v.entries, v.record, w, j); }
  }

  lemma {:induction false} ShapedWithinEntries(toks: seq<Token>, i: nat, parent: int, entries: seq<Entry>,
                                               record: bool, w: Syntax, j: nat)
    returns (p: int)
    requires ShapedEntries(toks, i, parent, entries, record) && WithinEntries(entries, i, w, j)
    ensures Shaped(toks, j, p, w)
    decreases entries, 1
  {
    if WithinEntry(entries[0], i, w, j) {
      p := ShapedWithinEntry(toks, i, parent, entries[0], w, j);
    } else {
      p := ShapedWithinEntries(toks, i + EntryCount(entries[0]), parent, entries[1..], record, w, j);
    }
  }

  lemma {:induction false} ShapedWithinEntry(toks: seq<Token>, i: nat, parent: int, e: Entry, w: Syntax, j: nat)
    returns (p: int)
    requires ShapedEntry(toks, i, parent, e) && WithinEntry(e, i, w, j)
    ensures Shaped(toks, j, p, w)
    decreases e, 0
  {
    if e.Field? {
      p := ShapedWithin(toks, i + 1, i, e.value, w, j);
    } else {
      p := ShapedWithin(toks, i, parent, e.value, w, j);
    }
  }

  // ---------- with the guard behind ----------

  /** More tokens behind a value do not change its shape. */
  lemma {:induction false} ShapedPrefix(toks: seq<Token>, more: seq<Token>, i: nat, parent: int, v: Syntax)
    requires Shaped(toks, i, parent, v)
    ensures Shaped(toks + more, i, parent, v)
    decreases v, 0
  {
    if v.Node? { ShapedEntriesPrefix(toks, more, i + 1, i, v.entries, v.record); }
  }

  lemma {:induction false} ShapedEntriesPrefix(toks: seq<Token>, more: seq<Token>, i: nat, parent: int,
                                               entries: seq<Entry>, record: bool)
    requires ShapedEntries(toks, i, parent, entries, record)
    ensures ShapedEntries(toks + more, i, parent, entries, record)
    decreases entries, 1
  {
    if entries == [] {
    } else {
      ShapedEntryPrefix(toks, more, i, parent, entries[0]);
      ShapedEntriesPrefix(toks, more, i + EntryCount(entries[0]), parent, entries[1..], record);
    }
  }

  lemma {:induction false} ShapedEntryPrefix(toks: seq<Token>, more: seq<Token>, i: nat, parent: int, e: Entry)
    requires ShapedEntry(toks, i, parent, e)
    ensures ShapedEntry(toks + more, i, parent, e)
    decreases e, 0
  {
    if e.Field? { ShapedPrefix(toks, more, i + 1, i, e.value); } else { ShapedPrefix(toks, more, i, parent, e.value); }
  }
}
