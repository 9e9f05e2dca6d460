// JSON text with its white space, and the tokens a reader expects for it.
// Commas may be missing: whether that matters is for the tokenizer to say.
module JsonSyntax {
  import opened Jsmn

  /** A value as it is spelled.  A `Node` is an object (`record`) or an array; `tail` stands before its closing
      bracket. */
  datatype Syntax = Quote(body: string) | Literal(text: string) | Node(record: bool, entries: seq<Entry>, tail: string)

  /** `gap` is what stands between the entry and the opening bracket or the entry before it. */
  datatype Entry = Item(gap: string, value: Syntax) | Field(gap: string, key: string, colon: string, value: Syntax)

  // ---------- text ----------

  function Quoted(s: string): string {
    "\"" + s + "\""
  }

  function Opener(record: bool): string { if record then "{" else "[" }

  function Closer(record: bool): string { if record then "}" else "]" }

  function Source(v: Syntax): string
    decreases v, 0
  {
    match v
    case Quote(s) => Quoted(s)
    case Literal(t) => t
    case Node(record, entries, tail) => Opener(record) + EntriesSource(entries) + (tail + Closer(record))
  }

  function EntriesSource(entries: seq<Entry>): string
    decreases entries, 1
  {
    if entries == [] then "" else entries[0].gap + EntrySource(entries[0]) + EntriesSource(entries[1..])
  }

  /** An entry without its gap. */
  function EntrySource(e: Entry): string
    decreases e, 0
  {
    Prefix(e) + Source(e.value)
  }

  /** Key and colon, if any. */
  function Prefix(e: Entry): string {
    if e.Field? then Quoted(e.key) + e.colon else ""
  }

  // ---------- which texts ----------

  /** The letters of the short escapes: section 7 of RFC 8259. */
  predicate ShortEscape(c: char) {
    c == '\"' || c == '\\' || c == '/' || c == 'b' || c == 'f' || c == 'n' || c == 'r' || c == 't'
  }

  predicate HexDigit(c: char) {
    '0' <= c <= '9' || 'A' <= c <= 'F' || 'a' <= c <= 'f'
  }

  /** Text that may stand between the quotes of a string: any characters but NUL, quotes and backslashes, and escape
      sequences. */
  predicate Escaped(s: string) {
    if s == [] then true
    else if s[0] == '\\' then
      && |s| >= 2
      && if ShortEscape(s[1]) then Escaped(s[2..])
         else
           && s[1] == 'u' && |s| >= 6 && HexDigit(s[2]) && HexDigit(s[3]) && HexDigit(s[4]) && HexDigit(s[5])
           && Escaped(s[6..])
    else s[0] != '\"' && s[0] != '\0' && Escaped(s[1..])
  }

  /** White space: section 2 of RFC 8259. */
  predicate White(c: char) {
    c as int == 0x20 || c as int == 0x09 || c as int == 0x0a || c as int == 0x0d
  }

  predicate Spaces(s: string) {
    forall i :: 0 <= i < |s| ==> White(s[i])
  }

  /** White space with one `c` at place `k`. */
  predicate SpacedAt(s: string, c: char, k: nat) {
    k < |s| && s[k] == c && Spaces(s[..k]) && Spaces(s[k + 1..])
  }

  predicate Spaced(s: string, c: char) {
    exists k: nat :: k < |s| && SpacedAt(s, c, k)
  }

  predicate HasComma(gap: string) { ',' in gap }

  /** White space, perhaps with a comma. */
  predicate Gap(s: string) {
    Spaces(s) || Spaced(s, ',')
  }

  /** What a literal may begin with. */
  predicate LiteralStart(c: char) {
    c == '-' || '0' <= c <= '9' || c == 't' || c == 'f' || c == 'n'
  }

  /** Printable, and none of the characters that end a literal. */
  predicate LiteralPart(c: char) {
    0x20 < c as int < 0x7f && c != ',' && c != ']' && c != '}'
  }

  /** Numbers, `true`, `false` and `null` are literals; so is more that the tokenizer takes for a primitive. */
  predicate LiteralText(t: string) {
    t != [] && LiteralStart(t[0]) && forall i :: 0 <= i < |t| ==> LiteralPart(t[i])
  }

  predicate Lexical(v: Syntax)
    decreases v, 0
  {
    match v
    case Quote(s) => Escaped(s)
    case Literal(t) => LiteralText(t)
    case Node(record, entries, tail) => Spaces(tail) && LexicalEntries(entries, record, true)
  }

  /** Entries after the first are set off by a gap that is not empty. */
  predicate LexicalEntries(entries: seq<Entry>, record: bool, first: bool)
    decreases entries, 1
  {
    entries == [] ||
    (&& (first || entries[0].gap != "") && LexicalEntry(entries[0], record)
     && LexicalEntries(entries[1..], record, false))
  }

  predicate LexicalEntry(e: Entry, record: bool)
    decreases e, 0
  {
    && Gap(e.gap) && e.Field? == record
    && (e.Field? ==> Escaped(e.key) && Spaced(e.colon, ':'))
    && Lexical(e.value)
  }

  /** Members of objects are separated by commas, at every level. */
  predicate Separated(v: Syntax)
    decreases v, 0
  {
    v.Node? ==> SeparatedEntries(v.entries, v.record, false)
  }

  /** `need`: a member stands before the first entry. */
  predicate SeparatedEntries(entries: seq<Entry>, record: bool, need: bool)
    decreases entries, 1
  {
    entries == [] ||
    (&& (need ==> HasComma(entries[0].gap)) && SeparatedEntry(entries[0])
     && SeparatedEntries(entries[1..], record, record))
  }

  predicate SeparatedEntry(e: Entry)
    decreases e, 0
  {
    Separated(e.value)
  }

  // ---------- the expected tokens ----------

  function Count(v: Syntax): (n: nat)
    ensures n > 0
    decreases v, 0
  {
    if v.Node? then 1 + EntriesCount(v.entries) else 1
  }

  function EntriesCount(entries: seq<Entry>): nat
    decreases entries, 1
  {
    if entries == [] then 0 else EntryCount(entries[0]) + EntriesCount(entries[1..])
  }

  function EntryCount(e: Entry): (n: nat)
    ensures n > 0
    decreases e, 0
  {
    (if e.Field? then 1 else 0) + Count(e.value)
  }

  function KindOf(record: bool): Kind { if record then Object else Array }

  /** The tokens of a value whose text starts at `at` and whose first token has index `idx`. */
  function Tokens(v: Syntax, at: nat, idx: nat, parent: int): (t: seq<Token>)
    ensures |t| == Count(v)
    decreases v, 0
  {
    match v
    case Quote(s) => [Token(String, at + 1, at + 1 + |s|, 0, parent)]
    case Literal(t) => [Token(Primitive, at, at + |t|, 0, parent)]
    case Node(record, entries, tail) =>
      [Token(KindOf(record), at, at + |Source(v)|, |entries|, parent)] + EntriesTokens(entries, at + 1, idx + 1, idx)
  }

  function EntriesTokens(entries: seq<Entry>, at: nat, idx: nat, parent: int): (t: seq<Token>)
    ensures |t| == EntriesCount(entries)
    decreases entries, 1
  {
    if entries == [] then []
    else
      var start := at + |entries[0].gap|;
      EntryTokens(entries[0], start, idx, parent)
      + EntriesTokens(entries[1..], start + |EntrySource(entries[0])|, idx + EntryCount(entries[0]), parent)
  }

  /** A key owns its value. */
  function EntryTokens(e: Entry, at: nat, idx: nat, parent: int): (t: seq<Token>)
    ensures |t| == EntryCount(e)
    decreases e, 0
  {
    if e.Field? then
      [Token(String, at + 1, at + 1 + |e.key|, 1, parent)] + Tokens(e.value, at + |Prefix(e)|, idx + 1, idx)
    else Tokens(e.value, at, idx, parent)
  }

  // ---------- tokens as a tree, without the text ----------

  /** The tokens from `i` on have kinds, parents and sizes of the value `v` below token `parent`, in preorder. */
  ghost predicate Shaped(toks: seq<Token>, i: nat, parent: int, v: Syntax)
    decreases v, 0
  {
    && i < |toks| && toks[i].parent == parent
    && match v
       case Quote(_) => toks[i].kind == String && toks[i].size == 0
       case Literal(_) => toks[i].kind == Primitive && toks[i].size == 0
       case Node(record, entries, _) =>
         toks[i].kind == KindOf(record) && toks[i].size == |entries| && ShapedEntries(toks, i + 1, i, entries, record)
  }

  ghost predicate ShapedEntries(toks: seq<Token>, i: nat, parent: int, entries: seq<Entry>, record: bool)
    decreases entries, 1
  {
    entries == [] ||
    (&& entries[0].Field? == record && ShapedEntry(toks, i, parent, entries[0])
     && ShapedEntries(toks, i + EntryCount(entries[0]), parent, entries[1..], record))
  }

  /** A key is a token with one child, its value. */
  ghost predicate ShapedEntry(toks: seq<Token>, i: nat, parent: int, e: Entry)
    decreases e, 0
  {
    if e.Field? then
      && i < |toks| && toks[i].kind == String && toks[i].size == 1 && toks[i].parent == parent
      && Shaped(toks, i + 1, i, e.value)
    else Shaped(toks, i, parent, e.value)
  }

  // ---------- the expected tokens have that shape ----------

  ghost predicate Has(toks: seq<Token>, i: nat, t: seq<Token>) {
    i + |t| <= |toks| && toks[i..i + |t|] == t
  }

  lemma HasSplit(toks: seq<Token>, i: nat, a: seq<Token>, b: seq<Token>)
    requires Has(toks, i, a + b)
    ensures Has(toks, i, a) && Has(toks, i + |a|, b)
  {
    assert toks[i..i + |a|] == (a + b)[..|a|];
    assert toks[i + |a|..i + |a| + |b|] == (a + b)[|a|..];
  }

  lemma HasFirst(toks: seq<Token>, i: nat, t: seq<Token>)
    requires Has(toks, i, t) && t != []
    ensures i < |toks| && toks[i] == t[0]
  {
    assert toks[i..i + |t|][0] == t[0];
  }

  lemma {:induction false} TokensShaped(toks: seq<Token>, v: Syntax, at: nat, i: nat, parent: int)
    requires Has(toks, i, Tokens(v, at, i, parent)) && Lexical(v)
    ensures Shaped(toks, i, parent, v)
    decreases v, 0
  {
    hide Has, Spaces, Escaped, LiteralText;
    HasFirst(toks, i, Tokens(v, at, i, parent));
    if v.Node? {
      HasSplit(toks, i, [Token(KindOf(v.record), at, at + |Source(v)|, |v.entries|, parent)],
               EntriesTokens(v.entries, at + 1, i + 1, i));
      EntriesShaped(toks, v.entries, v.record, true, at + 1, i + 1, i);
    }
  }

  lemma {:induction false} EntriesShaped(toks: seq<Token>, entries: seq<Entry>, record: bool, first: bool, at: nat,
                                         i: nat, parent: int)
    requires Has(toks, i, EntriesTokens(entries, at, i, parent)) && LexicalEntries(entries, record, first)
    ensures ShapedEntries(toks, i, parent, entries, record)
    decreases entries, 1
  {
    hide Has, EntrySource, ShapedEntry, Gap, Lexical, Escaped, Spaced;
    if entries == [] {
    } else {
      var e, rest := entries[0], entries[1..];
      var start := at + |e.gap|;
      HasSplit(toks, i, EntryTokens(e, start, i, parent),
               EntriesTokens(rest, start + |EntrySource(e)|, i + EntryCount(e), parent));
      EntryShaped(toks, e, record, start, i, parent);
      EntriesShaped(toks, rest, record, false, start + |EntrySource(e)|, i + EntryCount(e), parent);
    }
  }

  lemma {:induction false} EntryShaped(toks: seq<Token>, e: Entry, record: bool, at: nat, i: nat, parent: int)
    requires Has(toks, i, EntryTokens(e, at, i, parent)) && LexicalEntry(e, record)
    ensures ShapedEntry(toks, i, parent, e)
    decreases e, 0
  {
    hide Has, Prefix, Gap, Escaped, Spaced;
    if e.Field? {
      HasFirst(toks, i, EntryTokens(e, at, i, parent));
      HasSplit(toks, i, [Token(String, at + 1, at + 1 + |e.key|, 1, parent)],
               Tokens(e.value, at + |Prefix(e)|, i + 1, i));
      TokensShaped(toks, e.value, at + |Prefix(e)|, i + 1, i);
    } else {
      TokensShaped(toks, e.value, at, i, parent);
    }
  }
}
