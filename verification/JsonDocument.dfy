// The round trip of written documents, and what it means for a reader of the tokens.
module JsonDocument {
  import opened Jsmn
  import opened JsmnCount
  import opened JsonSyntax
  import opened JsonTokens
  import opened JsonFaults
  import opened JsonSkip
  import opened JsonWriter

  /** All keys and strings are escaped. */
  predicate Clean(v: Json) {
    match v
    case Str(s) => Escaped(s)
    case Num(_) => true
    case Blank => true
    case Arr(items) => forall v :: v in items ==> Clean(v)
    case Obj(members) => forall m :: m in members ==> Escaped(m.key) && Clean(m.value)
  }

  // ---------- how the writer spells a value ----------

  function Spelled(v: Json, depth: nat): Syntax
    decreases v, 0
  {
    match v
    case Str(s) => Quote(s)
    case Num(n) => Literal(Decimal(n))
    case Blank => Node(true, [], "")
    case Arr(items) => Node(false, SpelledItems(items, depth + 1, false), Break(false, depth))
    case Obj(members) => Node(true, SpelledMembers(members, depth + 1, false), Break(false, depth))
  }

  function SpelledItems(items: seq<Json>, depth: nat, comma: bool): (e: seq<Entry>)
    ensures |e| == |items|
    decreases items, 1
  {
    if items == [] then []
    else [Item(Break(comma, depth), Spelled(items[0], depth))] + SpelledItems(items[1..], depth, true)
  }

  function SpelledMembers(members: seq<Member>, depth: nat, comma: bool): (e: seq<Entry>)
    ensures |e| == |members|
    decreases members, 1
  {
    if members == [] then []
    else [SpelledMember(members[0], depth, comma)] + SpelledMembers(members[1..], depth, !members[0].value.Blank?)
  }

  function SpelledMember(m: Member, depth: nat, comma: bool): Entry
    decreases m, 0
  {
    Field(Break(comma, depth), m.key, ": ", Spelled(m.value, depth))
  }

  lemma {:induction false} SpelledText(v: Json, depth: nat)
    ensures Source(Spelled(v, depth)) == Text(v, depth)
    decreases v, 0
  {
    match v
    case Str(_) =>
    case Num(_) =>
    case Blank =>
    case Arr(items) => SpelledItemsText(items, depth + 1, false);
    case Obj(members) => SpelledMembersText(members, depth + 1, false);
  }

  lemma {:induction false} SpelledItemsText(items: seq<Json>, depth: nat, comma: bool)
    ensures EntriesSource(SpelledItems(items, depth, comma)) == ItemsText(items, depth, comma)
    decreases items, 1
  {
    hide Break, Source, Text, Spelled, EntrySource;
    if items == [] {
    } else {
      SpelledText(items[0], depth);
      SpelledItemText(items[0], depth, comma);
      SpelledItemsText(items[1..], depth, true);
      assert SpelledItems(items, depth, comma)[1..] == SpelledItems(items[1..], depth, true);
    }
  }

  lemma SpelledItemText(v: Json, depth: nat, comma: bool)
    ensures var e := Item(Break(comma, depth), Spelled(v, depth));
      e.gap == Break(comma, depth) && EntrySource(e) == Source(Spelled(v, depth))
  {
    hide Break, Source, Spelled;
  }

  lemma {:induction false} SpelledMembersText(members: seq<Member>, depth: nat, comma: bool)
    ensures EntriesSource(SpelledMembers(members, depth, comma)) == MembersText(members, depth, comma)
    decreases members, 1
  {
    hide Break, EntrySource, MemberText, SpelledMember;
    if members == [] {
    } else {
      var next := !members[0].value.Blank?;
      SpelledMemberText(members[0], depth, comma);
      SpelledMembersText(members[1..], depth, next);
      assert SpelledMembers(members, depth, comma)[1..] == SpelledMembers(members[1..], depth, next);
    }
  }

  lemma {:induction false} SpelledMemberText(m: Member, depth: nat, comma: bool)
    ensures var e := SpelledMember(m, depth, comma);
      e.gap == Break(comma, depth) && EntrySource(e) == MemberText(m, depth)
    decreases m, 0
  {
    hide Break;
    SpelledText(m.value, depth);
  }

  // ---------- it is legal text ----------

  lemma {:induction false} IndentsSpaces(depth: int)
    ensures Spaces(Indents(depth))
    decreases depth
  {
    if depth <= 0 {
    } else {
      IndentsSpaces(depth - 1);
    }
  }

  lemma BreakGap(comma: bool, depth: nat)
    ensures Gap(Break(comma, depth)) && Break(comma, depth) != "" && (HasComma(Break(comma, depth)) <==> comma)
    ensures !comma ==> Spaces(Break(comma, depth))
  {
    IndentsSpaces(depth);
    var b, line := Break(comma, depth), "\n" + Indents(depth);
    assert Spaces(line);
    if comma {
      assert b == "," + line && b[..0] == "" && b[0 + 1..] == line;
      assert SpacedAt(b, ',', 0);
      assert b[0] == ',';
    } else {
      assert b == line;
    }
  }

  lemma NumberText(n: int)
    ensures LiteralText(Decimal(n))
  {
  }

  lemma KeyColon()
    ensures Spaced(": ", ':')
  {
    var s := ": ";
    assert s[..0] == "" && s[0 + 1..] == " ";
    assert SpacedAt(s, ':', 0);
  }

  lemma {:induction false} SpelledLexical(v: Json, depth: nat)
    requires Writable(v) && Clean(v)
    ensures Lexical(Spelled(v, depth))
    decreases v, 0
  {
    match v
    case Str(_) =>
    case Num(n) => NumberText(n);
    case Blank =>
    case Arr(items) =>
      BreakGap(false, depth);
      SpelledItemsLexical(items, depth + 1, true, false);
    case Obj(members) =>
      BreakGap(false, depth);
      SpelledMembersLexical(members, depth + 1, true, false);
  }

  lemma {:induction false} SpelledItemsLexical(items: seq<Json>, depth: nat, first: bool, comma: bool)
    requires forall v :: v in items ==> Writable(v) && Clean(v)
    ensures LexicalEntries(SpelledItems(items, depth, comma), false, first)
    decreases items, 1
  {
    hide Break, Gap, HasComma, Writable, Clean;
    if items == [] {
    } else {
      BreakGap(comma, depth);
      SpelledLexical(items[0], depth);
      SpelledItemsLexical(items[1..], depth, false, true);
      assert SpelledItems(items, depth, comma)[1..] == SpelledItems(items[1..], depth, true);
    }
  }

  lemma {:induction false} SpelledMembersLexical(members: seq<Member>, depth: nat, first: bool, comma: bool)
    requires forall m :: m in members ==> Writable(m.value) && Escaped(m.key) && Clean(m.value)
    ensures LexicalEntries(SpelledMembers(members, depth, comma), true, first)
    decreases members, 1
  {
    hide Break, Gap, HasComma, Writable, Clean, Escaped, LexicalEntry, SpelledMember;
    if members == [] {
    } else {
      var next := !members[0].value.Blank?;
      SpelledMemberLexical(members[0], depth, comma);
      SpelledMembersLexical(members[1..], depth, false, next);
      assert SpelledMembers(members, depth, comma)[1..] == SpelledMembers(members[1..], depth, next);
    }
  }

  lemma {:induction false} SpelledMemberLexical(m: Member, depth: nat, comma: bool)
    requires Writable(m.value) && Escaped(m.key) && Clean(m.value)
    ensures var e := SpelledMember(m, depth, comma); LexicalEntry(e, true) && e.gap != ""
    decreases m, 0
  {
    hide Break, Gap, HasComma, Writable, Clean, Escaped, Spaced;
    BreakGap(comma, depth);
    KeyColon();
    SpelledLexical(m.value, depth);
  }

  // ---------- where its commas are ----------

  /** The writer sets the members of all objects off by commas exactly in tidy documents. */
  lemma {:induction false} SpelledSeparated(v: Json, depth: nat)
    ensures Separated(Spelled(v, depth)) <==> Tidy(v)
    decreases v, 0
  {
    match v
    case Str(_) =>
    case Num(_) =>
    case Blank =>
    case Arr(items) => SpelledItemsSeparated(items, depth + 1, false);
    case Obj(members) => SpelledMembersSeparated(members, depth + 1, false, false);
  }

  lemma {:induction false} SpelledItemsSeparated(items: seq<Json>, depth: nat, comma: bool)
    ensures SeparatedEntries(SpelledItems(items, depth, comma), false, false) <==> forall v :: v in items ==> Tidy(v)
    decreases items, 1
  {
    hide Break, HasComma, Tidy, SeparatedEntry, Spelled, Separated;
    if items == [] {
    } else {
      SpelledItemSeparated(items[0], depth, comma);
      SpelledItemsSeparated(items[1..], depth, true);
      assert SpelledItems(items, depth, comma)[1..] == SpelledItems(items[1..], depth, true);
      assert items == [items[0]] + items[1..];
    }
  }

  lemma {:induction false} SpelledItemSeparated(v: Json, depth: nat, comma: bool)
    ensures SeparatedEntry(Item(Break(comma, depth), Spelled(v, depth))) <==> Tidy(v)
    decreases v, 1
  {
    hide Break, Separated, Tidy, Spelled;
    SpelledSeparated(v, depth);
  }

  lemma {:induction false} SpelledMembersSeparated(members: seq<Member>, depth: nat, need: bool, comma: bool)
    ensures SeparatedEntries(SpelledMembers(members, depth, comma), true, need)
       <==> TidyMembers(members) && (need && members != [] ==> comma)
    decreases members, 1
  {
    hide Break, HasComma, SeparatedEntry, TidyMember;
    if members == [] {
    } else {
      var next := !members[0].value.Blank?;
      BreakGap(comma, depth);
      SpelledMemberSeparated(members[0], depth, comma);
      SpelledMembersSeparated(members[1..], depth, true, next);
      assert SpelledMembers(members, depth, comma)[1..] == SpelledMembers(members[1..], depth, next);
    }
  }

  lemma {:induction false} SpelledMemberSeparated(m: Member, depth: nat, comma: bool)
    ensures SeparatedEntry(SpelledMember(m, depth, comma)) <==> TidyMember(m)
    decreases m, 0
  {
    SpelledSeparated(m.value, depth);
  }

  // ---------- tokens as a tree ----------

  /** The token spans exactly the text `s`. */
  ghost predicate Spans(js: string, t: Token, s: string) {
    0 <= t.start <= t.end <= |js| && js[t.start..t.end] == s
  }

  // ---------- numbers ----------

  predicate AllDigits(s: string) {
    s != "" && forall i :: 0 <= i < |s| ==> '0' <= s[i] <= '9'
  }

  /** Digits, perhaps after a minus sign. */
  predicate IsDecimal(s: string) {
    if s != "" && s[0] == '-' then AllDigits(s[1..]) else AllDigits(s)
  }

  function Undigits(s: string): nat
    requires forall i :: 0 <= i < |s| ==> '0' <= s[i] <= '9'
  {
    if s == "" then 0 else Undigits(s[..|s| - 1]) * 10 + (s[|s| - 1] as int - 48)
  }

  /** The number a reader makes of the characters. */
  function Undecimal(s: string): int
    requires IsDecimal(s)
  {
    if s[0] == '-' then -(Undigits(s[1..]) as int) else Undigits(s)
  }

  lemma {:induction false} DigitsRead(n: nat)
    ensures Undigits(Digits(n)) == n
  {
    var s := Digits(n);
    var last := [('0' as int + n % 10) as char];
    if n < 10 {
      assert s == last && s[..|s| - 1] == "";
    } else {
      DigitsRead(n / 10);
      assert s == Digits(n / 10) + last && s[..|s| - 1] == Digits(n / 10);
    }
  }

  /** Every number is written as itself. */
  lemma DecimalRead(n: int)
    ensures IsDecimal(Decimal(n)) && Undecimal(Decimal(n)) == n
  {
    DigitsRead(if n < 0 then -n else n);
    if n < 0 { assert Decimal(n)[1..] == Digits(-n); }
  }

  /** The token's text is a decimal that reads as `n`. */
  ghost predicate Reads(js: string, t: Token, n: int) {
    0 <= t.start <= t.end <= |js| && IsDecimal(js[t.start..t.end]) && Undecimal(js[t.start..t.end]) == n
  }

  lemma SpansReads(js: string, t: Token, n: int)
    requires Spans(js, t, Decimal(n))
    ensures Reads(js, t, n)
  {
    DecimalRead(n);
  }

  // ---------- the tree ----------

  /** The tokens from `i` on are the value `v` below token `parent`, in preorder. */
  ghost predicate Tells(js: string, toks: seq<Token>, i: nat, parent: int, v: Json, depth: nat)
    decreases v, 0
  {
    && i < |toks| && toks[i].parent == parent
    && match v
       case Str(s) => toks[i].kind == String && toks[i].size == 0 && Spans(js, toks[i], s)
       case Num(n) => toks[i].kind == Primitive && toks[i].size == 0 && Reads(js, toks[i], n)
       case Blank => toks[i].kind == Object && toks[i].size == 0 && Spans(js, toks[i], Text(v, depth))
       case Arr(items) =>
         && toks[i].kind == Array && toks[i].size == |items| && Spans(js, toks[i], Text(v, depth))
         && TellsItems(js, toks, i + 1, i, items, depth + 1)
       case Obj(members) =>
         && toks[i].kind == Object && toks[i].size == |members| && Spans(js, toks[i], Text(v, depth))
         && TellsMembers(js, toks, i + 1, i, members, depth + 1)
  }

  ghost predicate TellsItems(js: string, toks: seq<Token>, i: nat, parent: int, items: seq<Json>, depth: nat)
    decreases items, 1
  {
    items == [] ||
    (&& Tells(js, toks, i, parent, items[0], depth)
     && TellsItems(js, toks, i + Count(Spelled(items[0], depth)), parent, items[1..], depth))
  }

  ghost predicate TellsMembers(js: string, toks: seq<Token>, i: nat, parent: int, members: seq<Member>, depth: nat)
    decreases members, 1
  {
    members == [] ||
    (&& TellsMember(js, toks, i, parent, members[0], depth)
     && TellsMembers(js, toks, i + 1 + Count(Spelled(members[0].value, depth)), parent, members[1..], depth))
  }

  /** A key token with one child, its value. */
  ghost predicate TellsMember(js: string, toks: seq<Token>, i: nat, parent: int, m: Member, depth: nat)
    decreases m, 0
  {
    && i < |toks| && toks[i].kind == String && toks[i].size == 1 && toks[i].parent == parent
    && Spans(js, toks[i], m.key)
    && Tells(js, toks, i + 1, i, m.value, depth)
  }

  // ---------- what tells the document has its shape ----------

  lemma {:induction false} TellsShaped(js: string, toks: seq<Token>, i: nat, parent: int, v: Json, depth: nat)
    requires Tells(js, toks, i, parent, v, depth)
    ensures Shaped(toks, i, parent, Spelled(v, depth))
    decreases v, 0
  {
    match v
    case Str(_) =>
    case Num(_) =>
    case Blank =>
    case Arr(items) => TellsItemsShaped(js, toks, i + 1, i, items, depth + 1, false);
    case Obj(members) => TellsMembersShaped(js, toks, i + 1, i, members, depth + 1, false);
  }

  lemma {:induction false} TellsItemsShaped(js: string, toks: seq<Token>, i: nat, parent: int, items: seq<Json>,
                                            depth: nat, comma: bool)
    requires TellsItems(js, toks, i, parent, items, depth)
    ensures ShapedEntries(toks, i, parent, SpelledItems(items, depth, comma), false)
    decreases items, 1
  {
    hide Tells, Shaped, Break;
    if items == [] {
    } else {
      TellsShaped(js, toks, i, parent, items[0], depth);
      TellsItemsShaped(js, toks, i + Count(Spelled(items[0], depth)), parent, items[1..], depth, true);
      assert SpelledItems(items, depth, comma)[1..] == SpelledItems(items[1..], depth, true);
    }
  }

  lemma {:induction false} TellsMembersShaped(js: string, toks: seq<Token>, i: nat, parent: int, members: seq<Member>,
                                              depth: nat, comma: bool)
    requires TellsMembers(js, toks, i, parent, members, depth)
    ensures ShapedEntries(toks, i, parent, SpelledMembers(members, depth, comma), true)
    decreases members, 1
  {
    hide TellsMember, ShapedEntry, Break;
    if members == [] {
    } else {
      var next := !members[0].value.Blank?;
      TellsMemberShaped(js, toks, i, parent, members[0], depth, comma);
      TellsMembersShaped(js, toks, i + 1 + Count(Spelled(members[0].value, depth)), parent, members[1..], depth, next);
      assert SpelledMembers(members, depth, comma)[1..] == SpelledMembers(members[1..], depth, next);
    }
  }

  lemma {:induction false} TellsMemberShaped(js: string, toks: seq<Token>, i: nat, parent: int, m: Member, depth: nat,
                                             comma: bool)
    requires TellsMember(js, toks, i, parent, m, depth)
    ensures ShapedEntry(toks, i, parent, SpelledMember(m, depth, comma))
    decreases m, 0
  {
    TellsShaped(js, toks, i + 1, i, m.value, depth);
  }

  // ---------- the expected tokens tell the document ----------

  lemma {:induction false} TokensTell(js: string, toks: seq<Token>, v: Json, at: nat, i: nat, parent: int, depth: nat)
    requires At(js, at, Text(v, depth)) && Has(toks, i, Tokens(Spelled(v, depth), at, i, parent))
    ensures Tells(js, toks, i, parent, v, depth)
    decreases v, 0
  {
    hide Has, EntriesTokens, ItemsText, MembersText, TellsItems, TellsMembers, SpelledItems, SpelledMembers, Reads;
    hide EntriesSource, Break;
    SpelledText(v, depth);
    HasFirst(toks, i, Tokens(Spelled(v, depth), at, i, parent));
    match v
    case Str(s) => AtQuoted(js, at, s);
    case Num(n) => SpansReads(js, toks[i], n);
    case Blank =>
    case Arr(items) =>
      ContainerParts(js, toks, v, at, i, parent, depth);
      ItemsTell(js, toks, items, at + 1, i + 1, i, depth + 1, false);
    case Obj(members) =>
      ContainerParts(js, toks, v, at, i, parent, depth);
      MembersTell(js, toks, members, at + 1, i + 1, i, depth + 1, false);
  }

  /** Text and tokens of a container without its brackets and its own token. */
  lemma ContainerParts(js: string, toks: seq<Token>, v: Json, at: nat, i: nat, parent: int, depth: nat)
    requires v.Arr? || v.Obj?
    requires At(js, at, Text(v, depth)) && Has(toks, i, Tokens(Spelled(v, depth), at, i, parent))
    ensures v.Arr? ==> At(js, at + 1, ItemsText(v.items, depth + 1, false))
    ensures v.Obj? ==> At(js, at + 1, MembersText(v.members, depth + 1, false))
    ensures Has(toks, i + 1, EntriesTokens(Spelled(v, depth).entries, at + 1, i + 1, i))
  {
    hide Has, At, EntriesTokens, ItemsText, MembersText, SpelledItems, SpelledMembers, EntriesSource, Break;
    var s := Spelled(v, depth);
    HasSplit(toks, i, [Token(KindOf(s.record), at, at + |Source(s)|, |s.entries|, parent)],
             EntriesTokens(s.entries, at + 1, i + 1, i));
    var open := if v.Arr? then "[" else "{";
    var inner := if v.Arr? then ItemsText(v.items, depth + 1, false) else MembersText(v.members, depth + 1, false);
    var close := Break(false, depth) + if v.Arr? then "]" else "}";
    AtSplit(js, at, open + inner, close);
    AtSplit(js, at, open, inner);
  }

  lemma AtQuoted(js: string, at: nat, s: string)
    requires At(js, at, Quoted(s))
    ensures At(js, at + 1, s)
  {
    AtSplit(js, at, "\"" + s, "\"");
    AtSplit(js, at, "\"", s);
  }

  lemma AtSplit3(js: string, pos: nat, a: string, b: string, c: string)
    requires At(js, pos, a + b + c)
    ensures At(js, pos, a) && At(js, pos + |a|, b) && At(js, pos + |a| + |b|, c)
  {
    AtSplit(js, pos, a + b, c);
    AtSplit(js, pos, a, b);
  }

  lemma {:induction false} ItemsTell(js: string, toks: seq<Token>, items: seq<Json>, at: nat, i: nat, parent: int,
                                     depth: nat, comma: bool)
    requires At(js, at, ItemsText(items, depth, comma))
    requires Has(toks, i, EntriesTokens(SpelledItems(items, depth, comma), at, i, parent))
    ensures TellsItems(js, toks, i, parent, items, depth)
    decreases items, 1
  {
    hide At, Has, Tells, Text, Spelled, Tokens, Break, Source;
    if items == [] {
    } else {
      var v, rest, b := items[0], items[1..], Break(comma, depth);
      var start, n := at + |b|, Count(Spelled(v, depth));
      SpelledText(v, depth);
      AtSplit3(js, at, b, Text(v, depth), ItemsText(rest, depth, true));
      assert SpelledItems(items, depth, comma)[1..] == SpelledItems(rest, depth, true);
      HasSplit(toks, i, Tokens(Spelled(v, depth), start, i, parent),
               EntriesTokens(SpelledItems(rest, depth, true), start + |Text(v, depth)|, i + n, parent));
      TokensTell(js, toks, v, start, i, parent, depth);
      ItemsTell(js, toks, rest, start + |Text(v, depth)|, i + n, parent, depth, true);
    }
  }

  lemma {:induction false} MembersTell(js: string, toks: seq<Token>, members: seq<Member>, at: nat, i: nat,
                                       parent: int, depth: nat, comma: bool)
    requires At(js, at, MembersText(members, depth, comma))
    requires Has(toks, i, EntriesTokens(SpelledMembers(members, depth, comma), at, i, parent))
    ensures TellsMembers(js, toks, i, parent, members, depth)
    decreases members, 1
  {
    hide At, Has, TellsMember, MemberText, EntryTokens, EntrySource, Break, Spelled;
    if members == [] {
    } else {
      var m, rest, b, next := members[0], members[1..], Break(comma, depth), !members[0].value.Blank?;
      var e, start := SpelledMember(m, depth, comma), at + |b|;
      SpelledMemberText(m, depth, comma);
      AtSplit3(js, at, b, MemberText(m, depth), MembersText(rest, depth, next));
      assert SpelledMembers(members, depth, comma)[1..] == SpelledMembers(rest, depth, next);
      HasSplit(toks, i, EntryTokens(e, start, i, parent),
               EntriesTokens(SpelledMembers(rest, depth, next), start + |MemberText(m, depth)|,
                             i + EntryCount(e), parent));
      MemberTells(js, toks, m, start, i, parent, depth, comma);
      MembersTell(js, toks, rest, start + |MemberText(m, depth)|, i + EntryCount(e), parent, depth, next);
    }
  }

  lemma {:induction false} MemberTells(js: string, toks: seq<Token>, m: Member, at: nat, i: nat, parent: int,
                                       depth: nat, comma: bool)
    requires At(js, at, MemberText(m, depth))
    requires Has(toks, i, EntryTokens(SpelledMember(m, depth, comma), at, i, parent))
    ensures TellsMember(js, toks, i, parent, m, depth)
    decreases m, 0
  {
    hide Has, Tells, Text, Spelled, Tokens, Break;
    var v := Spelled(m.value, depth);
    AtSplit3(js, at, Quoted(m.key), ": ", Text(m.value, depth));
    AtQuoted(js, at, m.key);
    HasFirst(toks, i, EntryTokens(SpelledMember(m, depth, comma), at, i, parent));
    HasSplit(toks, i, [Token(String, at + 1, at + 1 + |m.key|, 1, parent)], Tokens(v, at + |m.key| + 4, i + 1, i));
    TokensTell(js, toks, m.value, at + |m.key| + 4, i + 1, i, depth);
  }

  // ---------- whole documents ----------

  lemma Written(members: seq<Member>)
    requires Writable(Obj(members)) && Clean(Obj(members))
    ensures Document(DocumentText(members), "", Spelled(Obj(members), 0), "\n")
    ensures Separated(Spelled(Obj(members), 0)) <==> Tidy(Obj(members))
  {
    hide Text, Spelled, Lexical, Separated, Tidy, Source, Writable, Clean;
    var v := Obj(members);
    SpelledText(v, 0);
    SpelledLexical(v, 0);
    SpelledSeparated(v, 0);
    SpelledNode(members);
    assert "" + Text(v, 0) + "\n" == DocumentText(members);
  }

  lemma SpelledNode(members: seq<Member>)
    ensures Spelled(Obj(members), 0).Node?
  {
  }

  /** Parsing what was written gives the document's tokens if and only if no one-line object is followed by
      another member of its object; then both passes agree on how many tokens there are. */
  lemma DocumentRoundTrip(members: seq<Member>, cap: nat)
    requires Writable(Obj(members)) && Clean(Obj(members)) && Count(Spelled(Obj(members), 0)) <= cap
    ensures var js, n := DocumentText(members), Count(Spelled(Obj(members), 0));
      && (Parse(js, cap).Next? && Tells(js, Parse(js, cap).st.toks, 0, -1, Obj(members), 0) <==> Tidy(Obj(members)))
      && (Tidy(Obj(members)) ==> CountFrom(js, 0, 0) == Counted(n) && |Parse(js, cap).st.toks| == n)
  {
    hide *;
    var v, js := Obj(members), DocumentText(members);
    var s := Spelled(v, 0);
    Written(members);
    TokenizedIff(js, "", s, "\n", cap);
    if Tidy(v) {
      Tokenized(js, "", s, "\n", cap);
      WrittenTells(js, members);
    } else if Parse(js, cap).Next? && Tells(js, Parse(js, cap).st.toks, 0, -1, v, 0) {
      TellsShaped(js, Parse(js, cap).st.toks, 0, -1, v, 0);
    }
  }

  lemma WrittenTells(js: string, members: seq<Member>)
    requires js == DocumentText(members)
    ensures var t := Tokens(Spelled(Obj(members), 0), 0, 0, -1); Tells(js, t, 0, -1, Obj(members), 0)
  {
    hide Text, Spelled, Tokens, Tells;
    var v := Obj(members);
    var t := Tokens(Spelled(v, 0), 0, 0, -1);
    assert At(js, 0, Text(v, 0) + "\n");
    AtSplit(js, 0, Text(v, 0), "\n");
    assert t[0..|t|] == t;
    TokensTell(js, t, v, 0, 0, -1, 0);
  }

  // ---------- the tokens determine the document ----------

  lemma ObjectText(members: seq<Member>, depth: nat)
    ensures Text(Obj(members), depth) != Text(Blank, depth)
  {
    hide MembersText;
    assert |Text(Obj(members), depth)| > 2 == |Text(Blank, depth)|;
  }

  /** The same tokens never tell two different values. */
  lemma {:induction false} TellsUnique(js: string, toks: seq<Token>, i: nat, parent: int, v: Json, w: Json, depth: nat)
    requires Tells(js, toks, i, parent, v, depth) && Tells(js, toks, i, parent, w, depth)
    ensures v == w
    decreases v, 0
  {
    hide Text, Decimal, TellsItems, TellsMembers;
    match v
    case Str(_) =>
    case Num(_) =>
    case Blank =>
      if w.Obj? { ObjectText(w.members, depth); }
    case Arr(items) => TellsItemsUnique(js, toks, i + 1, i, items, w.items, depth + 1);
    case Obj(members) =>
      if w.Blank? {
        ObjectText(members, depth);
      } else {
        TellsMembersUnique(js, toks, i + 1, i, members, w.members, depth + 1);
      }
  }

  lemma {:induction false} TellsItemsUnique(js: string, toks: seq<Token>, i: nat, parent: int, a: seq<Json>,
                                            b: seq<Json>, depth: nat)
    requires |a| == |b| && TellsItems(js, toks, i, parent, a, depth) && TellsItems(js, toks, i, parent, b, depth)
    ensures a == b
    decreases a, 1
  {
    hide Tells;
    if a == [] {
    } else {
      TellsUnique(js, toks, i, parent, a[0], b[0], depth);
      TellsItemsUnique(js, toks, i + Count(Spelled(a[0], depth)), parent, a[1..], b[1..], depth);
      assert a == [a[0]] + a[1..] && b == [b[0]] + b[1..];
    }
  }

  lemma {:induction false} TellsMembersUnique(js: string, toks: seq<Token>, i: nat, parent: int, a: seq<Member>,
                                              b: seq<Member>, depth: nat)
    requires |a| == |b| && TellsMembers(js, toks, i, parent, a, depth) && TellsMembers(js, toks, i, parent, b, depth)
    ensures a == b
    decreases a, 1
  {
    hide TellsMember;
    if a == [] {
    } else {
      TellsMemberUnique(js, toks, i, parent, a[0], b[0], depth);
      TellsMembersUnique(js, toks, i + 1 + Count(Spelled(a[0].value, depth)), parent, a[1..], b[1..], depth);
      assert a == [a[0]] + a[1..] && b == [b[0]] + b[1..];
    }
  }

  lemma {:induction false} TellsMemberUnique(js: string, toks: seq<Token>, i: nat, parent: int, a: Member, b: Member,
                                             depth: nat)
    requires TellsMember(js, toks, i, parent, a, depth) && TellsMember(js, toks, i, parent, b, depth)
    ensures a == b
    decreases a, 0
  {
    TellsUnique(js, toks, i + 1, i, a.value, b.value, depth);
  }

  /** Two tidy documents with the same text are the same document. */
  lemma SameTextSameDocument(a: seq<Member>, b: seq<Member>)
    requires Writable(Obj(a)) && Clean(Obj(a)) && Tidy(Obj(a)) && Writable(Obj(b)) && Clean(Obj(b)) && Tidy(Obj(b))
    requires DocumentText(a) == DocumentText(b)
    ensures a == b
  {
    hide *;
    var cap := Count(Spelled(Obj(a), 0)) + Count(Spelled(Obj(b), 0));
    DocumentRoundTrip(a, cap);
    DocumentRoundTrip(b, cap);
    TellsUnique(DocumentText(a), Parse(DocumentText(a), cap).st.toks, 0, -1, Obj(a), Obj(b), 0);
  }

  // ---------- a document that is lost ----------

  const UNLIT: string := "KHR_materials_unlit"

  const EMISSIVE: string := "KHR_materials_emissive_strength"

  /** A material that is unlit and has emissive strength 1, which is not written. */
  const MATERIAL: Json := Obj([Member("extensions", Obj([Member(UNLIT, Blank), Member(EMISSIVE, Obj([]))]))])

  /** The document of data that hold this material and nothing else. */
  const UNLIT_EMISSIVE: seq<Member> :=
    [Member("asset", Obj([Member("version", Str("2.0"))])),
     Member("materials", Arr([MATERIAL])),
     Member("extensionsUsed", Arr([Str(UNLIT), Str(EMISSIVE)]))]

  /** Writable and clean. */
  predicate Legal(v: Json) {
    Writable(v) && Clean(v)
  }

  lemma {:induction false} PlainEscaped(s: string)
    requires forall i :: 0 <= i < |s| ==> s[i] != '\\' && s[i] != '\"' && s[i] != '\0'
    ensures Escaped(s)
    decreases |s|
  {
    if s == [] {
    } else {
      PlainEscaped(s[1..]);
    }
  }

  lemma LegalObject(members: seq<Member>)
    requires forall i :: 0 <= i < |members| ==> Escaped(members[i].key) && Legal(members[i].value)
    ensures Legal(Obj(members))
  {
  }

  lemma LegalArray(items: seq<Json>)
    requires forall i :: 0 <= i < |items| ==> Standalone(items[i]) && Legal(items[i])
    ensures Legal(Arr(items))
  {
  }

  lemma LegalPlain(s: string)
    requires Escaped(s)
    ensures Legal(Str(s)) && Legal(Blank)
  {
  }

  lemma PlainExtensions()
    ensures Escaped("extensions") && Escaped(UNLIT) && Escaped(EMISSIVE)
  {
    hide Escaped;
    PlainEscaped("extensions");
    PlainEscaped(UNLIT);
    PlainEscaped(EMISSIVE);
  }

  lemma PlainKeys()
    ensures Escaped("asset") && Escaped("materials") && Escaped("extensionsUsed") && Escaped("version")
    ensures Escaped("2.0")
  {
    hide Escaped;
    PlainEscaped("asset");
    PlainEscaped("materials");
    PlainEscaped("extensionsUsed");
    PlainEscaped("version");
    PlainEscaped("2.0");
  }

  lemma MaterialLegal()
    ensures Legal(MATERIAL)
  {
    hide Legal, Escaped, UNLIT, EMISSIVE;
    PlainExtensions();
    LegalPlain(UNLIT);
    LegalObject([]);
    LegalObject([Member(UNLIT, Blank), Member(EMISSIVE, Obj([]))]);
    LegalObject([Member("extensions", Obj([Member(UNLIT, Blank), Member(EMISSIVE, Obj([]))]))]);
  }

  lemma UnlitEmissiveLegal()
    ensures Legal(Obj(UNLIT_EMISSIVE))
  {
    hide Legal, Escaped, UNLIT, EMISSIVE, MATERIAL;
    PlainKeys();
    PlainExtensions();
    MaterialLegal();
    MaterialIsObject();
    LegalPlain("2.0");
    LegalPlain(UNLIT);
    LegalPlain(EMISSIVE);
    LegalArray([Str(UNLIT), Str(EMISSIVE)]);
    LegalArray([MATERIAL]);
    LegalObject([Member("version", Str("2.0"))]);
    LegalObject(UNLIT_EMISSIVE);
  }

  lemma MaterialIsObject()
    ensures MATERIAL.Obj?
  {
  }

  /** Such a material does not survive writing and tokenizing. */
  lemma UnlitEmissiveLost(cap: nat)
    requires Count(Spelled(Obj(UNLIT_EMISSIVE), 0)) <= cap
    ensures var js := DocumentText(UNLIT_EMISSIVE);
      !(Parse(js, cap).Next? && Tells(js, Parse(js, cap).st.toks, 0, -1, Obj(UNLIT_EMISSIVE), 0))
  {
    hide Writable, Clean, Escaped, Tidy, Parse, Tells, Spelled, Count, DocumentText, UNLIT_EMISSIVE;
    UnlitEmissiveUntidy();
    UnlitEmissiveLegal();
    DocumentRoundTrip(UNLIT_EMISSIVE, cap);
  }

  lemma UnlitEmissiveUntidy()
    ensures !Tidy(Obj(UNLIT_EMISSIVE))
  {
    var members := [Member(UNLIT, Blank), Member(EMISSIVE, Obj([]))];
    assert !TidyMembers(members);
    var extensions := Member("extensions", Obj(members));
    assert !TidyMember(extensions);
    assert !TidyMembers([extensions]);
    assert !Tidy(MATERIAL) && MATERIAL in [MATERIAL];
    assert !TidyMember(Member("materials", Arr([MATERIAL])));
    assert !TidyMembers(UNLIT_EMISSIVE[1..]);
  }

  // ---------- skipping ----------

  /** In the tokens of any separated text, followed by the guard, skipping from the first token of any value ends
      just past that value. */
  lemma TextSkipped(js: string, before: string, v: Syntax, after: string, cap: nat, guard: Token, w: Syntax, j: nat)
    requires Document(js, before, v, after) && Separated(v) && Count(v) <= cap && guard.kind == Undefined
    requires Within(v, 0, w, j)
    ensures Parse(js, cap).Next?
    ensures var toks := Parse(js, cap).st.toks + [guard];
      Guarded(toks) && j < |toks| && SkipFrom(toks, j, j + 1) == Past(j + Count(w))
  {
    hide *;
    TokenizedIff(js, before, v, after, cap);
    var toks := Parse(js, cap).st.toks;
    var p := ShapedWithin(toks, 0, -1, v, w, j);
    ShapedPrefix(toks, [guard], j, p, w);
    GuardedLast(toks, guard);
    ValueSkipped(toks + [guard], j, p, w);
    ShapedInside(toks + [guard], j, p, w);
  }

  lemma GuardedLast(toks: seq<Token>, guard: Token)
    requires guard.kind == Undefined
    ensures Guarded(toks + [guard])
  {
  }

  lemma ShapedInside(toks: seq<Token>, j: nat, p: int, w: Syntax)
    requires Shaped(toks, j, p, w)
    ensures j < |toks|
  {
  }

  /** In particular in the tokens of a written document. */
  lemma DocumentSkipped(members: seq<Member>, cap: nat, guard: Token, w: Syntax, j: nat)
    requires Writable(Obj(members)) && Clean(Obj(members)) && Tidy(Obj(members))
    requires Count(Spelled(Obj(members), 0)) <= cap
    requires guard.kind == Undefined && Within(Spelled(Obj(members), 0), 0, w, j)
    ensures var r := Parse(DocumentText(members), cap);
      && r.Next? && Guarded(r.st.toks + [guard]) && j <= |r.st.toks|
      && SkipFrom(r.st.toks + [guard], j, j + 1) == Past(j + Count(w))
  {
    hide *;
    Written(members);
    TextSkipped(DocumentText(members), "", Spelled(Obj(members), 0), "\n", cap, guard, w, j);
  }
}
