// JSON as RFC 8259 defines it: every JSON text is tokenized, and when the writer writes JSON.
module JsonGrammar {
  import opened Wrappers
  import opened Jsmn
  import opened JsmnCount
  import opened JsonSyntax
  import opened JsonTokens
  import opened JsonFaults
  import opened JsonWriter
  import opened JsonDocument

  // ---------- the grammar ----------

  datatype Exponent = Exponent(letter: char, sign: string, digits: string)

  /** Section 6: an optional minus sign, digits without leading zero, a fraction, an exponent. */
  datatype Numeral = Numeral(minus: bool, whole: string, fraction: Option<string>, exponent: Option<Exponent>)

  predicate LegalNumeral(n: Numeral) {
    && AllDigits(n.whole) && (|n.whole| > 1 ==> n.whole[0] != '0')
    && (n.fraction.Some? ==> AllDigits(n.fraction.value))
    && (n.exponent.Some? ==> LegalExponent(n.exponent.value))
  }

  predicate LegalExponent(e: Exponent) {
    (e.letter == 'e' || e.letter == 'E') && (e.sign == "" || e.sign == "+" || e.sign == "-") && AllDigits(e.digits)
  }

  function Spell(n: Numeral): string {
    (if n.minus then "-" else "") + n.whole
    + (if n.fraction.Some? then "." + n.fraction.value else "")
    + (if n.exponent.Some? then [n.exponent.value.letter] + n.exponent.value.sign + n.exponent.value.digits else "")
  }

  ghost predicate IsNumber(t: string) {
    exists n :: LegalNumeral(n) && Spell(n) == t
  }

  /** Section 3: the literal names and the numbers. */
  ghost predicate IsLiteral(t: string) {
    t == "true" || t == "false" || t == "null" || IsNumber(t)
  }

  /** Section 7: the body of a string, no control characters in it. */
  predicate IsString(s: string) {
    if s == [] then true
    else if s[0] == '\\' then
      && |s| >= 2
      && if ShortEscape(s[1]) then IsString(s[2..])
         else
           && s[1] == 'u' && |s| >= 6 && HexDigit(s[2]) && HexDigit(s[3]) && HexDigit(s[4]) && HexDigit(s[5])
           && IsString(s[6..])
    else s[0] as int >= 0x20 && s[0] != '\"' && IsString(s[1..])
  }

  ghost predicate IsValue(v: Syntax)
    decreases v, 0
  {
    match v
    case Quote(s) => IsString(s)
    case Literal(t) => IsLiteral(t)
    case Node(record, entries, tail) => Spaces(tail) && JsonEntries(entries, record, true)
  }

  /** Sections 4 and 5: a comma between any two entries. */
  ghost predicate JsonEntries(entries: seq<Entry>, record: bool, first: bool)
    decreases entries, 1
  {
    entries == [] ||
    (&& (if first then Spaces(entries[0].gap) else Spaced(entries[0].gap, ','))
     && JsonEntry(entries[0], record) && JsonEntries(entries[1..], record, false))
  }

  ghost predicate JsonEntry(e: Entry, record: bool)
    decreases e, 0
  {
    e.Field? == record && (e.Field? ==> IsString(e.key) && Spaced(e.colon, ':')) && IsValue(e.value)
  }

  // ---------- is tokenized ----------

  predicate Parts(t: string) {
    forall i :: 0 <= i < |t| ==> LiteralPart(t[i])
  }

  lemma PartsJoin(a: string, b: string)
    requires Parts(a) && Parts(b)
    ensures Parts(a + b)
  {
  }

  lemma DigitParts(s: string)
    requires AllDigits(s)
    ensures Parts(s)
  {
  }

  lemma NumberParts(n: Numeral)
    requires LegalNumeral(n)
    ensures LiteralText(Spell(n))
  {
    var sign := if n.minus then "-" else "";
    var fraction := if n.fraction.Some? then "." + n.fraction.value else "";
    DigitParts(n.whole);
    PartsJoin(sign, n.whole);
    if n.fraction.Some? { DigitParts(n.fraction.value); }
    PartsJoin(sign + n.whole, fraction);
    if n.exponent.Some? {
      var e := n.exponent.value;
      DigitParts(e.digits);
      PartsJoin([e.letter], e.sign);
      PartsJoin([e.letter] + e.sign, e.digits);
      PartsJoin(sign + n.whole + fraction, [e.letter] + e.sign + e.digits);
    }
  }

  lemma LiteralIsText(t: string)
    requires IsLiteral(t)
    ensures LiteralText(t)
  {
    if IsNumber(t) {
      var n :| LegalNumeral(n) && Spell(n) == t;
      NumberParts(n);
    }
  }

  lemma {:induction false} StringIsEscaped(s: string)
    requires IsString(s)
    ensures Escaped(s)
    decreases |s|
  {
    if s == [] {
    } else if s[0] == '\\' {
      StringIsEscaped(if ShortEscape(s[1]) then s[2..] else s[6..]);
    } else {
      StringIsEscaped(s[1..]);
    }
  }

  lemma CommaGap(gap: string)
    requires Spaced(gap, ',')
    ensures Gap(gap) && HasComma(gap) && gap != ""
  {
    var k: nat :| k < |gap| && SpacedAt(gap, ',', k);
    assert gap[k] == ',';
  }

  lemma {:induction false} JsonLexical(v: Syntax)
    requires IsValue(v)
    ensures Lexical(v) && Separated(v)
    decreases v, 0
  {
    match v
    case Quote(s) => StringIsEscaped(s);
    case Literal(t) => LiteralIsText(t);
    case Node(record, entries, _) => EntriesLexical(entries, record, true);
  }

  lemma {:induction false} EntriesLexical(entries: seq<Entry>, record: bool, first: bool)
    requires JsonEntries(entries, record, first)
    ensures LexicalEntries(entries, record, first) && SeparatedEntries(entries, record, !first && record)
    decreases entries, 1
  {
    hide Spaces, Spaced, Gap, HasComma, JsonEntry, LexicalEntry, SeparatedEntry;
    if entries == [] {
    } else {
      GapLexical(entries[0].gap, first);
      EntryLexical(entries[0], record);
      EntriesLexical(entries[1..], record, false);
    }
  }

  lemma GapLexical(gap: string, first: bool)
    requires if first then Spaces(gap) else Spaced(gap, ',')
    ensures Gap(gap) && (!first ==> HasComma(gap) && gap != "")
  {
    if !first { CommaGap(gap); }
  }

  lemma {:induction false} EntryLexical(e: Entry, record: bool)
    requires JsonEntry(e, record) && Gap(e.gap)
    ensures LexicalEntry(e, record) && SeparatedEntry(e)
    decreases e, 0
  {
    hide Spaced, Gap, IsString, Escaped;
    if e.Field? { StringIsEscaped(e.key); }
    JsonLexical(e.value);
  }

  /** JSON text: a value with white space around it. */
  ghost predicate JsonText(js: string, before: string, v: Syntax, after: string) {
    js == before + Source(v) + after && Spaces(before) && Spaces(after) && IsValue(v)
  }

  /** Every JSON text is parsed to the preorder flattening of its value, and the first pass counts as many tokens;
      only a literal with nothing after it is taken for incomplete. */
  lemma JsonTokenized(js: string, before: string, v: Syntax, after: string, cap: nat)
    requires JsonText(js, before, v, after) && Count(v) <= cap
    ensures if v.Literal? && after == "" then Parse(js, cap) == Fail(Part)
            else
              && Parse(js, cap) == Next(State(|js|, Tokens(v, |before|, 0, -1), -1))
              && CountFrom(js, 0, 0) == Counted(Count(v))
  {
    hide Parse, Source, Tokens, Spaces, IsValue, Lexical, Separated, Count, CountFrom;
    JsonLexical(v);
    if v.Literal? && after == "" {
      BareLiteral(js, before, v.text, cap);
    } else {
      Tokenized(js, before, v, after, cap);
    }
  }

  lemma {:induction false} LiteralRunsOn(js: string, pos: nat)
    requires pos <= |js| && forall i :: pos <= i < |js| ==> LiteralPart(js[i])
    ensures ScanPrimitive(js, pos).Open?
    decreases |js| - pos
  {
    if pos == |js| {
    } else {
      LiteralRunsOn(js, pos + 1);
    }
  }

  lemma BareLiteral(js: string, before: string, t: string, cap: nat)
    requires js == before + Source(Literal(t)) + "" && Spaces(before) && Lexical(Literal(t))
    ensures Parse(js, cap) == Fail(Part)
  {
    hide Loop, Step;
    assert js == before + t;
    forall i | |before| <= i < |js| ensures LiteralPart(js[i]) { assert js[i] == t[i - |before|]; }
    LiteralRunsOn(js, |before|);
    LoopSpaces(js, INIT, before, cap);
    var st := INIT.(pos := |before|);
    assert js[|before|] == t[0];
    PrimitiveStep(js, st, cap);
    LoopFails(js, st, cap);
  }

  lemma LoopFails(js: string, st: State, cap: nat)
    requires Sane(st) && !AtEnd(js, st.pos) && Step(js, st, cap) == Fail(Part)
    ensures Loop(js, st, cap) == Fail(Part)
  {
    hide Step;
  }

  // ---------- what the writer writes ----------

  /** All keys and strings are bodies of JSON strings. */
  predicate Bodied(v: Json) {
    match v
    case Str(s) => IsString(s)
    case Num(_) => true
    case Blank => true
    case Arr(items) => forall v :: v in items ==> Bodied(v)
    case Obj(members) => forall m :: m in members ==> IsString(m.key) && Bodied(m.value)
  }

  lemma {:induction false} NoLeadingZero(n: nat)
    ensures |Digits(n)| > 1 ==> Digits(n)[0] != '0'
  {
    if n < 10 {
    } else {
      NoLeadingZero(n / 10);
      assert n / 10 < 10 ==> Digits(n / 10)[0] as int == '0' as int + n / 10;
    }
  }

  lemma DecimalIsNumber(n: int)
    ensures IsNumber(Decimal(n))
  {
    var d := Digits(if n < 0 then -n else n);
    NoLeadingZero(if n < 0 then -n else n);
    var t := Numeral(n < 0, d, None, None);
    assert LegalNumeral(t) && Spell(t) == Decimal(n);
  }

  lemma {:induction false} BodiedClean(v: Json)
    requires Bodied(v)
    ensures Clean(v)
  {
    match v
    case Str(s) => StringIsEscaped(s);
    case Num(_) =>
    case Blank =>
    case Arr(items) => forall v | v in items ensures Clean(v) { BodiedClean(v); }
    case Obj(members) =>
      forall m | m in members ensures Escaped(m.key) && Clean(m.value) {
        StringIsEscaped(m.key);
        BodiedClean(m.value);
      }
  }

  lemma BreakSpaced(comma: bool, depth: nat)
    ensures if comma then Spaced(Break(comma, depth), ',') else Spaces(Break(comma, depth))
  {
    IndentsSpaces(depth);
    var b, line := Break(comma, depth), "\n" + Indents(depth);
    assert Spaces(line);
    if comma {
      assert b == "," + line && b[..0] == "" && b[0 + 1..] == line;
      assert SpacedAt(b, ',', 0);
    } else {
      assert b == line;
    }
  }

  lemma {:induction false} SpelledJson(v: Json, depth: nat)
    requires Writable(v) && Bodied(v) && Tidy(v)
    ensures IsValue(Spelled(v, depth))
    decreases v, 0
  {
    match v
    case Str(_) =>
    case Num(n) => DecimalIsNumber(n);
    case Blank =>
    case Arr(items) =>
      BreakSpaced(false, depth);
      SpelledItemsJson(items, depth + 1, true);
    case Obj(members) =>
      BreakSpaced(false, depth);
      SpelledMembersJson(members, depth + 1, true, false);
  }

  lemma {:induction false} SpelledItemsJson(items: seq<Json>, depth: nat, first: bool)
    requires forall v :: v in items ==> Writable(v) && Bodied(v) && Tidy(v)
    ensures JsonEntries(SpelledItems(items, depth, !first), false, first)
    decreases items, 1
  {
    hide Break, Writable, Bodied, Tidy, Spaces, Spaced;
    if items == [] {
    } else {
      BreakSpaced(!first, depth);
      SpelledJson(items[0], depth);
      SpelledItemsJson(items[1..], depth, false);
      assert SpelledItems(items, depth, !first)[1..] == SpelledItems(items[1..], depth, true);
    }
  }

  lemma {:induction false} SpelledMembersJson(members: seq<Member>, depth: nat, first: bool, comma: bool)
    requires forall m :: m in members ==> Writable(m.value) && IsString(m.key) && Bodied(m.value)
    requires TidyMembers(members) && (members != [] ==> comma == !first)
    ensures JsonEntries(SpelledMembers(members, depth, comma), true, first)
    decreases members, 1
  {
    hide Break, Writable, Bodied, TidyMember, Spaces, Spaced, SpelledMember, JsonEntry, IsString;
    if members == [] {
    } else {
      var next := !members[0].value.Blank?;
      BreakSpaced(comma, depth);
      SpelledMemberJson(members[0], depth, comma);
      SpelledMembersJson(members[1..], depth, false, next);
      assert SpelledMembers(members, depth, comma)[1..] == SpelledMembers(members[1..], depth, next);
    }
  }

  lemma {:induction false} SpelledMemberJson(m: Member, depth: nat, comma: bool)
    requires Writable(m.value) && IsString(m.key) && Bodied(m.value) && TidyMember(m)
    ensures var e := SpelledMember(m, depth, comma); JsonEntry(e, true) && e.gap == Break(comma, depth)
    decreases m, 0
  {
    hide Break, Writable, Bodied, Spaced, IsString;
    KeyColon();
    SpelledJson(m.value, depth);
  }

  // ---------- exactly when it is JSON ----------

  ghost predicate IsJson(js: string) {
    exists before, v, after :: JsonText(js, before, v, after)
  }

  lemma {:induction false} StringsHaveOneChild(v: Syntax, at: nat, idx: nat, parent: int, i: nat)
    requires i < Count(v) && Tokens(v, at, idx, parent)[i].kind == String
    ensures Tokens(v, at, idx, parent)[i].size <= 1
    decreases v, 0
  {
    if v.Node? && i > 0 { EntriesHaveOneChild(v.entries, at + 1, idx + 1, idx, i - 1); }
  }

  lemma {:induction false} EntriesHaveOneChild(entries: seq<Entry>, at: nat, idx: nat, parent: int, i: nat)
    requires i < EntriesCount(entries) && EntriesTokens(entries, at, idx, parent)[i].kind == String
    ensures EntriesTokens(entries, at, idx, parent)[i].size <= 1
    decreases entries, 1
  {
    hide EntryTokens, EntrySource;
    var e, start := entries[0], at + |entries[0].gap|;
    if i < EntryCount(e) {
      EntryHasOneChild(e, start, idx, parent, i);
    } else {
      EntriesHaveOneChild(entries[1..], start + |EntrySource(e)|, idx + EntryCount(e), parent, i - EntryCount(e));
    }
  }

  lemma {:induction false} EntryHasOneChild(e: Entry, at: nat, idx: nat, parent: int, i: nat)
    requires i < EntryCount(e) && EntryTokens(e, at, idx, parent)[i].kind == String
    ensures EntryTokens(e, at, idx, parent)[i].size <= 1
    decreases e, 0
  {
    hide Tokens, Prefix;
    if e.Field? {
      if i > 0 { StringsHaveOneChild(e.value, at + |Prefix(e)|, idx + 1, idx, i - 1); }
    } else {
      StringsHaveOneChild(e.value, at, idx, parent, i);
    }
  }

  /** The first character that is no white space is the same however the text is cut. */
  lemma {:induction false} FirstMark(b: string, s: string, c: string, t: string)
    requires b + s == c + t && Spaces(b) && Spaces(c) && s != "" && t != "" && !White(s[0]) && !White(t[0])
    ensures s[0] == t[0]
    decreases |b|
  {
    if b == "" || c == "" {
      assert (b + s)[0] == (c + t)[0];
    } else {
      assert b[1..] + s == (b + s)[1..] && c[1..] + t == (c + t)[1..];
      FirstMark(b[1..], s, c[1..], t);
    }
  }

  lemma NodeMark(v: Syntax)
    requires v.Node?
    ensures Source(v) != "" && (Source(v)[0] == '{' || Source(v)[0] == '[')
  {
    hide EntriesSource;
  }

  /** A text that begins with a bracket is no literal. */
  lemma NodeFirst(js: string, before: string, v: Syntax, after: string, b: string, w: Syntax, a: string)
    requires Document(js, before, v, after) && v.Node? && JsonText(js, b, w, a)
    ensures !w.Literal?
  {
    hide Source, Lexical, IsLiteral, Spaces;
    NodeMark(v);
    if w.Literal? {
      LiteralIsText(w.text);
      LiteralSource(w);
      var s, t := Source(v) + after, w.text + a;
      assert before + s == js && b + t == js;
      assert s[0] == Source(v)[0] && t[0] == w.text[0];
      FirstMark(before, Source(v) + after, b, w.text + a);
    }
  }

  lemma LiteralSource(w: Syntax)
    requires w.Literal?
    ensures Source(w) == w.text
  {
  }

  /** Text with a member that no comma sets off is no JSON text in any reading. */
  lemma UnseparatedIsNotJson(js: string, before: string, v: Syntax, after: string)
    requires Document(js, before, v, after) && !Separated(v)
    ensures !IsJson(js)
  {
    hide Parse, JsonText, Document, Lexical, Separated, Tokens, Count, CountFrom, FaultAt, Source;
    if IsJson(js) {
      var b, w, a :| JsonText(js, b, w, a);
      var cap := Count(v) + Count(w);
      DocumentAt(js, before, v, after);
      FaultNode(v, 0);
      NodeFirst(js, before, v, after, b, w, a);
      JsonTokenized(js, b, w, a, cap);
      Misfiled(js, before, v, after, cap);
      StringsHaveOneChild(w, |b|, 0, -1, FaultAt(v, 0));
    }
  }

  /** The writer writes JSON text if and only if no one-line object is followed by another member of its object. */
  lemma WrittenIsJson(members: seq<Member>)
    requires Writable(Obj(members)) && Bodied(Obj(members))
    ensures IsJson(DocumentText(members)) <==> Tidy(Obj(members))
  {
    hide Writable, Bodied, Clean, Tidy, Spelled, DocumentText, IsValue, Lexical, Separated, Source;
    var v := Obj(members);
    BodiedClean(v);
    Written(members);
    if Tidy(v) {
      SpelledJson(v, 0);
      SpelledNode(members);
      assert JsonText(DocumentText(members), "", Spelled(v, 0), "\n");
    } else {
      UnseparatedIsNotJson(DocumentText(members), "", Spelled(v, 0), "\n");
    }
  }
}
