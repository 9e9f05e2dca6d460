// The writer: a depth, a flag that says whether a comma is due, and the text so far.
module JsonWriter {
  import opened Counting
  import opened JsonSyntax
  import opened Wrappers

  const INDENT: string := "  "

  /** Documents the writer can produce.  String bodies are written as they stand, already escaped.
      `Blank` is an empty object on the line of its key. */
  datatype Json = Str(body: string) | Num(n: int) | Blank | Arr(items: seq<Json>) | Obj(members: seq<Member>)

  datatype Member = Member(key: string, value: Json)

  /** `%d` */
  function Digits(n: nat): (s: string)
    ensures |s| > 0 && forall i :: 0 <= i < |s| ==> '0' <= s[i] <= '9'
  {
    var d := [('0' as int + n % 10) as char];
    if n < 10 then d else Digits(n / 10) + d
  }

  function Decimal(n: int): (s: string)
    ensures |s| > 0 && ('0' <= s[0] <= '9' || s[0] == '-')
    ensures forall i :: 0 <= i < |s| ==> '0' <= s[i] <= '9' || s[i] == '-'
  {
    if n < 0 then "-" + Digits(-n) else Digits(n)
  }

  function Indents(depth: int): string
    decreases depth
  {
    if depth <= 0 then "" else INDENT + Indents(depth - 1)
  }

  /** The line break before an entry: after a comma if one is due. */
  function Break(comma: bool, depth: int): string {
    (if comma then ",\n" else "\n") + Indents(depth)
  }

  lemma {:induction false} IndentsBlank(depth: nat)
    ensures |Indents(depth)| == 2 * depth && forall i :: 0 <= i < 2 * depth ==> Indents(depth)[i] == ' '
  {
    if depth == 0 {
    } else {
      IndentsBlank(depth - 1);
    }
  }

  /** A break: perhaps a comma, a line feed, two blanks for each level. */
  lemma BreakText(comma: bool, depth: nat)
    ensures var b, start := Break(comma, depth), if comma then 1 else 0;
      && |b| == start + 1 + 2 * depth && (comma ==> b[0] == ',') && b[start] as int == 0x0a
      && forall i :: start < i < |b| ==> b[i] == ' '
  {
    IndentsBlank(depth);
  }

  // ---------- the text of a document ----------

  /** A value on a line at nesting `depth`; containers put each entry on a line of its own, one level deeper. */
  function Text(v: Json, depth: nat): string
    decreases v, 0
  {
    match v
    case Str(s) => Quoted(s)
    case Num(n) => Decimal(n)
    case Blank => "{}"
    case Arr(items) => "[" + ItemsText(items, depth + 1, false) + (Break(false, depth) + "]")
    case Obj(members) => "{" + MembersText(members, depth + 1, false) + (Break(false, depth) + "}")
  }

  function ItemsText(items: seq<Json>, depth: nat, comma: bool): string
    decreases items, 1
  {
    if items == [] then ""
    else Break(comma, depth) + Text(items[0], depth) + ItemsText(items[1..], depth, true)
  }

  function MembersText(members: seq<Member>, depth: nat, comma: bool): string
    decreases members, 1
  {
    if members == [] then ""
    else
      Break(comma, depth) + MemberText(members[0], depth)
      + MembersText(members[1..], depth, !members[0].value.Blank?)
  }

  function MemberText(m: Member, depth: nat): string
    decreases m, 0
  {
    Quoted(m.key) + ": " + Text(m.value, depth)
  }

  /** A whole document: the outermost object and a final line break. */
  function DocumentText(members: seq<Member>): string {
    Text(Obj(members), 0) + "\n"
  }

  /** Whether a comma is due after members: not after an object on one line. */
  function Due(members: seq<Member>, comma: bool): bool {
    if members == [] then comma else Due(members[1..], !members[0].value.Blank?)
  }

  /** A value that the writer can put on a line of its own. */
  predicate Standalone(v: Json) {
    v.Str? || v.Arr? || v.Obj?
  }

  /** Numbers and one-line objects occur as members only. */
  predicate Writable(v: Json) {
    match v
    case Str(_) => true
    case Num(_) => true
    case Blank => true
    case Arr(items) => forall v :: v in items ==> Standalone(v) && Writable(v)
    case Obj(members) => forall m :: m in members ==> Writable(m.value)
  }

  /** No object on one line is followed by another member of its object. */
  predicate Tidy(v: Json)
    decreases v, 0
  {
    match v
    case Str(_) => true
    case Num(_) => true
    case Blank => true
    case Arr(items) => forall v :: v in items ==> Tidy(v)
    case Obj(members) => TidyMembers(members)
  }

  predicate TidyMembers(members: seq<Member>)
    decreases members, 1
  {
    members == [] ||
    (&& TidyMember(members[0]) && (|members| > 1 ==> !members[0].value.Blank?) && TidyMembers(members[1..]))
  }

  predicate TidyMember(m: Member)
    decreases m, 0
  {
    Tidy(m.value)
  }

  // ---------- the writer's calls ----------

  class Context {
    var out: string
    var depth: int
    var needsComma: bool

    /** `cgltf_write` starts with the opening brace of the document. */
    constructor ()
      ensures out == "{" && depth == 1 && !needsComma
    {
      depth, needsComma, out := 1, false, "{";
    }

    method WriteIndent()
      modifies this
      ensures out == old(out) + Break(old(needsComma), depth) && depth == old(depth) && !needsComma
    {
      if needsComma {
        out := out + ",\n";
        needsComma := false;
      } else {
        out := out + "\n";
      }
      ghost var start := out;
      for i := 0 to if depth < 0 then 0 else depth
        invariant depth == old(depth) && !needsComma
        invariant out == start + Indents(i)
      {
        IndentsSnoc(i);
        out := out + INDENT;
      }
      if depth < 0 { assert Indents(depth) == Indents(0); }
    }

    /** A line that may close, open, or do neither. */
    method WriteLine(line: string)
      requires |line| > 0
      modifies this
      ensures var closes := line[0] == ']' || line[0] == '}';
        var opens := line[|line| - 1] == '[' || line[|line| - 1] == '{';
        var at := if closes then old(depth) - 1 else old(depth);
        && out == old(out) + Break(old(needsComma) && !closes, at) + line
        && depth == (if opens then at + 1 else at)
        && needsComma == (closes && !opens)
    {
      if line[0] == ']' || line[0] == '}' {
        depth := depth - 1;
        needsComma := false;
      }
      WriteIndent();
      out := out + line;
      if line[0] == ']' || line[0] == '}' {
        needsComma := true;
      }
      if line[|line| - 1] == '[' || line[|line| - 1] == '{' {
        depth := depth + 1;
        needsComma := false;
      }
    }

    method WriteStrItem(item: string)
      modifies this
      ensures out == old(out) + Break(old(needsComma), depth) + Quoted(item) && depth == old(depth) && needsComma
    {
      WriteIndent();
      out := out + "\"" + item + "\"";
      needsComma := true;
    }

    method WriteStrProp(key: string, val: Option<string>)
      modifies this
      ensures depth == old(depth)
      ensures val.None? ==> out == old(out) && needsComma == old(needsComma)
      ensures val.Some? ==>
        && needsComma
        && out == old(out) + Break(old(needsComma), depth) + Quoted(key) + ": " + Quoted(val.value)
    {
      if val.Some? {
        WriteIndent();
        out := out + "\"" + key + "\": \"" + val.value + "\"";
        needsComma := true;
      }
    }

    /** Written unless it has its default value. */
    method WriteIntProp(key: string, val: int, def: int)
      modifies this
      ensures depth == old(depth)
      ensures val == def ==> out == old(out) && needsComma == old(needsComma)
      ensures val != def ==>
        && needsComma
        && out == old(out) + Break(old(needsComma), depth) + Quoted(key) + ": " + Decimal(val)
    {
      if val != def {
        WriteIndent();
        out := out + "\"" + key + "\": " + Decimal(val);
        needsComma := true;
      }
    }

    // ---------- whole documents through these calls ----------

    /** The line that opens a container, after its key if it has one. */
    method OpenLine(prefix: string, bracket: string)
      requires bracket == "[" || bracket == "{"
      requires prefix == "" || prefix[0] == '\"'
      modifies this
      ensures out == old(out) + Break(old(needsComma), old(depth)) + (prefix + bracket)
      ensures depth == old(depth) + 1 && !needsComma
    {
      WriteLine(prefix + bracket);
    }

    method CloseLine(bracket: string)
      requires bracket == "]" || bracket == "}"
      modifies this
      ensures out == old(out) + (Break(false, depth) + bracket)
      ensures depth == old(depth) - 1 && needsComma
    {
      ghost var o := out;
      WriteLine(bracket);
      Associate(o, Break(false, depth), bracket);
    }

    method WriteArray(prefix: string, items: seq<Json>)
      requires depth >= 0 && Writable(Arr(items)) && (prefix == "" || prefix[0] == '\"')
      modifies this
      ensures out == old(out) + Break(old(needsComma), old(depth)) + (prefix + Text(Arr(items), old(depth)))
      ensures depth == old(depth) && needsComma
      decreases items, 2
    {
      ghost var o := out + Break(needsComma, depth);
      OpenLine(prefix, "[");
      WriteItems(items);
      CloseLine("]");
      Regroup(o, prefix, "[", ItemsText(items, depth + 1, false), Break(false, depth) + "]");
    }

    method WriteObject(prefix: string, members: seq<Member>)
      requires depth >= 0 && Writable(Obj(members)) && (prefix == "" || prefix[0] == '\"')
      modifies this
      ensures out == old(out) + Break(old(needsComma), old(depth)) + (prefix + Text(Obj(members), old(depth)))
      ensures depth == old(depth) && needsComma
      decreases members, 2
    {
      ghost var o := out + Break(needsComma, depth);
      OpenLine(prefix, "{");
      WriteMembers(members);
      CloseLine("}");
      Regroup(o, prefix, "{", MembersText(members, depth + 1, false), Break(false, depth) + "}");
    }

    method WriteMember(m: Member)
      requires depth >= 0 && Writable(m.value)
      modifies this
      ensures out == old(out) + Break(old(needsComma), old(depth)) + MemberText(m, old(depth))
      ensures depth == old(depth) && needsComma == !m.value.Blank?
      decreases m, 0
    {
      ghost var o := out + Break(needsComma, depth);
      match m.value {
        case Str(s) =>
          WriteStrProp(m.key, Some(s));
          KeyThen(o, Quoted(m.key), Quoted(s));
        case Num(n) =>
          WriteIntProp(m.key, n, n + 1);
          KeyThen(o, Quoted(m.key), Decimal(n));
        case Blank => WriteOneLineObject(m.key);
        case Arr(items) => WriteArray(Quoted(m.key) + ": ", items);
        case Obj(members) => WriteObject(Quoted(m.key) + ": ", members);
      }
    }

    method WriteMembers(members: seq<Member>)
      requires depth >= 0 && forall m :: m in members ==> Writable(m.value)
      modifies this
      ensures out == old(out) + MembersText(members, old(depth), old(needsComma))
      ensures depth == old(depth) && needsComma == Due(members, old(needsComma))
      decreases members, 1
    {
      ghost var o, b := out, Break(needsComma, depth);
      if members == [] {
        NothingMore(o);
      } else {
        WriteMember(members[0]);
        WriteMembers(members[1..]);
        Associate3(o, b, MemberText(members[0], depth), MembersText(members[1..], depth, !members[0].value.Blank?));
      }
    }

    method WriteItem(v: Json)
      requires depth >= 0 && Writable(v) && Standalone(v)
      modifies this
      ensures out == old(out) + Break(old(needsComma), old(depth)) + Text(v, old(depth))
      ensures depth == old(depth) && needsComma
      decreases v, 0
    {
      match v {
        case Str(s) => WriteStrItem(s);
        case Arr(items) =>
          WriteArray("", items);
          NoPrefix(Text(v, depth));
        case Obj(members) =>
          WriteObject("", members);
          NoPrefix(Text(v, depth));
      }
    }

    method WriteItems(items: seq<Json>)
      requires depth >= 0 && forall v :: v in items ==> Standalone(v) && Writable(v)
      modifies this
      ensures out == old(out) + ItemsText(items, old(depth), old(needsComma))
      ensures depth == old(depth) && needsComma == (old(needsComma) || items != [])
      decreases items, 1
    {
      ghost var o, b := out, Break(needsComma, depth);
      if items == [] {
        NothingMore(o);
      } else {
        WriteItem(items[0]);
        WriteItems(items[1..]);
        Associate3(o, b, Text(items[0], depth), ItemsText(items[1..], depth, true));
      }
    }

    /** An empty object on the line of its key: no comma is due afterwards. */
    method WriteOneLineObject(key: string)
      modifies this
      ensures out == old(out) + Break(old(needsComma), old(depth)) + (Quoted(key) + ": {}")
      ensures depth == old(depth) && !needsComma
    {
      WriteLine(Quoted(key) + ": {}");
    }

    /** The closing brace of the document is written without the writer's line call. */
    method WriteEnd()
      modifies this`out
      ensures out == old(out) + "\n}\n"
    {
      out := out + "\n}\n";
    }
  }

  lemma Associate3(o: string, a: string, b: string, c: string)
    ensures ((o + a) + b) + c == o + ((a + b) + c)
  {
    Associate(o + a, b, c);
    Associate(o, a, b + c);
    Associate(a, b, c);
  }

  lemma NothingMore(o: string)
    ensures o + "" == o
  {
  }

  lemma NoPrefix(t: string)
    ensures "" + t == t
  {
  }

  lemma KeyThen(o: string, k: string, v: string)
    ensures ((o + k) + ": ") + v == o + ((k + ": ") + v)
  {
    Associate3(o, k, ": ", v);
  }

  lemma Regroup(o: string, prefix: string, open: string, inner: string, close: string)
    ensures ((o + (prefix + open)) + inner) + close == o + (prefix + ((open + inner) + close))
  {
    Associate3(o, prefix + open, inner, close);
    Associate3(prefix, open, inner, close);
  }

  lemma {:induction false} IndentsSnoc(n: nat)
    ensures Indents(n + 1) == Indents(n) + INDENT
  {
    if n == 0 {
    } else {
      IndentsSnoc(n - 1);
      assert INDENT + (Indents(n - 1) + INDENT) == (INDENT + Indents(n - 1)) + INDENT;
    }
  }

  /** The calls of the writer produce the text of the document. */
  method WriteDocument(members: seq<Member>) returns (text: string)
    requires Writable(Obj(members))
    ensures text == DocumentText(members)
  {
    var context := new Context();
    context.WriteMembers(members);
    context.WriteEnd();
    text := context.out;
  }
}
