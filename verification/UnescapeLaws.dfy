// What decoding a tokenized string gives, against sections 7 of RFC 8259 and 3 of RFC 3629.
module UnescapeLaws {
  import Jsmn
  import JsonSyntax
  import opened Unescape

  // ---------- the tokenizer has checked the escapes ----------

  lemma FourHex(s: string)
    requires |s| >= 6 && Jsmn.IsHex(s[2]) && Jsmn.IsHex(s[3]) && Jsmn.IsHex(s[4]) && Jsmn.IsHex(s[5])
    ensures AllHex(s[2..6])
  {
    var h := s[2..6];
    assert h[0] == s[2] && h[1] == s[3] && h[2] == s[4] && h[3] == s[5];
  }

  lemma {:induction false} EscapedComplete(s: string)
    requires JsonSyntax.Escaped(s)
    ensures Complete(s)
    decreases |s|
  {
    if s == [] {
    } else if s[0] == '\\' {
      if s[1] == 'u' {
        FourHex(s);
        EscapedComplete(s[6..]);
      } else {
        EscapedComplete(s[2..]);
      }
    } else {
      EscapedComplete(s[1..]);
    }
  }

  /** The digits of a `\u` in a string that goes on to its closing quote. */
  lemma {:induction false} HexScanned(js: string, pos: nat, k: nat)
    requires Jsmn.ScanHex(js, pos, k).Found? && Jsmn.ScanString(js, Jsmn.ScanHex(js, pos, k).at).Found?
    ensures Jsmn.ScanHex(js, pos, k) == Jsmn.Found(pos + k) && pos + k <= |js|
    ensures forall i :: pos <= i < pos + k ==> Jsmn.IsHex(js[i])
    decreases k
  {
    if k == 0 {
    } else {
      HexScanned(js, pos + 1, k - 1);
    }
  }

  /** One character or one escape sequence, at the front of a string. */
  predicate Chunk(s: string, k: nat) {
    && 0 < k <= |s|
    && if s[0] == '\\' then
         || (k == 2 && Jsmn.IsSimpleEscape(s[1]))
         || (k == 6 && s[1] == 'u' && Jsmn.IsHex(s[2]) && Jsmn.IsHex(s[3]) && Jsmn.IsHex(s[4]) && Jsmn.IsHex(s[5]))
       else k == 1 && s[0] != '\"' && s[0] != '\0'
  }

  lemma EscapedStep(s: string, k: nat)
    requires Chunk(s, k) && JsonSyntax.Escaped(s[k..])
    ensures JsonSyntax.Escaped(s)
  {
  }

  /** A string the tokenizer accepted is one the decoder can read: "jsmn already checked". */
  lemma {:induction false} ScannedEscaped(js: string, pos: nat)
    requires pos <= |js| && Jsmn.ScanString(js, pos).Found?
    ensures JsonSyntax.Escaped(js[pos..Jsmn.ScanString(js, pos).at])
    decreases |js| - pos
  {
    var at := Jsmn.ScanString(js, pos).at;
    var s := js[pos..at];
    if js[pos] == '\"' {
    } else {
      var k := ScanStep(js, pos);
      ScannedEscaped(js, pos + k);
      assert s[k..] == js[pos + k..at];
      EscapedStep(s, k);
    }
  }

  lemma OpenAtEnd(js: string)
    ensures Jsmn.ScanString(js, |js|).Open?
  {
  }

  lemma BackslashInside(js: string, pos: nat)
    requires pos < |js| && js[pos] == '\\' && Jsmn.ScanString(js, pos).Found?
    ensures pos + 1 < |js|
  {
    OpenAtEnd(js);
  }

  /** How far one step of the scan goes. */
  lemma ScanStep(js: string, pos: nat) returns (k: nat)
    requires Jsmn.ScanString(js, pos).Found? && pos < |js| && js[pos] != '\"'
    ensures 0 < k && pos + k <= |js| && Jsmn.ScanString(js, pos + k) == Jsmn.ScanString(js, pos)
    ensures Chunk(js[pos..], k)
  {
    if js[pos] == '\\' {
      BackslashInside(js, pos);
      if Jsmn.IsSimpleEscape(js[pos + 1]) {
        k := 2;
      } else {
        HexScanned(js, pos + 2, 4);
        k := 6;
      }
    } else {
      k := 1;
    }
  }

  lemma ScannedComplete(js: string, pos: nat)
    requires pos <= |js| && Jsmn.ScanString(js, pos).Found?
    ensures Complete(js[pos..Jsmn.ScanString(js, pos).at])
  {
    ScannedEscaped(js, pos);
    EscapedComplete(js[pos..Jsmn.ScanString(js, pos).at]);
  }

  // ---------- hexadecimal digits ----------

  /** The digit for `v`, in upper or lower case. */
  function HexDigit(v: nat, upper: bool): char
    requires v < 16
  {
    (if upper then "0123456789ABCDEF" else "0123456789abcdef")[v]
  }

  lemma DigitValue(v: nat)
    requires v < 16
    ensures Unhex(HexDigit(v, true)) == v == Unhex(HexDigit(v, false))
  {
  }

  /** Four digits for `k`, each in the case given. */
  function FourSpelled(k: nat, upper: seq<bool>): (d: string)
    requires k < 0x10000 && |upper| == 4
    ensures |d| == 4
  {
    [HexDigit(k / 4096, upper[0]), HexDigit(k / 256 % 16, upper[1]),
     HexDigit(k / 16 % 16, upper[2]), HexDigit(k % 16, upper[3])]
  }

  /** They are read as `k`. */
  lemma SpelledValue(k: nat, upper: seq<bool>)
    requires k < 0x10000 && |upper| == 4
    ensures FourHexDigits(FourSpelled(k, upper)) && HexValue(FourSpelled(k, upper)) == k
  {
    hide HexValue, HexDigit, Unhex;
    FourPlaces(k);
    DigitValue(k / 4096);
    DigitValue(k / 256 % 16);
    DigitValue(k / 16 % 16);
    DigitValue(k % 16);
    FourDigits(FourSpelled(k, upper));
    FourPlaces(k);
  }

  lemma FourPlaces(k: nat)
    requires k < 0x10000
    ensures k / 4096 < 16 && k == ((k / 4096 * 16 + k / 256 % 16) * 16 + k / 16 % 16) * 16 + k % 16
  {
    assert k / 256 == k / 4096 * 16 + k / 256 % 16;
    assert k / 16 == k / 256 * 16 + k / 16 % 16;
  }

  predicate IsUpperHex(c: char) { 'A' <= c <= 'F' }

  lemma DigitSpelled(c: char)
    requires Unhex(c) >= 0
    ensures HexDigit(Unhex(c), IsUpperHex(c)) == c
  {
  }

  /** And every four hexadecimal digits are spelled that way. */
  lemma EverySpelled(d: string) returns (upper: seq<bool>)
    requires FourHexDigits(d)
    ensures |upper| == 4 && HexValue(d) < 0x10000 && FourSpelled(HexValue(d), upper) == d
  {
    hide HexValue, HexDigit, Unhex;
    FourDigits(d);
    upper := [IsUpperHex(d[0]), IsUpperHex(d[1]), IsUpperHex(d[2]), IsUpperHex(d[3])];
    var a: nat, b: nat, c: nat, e: nat := Unhex(d[0]), Unhex(d[1]), Unhex(d[2]), Unhex(d[3]);
    Sixteens(a, b, c, e);
    DigitSpelled(d[0]);
    DigitSpelled(d[1]);
    DigitSpelled(d[2]);
    DigitSpelled(d[3]);
  }

  lemma Sixteens(a: nat, b: nat, c: nat, d: nat)
    requires a < 16 && b < 16 && c < 16 && d < 16
    ensures var k := ((a * 16 + b) * 16 + c) * 16 + d;
      k / 4096 == a && k / 256 % 16 == b && k / 16 % 16 == c && k % 16 == d
  {
  }

  // ---------- UTF-8 ----------

  /** Byte `i` carries six more bits. */
  predicate Tail(s: string, i: nat)
    requires i < |s|
  {
    0x80 <= s[i] as int <= 0xbf
  }

  /** The well-formed sequences of section 4 of RFC 3629. */
  predicate WellFormed(s: string) {
    if |s| == 1 then s[0] as int <= 0x7f
    else if |s| == 2 then 0xc2 <= s[0] as int <= 0xdf && Tail(s, 1)
    else if |s| == 3 then
      && 0xe0 <= s[0] as int <= 0xef && Tail(s, 1) && Tail(s, 2)
      && (s[0] as int == 0xe0 ==> s[1] as int >= 0xa0) && (s[0] as int == 0xed ==> s[1] as int <= 0x9f)
    else
      && |s| == 4 && 0xf0 <= s[0] as int <= 0xf4 && Tail(s, 1) && Tail(s, 2) && Tail(s, 3)
      && (s[0] as int == 0xf0 ==> s[1] as int >= 0x90) && (s[0] as int == 0xf4 ==> s[1] as int <= 0x8f)
  }

  /** The bits a sequence carries. */
  function Carried(s: string): int
    requires 1 <= |s| <= 4
  {
    if |s| == 1 then s[0] as int
    else if |s| == 2 then (s[0] as int - 0xc0) * 64 + (s[1] as int - 0x80)
    else if |s| == 3 then ((s[0] as int - 0xe0) * 64 + (s[1] as int - 0x80)) * 64 + (s[2] as int - 0x80)
    else (((s[0] as int - 0xf0) * 64 + (s[1] as int - 0x80)) * 64 + (s[2] as int - 0x80)) * 64 + (s[3] as int - 0x80)
  }

  /** The bytes of every code point that is no surrogate are well formed and carry that code point. */
  lemma Utf8Standard(k: nat)
    requires k < 0x110000
    ensures Carried(Utf8(k)) == k && (!Surrogate(k) ==> WellFormed(Utf8(k)))
  {
    hide Utf8, WellFormed, Carried;
    if k <= 0x7f {
      OneByte(k);
    } else if k <= 0x7ff {
      TwoBytes(k);
    } else if k <= 0xffff {
      ThreeBytes(k);
    } else {
      FourBytes(k);
    }
  }

  lemma OneByte(k: nat)
    requires k <= 0x7f
    ensures Carried(Utf8(k)) == k && WellFormed(Utf8(k))
  {
  }

  lemma TwoBytes(k: nat)
    requires 0x7f < k <= 0x7ff
    ensures Carried(Utf8(k)) == k && WellFormed(Utf8(k))
  {
  }

  lemma ThreeBytes(k: nat)
    requires 0x7ff < k <= 0xffff
    ensures Carried(Utf8(k)) == k && (!Surrogate(k) ==> WellFormed(Utf8(k)))
  {
    var a, b, c := k / 4096, k / 64 % 64, k % 64;
    assert k == (a * 64 + b) * 64 + c && b < 64 && c < 64 by { Sixes(k); }
    assert Utf8(k) == [Byte(0xe0 + a), Byte(0x80 + b), Byte(0x80 + c)];
  }

  lemma FourBytes(k: nat)
    requires 0xffff < k < 0x110000
    ensures Carried(Utf8(k)) == k && WellFormed(Utf8(k))
  {
    var a, b, c, d := k / 262144, k / 4096 % 64, k / 64 % 64, k % 64;
    assert k == ((a * 64 + b) * 64 + c) * 64 + d && b < 64 && c < 64 && d < 64 by {
      Sixes(k);
      Sixes(k / 64);
    }
    assert Utf8(k) == [Byte(0xf0 + a), Byte(0x80 + b), Byte(0x80 + c), Byte(0x80 + d)];
  }

  lemma Sixes(k: nat)
    ensures k / 64 / 64 == k / 4096 && k / 4096 / 64 == k / 262144
    ensures k == k / 64 * 64 + k % 64 && k / 64 == k / 4096 * 64 + k / 64 % 64
  {
  }

  // ---------- what a string stands for ----------

  /** One character of a JSON string, as section 7 of RFC 8259 lets it be written. */
  datatype Item =
    | Raw(code: nat)
    | Escape(letter: char)
    | Hex(code: nat, upper: seq<bool>)
    | Pair(high: nat, low: nat, highUpper: seq<bool>, lowUpper: seq<bool>)

  predicate Surrogate(k: nat) {
    0xd800 <= k <= 0xdfff
  }

  predicate FourHexDigits(s: string) {
    |s| == 4 && AllHex(s)
  }

  predicate IsEscapeLetter(c: char) {
    c == '\"' || c == '\\' || c == '/' || c == 'b' || c == 'f' || c == 'n' || c == 'r' || c == 't'
  }

  predicate Legal(i: Item) {
    match i
    case Raw(k) => 0 < k < 0x110000 && !Surrogate(k) && k != 0x22 && k != 0x5c
    case Escape(c) => IsEscapeLetter(c)
    case Hex(k, upper) => k < 0x10000 && !Surrogate(k) && |upper| == 4
    case Pair(h, l, upperH, upperL) =>
      0xd800 <= h <= 0xdbff && 0xdc00 <= l <= 0xdfff && |upperH| == 4 && |upperL| == 4
  }

  function Source(i: Item): string
    requires Legal(i)
  {
    match i
    case Raw(k) => Utf8(k)
    case Escape(c) => ['\\', c]
    case Hex(k, upper) => "\\u" + FourSpelled(k, upper)
    case Pair(h, l, upperH, upperL) => "\\u" + FourSpelled(h, upperH) + ("\\u" + FourSpelled(l, upperL))
  }

  /** The code point an item stands for. */
  function CodePoint(i: Item): (k: nat)
    requires Legal(i)
    ensures k < 0x110000
  {
    match i
    case Raw(k) => k
    case Escape(c) =>
      if c == 'b' then 8 else if c == 't' then 9 else if c == 'n' then 10 else if c == 'f' then 12
      else if c == 'r' then 13 else c as int
    case Hex(k, _) => k
    case Pair(h, l, _, _) => 0x10000 + (h - 0xd800) * 0x400 + (l - 0xdc00)
  }

  predicate AllLegal(items: seq<Item>) {
    forall k :: 0 <= k < |items| ==> Legal(items[k])
  }

  function SourceText(items: seq<Item>): string
    requires AllLegal(items)
  {
    if items == [] then [] else Source(items[0]) + SourceText(items[1..])
  }

  function Meaning(items: seq<Item>): string
    requires AllLegal(items)
  {
    if items == [] then [] else Utf8(CodePoint(items[0])) + Meaning(items[1..])
  }

  function Pairs(items: seq<Item>): nat {
    if items == [] then 0 else (if items[0].Pair? then 1 else 0) + Pairs(items[1..])
  }

  // ---------- one item ----------

  /** No byte of a character other than NUL, quote and backslash looks like one of those. */
  lemma RawPlain(k: nat)
    requires 0 < k < 0x110000 && k != 0x22 && k != 0x5c
    ensures forall i :: 0 <= i < |Utf8(k)| ==> Utf8(k)[i] != '\\' && Utf8(k)[i] != '\0' && Utf8(k)[i] != '\"'
  {
  }

  lemma {:induction false} RawEscaped(t: string, rest: string)
    requires forall i :: 0 <= i < |t| ==> t[i] != '\\' && t[i] != '\0' && t[i] != '\"'
    requires JsonSyntax.Escaped(rest)
    ensures JsonSyntax.Escaped(t + rest)
    decreases |t|
  {
    if t == [] {
      assert t + rest == rest;
    } else {
      RawEscaped(t[1..], rest);
      assert (t + rest)[1..] == t[1..] + rest;
    }
  }

  lemma RawDecoded(k: nat, rest: string)
    requires Legal(Raw(k)) && JsonSyntax.Escaped(rest)
    ensures var s := Utf8(k) + rest;
      JsonSyntax.Escaped(s) && Complete(s) && Complete(rest) && Decoded(s) == Utf8(k) + Decoded(rest)
  {
    RawPlain(k);
    hide Utf8, Decoded, Complete, JsonSyntax.Escaped;
    var t := Utf8(k);
    RawEscaped(t, rest);
    EscapedComplete(t + rest);
    assert (t + rest)[..|t|] == t && (t + rest)[|t|..] == rest;
    PlainPrefix(t + rest, |t|);
  }

  lemma ShortDecoded(c: char, rest: string)
    requires IsEscapeLetter(c) && JsonSyntax.Escaped(rest)
    ensures var s := ['\\', c] + rest;
      JsonSyntax.Escaped(s) && Complete(s) && Complete(rest) && Decoded(s) == Short(c) + Decoded(rest)
  {
    var s := ['\\', c] + rest;
    hide Short;
    assert s[2..] == rest;
    EscapedStep(s, 2);
    EscapedComplete(s);
  }

  lemma HexDecoded(k: nat, upper: seq<bool>, rest: string)
    requires k < 0x10000 && |upper| == 4 && JsonSyntax.Escaped(rest)
    ensures var s := "\\u" + FourSpelled(k, upper) + rest;
      JsonSyntax.Escaped(s) && Complete(s) && Complete(rest) && Decoded(s) == Utf8(k) + Decoded(rest)
  {
    hide Utf8, HexValue, FourSpelled;
    var d := FourSpelled(k, upper);
    SpelledValue(k, upper);
    var s := "\\u" + d + rest;
    assert s[6..] == rest && s[2..6] == d;
    EscapedStep(s, 6);
    EscapedComplete(s);
  }

  lemma EscapeMeaning(c: char)
    requires IsEscapeLetter(c)
    ensures Utf8(CodePoint(Escape(c))) == Short(c)
  {
  }

  /** What the decoder makes of one item: a surrogate pair becomes two sequences of three bytes. */
  function Produced(i: Item): (t: string)
    requires Legal(i)
    ensures |t| == |Utf8(CodePoint(i))| + (if i.Pair? then 2 else 0)
    ensures !i.Pair? ==> t == Utf8(CodePoint(i))
  {
    match i
    case Raw(k) => Utf8(k)
    case Escape(c) => EscapeMeaning(c); Short(c)
    case Hex(k, _) => Utf8(k)
    case Pair(h, l, _, _) => Utf8(h) + Utf8(l)
  }

  lemma ItemDecoded(i: Item, rest: string)
    requires Legal(i) && JsonSyntax.Escaped(rest)
    ensures var s := Source(i) + rest;
      JsonSyntax.Escaped(s) && Complete(s) && Complete(rest) && Decoded(s) == Produced(i) + Decoded(rest)
  {
    hide Utf8, Decoded, Complete, JsonSyntax.Escaped, CodePoint, FourSpelled, Short;
    match i
    case Raw(k) => RawDecoded(k, rest);
    case Escape(c) => ShortDecoded(c, rest);
    case Hex(k, upper) => HexDecoded(k, upper, rest);
    case Pair(h, l, upperH, upperL) =>
      var d, e := FourSpelled(h, upperH), FourSpelled(l, upperL);
      HexDecoded(l, upperL, rest);
      HexDecoded(h, upperH, "\\u" + e + rest);
      assert "\\u" + d + ("\\u" + e + rest) == "\\u" + d + ("\\u" + e) + rest;
      assert Utf8(h) + (Utf8(l) + Decoded(rest)) == Utf8(h) + Utf8(l) + Decoded(rest);
  }

  // ---------- whole strings ----------

  function AllProduced(items: seq<Item>): string
    requires AllLegal(items)
  {
    if items == [] then [] else Produced(items[0]) + AllProduced(items[1..])
  }

  lemma {:induction false} TextDecoded(items: seq<Item>)
    requires AllLegal(items)
    ensures JsonSyntax.Escaped(SourceText(items)) && Complete(SourceText(items))
    ensures Decoded(SourceText(items)) == AllProduced(items)
    decreases |items|
  {
    hide Source, Produced, JsonSyntax.Escaped, Complete, Decoded;
    if items == [] {
      Empty();
    } else {
      TextDecoded(items[1..]);
      ItemDecoded(items[0], SourceText(items[1..]));
    }
  }

  lemma Empty()
    ensures JsonSyntax.Escaped([]) && Complete([]) && Decoded([]) == []
  {
  }

  lemma {:induction false} ProducedLength(items: seq<Item>)
    requires AllLegal(items)
    ensures |AllProduced(items)| == |Meaning(items)| + 2 * Pairs(items)
    ensures Pairs(items) == 0 ==> AllProduced(items) == Meaning(items)
    decreases |items|
  {
    hide Produced, CodePoint, Utf8;
    if items == [] {
    } else {
      ProducedLength(items[1..]);
    }
  }

  /** Whatever mix of raw characters and escapes a JSON string is written with, the tokenizer accepts it, and
      decoding gives the UTF-8 of the characters it stands for exactly when no surrogate pair was used:
      the code does not join the two halves of a pair. */
  lemma DecodesToUtf8(items: seq<Item>)
    requires AllLegal(items)
    ensures JsonSyntax.Escaped(SourceText(items)) && Complete(SourceText(items))
    ensures Decoded(SourceText(items)) == Meaning(items) <==> Pairs(items) == 0
  {
    hide Decoded, Meaning, SourceText, Pairs, AllProduced, JsonSyntax.Escaped, Complete;
    TextDecoded(items);
    ProducedLength(items);
  }

  const CAPITALS: seq<bool> := [true, true, true, true]

  /** U+10000 as an escaped pair. */
  const SMALLEST: seq<Item> := [Pair(0xd800, 0xdc00, CAPITALS, CAPITALS)]

  lemma HighDigits()
    ensures FourSpelled(0xd800, CAPITALS) == "D800"
  {
  }

  lemma LowDigits()
    ensures FourSpelled(0xdc00, CAPITALS) == "DC00"
  {
  }

  lemma SmallestSource()
    ensures AllLegal(SMALLEST) && SourceText(SMALLEST) == "\\uD800\\uDC00"
  {
    hide FourSpelled, HexDigit;
    HighDigits();
    LowDigits();
    assert SourceText(SMALLEST[1..]) == [];
  }

  lemma SmallestMeaning()
    requires AllLegal(SMALLEST)
    ensures Meaning(SMALLEST) == [Byte(0xf0), Byte(0x90), Byte(0x80), Byte(0x80)] && Pairs(SMALLEST) == 1
  {
    assert CodePoint(SMALLEST[0]) == 0x10000;
    assert Meaning(SMALLEST[1..]) == [];
  }

  /** The smallest pair: U+10000 takes four bytes, its two halves take six. */
  lemma PairsAreNotJoined()
    ensures AllLegal(SMALLEST) && SourceText(SMALLEST) == "\\uD800\\uDC00" && Complete(SourceText(SMALLEST))
    ensures Meaning(SMALLEST) == [Byte(0xf0), Byte(0x90), Byte(0x80), Byte(0x80)]
    ensures Decoded(SourceText(SMALLEST)) != Meaning(SMALLEST)
  {
    hide *;
    SmallestSource();
    SmallestMeaning();
    DecodesToUtf8(SMALLEST);
  }

  // ---------- the terminator ----------

  predicate HasNul(items: seq<Item>)
    requires AllLegal(items)
  {
    exists k :: 0 <= k < |items| && CodePoint(items[k]) == 0
  }

  lemma ItemNul(i: Item)
    requires Legal(i)
    ensures '\0' in Produced(i) <==> CodePoint(i) == 0
  {
    match i {
      case Raw(k) => NulByte(k);
      case Escape(c) => NulByte(CodePoint(i));
      case Hex(k, _) => NulByte(k);
      case Pair(h, l, _, _) =>
        NulByte(h);
        NulByte(l);
    }
  }

  lemma NulByte(k: nat)
    requires k < 0x110000
    ensures '\0' in Utf8(k) <==> k == 0
  {
    if k == 0 {
      assert Utf8(0)[0] == '\0';
    }
  }

  /** Read as a C string, the decoded text is cut short exactly by an escaped NUL. */
  lemma NulOnlyFromEscape(items: seq<Item>)
    requires AllLegal(items)
    ensures Complete(SourceText(items))
    ensures '\0' in Decoded(SourceText(items)) <==> HasNul(items)
  {
    TextDecoded(items);
    NulProduced(items);
  }

  lemma {:induction false} NulProduced(items: seq<Item>)
    requires AllLegal(items)
    ensures '\0' in AllProduced(items) <==> HasNul(items)
    decreases |items|
  {
    hide Produced, CodePoint;
    if items == [] {
    } else {
      ItemNul(items[0]);
      NulProduced(items[1..]);
      if HasNul(items[1..]) {
        var k :| 0 <= k < |items[1..]| && CodePoint(items[1..][k]) == 0;
        assert items[k + 1] == items[1..][k];
      }
      if HasNul(items) && CodePoint(items[0]) != 0 {
        var k :| 0 <= k < |items| && CodePoint(items[k]) == 0;
        assert items[1..][k - 1] == items[k];
      }
    }
  }
}
