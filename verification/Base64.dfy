// Decoding base64 buffers (section 4 of RFC 4648) through a wrapping 32-bit buffer.
module Base64 {
  import opened Bits

  datatype Decoded = Data(bytes: seq<byte>) | IoError

  /** Value of a character of the alphabet, or -1. */
  function Index(ch: char): (i: int)
    ensures -1 <= i < 64
  {
    if 'A' <= ch <= 'Z' then ch as int - 'A' as int
    else if 'a' <= ch <= 'z' then ch as int - 'a' as int + 26
    else if '0' <= ch <= '9' then ch as int - '0' as int + 52
    else if ch == '+' then 62
    else if ch == '/' then 63
    else -1
  }

  /** The alphabet of section 4 of RFC 4648, in order. */
  const UPPER: string := "ABCDEFGHIJKLMNOPQRSTUVWXYZ"
  const LOWER: string := "abcdefghijklmnopqrstuvwxyz"
  const OTHERS: string := "0123456789+/"

  function AlphabetAt(v: nat): char
    requires v < 64
  {
    if v < 26 then UPPER[v] else if v < 52 then LOWER[v - 26] else OTHERS[v - 52]
  }

  /** The characters with a value are those of the alphabet, and the value is the place there. */
  lemma IndexTable(ch: char, v: nat)
    requires v < 64
    ensures Index(ch) == v <==> ch == AlphabetAt(v)
  {
    hide Index;
    if v < 26 {
      UpperAt(v);
    } else if v < 52 {
      LowerAt(v - 26);
    } else {
      OtherAt(v - 52);
    }
    if Index(ch) == v { IndexOnce(ch, AlphabetAt(v)); }
  }

  lemma UpperAt(v: nat)
    requires v < 26
    ensures UPPER[v] as int == 65 + v && Index(UPPER[v]) == v
  {
  }

  lemma LowerAt(v: nat)
    requires v < 26
    ensures LOWER[v] as int == 97 + v && Index(LOWER[v]) == 26 + v
  {
  }

  lemma OtherAt(v: nat)
    requires v < 12
    ensures Index(OTHERS[v]) == 52 + v
  {
  }

  /** No two characters have the same value. */
  lemma IndexOnce(a: char, b: char)
    requires Index(a) == Index(b) >= 0
    ensures a == b
  {
  }

  // ---------- what decoding means ----------

  predicate InAlphabet(s: string) {
    forall i :: 0 <= i < |s| ==> Index(s[i]) >= 0
  }

  /** The characters read as digits of one number in base 64. */
  function Sextets(acc: nat, s: string): nat
    requires InAlphabet(s)
    decreases |s|
  {
    if s == [] then acc else Sextets(acc * 64 + Index(s[0]), s[1..])
  }

  /** The bytes read as digits of one number in base 256. */
  function Octets(acc: nat, b: seq<byte>): nat
    decreases |b|
  {
    if b == [] then acc else Octets(acc * 256 + b[0], b[1..])
  }

  /** Characters that carry `size` bytes. */
  function Needed(size: nat): nat {
    (8 * size + 5) / 6
  }

  /** Bits of the last character that carry nothing. */
  function Slack(size: nat): nat {
    6 * Needed(size) - 8 * size
  }

  lemma {:induction false} SextetsSnoc(acc: nat, s: string, ch: char)
    requires InAlphabet(s) && Index(ch) >= 0
    ensures InAlphabet(s + [ch]) && Sextets(acc, s + [ch]) == Sextets(acc, s) * 64 + Index(ch)
    decreases |s|
  {
    if s == [] {
      assert (s + [ch])[1..] == [];
    } else {
      assert (s + [ch])[1..] == s[1..] + [ch];
      SextetsSnoc(acc * 64 + Index(s[0]), s[1..], ch);
    }
  }

  lemma {:induction false} OctetsSnoc(acc: nat, b: seq<byte>, x: byte)
    ensures Octets(acc, b + [x]) == Octets(acc, b) * 256 + x
    decreases |b|
  {
    if b == [] {
      assert (b + [x])[1..] == [];
    } else {
      assert (b + [x])[1..] == b[1..] + [x];
      OctetsSnoc(acc * 256 + b[0], b[1..], x);
    }
  }

  /** A number of given length has only one byte representation. */
  lemma {:induction false} OctetsInjective(a: seq<byte>, b: seq<byte>)
    requires |a| == |b| && Octets(0, a) == Octets(0, b)
    ensures a == b
    decreases |a|
  {
    if a == [] {
    } else {
      var k := |a| - 1;
      assert a == a[..k] + [a[k]] && b == b[..k] + [b[k]];
      OctetsSnoc(0, a[..k], a[k]);
      OctetsSnoc(0, b[..k], b[k]);
      OctetsInjective(a[..k], b[..k]);
    }
  }

  // ---------- the decoder ----------

  /** The low `bits` bits of the buffer are the bits read and not yet written. */
  ghost predicate Pending(value: nat, written: nat, buffer: nat, bits: nat) {
    value == written * Pow2(bits) + buffer % Pow2(bits)
  }

  lemma SmallPowers()
    ensures Pow2(0) == 1 && Pow2(2) == 4 && Pow2(4) == 16 && Pow2(6) == 64
    ensures Pow2(8) == 256 && Pow2(10) == 1024 && Pow2(12) == 4096
  {
    assert Pow2(4) == 16;
    assert Pow2(8) == 256;
    assert Pow2(10) == 1024;
  }

  predicate EvenBelow(bits: nat, limit: nat) {
    bits % 2 == 0 && bits < limit
  }

  /** The low bits of a word do not depend on what was lost above it. */
  lemma DropHigh(y: nat, m: nat, c: nat)
    requires m > 0 && WORD == m * c
    ensures y % WORD % m == y % m
  {
    var k, w := y / WORD, y % WORD;
    var j, r := w / m, w % m;
    assert m * (c * k + j) == m * c * k + m * j;
    ModUnique(y, m, c * k + j, r);
  }

  /** Low bits move up by six and the new ones come in below. */
  lemma LowBits(buffer: nat, p: nat, x: nat)
    requires p > 0 && x < 64
    ensures (buffer * 64 + x) % (64 * p) == buffer % p * 64 + x
  {
    var k, r := buffer / p, buffer % p;
    assert buffer == p * k + r;
    assert 64 * (p * k) == 64 * p * k;
    ModUnique(buffer * 64 + x, 64 * p, k, r * 64 + x);
  }

  /** Shifting six bits in; what the 32-bit buffer loses at the top was written long ago. */
  lemma ShiftIn(value: nat, written: nat, buffer: uint32, bits: nat, x: nat)
    requires Pending(value, written, buffer, bits) && EvenBelow(bits, 8) && x < 64
    ensures Pending(value * 64 + x, written, (buffer * 64 + x) % WORD, bits + 6)
  {
    var p := Pow2(bits);
    SmallPowers();
    assert Pow2(bits + 6) == 64 * p;
    LowBits(buffer, p, x);
    WordMultiple(bits + 6);
    DropHigh(buffer * 64 + x, 64 * p, WORD / (64 * p));
    assert written * (64 * p) == 64 * (written * p);
  }

  lemma WordMultiple(bits: nat)
    requires EvenBelow(bits, 14)
    ensures WORD == Pow2(bits) * (WORD / Pow2(bits))
  {
    SmallPowers();
  }

  lemma Distribute(p: nat, a: nat, b: nat)
    ensures p * (a + b) == p * a + p * b
    ensures p * (256 * a) == 256 * p * a
  {
  }

  lemma ByteAndRest(buffer: nat, p: nat)
    requires p > 0
    ensures buffer % (256 * p) == p * (buffer / p % 256) + buffer % p
  {
    var h, r := buffer / p, buffer % p;
    var k, l := h / 256, h % 256;
    assert buffer == p * h + r;
    Distribute(p, 256 * k, l);
    Distribute(p, k, 0);
    MulBelow(p, l, r);
    ModUnique(buffer, 256 * p, k, p * l + r);
  }

  lemma MulBelow(p: nat, l: nat, r: nat)
    requires r < p && l < 256
    ensures p * l + r < 256 * p
  {
    assert p * l <= p * 255;
  }

  /** The top eight of the pending bits: `(unsigned char)(buffer >> (buffer_bits - 8))`. */
  function TopByte(buffer: nat, bits: nat): byte
    requires 8 <= bits
  {
    buffer / Pow2(bits - 8) % 256
  }

  /** Taking the top eight pending bits out. */
  lemma TakeByte(value: nat, written: nat, buffer: uint32, bits: nat)
    requires Pending(value, written, buffer, bits) && EvenBelow(bits, 14) && 8 <= bits
    ensures Pending(value, written * 256 + TopByte(buffer, bits), buffer, bits - 8)
  {
    SmallPowers();
    var p := Pow2(bits - 8);
    assert Pow2(bits) == 256 * p;
    ByteAndRest(buffer, p);
    var l := buffer / p % 256;
    assert (written * 256 + l) * p == written * (256 * p) + p * l;
  }

  /** The first `at` characters have been read; `data` and the pending bits of the buffer are what they carry. */
  ghost predicate Read(base64: string, at: nat, data: seq<byte>, buffer: uint32, bits: nat) {
    && at <= |base64| && 6 * at == 8 * |data| + bits && EvenBelow(bits, 14)
    && InAlphabet(base64[..at])
    && Pending(Sextets(0, base64[..at]), Octets(0, data), buffer, bits)
  }

  lemma ReadOne(base64: string, at: nat, data: seq<byte>, buffer: uint32, bits: nat)
    requires Read(base64, at, data, buffer, bits) && bits < 8 && at < |base64| && Index(base64[at]) >= 0
    ensures Read(base64, at + 1, data, (buffer * 64 + Index(base64[at])) % WORD, bits + 6)
    ensures bits + 6 < 14
  {
    assert base64[..at + 1] == base64[..at] + [base64[at]];
    SextetsSnoc(0, base64[..at], base64[at]);
    ShiftIn(Sextets(0, base64[..at]), Octets(0, data), buffer, bits, Index(base64[at]));
  }

  lemma WriteOne(base64: string, at: nat, data: seq<byte>, buffer: uint32, bits: nat)
    requires Read(base64, at, data, buffer, bits) && 8 <= bits
    ensures Read(base64, at, data + [TopByte(buffer, bits)], buffer, bits - 8)
  {
    TakeByte(Sextets(0, base64[..at]), Octets(0, data), buffer, bits);
    OctetsSnoc(0, data, TopByte(buffer, bits));
  }

  lemma ReadNothing(base64: string)
    ensures Read(base64, 0, [], 0, 0)
  {
    assert Pow2(0) == 1;
  }

  /** Characters are read until at least one byte is pending; None when the next one is missing or foreign. */
  method Refill(base64: string, from: nat, ghost data: seq<byte>, have: uint32, bits: nat)
    returns (ok: bool, at: nat, buffer: uint32, bufferBits: nat)
    requires Read(base64, from, data, have, bits) && bits < 8
    ensures Read(base64, at, data, buffer, bufferBits)
    ensures bufferBits < 14 && (ok ==> 8 <= bufferBits)
    ensures !ok ==> bufferBits < 8 && (at < |base64| ==> Index(base64[at]) < 0)
  {
    hide *;
    at, buffer, bufferBits := from, have, bits;
    while bufferBits < 8
      invariant bufferBits < 14 && Read(base64, at, data, buffer, bufferBits)
      decreases 8 - bufferBits
    {
      var ch := if at < |base64| then base64[at] else '\0';
      var index := Index(ch);
      if index < 0 {
        return false, at, buffer, bufferBits;
      }
      Terminator();
      ReadOne(base64, at, data, buffer, bufferBits);
      buffer := (buffer * 64 + index) % WORD;
      bufferBits := bufferBits + 6;
      at := at + 1;
    }
    ok := true;
  }

  lemma Terminator()
    ensures Index('\0') == -1
  {
  }

  /** Decode `size` bytes.  Fails exactly when one of the characters needed is missing or outside the
      alphabet; otherwise the bytes are the leading bits of the characters, and no other character is read. */
  method Decode(size: nat, base64: string) returns (r: Decoded)
    ensures r.Data? <==> Needed(size) <= |base64| && InAlphabet(base64[..Needed(size)])
    ensures r.Data? ==>
      && |r.bytes| == size
      && Octets(0, r.bytes) == Sextets(0, base64[..Needed(size)]) / Pow2(Slack(size))
  {
    hide *;
    var data := new byte[size];
    var buffer: uint32, bufferBits: nat, at: nat := 0, 0, 0;
    ReadNothing(base64);
    for i := 0 to size
      invariant bufferBits < 6 && Read(base64, at, data[..i], buffer, bufferBits)
    {
      var ok;
      ok, at, buffer, bufferBits := Refill(base64, at, data[..i], buffer, bufferBits);
      if !ok {
        NotEnough(size, base64, i, at, data[..i], buffer, bufferBits);
        return IoError;
      }
      WriteOne(base64, at, data[..i], buffer, bufferBits);
      ghost var before := data[..i];
      data[i] := TopByte(buffer, bufferBits);
      assert data[..i + 1] == before + [TopByte(buffer, bufferBits)];
      bufferBits := bufferBits - 8;
    }
    assert data[..size] == data[..];
    AllRead(size, base64, at, data[..], buffer, bufferBits);
    return Data(data[..]);
  }

  lemma NotEnough(size: nat, base64: string, i: nat, at: nat, data: seq<byte>, buffer: uint32, bits: nat)
    requires Read(base64, at, data, buffer, bits) && |data| == i < size && bits < 8
    requires at < |base64| ==> Index(base64[at]) < 0
    ensures !(Needed(size) <= |base64| && InAlphabet(base64[..Needed(size)]))
  {
    assert at < Needed(size);
    if Needed(size) <= |base64| { assert base64[..Needed(size)][at] == base64[at]; }
  }

  lemma AllRead(size: nat, base64: string, at: nat, data: seq<byte>, buffer: uint32, bits: nat)
    requires Read(base64, at, data, buffer, bits) && |data| == size && bits < 6
    ensures Needed(size) <= |base64| && InAlphabet(base64[..Needed(size)])
    ensures Octets(0, data) == Sextets(0, base64[..Needed(size)]) / Pow2(Slack(size))
  {
    hide Pow2, Sextets, Octets, Index, InAlphabet;
    Exactly(size, at, bits);
    Leading(Sextets(0, base64[..at]), Octets(0, data), buffer, bits);
  }

  lemma Exactly(size: nat, at: nat, bits: nat)
    requires 6 * at == 8 * size + bits && bits < 6
    ensures at == Needed(size) && bits == Slack(size)
  {
  }

  lemma Leading(value: nat, written: nat, buffer: nat, bits: nat)
    requires Pending(value, written, buffer, bits)
    ensures written == value / Pow2(bits)
  {
    hide Pow2;
    var p := Pow2(bits);
    assert written * p == p * written;
    ModUnique(value, p, written, buffer % p);
  }

  // ---------- the encoder of the standard ----------

  function Letter(i: nat): (ch: char)
    requires i < 64
    ensures Index(ch) == i && ch != '='
  {
    if i < 26 then ('A' as int + i) as char
    else if i < 52 then ('a' as int + i - 26) as char
    else if i < 62 then ('0' as int + i - 52) as char
    else if i == 62 then '+'
    else '/'
  }

  /** Groups of three bytes as four characters; a last group of one or two bytes is padded. */
  function Encode(b: seq<byte>): string
    decreases |b|
  {
    if |b| == 0 then ""
    else if |b| == 1 then [Letter(b[0] / 4), Letter(b[0] % 4 * 16), '=', '=']
    else if |b| == 2 then [Letter(b[0] / 4), Letter(b[0] % 4 * 16 + b[1] / 16), Letter(b[1] % 16 * 4), '=']
    else Group(b) + Encode(b[3..])
  }

  lemma SextetsFour(acc: nat, a: char, b: char, c: char, d: char, rest: string)
    requires Index(a) >= 0 && Index(b) >= 0 && Index(c) >= 0 && Index(d) >= 0 && InAlphabet(rest)
    ensures InAlphabet([a, b, c, d] + rest)
    ensures Sextets(acc, [a, b, c, d] + rest)
         == Sextets((((acc * 64 + Index(a)) * 64 + Index(b)) * 64 + Index(c)) * 64 + Index(d), rest)
  {
    hide Index, Sextets, InAlphabet;
    var t := (acc * 64 + Index(a)) * 64 + Index(b);
    SextetsOne(t * 64 + Index(c), d, rest);
    SextetsOne(t, c, [d] + rest);
    assert [c] + ([d] + rest) == [c, d] + rest;
    SextetsOne(acc * 64 + Index(a), b, [c, d] + rest);
    assert [b] + ([c, d] + rest) == [b, c, d] + rest;
    SextetsOne(acc, a, [b, c, d] + rest);
    assert [a] + ([b, c, d] + rest) == [a, b, c, d] + rest;
  }

  lemma SextetsOne(acc: nat, ch: char, rest: string)
    requires Index(ch) >= 0 && InAlphabet(rest)
    ensures InAlphabet([ch] + rest) && Sextets(acc, [ch] + rest) == Sextets(acc * 64 + Index(ch), rest)
  {
    assert ([ch] + rest)[1..] == rest;
  }

  lemma EncodeOne(acc: nat, b: seq<byte>)
    requires |b| == 1
    ensures |Encode(b)| == 4 && Encode(b)[2] == '=' && Encode(b)[3] == '='
    ensures InAlphabet(Encode(b)[..2]) && Sextets(acc, Encode(b)[..2]) == Octets(acc, b) * 16
  {
    var x, y := Letter(b[0] / 4), Letter(b[0] % 4 * 16);
    assert Encode(b)[..2] == [x] + [y] && [y] == [y] + "";
    SextetsOne(acc * 64 + Index(x), y, "");
    SextetsOne(acc, x, [y]);
    assert b[1..] == [];
    assert Octets(acc, b) == acc * 256 + b[0];
  }

  lemma EncodeTwo(acc: nat, b: seq<byte>)
    requires |b| == 2
    ensures |Encode(b)| == 4 && Encode(b)[3] == '='
    ensures InAlphabet(Encode(b)[..3]) && Sextets(acc, Encode(b)[..3]) == Octets(acc, b) * 4
  {
    var x, y, z := Letter(b[0] / 4), Letter(b[0] % 4 * 16 + b[1] / 16), Letter(b[1] % 16 * 4);
    assert Encode(b)[..3] == [x] + [y, z] && [y, z] == [y] + [z] && [z] == [z] + "";
    SextetsOne((acc * 64 + Index(x)) * 64 + Index(y), z, "");
    SextetsOne(acc * 64 + Index(x), y, [z]);
    SextetsOne(acc, x, [y, z]);
    assert b[1..][1..] == [];
    assert Octets(acc, b) == Octets(acc * 256 + b[0], b[1..]) == (acc * 256 + b[0]) * 256 + b[1];
  }

  /** What encoding means: the characters before the padding carry the bytes, followed by the slack. */
  ghost predicate Carries(acc: nat, s: string, b: seq<byte>) {
    && Needed(|b|) <= |s| && InAlphabet(s[..Needed(|b|)])
    && Widened(Sextets(acc, s[..Needed(|b|)]), Octets(acc, b), |b|)
    && Padding(s[Needed(|b|)..])
  }

  ghost predicate Widened(characters: nat, bytes: nat, size: nat) {
    characters == bytes * Pow2(Slack(size))
  }

  predicate Padding(s: string) {
    forall i :: 0 <= i < |s| ==> s[i] == '='
  }

  lemma ShortSizes()
    ensures Needed(0) == 0 && Needed(1) == 2 && Needed(2) == 3
    ensures Pow2(Slack(0)) == 1 && Pow2(Slack(1)) == 16 && Pow2(Slack(2)) == 4
  {
    SmallPowers();
  }

  lemma EncodeNone(acc: nat, b: seq<byte>)
    requires b == []
    ensures Encode(b) == "" && InAlphabet("") && Sextets(acc, "") == Octets(acc, b) == acc
  {
  }

  lemma EncodeShort(acc: nat, b: seq<byte>)
    requires |b| <= 2
    ensures Carries(acc, Encode(b), b)
  {
    hide Encode, Sextets, Octets, Pow2, Letter, Index, Needed, Slack, InAlphabet;
    ShortSizes();
    if |b| == 0 {
      EncodeNone(acc, b);
      assert Encode(b)[..0] == "";
    } else if |b| == 1 {
      EncodeOne(acc, b);
    } else {
      EncodeTwo(acc, b);
    }
  }

  lemma {:induction false} EncodeValue(acc: nat, b: seq<byte>)
    ensures Carries(acc, Encode(b), b)
    decreases |b|
  {
    hide *;
    if |b| <= 2 {
      EncodeShort(acc, b);
    } else {
      EncodeValue(Three(acc, b), b[3..]);
      EncodeGroup(acc, b);
    }
  }

  /** A full group in front: four characters, the same number as three bytes. */
  lemma EncodeGroup(acc: nat, b: seq<byte>)
    requires |b| > 2
    requires Carries(Three(acc, b), Encode(b[3..]), b[3..])
    ensures Carries(acc, Encode(b), b)
  {
    hide Encode, Letter, Index, Sextets, Octets, Pow2, Three, Needed, Slack, InAlphabet, Group, Widened, Padding;
    var g, rest, tail := Group(b), Encode(b[3..]), b[3..];
    EncodeStep(b);
    OctetsThree(acc, b);
    GroupThenRest(acc, b, rest[..Needed(|tail|)]);
    CarriesGroup(acc, Three(acc, b), g, rest, b, tail);
  }

  lemma CarriesGroup(acc: nat, next: nat, g: string, rest: string, b: seq<byte>, tail: seq<byte>)
    requires |b| == |tail| + 3 && |g| == 4 && Carries(next, rest, tail) && Octets(acc, b) == Octets(next, tail)
    requires InAlphabet(g + rest[..Needed(|tail|)])
    requires Sextets(acc, g + rest[..Needed(|tail|)]) == Sextets(next, rest[..Needed(|tail|)])
    ensures Carries(acc, g + rest, b)
  {
    hide Encode, Letter, Index, Sextets, Octets, Pow2, Three, Needed, Slack, InAlphabet, Group, Widened, Padding;
    var k := Needed(|tail|);
    GroupSizes(|b|, Sextets(next, rest[..k]), Octets(next, tail));
    assert (g + rest)[..k + 4] == g + rest[..k];
    assert (g + rest)[k + 4..] == rest[k..];
  }

  lemma EncodeStep(b: seq<byte>)
    requires |b| > 2
    ensures Encode(b) == Group(b) + Encode(b[3..])
  {
    hide Group, Letter;
  }

  lemma GroupSizes(size: nat, characters: nat, bytes: nat)
    requires size > 2
    ensures Needed(size) == Needed(size - 3) + 4
    ensures Widened(characters, bytes, size - 3) == Widened(characters, bytes, size)
  {
    assert Slack(size) == Slack(size - 3);
  }

  lemma GroupThenRest(acc: nat, b: seq<byte>, rest: string)
    requires |b| > 2 && InAlphabet(rest)
    ensures InAlphabet(Group(b) + rest) && Sextets(acc, Group(b) + rest) == Sextets(Three(acc, b), rest)
  {
    hide Group, Index, Sextets, InAlphabet;
    GroupValue(acc, b);
    SextetsGroup(acc, Group(b), rest);
  }

  /** The four characters of a full group. */
  function Group(b: seq<byte>): (g: string)
    requires |b| > 2
    ensures |g| == 4 && Index(g[0]) == b[0] / 4 && Index(g[1]) == b[0] % 4 * 16 + b[1] / 16
    ensures Index(g[2]) == b[1] % 16 * 4 + b[2] / 64 && Index(g[3]) == b[2] % 64
  {
    [Letter(b[0] / 4), Letter(b[0] % 4 * 16 + b[1] / 16), Letter(b[1] % 16 * 4 + b[2] / 64), Letter(b[2] % 64)]
  }

  lemma SextetsGroup(acc: nat, g: string, rest: string)
    requires |g| == 4 && Index(g[0]) >= 0 && Index(g[1]) >= 0 && Index(g[2]) >= 0 && Index(g[3]) >= 0
    requires InAlphabet(rest)
    ensures InAlphabet(g + rest)
    ensures Sextets(acc, g + rest)
         == Sextets((((acc * 64 + Index(g[0])) * 64 + Index(g[1])) * 64 + Index(g[2])) * 64 + Index(g[3]), rest)
  {
    assert g == [g[0], g[1], g[2], g[3]];
    SextetsFour(acc, g[0], g[1], g[2], g[3], rest);
  }

  /** Three more digits in base 256. */
  function Three(acc: nat, b: seq<byte>): nat
    requires |b| > 2
  {
    ((acc * 256 + b[0]) * 256 + b[1]) * 256 + b[2]
  }

  lemma OctetsThree(acc: nat, b: seq<byte>)
    requires |b| > 2
    ensures Octets(acc, b) == Octets(Three(acc, b), b[3..])
  {
    assert b[1..][1..] == b[2..] && b[2..][1..] == b[3..];
    assert Octets(acc, b) == Octets(acc * 256 + b[0], b[1..]);
    assert Octets(acc * 256 + b[0], b[1..]) == Octets((acc * 256 + b[0]) * 256 + b[1], b[2..]);
  }

  /** Four characters of a group are the same number as its three bytes. */
  lemma GroupValue(acc: nat, b: seq<byte>)
    requires |b| > 2
    ensures var two := (acc * 64 + b[0] / 4) * 64 + (b[0] % 4 * 16 + b[1] / 16);
      (two * 64 + (b[1] % 16 * 4 + b[2] / 64)) * 64 + b[2] % 64 == Three(acc, b)
  {
  }

  /** Decoding an encoded byte string with its length gives it back; the padding is never needed. */
  method RoundTrip(b: seq<byte>) returns (r: Decoded)
    ensures r == Data(b)
  {
    EncodeValue(0, b);
    r := Decode(|b|, Encode(b));
    hide *;
    Unwidened(b, Encode(b));
    OctetsInjective(r.bytes, b);
  }

  /** Dropping the slack gives the bytes back. */
  lemma Unwidened(b: seq<byte>, s: string)
    requires Carries(0, s, b)
    ensures Needed(|b|) <= |s| && InAlphabet(s[..Needed(|b|)])
    ensures Sextets(0, s[..Needed(|b|)]) / Pow2(Slack(|b|)) == Octets(0, b)
  {
    hide Sextets, Octets, Pow2, Needed, Slack, InAlphabet;
    var p, n := Pow2(Slack(|b|)), Octets(0, b);
    assert p * n == n * p;
    ModUnique(n * p, p, n, 0);
  }
}
