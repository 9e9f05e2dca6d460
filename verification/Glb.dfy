// The binary container: section 4.4 of the glTF 2.0 specification, as written and as read back.
module Glb {
  import opened Bits
  import opened Wrappers

  const MAGIC: uint32 := 0x46546C67
  const VERSION: uint32 := 2
  const JSON_CHUNK: uint32 := 0x4E4F534A
  const BIN_CHUNK: uint32 := 0x004E4942
  const HEADER_SIZE: nat := 12
  const CHUNK_HEADER_SIZE: nat := 8

  /** `Detect` lets the first four bytes decide. */
  datatype FileType = Detect | Gltf | Binary

  datatype Error = DataTooShort | UnknownFormat | InvalidOptions | LegacyGltf

  /** What is handed on to the JSON parser: the whole input, or the JSON chunk of a container. */
  datatype Outcome = Text(json: seq<byte>) | Container(json: seq<byte>, bin: Option<seq<byte>>) | Failure(error: Error)

  // ---------- words ----------

  /** The low 32 bits, least significant byte first. */
  function Le32(v: nat): (b: seq<byte>)
    ensures |b| == 4
  {
    [v % 256, v / 256 % 256, v / 65536 % 256, v / 16777216 % 256]
  }

  function U32(data: seq<byte>, at: nat): (v: uint32)
    requires at + 4 <= |data|
  {
    var a: nat, b: nat, c: nat, d: nat := data[at], data[at + 1], data[at + 2], data[at + 3];
    a + 256 * b + 65536 * c + 16777216 * d
  }

  lemma Le32Value(v: nat)
    ensures U32(Le32(v), 0) == v % WORD
  {
    var a, b, c := v / 256, v / 65536, v / 16777216;
    Quarter(v, 256);
    Quarter(v, 65536);
    assert v == 256 * a + v % 256;
    assert a == 256 * b + a % 256;
    assert b == 256 * c + b % 256;
    var d := c / 256;
    assert c == 256 * d + c % 256;
    assert v == WORD * d + U32(Le32(v), 0);
    ModUnique(v, WORD, d, U32(Le32(v), 0));
  }

  lemma Quarter(v: nat, m: nat)
    requires m == 256 || m == 65536
    ensures v / m / 256 == v / (256 * m)
  {
  }

  ghost predicate Holds(data: seq<byte>, at: nat, piece: seq<byte>) {
    at + |piece| <= |data| && data[at..at + |piece|] == piece
  }

  lemma HoldsSplit(data: seq<byte>, at: nat, a: seq<byte>, b: seq<byte>)
    requires Holds(data, at, a + b)
    ensures Holds(data, at, a) && Holds(data, at + |a|, b)
  {
    assert data[at..at + |a|] == (a + b)[..|a|];
    assert data[at + |a|..at + |a| + |b|] == (a + b)[|a|..];
  }

  lemma HoldsWord(data: seq<byte>, at: nat, v: nat)
    requires Holds(data, at, Le32(v))
    ensures U32(data, at) == v % WORD
  {
    Le32Value(v);
    hide Le32;
    var p := Le32(v);
    var q := data[at..at + 4];
    assert q[0] == data[at] && q[1] == data[at + 1] && q[2] == data[at + 2] && q[3] == data[at + 3];
  }

  // ---------- what a container is ----------

  /** The container in front of `data`: header, JSON chunk and, when at least a chunk header is left, binary chunk. */
  ghost predicate Framed(data: seq<byte>, json: seq<byte>, bin: Option<seq<byte>>) {
    && Opened(data) && JsonFits(data)
    && U32(data, 12) == |json| && U32(data, 16) == JSON_CHUNK && Holds(data, 20, json)
    && match bin
       case None => |data| - AfterJson(data) < CHUNK_HEADER_SIZE
       case Some(b) =>
         && HasMore(data) && U32(data, AfterJson(data)) == |b| && U32(data, AfterJson(data) + 4) == BIN_CHUNK
         && Holds(data, AfterJson(data) + 8, b)
  }

  /** A header of the right version that does not promise more than there is. */
  predicate Opened(data: seq<byte>) {
    |data| >= 12 && U32(data, 0) == MAGIC && U32(data, 4) == VERSION && U32(data, 8) <= |data|
  }

  predicate JsonFits(data: seq<byte>) {
    |data| >= 20 && U32(data, 12) <= |data| - 20
  }

  function AfterJson(data: seq<byte>): (at: nat)
    requires JsonFits(data)
    ensures 20 <= at <= |data|
  {
    20 + U32(data, 12)
  }

  predicate HasMore(data: seq<byte>)
    requires JsonFits(data)
  {
    AfterJson(data) + CHUNK_HEADER_SIZE <= |data|
  }

  /** Some length field, among those that are looked at, runs past the end of the input. */
  predicate Cut(data: seq<byte>) {
    || |data| < 12
    || (U32(data, 0) == MAGIC && U32(data, 4) == VERSION
        && (|| U32(data, 8) > |data|
            || !JsonFits(data)
            || (U32(data, 16) == JSON_CHUNK && HasMore(data)
                && U32(data, AfterJson(data)) > |data| - AfterJson(data) - CHUNK_HEADER_SIZE)))
  }

  /** Input that goes to the JSON parser as it is. */
  predicate PlainText(kind: FileType, data: seq<byte>) {
    |data| >= 12 && (kind.Gltf? || (kind.Detect? && U32(data, 0) != MAGIC))
  }

  /** Finding the chunks.  A container is found exactly where there is one; every failure has its one cause. */
  method Parse(options: Option<FileType>, data: seq<byte>) returns (r: Outcome)
    ensures r == Failure(InvalidOptions) <==> |data| >= 12 && options.None?
    ensures options.Some? && PlainText(options.value, data) ==> r == Text(data)
    ensures r.Text? ==> options.Some? && PlainText(options.value, data)
    ensures forall json, bin :: r == Container(json, bin) <==>
      options.Some? && !options.value.Gltf? && Framed(data, json, bin)
    ensures r == Failure(DataTooShort) <==>
      |data| < 12 || (options.Some? && !PlainText(options.value, data) && Cut(data))
    ensures r == Failure(LegacyGltf) <==>
      && |data| >= 12 && options.Some? && !PlainText(options.value, data)
      && U32(data, 0) == MAGIC && U32(data, 4) < VERSION
  {
    hide U32;
    if |data| < HEADER_SIZE {
      return Failure(DataTooShort);
    }
    if options.None? {
      return Failure(InvalidOptions);
    }
    var kind := options.value;
    if U32(data, 0) != MAGIC {
      if kind.Detect? {
        kind := Gltf;
      } else if kind.Binary? {
        return Failure(UnknownFormat);
      }
    }
    if kind.Gltf? {
      return Text(data);
    }
    var version := U32(data, 4);
    if version != VERSION {
      return Failure(if version < VERSION then LegacyGltf else UnknownFormat);
    }
    if U32(data, 8) > |data| {
      return Failure(DataTooShort);
    }
    var jsonChunk := HEADER_SIZE;
    if HEADER_SIZE + CHUNK_HEADER_SIZE > |data| {
      return Failure(DataTooShort);
    }
    var jsonLength := U32(data, jsonChunk);
    if jsonLength > |data| - HEADER_SIZE - CHUNK_HEADER_SIZE {
      return Failure(DataTooShort);
    }
    if U32(data, jsonChunk + 4) != JSON_CHUNK {
      return Failure(UnknownFormat);
    }
    jsonChunk := jsonChunk + CHUNK_HEADER_SIZE;
    var bin: Option<seq<byte>> := None;
    if CHUNK_HEADER_SIZE <= |data| - HEADER_SIZE - CHUNK_HEADER_SIZE - jsonLength {
      var binChunk := jsonChunk + jsonLength;
      var binLength := U32(data, binChunk);
      if binLength > |data| - HEADER_SIZE - CHUNK_HEADER_SIZE - jsonLength - CHUNK_HEADER_SIZE {
        return Failure(DataTooShort);
      }
      if U32(data, binChunk + 4) != BIN_CHUNK {
        return Failure(UnknownFormat);
      }
      binChunk := binChunk + CHUNK_HEADER_SIZE;
      bin := Some(data[binChunk..binChunk + binLength]);
    }
    return Container(data[jsonChunk..jsonChunk + jsonLength], bin);
  }

  // ---------- the writer ----------

  function PadSize(size: nat): (p: nat)
    ensures p < 4 && (size + p) % 4 == 0
  {
    if size % 4 != 0 then 4 - size % 4 else 0
  }

  /** Filled up to a multiple of four bytes. */
  function Padded(b: seq<byte>, fill: byte): (r: seq<byte>)
    ensures b <= r && |r| % 4 == 0 && |r| < |b| + 4
    ensures forall i :: |b| <= i < |r| ==> r[i] == fill
  {
    b + seq(PadSize(|b|), _ => fill)
  }

  function Chunk(kind: uint32, body: seq<byte>): (c: seq<byte>)
    ensures |c| == CHUNK_HEADER_SIZE + |body|
  {
    Le32(|body|) + Le32(kind) + body
  }

  /** The second chunk: there is none for a missing or empty binary. */
  function Written(bin: Option<seq<byte>>): seq<byte> {
    if bin.Some? && bin.value != [] then Chunk(BIN_CHUNK, Padded(bin.value, 0)) else []
  }

  /** The chunks of a container. */
  function Chunks(json: seq<byte>, bin: Option<seq<byte>>): seq<byte> {
    Chunk(JSON_CHUNK, Padded(json, 0x20)) + Written(bin)
  }

  /** The layout of section 4.4. */
  function Layout(json: seq<byte>, bin: Option<seq<byte>>): (r: seq<byte>)
    ensures |r| == 12 + |Chunks(json, bin)|
  {
    Le32(MAGIC) + Le32(VERSION) + Le32(12 + |Chunks(json, bin)|) + Chunks(json, bin)
  }

  /** An output file. */
  class File {
    var bytes: seq<byte>

    constructor ()
      ensures bytes == []
    {
      bytes := [];
    }

    method Write(b: seq<byte>)
      modifies this
      ensures bytes == old(bytes) + b
    {
      bytes := bytes + b;
    }

    /** A chunk header with its length cut to 32 bits, the bytes and the padding. */
    method WriteChunk(kind: uint32, body: seq<byte>, fill: byte)
      modifies this
      ensures bytes == old(bytes) + Chunk(kind, Padded(body, fill))
    {
      var padSize := PadSize(|body|);
      Write(Le32((|body| + padSize) % WORD) + Le32(kind));
      SameWord(|body| + padSize);
      Write(body);
      Write(seq(padSize, _ => fill));
    }

    method WriteGlb(json: seq<byte>, bin: Option<seq<byte>>)
      modifies this
      ensures bytes == old(bytes) + Layout(json, bin)
    {
      hide Le32, Chunk, Padded, PadSize, Chunks, Written;
      ghost var before := bytes;
      LayoutSize(json, bin);
      var totalSize := HEADER_SIZE + CHUNK_HEADER_SIZE + |json| + PadSize(|json|);
      if bin.Some? && |bin.value| > 0 {
        totalSize := totalSize + CHUNK_HEADER_SIZE + |bin.value| + PadSize(|bin.value|);
      }
      Write(Le32(MAGIC) + Le32(VERSION) + Le32(totalSize));
      WriteChunk(JSON_CHUNK, json, 0x20);
      if bin.Some? && |bin.value| > 0 {
        WriteChunk(BIN_CHUNK, bin.value, 0);
      }
      Assembled(before, json, bin);
    }
  }

  lemma LayoutSize(json: seq<byte>, bin: Option<seq<byte>>)
    ensures 12 + |Chunks(json, bin)| == 12 + 8 + |json| + PadSize(|json|)
      + if bin.Some? && |bin.value| > 0 then 8 + |bin.value| + PadSize(|bin.value|) else 0
  {
    hide Le32, PadSize;
  }

  lemma Assembled(before: seq<byte>, json: seq<byte>, bin: Option<seq<byte>>)
    ensures before + (Le32(MAGIC) + Le32(VERSION) + Le32(12 + |Chunks(json, bin)|))
      + Chunk(JSON_CHUNK, Padded(json, 0x20))
      + (if bin.Some? && |bin.value| > 0 then Chunk(BIN_CHUNK, Padded(bin.value, 0)) else [])
      == before + Layout(json, bin)
  {
    hide Le32, Padded, PadSize, Chunk;
  }

  /** The `uint32_t` cast loses nothing the four bytes would have kept. */
  lemma SameWord(v: nat)
    ensures Le32(v % WORD) == Le32(v)
  {
    hide Le32, U32;
    Le32Value(v);
    Le32Value(v % WORD);
    WordsEqual(Le32(v % WORD), Le32(v));
  }

  lemma WordsEqual(a: seq<byte>, b: seq<byte>)
    requires |a| == |b| == 4 && U32(a, 0) == U32(b, 0)
    ensures a == b
  {
    var a1: nat, a2: nat, a3: nat := a[1], a[2], a[3];
    var b1: nat, b2: nat, b3: nat := b[1], b[2], b[3];
    FirstDigit(a[0], a1 + 256 * (a2 + 256 * a3), b[0], b1 + 256 * (b2 + 256 * b3));
    FirstDigit(a[1], a2 + 256 * a3, b[1], b2 + 256 * b3);
    FirstDigit(a[2], a3, b[2], b3);
  }

  lemma FirstDigit(a: byte, x: nat, b: byte, y: nat)
    requires (a as nat) + 256 * x == (b as nat) + 256 * y
    ensures a == b && x == y
  {
  }

  // ---------- the bytes ----------

  /** The words that are looked for are these bytes: "glTF", version 2, "JSON", and "BIN" with a NUL. */
  lemma WordBytes(data: seq<byte>, at: nat)
    requires at + 4 <= |data|
    ensures U32(data, at) == MAGIC <==> data[at..at + 4] == [0x67, 0x6c, 0x54, 0x46]
    ensures U32(data, at) == VERSION <==> data[at..at + 4] == [2, 0, 0, 0]
    ensures U32(data, at) == JSON_CHUNK <==> data[at..at + 4] == [0x4a, 0x53, 0x4f, 0x4e]
    ensures U32(data, at) == BIN_CHUNK <==> data[at..at + 4] == [0x42, 0x49, 0x4e, 0]
  {
    var q := data[at..at + 4];
    assert q == [data[at], data[at + 1], data[at + 2], data[at + 3]];
    WordIs(data, at, 0x67, 0x6c, 0x54, 0x46);
    WordIs(data, at, 2, 0, 0, 0);
    WordIs(data, at, 0x4a, 0x53, 0x4f, 0x4e);
    WordIs(data, at, 0x42, 0x49, 0x4e, 0);
  }

  /** A word equals a number exactly when its bytes are that number's, least significant first. */
  lemma WordIs(data: seq<byte>, at: nat, a: byte, b: byte, c: byte, d: byte)
    requires at + 4 <= |data|
    ensures var v: nat := (a as nat) + 256 * b + 65536 * c + 16777216 * d;
      U32(data, at) == v <==> data[at] == a && data[at + 1] == b && data[at + 2] == c && data[at + 3] == d
  {
    var p: nat, q: nat, r: nat, s: nat := data[at], data[at + 1], data[at + 2], data[at + 3];
    if U32(data, at) == (a as nat) + 256 * b + 65536 * c + 16777216 * d {
      FirstDigit(data[at], q + 256 * (r + 256 * s), a, b + 256 * (c + 256 * d));
      FirstDigit(data[at + 1], r + 256 * s, b, c + 256 * d);
      FirstDigit(data[at + 2], s, c, d);
    }
  }

  // ---------- there and back ----------

  /** Both chunk lengths fit their fields. */
  predicate Fits(json: seq<byte>, bin: Option<seq<byte>>) {
    |Padded(json, 0x20)| < WORD && (bin.Some? ==> |Padded(bin.value, 0)| < WORD)
  }

  /** What a reader should find. */
  function Expected(json: seq<byte>, bin: Option<seq<byte>>): (r: Outcome)
    ensures r.Container?
  {
    Container(Padded(json, 0x20), if bin.Some? && bin.value != [] then Some(Padded(bin.value, 0)) else None)
  }

  lemma ChunkAt(data: seq<byte>, at: nat, kind: uint32, body: seq<byte>)
    requires Holds(data, at, Chunk(kind, body))
    ensures at + 8 + |body| <= |data| && Holds(data, at + 8, body)
    ensures U32(data, at) == |body| % WORD && U32(data, at + 4) == kind
  {
    hide Le32, U32;
    HoldsSplit(data, at, Le32(|body|) + Le32(kind), body);
    HoldsSplit(data, at, Le32(|body|), Le32(kind));
    HoldsWord(data, at, |body|);
    HoldsWord(data, at + 4, kind);
  }

  /** The fields of a written header. */
  lemma HeaderAt(data: seq<byte>, total: nat)
    requires Holds(data, 0, Le32(MAGIC) + Le32(VERSION) + Le32(total))
    ensures U32(data, 0) == MAGIC && U32(data, 4) == VERSION && U32(data, 8) == total % WORD
  {
    hide Le32, U32;
    HoldsSplit(data, 0, Le32(MAGIC) + Le32(VERSION), Le32(total));
    HoldsSplit(data, 0, Le32(MAGIC), Le32(VERSION));
    HoldsWord(data, 0, MAGIC);
    HoldsWord(data, 4, VERSION);
    HoldsWord(data, 8, total);
  }

  lemma WrittenHeader(data: seq<byte>, json: seq<byte>, bin: Option<seq<byte>>, extra: seq<byte>)
    requires data == Layout(json, bin) + extra
    ensures U32(data, 0) == MAGIC && U32(data, 4) == VERSION && U32(data, 8) == |Layout(json, bin)| % WORD
    ensures Opened(data) && Holds(data, 12, Chunks(json, bin) + extra)
  {
    hide Le32, U32, Chunks;
    var total := 12 + |Chunks(json, bin)|;
    var header := Le32(MAGIC) + Le32(VERSION) + Le32(total);
    assert data == header + (Chunks(json, bin) + extra);
    assert Holds(data, 0, header + (Chunks(json, bin) + extra));
    HoldsSplit(data, 0, header, Chunks(json, bin) + extra);
    HeaderAt(data, total);
    ModBelow(total);
  }

  lemma ModBelow(v: nat)
    ensures v % WORD <= v
  {
  }

  /** The JSON chunk of a written container. */
  lemma WrittenJson(data: seq<byte>, json: seq<byte>, bin: Option<seq<byte>>, extra: seq<byte>)
    requires data == Layout(json, bin) + extra
    ensures var text := Padded(json, 0x20);
      && |data| == 20 + |text| + |Written(bin)| + |extra| && Holds(data, 20, text)
      && U32(data, 12) == |text| % WORD && U32(data, 16) == JSON_CHUNK
      && Holds(data, 20 + |text|, Written(bin) + extra)
  {
    hide Le32, U32, Padded, Layout, Chunk, Holds, Opened;
    WrittenHeader(data, json, bin, extra);
    var first := Chunk(JSON_CHUNK, Padded(json, 0x20));
    assert Chunks(json, bin) + extra == first + (Written(bin) + extra);
    HoldsSplit(data, 12, first, Written(bin) + extra);
    ChunkAt(data, 12, JSON_CHUNK, Padded(json, 0x20));
  }

  /** The fixed bytes of every written container. */
  lemma LayoutBytes(json: seq<byte>, bin: Option<seq<byte>>)
    ensures var d, at := Layout(json, bin), 20 + |Padded(json, 0x20)|;
      && at <= |d|
      && d[0..4] == [0x67, 0x6c, 0x54, 0x46] && d[4..8] == [2, 0, 0, 0] && d[16..20] == [0x4a, 0x53, 0x4f, 0x4e]
      && d[20..at] == Padded(json, 0x20)
      && if bin.Some? && bin.value != [] then at + 8 <= |d| && d[at + 4..at + 8] == [0x42, 0x49, 0x4e, 0]
         else |d| == at
  {
    hide Le32, U32, Padded, Layout, Chunk, Opened;
    var d, at := Layout(json, bin), 20 + |Padded(json, 0x20)|;
    assert d + [] == d;
    WrittenHeader(d, json, bin, []);
    WrittenJson(d, json, bin, []);
    WordBytes(d, 0);
    WordBytes(d, 4);
    WordBytes(d, 16);
    if bin.Some? && bin.value != [] {
      WrittenBin(d, at, bin.value, []);
      WordBytes(d, at + 4);
    }
  }

  /** A written container is found again as long as both chunk lengths fit; with a binary chunk, whatever follows. */
  lemma WrittenFramed(json: seq<byte>, bin: Option<seq<byte>>, extra: seq<byte>)
    requires Fits(json, bin) && (Written(bin) == [] ==> |extra| < CHUNK_HEADER_SIZE)
    ensures Framed(Layout(json, bin) + extra, Expected(json, bin).json, Expected(json, bin).bin)
  {
    var data, text := Layout(json, bin) + extra, Padded(json, 0x20);
    WrittenHeader(data, json, bin, extra);
    WrittenJson(data, json, bin, extra);
    hide *;
    ModSame(|text|);
    if bin.Some? && bin.value != [] {
      var body := Padded(bin.value, 0);
      ModSame(|body|);
      WrittenBin(data, 20 + |text|, bin.value, extra);
      WithBin(data, text, body);
    } else {
      WithoutBin(data, text);
    }
  }

  lemma ModSame(v: nat)
    requires v < WORD
    ensures v % WORD == v
  {
  }

  lemma WithBin(data: seq<byte>, json: seq<byte>, bin: seq<byte>)
    requires Opened(data) && |data| >= 20 + |json| + 8 + |bin|
    requires U32(data, 12) == |json| && U32(data, 16) == JSON_CHUNK && Holds(data, 20, json)
    requires U32(data, 20 + |json|) == |bin| && U32(data, 24 + |json|) == BIN_CHUNK && Holds(data, 28 + |json|, bin)
    ensures Framed(data, json, Some(bin))
  {
    hide U32, Opened, Holds;
  }

  lemma WithoutBin(data: seq<byte>, json: seq<byte>)
    requires Opened(data) && 20 + |json| <= |data| < 28 + |json|
    requires U32(data, 12) == |json| && U32(data, 16) == JSON_CHUNK && Holds(data, 20, json)
    ensures Framed(data, json, None)
  {
    hide U32, Opened, Holds;
  }

  lemma WrittenBin(data: seq<byte>, at: nat, bin: seq<byte>, extra: seq<byte>)
    requires Holds(data, at, Chunk(BIN_CHUNK, Padded(bin, 0)) + extra)
    ensures var body := Padded(bin, 0);
      && at + 8 + |body| <= |data| && Holds(data, at + 8, body)
      && U32(data, at) == |body| % WORD && U32(data, at + 4) == BIN_CHUNK
  {
    hide Le32, U32, Padded, Chunk;
    HoldsSplit(data, at, Chunk(BIN_CHUNK, Padded(bin, 0)), extra);
    ChunkAt(data, at, BIN_CHUNK, Padded(bin, 0));
  }

  /** With a chunk length that does not fit, what is found there is shorter than what was written. */
  lemma TooLong(json: seq<byte>, bin: Option<seq<byte>>)
    requires Framed(Layout(json, bin), Expected(json, bin).json, Expected(json, bin).bin)
    ensures Fits(json, bin)
  {
    var data, text := Layout(json, bin), Padded(json, 0x20);
    assert data + [] == data;
    WrittenJson(data, json, bin, []);
    var found := U32(data, 12);
    assert found < WORD;
    assert found == |text|;
    hide Le32, U32, Padded, Layout, Opened, Holds, Chunk;
    if bin.Some? && bin.value != [] {
      var length := U32(data, AfterJson(data));
      assert length == |Padded(bin.value, 0)|;
    } else if bin.Some? {
      PaddedEmpty(bin.value);
    }
  }

  lemma PaddedEmpty(b: seq<byte>)
    requires b == []
    ensures Padded(b, 0) == []
  {
  }

  /** Parsing what was written gives back the padded chunks, for all inputs whose chunk lengths fit 32 bits and
      for no others.  The total length may even overflow its field. */
  method RoundTrip(kind: FileType, json: seq<byte>, bin: Option<seq<byte>>) returns (r: Outcome)
    requires !kind.Gltf?
    ensures r == Expected(json, bin) <==> Fits(json, bin)
  {
    var file := new File();
    file.WriteGlb(json, bin);
    assert file.bytes == Layout(json, bin);
    WrittenHeader(file.bytes, json, bin, []);
    r := Parse(Some(kind), file.bytes);
    hide Le32, U32, Layout, Framed, Fits;
    assert Layout(json, bin) + [] == Layout(json, bin);
    if Fits(json, bin) {
      WrittenFramed(json, bin, []);
    }
    if r == Expected(json, bin) {
      TooLong(json, bin);
    }
  }

  /** A container cut anywhere is reported as too short. */
  lemma Truncated(json: seq<byte>, bin: Option<seq<byte>>, k: nat)
    requires |Layout(json, bin)| < WORD && k < |Layout(json, bin)|
    ensures Cut(Layout(json, bin)[..k])
  {
    if k >= 12 {
      var data := Layout(json, bin);
      assert data + [] == data;
      WrittenHeader(data, json, bin, []);
      ModSame(|data|);
      hide Layout, Le32, U32;
      SameHeader(data, data[..k]);
    }
  }

  lemma SameHeader(data: seq<byte>, part: seq<byte>)
    requires 12 <= |part| && part <= data
    ensures U32(part, 0) == U32(data, 0) && U32(part, 4) == U32(data, 4) && U32(part, 8) == U32(data, 8)
  {
    hide U32;
    SameWords(data, part, 0);
    SameWords(data, part, 4);
    SameWords(data, part, 8);
  }

  lemma SameWords(a: seq<byte>, b: seq<byte>, at: nat)
    requires at + 4 <= |a| && at + 4 <= |b|
    requires a[at] == b[at] && a[at + 1] == b[at + 1] && a[at + 2] == b[at + 2] && a[at + 3] == b[at + 3]
    ensures U32(a, at) == U32(b, at)
  {
  }

  /** The total length in the header is not used as a limit: bytes that follow a container without binary chunk
      are ignored only while they are too few for a chunk header. */
  lemma Trailing(json: seq<byte>, extra: seq<byte>)
    requires Fits(json, None)
    ensures Framed(Layout(json, None) + extra, Padded(json, 0x20), None) <==> |extra| < CHUNK_HEADER_SIZE
  {
    if |extra| < CHUNK_HEADER_SIZE {
      WrittenFramed(json, None, extra);
    } else {
      var data := Layout(json, None) + extra;
      WrittenJson(data, json, None, extra);
      ModSame(|Padded(json, 0x20)|);
      hide Le32, U32, Padded, Layout, Opened, Holds, Chunk;
    }
  }

  /** Every chunk starts and ends at a multiple of four. */
  lemma Aligned(json: seq<byte>, bin: Option<seq<byte>>)
    ensures |Layout(json, bin)| % 4 == 0
  {
    hide Le32, Padded;
  }
}
