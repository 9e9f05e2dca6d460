// Decoding JSON string escapes in place (section 7 of RFC 8259, section 3 of
// RFC 3629).  A `char` stands for one byte of a C string.
module Unescape {
  import opened Bits
  import opened Counting
  import Jsmn

  // ---------- UTF-8 ----------

  function Byte(k: nat): (c: char)
    requires k < 256
    ensures c as int == k
  {
    k as char
  }

  /** A code point in UTF-8: section 3 of RFC 3629. */
  function Utf8(k: nat): (s: string)
    requires k < 0x110000
    ensures 1 <= |s| <= 4 && (k < 0x10000 ==> |s| <= 3)
  {
    if k <= 0x7f then [Byte(k)]
    else if k <= 0x7ff then [Byte(0xc0 + k / 64), Byte(0x80 + k % 64)]
    else if k <= 0xffff then [Byte(0xe0 + k / 4096), Byte(0x80 + k / 64 % 64), Byte(0x80 + k % 64)]
    else [Byte(0xf0 + k / 262144), Byte(0x80 + k / 4096 % 64), Byte(0x80 + k / 64 % 64), Byte(0x80 + k % 64)]
  }

  lemma {:induction false} OrDisjoint(i: nat, a: nat, b: nat)
    requires b < Pow2(i)
    ensures Or(Pow2(i) * a, b) == Pow2(i) * a + b
  {
    if i == 0 {
      OrZero(a);
    } else {
      hide Or, Pow2;
      DoublePow2(i, a, b);
      OrDisjoint(i - 1, a, b / 2);
      OrStep(Pow2(i - 1) * a, b);
    }
  }

  lemma DoublePow2(i: nat, a: nat, b: nat)
    requires i > 0 && b < Pow2(i)
    ensures Pow2(i) * a == 2 * (Pow2(i - 1) * a) && b / 2 < Pow2(i - 1)
  {
    var p := Pow2(i - 1);
    assert Pow2(i) == 2 * p;
  }

  lemma OrStep(x: nat, b: nat)
    ensures Or(2 * x, b) == 2 * Or(x, b / 2) + b % 2
  {
  }

  lemma {:induction false} AndLow(i: nat, a: nat)
    ensures And(a, Pow2(i) - 1) == a % Pow2(i)
  {
    if i == 0 {
    } else {
      AndLow(i - 1, a / 2);
      var p := Pow2(i - 1);
      assert (2 * p - 1) / 2 == p - 1;
      HalfMod(a, p);
    }
  }

  lemma HalfMod(a: nat, p: nat)
    requires p > 0
    ensures a % (2 * p) == 2 * (a / 2 % p) + a % 2
  {
    var h := a / 2;
    var q, r := h / p, h % p;
    assert a == (2 * p) * q + (2 * r + a % 2);
    ModUnique(a, 2 * p, q, 2 * r + a % 2);
  }

  lemma Masks(k: nat)
    ensures And(k, 0x3f) == k % 64 && And(k, 0xff) == k % 256
  {
    assert Pow2(4) == 16;
    assert Pow2(6) == 64;
    assert Pow2(8) == 256;
    AndLow(6, k);
    AndLow(8, k);
  }

  lemma Marks(b: nat)
    requires b < 64
    ensures Or(0x80, b) == 0x80 + b
    ensures b < 32 ==> Or(0xc0, b) == 0xc0 + b
    ensures b < 16 ==> Or(0xe0, b) == 0xe0 + b
  {
    assert Pow2(4) == 16;
    assert Pow2(5) == 32;
    assert Pow2(6) == 64;
    OrDisjoint(6, 2, b);
    if b < 32 { OrDisjoint(5, 6, b); }
    if b < 16 { OrDisjoint(4, 14, b); }
  }

  // ---------- what decoding means ----------

  /** Value of a hexadecimal digit, or -1. */
  function Unhex(c: char): (v: int)
    ensures -1 <= v < 16 && (v >= 0 <==> Jsmn.IsHex(c))
  {
    if '0' <= c <= '9' then c as int - '0' as int
    else if 'A' <= c <= 'F' then c as int - 'A' as int + 10
    else if 'a' <= c <= 'f' then c as int - 'a' as int + 10
    else -1
  }

  predicate AllHex(s: string) {
    forall i :: 0 <= i < |s| ==> Jsmn.IsHex(s[i])
  }

  /** Hexadecimal digits as a number. */
  function HexValue(s: string): (v: nat)
    requires AllHex(s)
  {
    if s == [] then 0 else HexValue(s[..|s| - 1]) * 16 + Unhex(s[|s| - 1])
  }

  lemma FourDigits(s: string)
    requires |s| == 4 && AllHex(s)
    ensures HexValue(s) == ((Unhex(s[0]) * 16 + Unhex(s[1])) * 16 + Unhex(s[2])) * 16 + Unhex(s[3])
    ensures HexValue(s) < 0x10000
  {
    hide Unhex;
    assert s[..3][..2] == s[..2] && s[..2][..1] == s[..1] && s[..1][..0] == [];
    assert HexValue(s[..1]) == Unhex(s[0]);
    assert HexValue(s[..2]) == HexValue(s[..1]) * 16 + Unhex(s[1]);
    assert HexValue(s[..3]) == HexValue(s[..2]) * 16 + Unhex(s[2]);
  }

  /** An escape sequence at the front that can be read without leaving the string. */
  predicate StartsEscape(s: string) {
    && |s| >= 2 && s[0] == '\\' && s[1] != '\0'
    && (s[1] == 'u' ==> |s| >= 6 && AllHex(s[2..6]))
  }

  function EscapeLength(s: string): nat
    requires StartsEscape(s)
  {
    if s[1] == 'u' then 6 else 2
  }

  /** One character for a short escape; nothing for a letter that is not one. */
  function Short(c: char): (t: string)
    ensures |t| <= 1 && (|t| == 1 <==> Jsmn.IsSimpleEscape(c))
  {
    if c == '\"' || c == '/' || c == '\\' then [c]
    else if c == 'b' then [Byte(8)]
    else if c == 'f' then [Byte(12)]
    else if c == 'r' then ['\r']
    else if c == 'n' then ['\n']
    else if c == 't' then ['\t']
    else ""
  }

  function EscapeValue(s: string): (t: string)
    requires StartsEscape(s)
    ensures |t| < EscapeLength(s)
  {
    if s[1] == 'u' then
      FourDigits(s[2..6]);
      Utf8(HexValue(s[2..6]))
    else Short(s[1])
  }

  /** A C string whose escape sequences are complete. */
  predicate Complete(s: string) {
    if s == [] then true
    else if s[0] == '\\' then StartsEscape(s) && Complete(s[EscapeLength(s)..])
    else s[0] != '\0' && Complete(s[1..])
  }

  function Decoded(s: string): (t: string)
    requires Complete(s)
    ensures |t| <= |s|
  {
    if s == [] then []
    else if s[0] == '\\' then EscapeValue(s) + Decoded(s[EscapeLength(s)..])
    else [s[0]] + Decoded(s[1..])
  }

  /** Neither an escape nor the terminator. */
  predicate Plain(s: string) {
    forall i :: 0 <= i < |s| ==> s[i] != '\\' && s[i] != '\0'
  }

  lemma PlainFirst(s: string)
    requires Complete(s) && s != [] && s[0] != '\\'
    ensures Complete(s[1..]) && Decoded(s) == [s[0]] + Decoded(s[1..])
  {
  }

  lemma {:induction false} PlainPrefix(s: string, k: nat)
    requires Complete(s) && k <= |s| && Plain(s[..k])
    ensures Complete(s[k..]) && Decoded(s) == s[..k] + Decoded(s[k..])
    decreases k
  {
    hide Complete, Decoded;
    if k == 0 {
      assert s[0..] == s;
    } else {
      assert s[..k][0] == s[0];
      PlainFirst(s);
      assert s[1..][..k - 1] == s[..k][1..];
      PlainPrefix(s[1..], k - 1);
      assert s[1..][k - 1..] == s[k..];
      assert s[..k] == [s[0]] + s[1..][..k - 1];
    }
  }

  // ---------- the decoder ----------

  /** Length of the run before the next backslash or the terminator: `strcspn(string + from, "\\")`. */
  method Span(buf: array<char>, from: nat, ghost n: nat) returns (len: nat)
    requires from <= n < buf.Length && buf[n] == '\0'
    ensures from + len <= n && Plain(buf[from..from + len])
    ensures buf[from + len] == '\\' || buf[from + len] == '\0'
  {
    len := 0;
    while buf[from + len] != '\\' && buf[from + len] != '\0'
      invariant from + len <= n
      invariant Plain(buf[from..from + len])
      decreases n - len
    {
      len := len + 1;
    }
  }

  /** `memmove` towards the front. */
  method MoveDown(buf: array<char>, write: nat, last: nat, count: nat)
    requires write <= last && last + count <= buf.Length
    modifies buf
    ensures Moved(old(buf[..]), buf[..], write, last, last + count)
  {
    hide Moved;
    ghost var was := buf[..];
    MoveNone(was, write, last);
    for read := last to last + count
      invariant Moved(was, buf[..], write, last, read)
    {
      MoveOne(was, buf[..], write, last, read);
      CopyOne(buf, write + (read - last), read);
    }
  }

  method CopyOne(buf: array<char>, to: nat, from: nat)
    requires to < buf.Length && from < buf.Length
    modifies buf
    ensures buf[..] == old(buf[..])[to := old(buf[..])[from]]
  {
    buf[to] := buf[from];
  }

  /** A run of characters has moved down. */
  ghost predicate Moved(buf: seq<char>, after: seq<char>, write: nat, last: nat, read: nat) {
    && write <= last <= read <= |buf|
    && after == buf[..write] + buf[last..read] + buf[write + (read - last)..]
  }

  lemma MoveNone(s: seq<char>, write: nat, last: nat)
    requires write <= last <= |s|
    ensures Moved(s, s, write, last, last)
  {
  }

  lemma MoveOne(was: seq<char>, s: seq<char>, write: nat, last: nat, read: nat)
    requires Moved(was, s, write, last, read) && read < |was|
    ensures |s| == |was| && s[read] == was[read]
    ensures Moved(was, s[write + (read - last) := s[read]], write, last, read + 1)
  {
  }

  /** `*write++ = c` */
  method Put(buf: array<char>, at: nat, c: char) returns (write: nat)
    requires at < buf.Length
    modifies buf
    ensures write == at + 1 && buf[..write] == old(buf[..at]) + [c] && buf[write..] == old(buf[write..])
  {
    ghost var was := buf[..];
    buf[at] := c;
    write := at + 1;
    assert buf[..] == was[at := c];
  }

  /** The short escapes; another letter writes nothing. */
  method PutShort(buf: array<char>, at: nat, c: char) returns (write: nat)
    requires at < buf.Length
    modifies buf
    ensures write == at + |Short(c)|
    ensures buf[..write] == old(buf[..at]) + Short(c) && buf[write..] == old(buf[write..])
  {
    write := at;
    if c == '\"' { write := Put(buf, write, '\"'); }
    else if c == '/' { write := Put(buf, write, '/'); }
    else if c == '\\' { write := Put(buf, write, '\\'); }
    else if c == 'b' { write := Put(buf, write, Byte(8)); }
    else if c == 'f' { write := Put(buf, write, Byte(12)); }
    else if c == 'r' { write := Put(buf, write, '\r'); }
    else if c == 'n' { write := Put(buf, write, '\n'); }
    else if c == 't' { write := Put(buf, write, '\t'); }
  }

  method PutTwo(buf: array<char>, at: nat, a: char, b: char) returns (write: nat)
    requires at + 2 <= buf.Length
    modifies buf
    ensures write == at + 2 && buf[..write] == old(buf[..at]) + [a, b] && buf[write..] == old(buf[write..])
  {
    ghost var before := buf[..at];
    write := Put(buf, at, a);
    write := Put(buf, write, b);
    assert buf[..write] == before + [a] + [b];
  }

  method PutThree(buf: array<char>, at: nat, a: char, b: char, c: char) returns (write: nat)
    requires at + 3 <= buf.Length
    modifies buf
    ensures write == at + 3 && buf[..write] == old(buf[..at]) + [a, b, c] && buf[write..] == old(buf[write..])
  {
    ghost var before := buf[..at];
    write := PutTwo(buf, at, a, b);
    write := Put(buf, write, c);
    assert buf[..write] == before + [a, b] + [c];
  }

  /** The bytes of a code point below 0x10000. */
  method PutUtf8(buf: array<char>, at: nat, character: nat) returns (write: nat)
    requires character < 0x10000 && at + 3 <= buf.Length
    modifies buf
    ensures write == at + |Utf8(character)|
    ensures buf[..write] == old(buf[..at]) + Utf8(character) && buf[write..] == old(buf[write..])
  {
    hide *;
    Masked(character);
    if character <= 0x7f {
      write := Put(buf, at, Cast(And(character, 0xff)));
    } else if character <= 0x7ff {
      write := PutTwo(buf, at, Cast(Or(0xc0, And(character / 64, 0xff))), Cast(Or(0x80, And(character, 0x3f))));
    } else {
      write := PutThree(buf, at, Cast(Or(0xe0, And(character / 4096, 0xff))),
                        Cast(Or(0x80, And(character / 64, 0x3f))), Cast(Or(0x80, And(character, 0x3f))));
    }
  }

  /** Conversion to `char` keeps the low eight bits. */
  function Cast(k: nat): char {
    Byte(k % 256)
  }

  lemma CastSmall(k: nat)
    requires k < 256
    ensures Cast(k) == Byte(k)
  {
  }

  lemma Masked(k: nat)
    requires k < 0x10000
    ensures if k <= 0x7f then Utf8(k) == [Cast(And(k, 0xff))]
      else if k <= 0x7ff then Utf8(k) == [Cast(Or(0xc0, And(k / 64, 0xff))), Cast(Or(0x80, And(k, 0x3f)))]
      else Utf8(k) == [Cast(Or(0xe0, And(k / 4096, 0xff))), Cast(Or(0x80, And(k / 64, 0x3f))),
                           Cast(Or(0x80, And(k, 0x3f)))]
  {
    hide And, Or, Cast, Byte;
    Lead(k);
    CastSmall(0x80 + k % 64);
    CastSmall(0x80 + k / 64 % 64);
    CastSmall(0xe0 + k / 4096);
    if k <= 0x7f { CastSmall(k); }
    if k <= 0x7ff { CastSmall(0xc0 + k / 64); }
  }

  lemma Continuation(k: nat)
    ensures Or(0x80, And(k, 0x3f)) == 0x80 + k % 64
    ensures k <= 0x7f ==> And(k, 0xff) == k
  {
    hide And, Or;
    Masks(k);
    Marks(k % 64);
  }

  lemma Marker(k: nat)
    ensures k < 32 ==> Or(0xc0, And(k, 0xff)) == 0xc0 + k
    ensures k < 16 ==> Or(0xe0, And(k, 0xff)) == 0xe0 + k
  {
    hide And, Or;
    Masks(k);
    if k < 32 { Marks(k); }
  }

  /** The bytes the code computes with masks are those of the standard. */
  lemma Lead(k: nat)
    requires k < 0x10000
    ensures k <= 0x7f ==> And(k, 0xff) == k
    ensures k <= 0x7ff ==> Or(0xc0, And(k / 64, 0xff)) == 0xc0 + k / 64
    ensures Or(0xe0, And(k / 4096, 0xff)) == 0xe0 + k / 4096
    ensures Or(0x80, And(k / 64, 0x3f)) == 0x80 + k / 64 % 64
    ensures Or(0x80, And(k, 0x3f)) == 0x80 + k % 64
  {
    hide And, Or;
    Continuation(k);
    Continuation(k / 64);
    Marker(k / 64);
    Marker(k / 4096);
  }

  /** Four hexadecimal digits. */
  method ReadHex(buf: array<char>, from: nat) returns (character: nat)
    requires from + 4 <= buf.Length && AllHex(buf[from..from + 4])
    ensures character == HexValue(buf[from..from + 4])
  {
    ghost var digits := buf[from..from + 4];
    character := 0;
    for i := 0 to 4
      invariant character == HexValue(digits[..i])
    {
      assert buf[from + i] == digits[i];
      assert digits[..i + 1][..i] == digits[..i];
      character := character * 16 + Unhex(buf[from + i]);
    }
    assert digits[..4] == digits;
  }

  /** One escape sequence: read at `at`, written at `to`, which is never behind it. */
  method PutEscape(buf: array<char>, at: nat, to: nat, ghost n: nat) returns (read: nat, write: nat)
    requires at < n < buf.Length && to <= at && StartsEscape(buf[at..n])
    modifies buf
    ensures read == at + EscapeLength(old(buf[at..n])) <= n && write <= read
    ensures buf[..write] == old(buf[..to]) + EscapeValue(old(buf[at..n]))
    ensures buf[read..] == old(buf[read..])
  {
    ghost var s := buf[at..n];
    var c := buf[at + 1];
    assert c == s[1];
    read := at + 2;
    if c == 'u' {
      assert forall i :: 0 <= i < 4 ==> s[2..6][i] == s[i + 2] == buf[at + (i + 2)];
      assert s[2..6] == buf[at + 2..at + 6];
      var character := ReadHex(buf, read);
      FourDigits(s[2..6]);
      read := read + 4;
      write := PutUtf8(buf, to, character);
    } else {
      write := PutShort(buf, to, c);
    }
    assert buf[read..] == buf[write..][read - write..];
  }

  /** What is left of a string after the run up to the next escape sequence or the end. */
  lemma RunDecoded(s: string, last: nat, read: nat)
    requires last <= read <= |s| && Complete(s[last..]) && Plain(s[last..read])
    ensures Complete(s[read..]) && Decoded(s[last..]) == s[last..read] + Decoded(s[read..])
    ensures read < |s| ==> s[read] != '\0'
  {
    var t := s[last..];
    assert t[..read - last] == s[last..read] && t[read - last..] == s[read..];
    PlainPrefix(t, read - last);
  }

  lemma EscapeDecoded(s: string, read: nat)
    requires read < |s| && s[read] == '\\' && Complete(s[read..])
    ensures StartsEscape(s[read..])
    ensures var next := read + EscapeLength(s[read..]);
      && next <= |s| && Complete(s[next..])
      && Decoded(s[read..]) == EscapeValue(s[read..]) + Decoded(s[next..])
  {
    hide EscapeValue;
    var t := s[read..];
    assert t[EscapeLength(t)..] == s[read + EscapeLength(t)..];
  }

  /** What is written so far, followed by what the rest means, is the result; the rest has not been overwritten. */
  ghost predicate Progress(buf: seq<char>, s: string, write: nat, rest: nat) {
    && write <= rest <= |s| < |buf| && buf[|s|] == '\0'
    && Complete(s) && Complete(s[rest..]) && buf[rest..|s|] == s[rest..]
    && buf[..write] + Decoded(s[rest..]) == Decoded(s)
  }

  lemma Unread(buf: seq<char>, s: string, write: nat, rest: nat)
    requires Progress(buf, s, write, rest)
    ensures write <= rest <= |s| < |buf| && buf[rest..|s|] == s[rest..]
  {
  }

  /** `read` is at the next escape sequence, or at the terminator. */
  predicate Stops(s: string, last: nat, read: nat) {
    last <= read <= |s| && Plain(s[last..read]) && (read < |s| ==> s[read] == '\\')
  }

  lemma MovedParts(buf: seq<char>, after: seq<char>, write: nat, last: nat, read: nat)
    requires Moved(buf, after, write, last, read)
    ensures |after| == |buf| && after[read..] == buf[read..]
    ensures after[..write + (read - last)] == buf[..write] + buf[last..read]
  {
  }

  /** A run that has not been overwritten. */
  lemma RunUnread(buf: seq<char>, s: string, last: nat, read: nat)
    requires last <= read <= |s| < |buf| && buf[last..|s|] == s[last..]
    ensures buf[last..read] == s[last..read] && (read < |s| ==> buf[read] == s[read])
  {
    assert s[last..] == s[last..|s|];
    forall k | last <= k < |s| ensures buf[k] == s[k] {
      assert buf[k] == buf[last..|s|][k - last] == s[last..][k - last];
    }
  }

  lemma RunCopied(buf: seq<char>, after: seq<char>, s: string, write: nat, last: nat, read: nat)
    requires Progress(buf, s, write, last) && Stops(s, last, read) && Moved(buf, after, write, last, read)
    ensures Progress(after, s, write + (read - last), read) && after[|s|..] == buf[|s|..]
  {
    hide Decoded, Complete, Moved, Plain;
    RunDecoded(s, last, read);
    MovedParts(buf, after, write, last, read);
    SameTail(buf, after, s, last, read);
    RunUnread(buf, s, last, read);
    Associate(buf[..write], s[last..read], Decoded(s[read..]));
  }

  lemma EscapeWritten(buf: seq<char>, after: seq<char>, s: string, to: nat, at: nat, write: nat, read: nat, v: string)
    requires Progress(buf, s, to, at) && |after| == |buf| && write <= read && at <= read <= |s|
    requires Complete(s[read..]) && Decoded(s[at..]) == v + Decoded(s[read..])
    requires after[..write] == buf[..to] + v && after[read..] == buf[read..]
    ensures Progress(after, s, write, read) && after[|s|..] == buf[|s|..]
  {
    hide Decoded, Complete;
    SameTail(buf, after, s, at, read);
    Associate(buf[..to], v, Decoded(s[read..]));
  }

  lemma SameTail(buf: seq<char>, after: seq<char>, s: string, at: nat, read: nat)
    requires at <= read <= |s| < |buf| == |after| && after[read..] == buf[read..] && buf[at..|s|] == s[at..]
    ensures after[read..|s|] == s[read..] && after[|s|..] == buf[|s|..] && after[|s|] == buf[|s|]
  {
    assert after[read..|s|] == after[read..][..|s| - read];
    assert buf[read..|s|] == buf[at..|s|][read - at..] == s[at..][read - at..] == s[read..];
    assert after[|s|..] == after[read..][|s| - read..];
    assert after[|s|] == after[|s|..][0] == buf[|s|..][0];
  }

  lemma SpanStops(buf: seq<char>, s: string, write: nat, last: nat, read: nat)
    requires Progress(buf, s, write, last) && last <= read <= |s| && Plain(buf[last..read])
    requires buf[read] == '\\' || buf[read] == '\0'
    ensures Stops(s, last, read)
  {
    hide Decoded, Complete, Plain;
    RunUnread(buf, s, last, read);
    RunDecoded(s, last, read);
  }

  lemma Untouched(buf: seq<char>, s: string)
    requires |s| < |buf| && buf[..|s|] == s && buf[|s|] == '\0' && Complete(s)
    ensures Progress(buf, s, 0, 0)
  {
    hide Complete, Decoded;
    assert s[0..] == s && buf[0..|s|] == s && buf[..0] == [];
  }

  /** The character at `read` tells whether the end is reached. */
  lemma StopKind(buf: seq<char>, s: string, write: nat, from: nat, last: nat, read: nat)
    requires Progress(buf, s, write, from) && from <= read && Stops(s, last, read)
    ensures if buf[read] == '\0' then read == |s| else read < |s| && s[read] == '\\'
  {
    hide Complete, Decoded;
    if read < |s| { assert buf[read] == buf[from..|s|][read - from] == s[from..][read - from]; }
  }

  lemma Finished(buf: seq<char>, s: string, write: nat)
    requires Progress(buf, s, write, |s|)
    ensures write <= |s| && buf[..write] == Decoded(s)
  {
    assert s[|s|..] == [];
    assert Decoded([]) == [];
  }

  lemma NoEscapes(buf: seq<char>, s: string)
    requires Progress(buf, s, 0, 0) && Stops(s, 0, |s|)
    ensures buf[..|s|] == s == Decoded(s)
  {
    RunDecoded(s, 0, |s|);
    assert s[0..] == s && s[0..|s|] == s && s[|s|..] == [] && buf[0..|s|] == buf[..|s|];
    assert Decoded([]) == [];
  }

  /** From `last` on to the next escape sequence or the end. */
  method NextStop(buf: array<char>, ghost s: string, ghost write: nat, last: nat) returns (read: nat)
    requires Progress(buf[..], s, write, last)
    ensures Stops(s, last, read)
  {
    hide Complete, Decoded, Plain;
    var run := Span(buf, last, |s|);
    read := last + run;
    SpanStops(buf[..], s, write, last, read);
  }

  /** One escape sequence, and on to the next one. */
  method NextRun(buf: array<char>, ghost s: string, to: nat, at: nat) returns (read: nat, write: nat, last: nat)
    requires Progress(buf[..], s, to, at) && at < |s| && s[at] == '\\'
    modifies buf
    ensures Progress(buf[..], s, write, last) && Stops(s, last, read) && at < last <= |s|
    ensures write <= last && buf[last..|s|] == s[last..]
    ensures buf[|s|..] == old(buf[|s|..])
  {
    ghost var before := buf[..];
    EscapeDecoded(s, at);
    assert buf[at..|s|] == s[at..];
    hide Complete, Decoded, StartsEscape, EscapeValue, EscapeLength, Plain, Stops, Progress;
    read, write := PutEscape(buf, at, to, |s|);
    last := read;
    EscapeWritten(before, buf[..], s, to, at, write, read, EscapeValue(s[at..]));
    read := NextStop(buf, s, write, read);
    Unread(buf[..], s, write, last);
  }

  /** Copy the characters since the last escape sequence. */
  method CopyRun(buf: array<char>, ghost s: string, to: nat, last: nat, read: nat) returns (write: nat, more: bool)
    requires Progress(buf[..], s, to, last) && Stops(s, last, read)
    modifies buf
    ensures Progress(buf[..], s, write, read) && buf[|s|..] == old(buf[|s|..])
    ensures write <= read && buf[read..|s|] == s[read..]
    ensures if more then read < |s| && s[read] == '\\' else read == |s|
  {
    hide Complete, Decoded, Plain;
    ghost var before := buf[..];
    MoveDown(buf, to, last, read - last);
    RunCopied(before, buf[..], s, to, last, read);
    write := to + (read - last);
    StopKind(buf[..], s, write, read, last, read);
    more := buf[read] != '\0';
    Unread(buf[..], s, write, read);
  }

  /** Decoding in place: the bytes before the terminator are replaced by what they mean, terminated again;
      nothing after the old terminator is touched. */
  method DecodeString(buf: array<char>, ghost n: nat) returns (len: nat)
    requires n < buf.Length && buf[n] == '\0' && Complete(buf[..n])
    modifies buf
    ensures len <= n && buf[..len] == Decoded(old(buf[..n])) && buf[len] == '\0'
    ensures buf[n + 1..] == old(buf[n + 1..])
  {
    ghost var s := buf[..n];
    hide Complete, Decoded, Plain, Progress, Stops;
    Untouched(buf[..], s);
    var read := NextStop(buf, s, 0, 0);
    if buf[read] == '\0' {
      StopKind(buf[..], s, 0, 0, 0, read);
      NoEscapes(buf[..], s);
      return read;
    }
    var write: nat, last: nat := 0, 0;
    while true
      invariant Progress(buf[..], s, write, last) && Stops(s, last, read)
      invariant buf[n..] == old(buf[n..])
      decreases n - last
    {
      var more;
      write, more := CopyRun(buf, s, write, last, read);
      if !more {
        break;
      }
      read, write, last := NextRun(buf, s, write, read);
    }
    Finished(buf[..], s, write);
    Terminate(buf, write, n);
    len := write;
  }

  method Terminate(buf: array<char>, write: nat, ghost n: nat)
    requires write <= n < buf.Length
    modifies buf
    ensures buf[..write] == old(buf[..write]) && buf[write] == '\0' && buf[n + 1..] == old(buf[n..])[1..]
  {
    buf[write] := '\0';
  }
}
