/**
 * `bytes.decode("utf-8", errors="replace")`: well-formed UTF-8 sequences
 * become their scalar values, and each maximal ill-formed subpart becomes
 * one U+FFFD, as CPython's decoder does.
 */
module Utf8 {

  newtype byte = x: int | 0 <= x < 256

  const Replacement: char := '\U{FFFD}'

  /** The continuation bytes a lead byte announces; 0 for ASCII and for bytes that cannot start a sequence. */
  function ContinuationCount(lead: byte): nat {
    if 0xC2 <= lead <= 0xDF then 1
    else if 0xE0 <= lead <= 0xEF then 2
    else if 0xF0 <= lead <= 0xF4 then 3
    else 0
  }

  /** The second byte is narrowed for E0, ED, F0 and F4 so that overlong forms,
      surrogates and values above U+10FFFF are ill-formed. */
  function SecondLow(lead: byte): byte {
    if lead == 0xE0 then 0xA0 else if lead == 0xF0 then 0x90 else 0x80
  }

  function SecondHigh(lead: byte): byte {
    if lead == 0xED then 0x9F else if lead == 0xF4 then 0x8F else 0xBF
  }

  /** `b` is acceptable as continuation byte number `k` after `lead`. */
  predicate FitsAfter(lead: byte, k: nat, b: byte) {
    if k == 1 then SecondLow(lead) <= b <= SecondHigh(lead) else 0x80 <= b <= 0xBF
  }

  /** The longest run of acceptable continuation bytes after `b[0]`, at most `need` long, extending a run of `k`. */
  function Scan(b: seq<byte>, need: nat, k: nat): (n: nat)
    requires k <= need && k < |b|
    requires forall j :: 1 <= j <= k ==> FitsAfter(b[0], j, b[j])
    ensures k <= n <= need && n < |b|
    ensures forall j :: 1 <= j <= n ==> FitsAfter(b[0], j, b[j])
    ensures n < need && n + 1 < |b| ==> !FitsAfter(b[0], n + 1, b[n + 1])
    decreases need - k
  {
    if k < need && k + 1 < |b| && FitsAfter(b[0], k + 1, b[k + 1]) then Scan(b, need, k + 1) else k
  }

  /** Length of the valid prefix of the sequence `b[0]` starts. */
  function ValidContinuations(b: seq<byte>): (n: nat)
    requires |b| > 0
    ensures n <= ContinuationCount(b[0]) && n < |b|
  {
    Scan(b, ContinuationCount(b[0]), 0)
  }

  /** A complete, well-formed multi-byte sequence. */
  predicate WellFormedSequence(b: seq<byte>) {
    && |b| >= 2
    && ContinuationCount(b[0]) == |b| - 1
    && forall k :: 1 <= k < |b| ==> FitsAfter(b[0], k, b[k])
  }

  /** The scalar value a well-formed multi-byte sequence encodes. */
  function ScalarOf(b: seq<byte>): (cp: int)
    requires WellFormedSequence(b)
    ensures 0x80 <= cp < 0xD800 || 0xE000 <= cp < 0x110000
  {
    assert FitsAfter(b[0], 1, b[1]);
    if |b| == 2 then
      (b[0] as int - 0xC0) * 64 + (b[1] as int - 0x80)
    else if |b| == 3 then
      assert FitsAfter(b[0], 2, b[2]);
      (b[0] as int - 0xE0) * 4096 + (b[1] as int - 0x80) * 64 + (b[2] as int - 0x80)
    else
      assert FitsAfter(b[0], 2, b[2]) && FitsAfter(b[0], 3, b[3]);
      (b[0] as int - 0xF0) * 262144 + (b[1] as int - 0x80) * 4096 + (b[2] as int - 0x80) * 64 + (b[3] as int - 0x80)
  }

  /** `bytes.decode("utf-8", errors="replace")`. */
  function Decode(b: seq<byte>): (s: string)
    ensures |s| <= |b|
    decreases |b|
  {
    if |b| == 0 then []
    else if b[0] < 0x80 then [b[0] as int as char] + Decode(b[1..])
    else
      var n := ValidContinuations(b);
      if n == ContinuationCount(b[0]) && n > 0 then
        [ScalarOf(b[..n + 1]) as char] + Decode(b[n + 1..])
      else
        [Replacement] + Decode(b[n + 1..])
  }

  /** `str.encode("utf-8")` of one character. */
  function EncodeChar(c: char): (e: seq<byte>)
    ensures 1 <= |e| <= 4
  {
    var cp := c as int;
    if cp < 0x80 then [cp as byte]
    else if cp < 0x800 then [(0xC0 + cp / 64) as byte, (0x80 + cp % 64) as byte]
    else if cp < 0x10000 then
      [(0xE0 + cp / 4096) as byte, (0x80 + cp / 64 % 64) as byte, (0x80 + cp % 64) as byte]
    else
      [(0xF0 + cp / 262144) as byte, (0x80 + cp / 4096 % 64) as byte,
       (0x80 + cp / 64 % 64) as byte, (0x80 + cp % 64) as byte]
  }

  /** `str.encode("utf-8")`. */
  function Encode(s: string): seq<byte> {
    if s == [] then [] else EncodeChar(s[0]) + Encode(s[1..])
  }

  /** Decoding the encoding of one character, followed by anything, yields that character first. */
  lemma DecodeEncodeChar(c: char, rest: seq<byte>)
    ensures Decode(EncodeChar(c) + rest) == [c] + Decode(rest)
  {
    var e := EncodeChar(c);
    var b := e + rest;
    if c as int < 0x80 {
      assert b[1..] == rest;
    } else {
      EncodeCharWellFormed(c);
      var need := |e| - 1;
      assert forall k :: 1 <= k <= need ==> FitsAfter(b[0], k, b[k]) by {
        assert forall k :: 0 <= k < |e| ==> b[k] == e[k];
      }
      ScanAccepts(b, need, 0);
      assert b[..need + 1] == e;
      assert b[need + 1..] == rest;
    }
  }

  /** A character beyond ASCII encodes to a well-formed sequence that carries its scalar value. */
  lemma EncodeCharWellFormed(c: char)
    requires c as int >= 0x80
    ensures WellFormedSequence(EncodeChar(c))
    ensures ScalarOf(EncodeChar(c)) == c as int
  {
    var cp := c as int;
    if cp < 0x800 {
      TwoByteForm(cp);
    } else if cp < 0x10000 {
      ThreeByteForm(cp);
    } else {
      FourByteForm(cp);
    }
  }

  lemma TwoByteForm(cp: int)
    requires 0x80 <= cp < 0x800
    ensures 0xC2 <= 0xC0 + cp / 64 <= 0xDF
    ensures cp == (cp / 64) * 64 + cp % 64 && 0 <= cp % 64 < 64
  {
  }

  lemma ThreeByteForm(cp: int)
    requires 0x800 <= cp < 0x10000
    ensures 0xE0 <= 0xE0 + cp / 4096 <= 0xEF
    ensures cp == (cp / 4096) * 4096 + (cp / 64 % 64) * 64 + cp % 64
    ensures cp / 4096 == 0 ==> cp / 64 % 64 >= 0x20
    ensures cp / 4096 == 0xD && cp < 0xD800 ==> cp / 64 % 64 < 0x20
  {
  }

  lemma FourByteForm(cp: int)
    requires 0x10000 <= cp < 0x110000
    ensures 0xF0 <= 0xF0 + cp / 262144 <= 0xF4
    ensures cp == (cp / 262144) * 262144 + (cp / 4096 % 64) * 4096 + (cp / 64 % 64) * 64 + cp % 64
    ensures cp / 262144 == 0 ==> cp / 4096 % 64 >= 0x10
    ensures cp / 262144 == 4 ==> cp / 4096 % 64 < 0x10
  {
  }

  /** When every announced continuation byte is present and acceptable, the scan takes them all. */
  lemma {:induction false} ScanAccepts(b: seq<byte>, need: nat, k: nat)
    requires k <= need < |b|
    requires forall j :: 1 <= j <= need ==> FitsAfter(b[0], j, b[j])
    ensures Scan(b, need, k) == need
    decreases need - k
  {
    if k < need {
      ScanAccepts(b, need, k + 1);
    }
  }

  /** Decoding inverts encoding: a well-formed text survives the round trip. */
  lemma {:induction false} DecodeEncode(s: string)
    ensures Decode(Encode(s)) == s
  {
    if s != [] {
      DecodeEncodeChar(s[0], Encode(s[1..]));
      DecodeEncode(s[1..]);
    }
  }

  /** Decoding an encoded text followed by anything yields the text, then the rest decoded. */
  lemma {:induction false} DecodeEncodePrefix(s: string, rest: seq<byte>)
    ensures Decode(Encode(s) + rest) == s + Decode(rest)
  {
    if s == [] {
      assert Encode(s) + rest == rest;
    } else {
      assert Encode(s) + rest == EncodeChar(s[0]) + (Encode(s[1..]) + rest);
      DecodeEncodeChar(s[0], Encode(s[1..]) + rest);
      DecodeEncodePrefix(s[1..], rest);
      assert s + Decode(rest) == [s[0]] + (s[1..] + Decode(rest));
    }
  }

  /** A byte that cannot start a sequence (a stray continuation byte, C0, C1,
      or F5 to FF) becomes one U+FFFD on its own. */
  lemma InvalidLeadReplaced(x: byte, rest: seq<byte>)
    requires 0x80 <= x <= 0xC1 || 0xF5 <= x
    ensures Decode([x] + rest) == [Replacement] + Decode(rest)
  {
    assert ([x] + rest)[1..] == rest;
  }

  /** A lead byte followed by fewer acceptable continuation bytes than it
      announces, and then by the end of input or a byte that does not fit,
      is one maximal ill-formed subpart: it becomes a single U+FFFD and decoding
      resumes right after it. */
  lemma TruncatedReplaced(b: seq<byte>, rest: seq<byte>)
    requires |b| >= 1 && |b| <= ContinuationCount(b[0])
    requires forall j :: 1 <= j < |b| ==> FitsAfter(b[0], j, b[j])
    requires rest == [] || !FitsAfter(b[0], |b|, rest[0])
    ensures Decode(b + rest) == [Replacement] + Decode(rest)
  {
    var c := b + rest;
    var k := |b| - 1;
    assert forall j :: 1 <= j <= k ==> c[j] == b[j];
    assert k + 1 < |c| ==> c[k + 1] == rest[0];
    ScanStops(c, ContinuationCount(c[0]), 0, k);
    assert c[k + 1..] == rest;
  }

  /** The scan stops at the last acceptable continuation byte. */
  lemma {:induction false} ScanStops(b: seq<byte>, need: nat, j: nat, k: nat)
    requires j <= k < need && k < |b|
    requires forall i :: 1 <= i <= k ==> FitsAfter(b[0], i, b[i])
    requires k + 1 >= |b| || !FitsAfter(b[0], k + 1, b[k + 1])
    ensures Scan(b, need, j) == k
    decreases k - j
  {
    if j < k {
      ScanStops(b, need, j + 1, k);
    }
  }

  /** Inside otherwise well-formed text, a byte that cannot start a sequence is
      replaced by exactly one U+FFFD and the text around it is kept. */
  lemma InvalidByteInText(s1: string, x: byte, s2: string)
    requires 0x80 <= x <= 0xC1 || 0xF5 <= x
    ensures Decode(Encode(s1) + [x] + Encode(s2)) == s1 + [Replacement] + s2
  {
    InvalidLeadReplaced(x, Encode(s2));
    DecodeEncode(s2);
    DecodeBetween(s1, [x], Encode(s2));
  }

  /** Inside otherwise well-formed text, a multi-byte sequence cut short
      before the end of input or before an ASCII character is replaced by
      exactly one U+FFFD and the text around it is kept. */
  lemma TruncatedInText(s1: string, b: seq<byte>, s2: string)
    requires |b| >= 1 && |b| <= ContinuationCount(b[0])
    requires forall j :: 1 <= j < |b| ==> FitsAfter(b[0], j, b[j])
    requires s2 == [] || s2[0] as int < 0x80
    ensures Decode(Encode(s1) + b + Encode(s2)) == s1 + [Replacement] + s2
  {
    TruncatedBeforeText(b, s2);
    DecodeBetween(s1, b, Encode(s2));
  }

  /** Text encoded before `mid + tail` decodes to itself, followed by the rest. */
  lemma DecodeBetween(s1: string, mid: seq<byte>, tail: seq<byte>)
    ensures Decode(Encode(s1) + mid + tail) == s1 + Decode(mid + tail)
  {
    assert Encode(s1) + mid + tail == Encode(s1) + (mid + tail);
    DecodeEncodePrefix(s1, mid + tail);
  }

  lemma TruncatedBeforeText(b: seq<byte>, s2: string)
    requires |b| >= 1 && |b| <= ContinuationCount(b[0])
    requires forall j :: 1 <= j < |b| ==> FitsAfter(b[0], j, b[j])
    requires s2 == [] || s2[0] as int < 0x80
    ensures Decode(b + Encode(s2)) == [Replacement] + s2
  {
    AsciiFirstDoesNotFit(s2, b[0], |b|);
    TruncatedReplaced(b, Encode(s2));
    DecodeEncode(s2);
  }

  /** Text that starts with an ASCII character encodes to bytes that cannot continue a sequence. */
  lemma AsciiFirstDoesNotFit(s: string, lead: byte, k: nat)
    requires s == [] || s[0] as int < 0x80
    ensures Encode(s) == [] || !FitsAfter(lead, k, Encode(s)[0])
  {
    if s != [] {
      assert Encode(s)[0] == EncodeChar(s[0])[0];
    }
  }

  /** Instances: a cut-short euro sign, an overlong E0 form, and a stray FF. */
  lemma ReplacementExamples()
    ensures Decode([0xE2, 0x82]) == [Replacement]
    ensures Decode([0xE0, 0x80]) == [Replacement, Replacement]
    ensures Decode([0xFF, 0x41]) == [Replacement, 'A']
  {
    TruncatedInText([], [0xE2, 0x82], []);
    assert Encode([]) == [];
    assert [0xE2, 0x82] == Encode([]) + [0xE2, 0x82] + Encode([]);
    TruncatedReplaced([0xE0], [0x80]);
    InvalidLeadReplaced(0x80, []);
    InvalidLeadReplaced(0xFF, [0x41]);
    assert [0x41 as byte][1..] == [];
  }

  /** ASCII bytes decode to the characters with the same code. */
  lemma {:induction false} DecodeAscii(b: seq<byte>)
    requires forall i :: 0 <= i < |b| ==> b[i] < 0x80
    ensures |Decode(b)| == |b|
    ensures forall i :: 0 <= i < |b| ==> Decode(b)[i] as int == b[i] as int
  {
    if |b| > 0 {
      DecodeAscii(b[1..]);
    }
  }
}
