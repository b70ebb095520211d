/**
 UTF-8 as RFC 3629 defines it (sections 3 and 4), and the property that makes byte search safe:
 an occurrence of well-formed text inside well-formed text never cuts a code point in half.
 */
module Utf8 {
  import opened Text

  type Byte = b: int | 0 <= b < 0x100
  type Bytes = seq<Byte>
  type Scalar = c: int | 0 <= c < 0xD800 || 0xE000 <= c <= 0x10FFFF

  predicate IsTail(b: Byte) { 0x80 <= b <= 0xBF }

  /** Length of the character s starts with, by the syntax of section 4; 0 when it starts with none. */
  function CharLen(s: Bytes): (n: nat)
    ensures n <= |s| && n <= 4
  {
    if |s| == 0 then 0
    else if s[0] <= 0x7F then 1
    else if |s| >= 2 && 0xC2 <= s[0] <= 0xDF && IsTail(s[1]) then 2
    else if |s| >= 3 && SecondOfThree(s[0], s[1]) && IsTail(s[2]) then 3
    else if |s| >= 4 && SecondOfFour(s[0], s[1]) && IsTail(s[2]) && IsTail(s[3]) then 4
    else 0
  }

  predicate SecondOfThree(a: Byte, b: Byte) {
    (a == 0xE0 && 0xA0 <= b <= 0xBF) || (0xE1 <= a <= 0xEC && IsTail(b)) ||
    (a == 0xED && 0x80 <= b <= 0x9F) || (0xEE <= a <= 0xEF && IsTail(b))
  }

  predicate SecondOfFour(a: Byte, b: Byte) {
    (a == 0xF0 && 0x90 <= b <= 0xBF) || (0xF1 <= a <= 0xF3 && IsTail(b)) || (a == 0xF4 && 0x80 <= b <= 0x8F)
  }

  predicate WellFormed(s: Bytes) {
    s == [] || (CharLen(s) > 0 && WellFormed(s[CharLen(s)..]))
  }

  /** The code point of the character s starts with, by the bit layout of section 3. */
  function DecodeChar(s: Bytes): Scalar
    requires CharLen(s) > 0
  {
    match CharLen(s)
    case 1 => s[0]
    case 2 => Bits2(s[0] as int - 0xC0, s[1] as int - 0x80)
    case 3 => Bits3(s[0] as int - 0xE0, s[1] as int - 0x80, s[2] as int - 0x80)
    case _ => Bits4(s[0] as int - 0xF0, s[1] as int - 0x80, s[2] as int - 0x80, s[3] as int - 0x80)
  }

  function Bits2(a: int, b: int): int { a * 0x40 + b }

  function Bits3(a: int, b: int, c: int): int { Bits2(a, b) * 0x40 + c }

  function Bits4(a: int, b: int, c: int, d: int): int { Bits3(a, b, c) * 0x40 + d }

  function Decode(s: Bytes): seq<Scalar>
    requires WellFormed(s)
  {
    if s == [] then [] else [DecodeChar(s)] + Decode(s[CharLen(s)..])
  }

  function EncodeChar(c: Scalar): (s: Bytes)
    ensures 1 <= |s| <= 4
  {
    if c < 0x80 then [c]
    else if c < 0x800 then [0xC0 + c / 0x40, 0x80 + c % 0x40]
    else if c < 0x10000 then [0xE0 + c / 0x1000, 0x80 + c / 0x40 % 0x40, 0x80 + c % 0x40]
    else [0xF0 + c / 0x40000, 0x80 + c / 0x1000 % 0x40, 0x80 + c / 0x40 % 0x40, 0x80 + c % 0x40]
  }

  function Encode(cs: seq<Scalar>): Bytes {
    if cs == [] then [] else EncodeChar(cs[0]) + Encode(cs[1..])
  }

  // ---------- encoding and decoding are inverse ----------

  /** The first character of s depends on its own bytes only. */
  lemma CharLenPrefix(s: Bytes, t: Bytes)
    requires CharLen(s) > 0 && |t| >= CharLen(s) && t[..CharLen(s)] == s[..CharLen(s)]
    ensures CharLen(t) == CharLen(s) && DecodeChar(t) == DecodeChar(s)
  {
    var n := CharLen(s);
    assert forall k :: 0 <= k < n ==> s[k] == s[..n][k] == t[..n][k] == t[k];
  }

  lemma QuotientsOfQuotients(c: nat)
    ensures c / 0x1000 == c / 0x40 / 0x40 && c / 0x40000 == c / 0x40 / 0x40 / 0x40
  {
  }

  lemma EncodeCharDecodes(c: Scalar)
    ensures CharLen(EncodeChar(c)) == |EncodeChar(c)| && DecodeChar(EncodeChar(c)) == c
  {
    QuotientsOfQuotients(c);
  }

  lemma SixBits(a: nat, b: nat)
    requires b < 0x40
    ensures (a * 0x40 + b) / 0x40 == a && (a * 0x40 + b) % 0x40 == b
  {
  }

  lemma DecodeCharEncodes(s: Bytes)
    requires CharLen(s) > 0
    ensures EncodeChar(DecodeChar(s)) == s[..CharLen(s)]
  {
    if CharLen(s) == 2 {
      SixBits(s[0] as int - 0xC0, s[1] as int - 0x80);
    } else if CharLen(s) == 3 {
      DecodeThreeEncodes(s);
    } else if CharLen(s) == 4 {
      DecodeFourEncodes(s);
    }
  }

  lemma DecodeThreeEncodes(s: Bytes)
    requires CharLen(s) == 3
    ensures EncodeChar(DecodeChar(s)) == s[..3]
  {
    var a, b, c := s[0] as int - 0xE0, s[1] as int - 0x80, s[2] as int - 0x80;
    var v := Bits3(a, b, c);
    EncodeBits3(a, b, c);
    assert 0x800 <= v < 0x10000;
    hide Bits3;
    assert EncodeChar(v) == [s[0], s[1], s[2]];
  }

  lemma DecodeFourEncodes(s: Bytes)
    requires CharLen(s) == 4
    ensures EncodeChar(DecodeChar(s)) == s[..4]
  {
    var a, b, c, d := s[0] as int - 0xF0, s[1] as int - 0x80, s[2] as int - 0x80, s[3] as int - 0x80;
    var v := Bits4(a, b, c, d);
    EncodeBits4(a, b, c, d);
    assert 0x10000 <= v < 0x110000;
    hide Bits4;
    assert EncodeChar(v) == [s[0], s[1], s[2], s[3]];
  }

  lemma EncodeBits3(a: nat, b: nat, c: nat)
    requires b < 0x40 && c < 0x40
    ensures var v := Bits3(a, b, c);
            v / 0x1000 == a && v / 0x40 % 0x40 == b && v % 0x40 == c
  {
  }

  lemma EncodeBits4(a: nat, b: nat, c: nat, d: nat)
    requires b < 0x40 && c < 0x40 && d < 0x40
    ensures var v := Bits4(a, b, c, d);
            v / 0x40000 == a && v / 0x1000 % 0x40 == b && v / 0x40 % 0x40 == c && v % 0x40 == d
  {
    QuotientsOfQuotients(Bits4(a, b, c, d));
    EncodeBits3(a, b, c);
    QuotientsOfQuotients(Bits3(a, b, c));
    SixBits(Bits3(a, b, c), d);
  }

  lemma EncodeCons(c: Scalar, cs: seq<Scalar>)
    ensures Encode([c] + cs) == EncodeChar(c) + Encode(cs)
  {
  }

  lemma {:induction false} DecodeEncode(cs: seq<Scalar>)
    ensures WellFormed(Encode(cs)) && Decode(Encode(cs)) == cs
    decreases |cs|
  {
    if cs != [] {
      var head, tail := EncodeChar(cs[0]), Encode(cs[1..]);
      DecodeEncode(cs[1..]);
      EncodeCharDecodes(cs[0]);
      assert (head + tail)[..|head|] == head[..|head|] && (head + tail)[|head|..] == tail;
      CharLenPrefix(head, head + tail);
    }
  }

  lemma DecodeStep(s: Bytes) returns (n: nat)
    requires WellFormed(s) && s != []
    ensures n == CharLen(s) && 0 < n <= |s| && WellFormed(s[n..])
    ensures Decode(s) == [DecodeChar(s)] + Decode(s[n..])
  {
    n := CharLen(s);
  }

  lemma {:induction false} EncodeDecode(s: Bytes)
    requires WellFormed(s)
    ensures Encode(Decode(s)) == s
    decreases |s|
  {
    if s != [] {
      hide WellFormed, Decode, Encode, EncodeChar, DecodeChar, CharLen;
      var n := DecodeStep(s);
      EncodeDecode(s[n..]);
      DecodeCharEncodes(s);
      EncodeCons(DecodeChar(s), Decode(s[n..]));
      CutInTwo(s, n);
    }
  }

  // ---------- boundaries ----------

  /** Behind well-formed text, well-formedness and decoding go on independently. */
  lemma {:induction false} WellFormedConcat(a: Bytes, b: Bytes)
    requires WellFormed(a)
    ensures WellFormed(a + b) <==> WellFormed(b)
    ensures WellFormed(b) ==> Decode(a + b) == Decode(a) + Decode(b)
    decreases |a|
  {
    if a == [] {
      assert a + b == b;
    } else {
      var n := CharLen(a);
      assert (a + b)[..n] == a[..n] && (a + b)[n..] == a[n..] + b;
      CharLenPrefix(a, a + b);
      WellFormedConcat(a[n..], b);
    }
  }

  /** A position of text with a whole number of characters before it. */
  predicate Boundary(text: Bytes, i: nat)
    requires i <= |text|
  {
    WellFormed(text[..i])
  }

  lemma BoundarySplits(text: Bytes, i: nat)
    requires WellFormed(text) && i <= |text| && Boundary(text, i)
    ensures WellFormed(text[i..]) && Decode(text) == Decode(text[..i]) + Decode(text[i..])
  {
    assert text == text[..i] + text[i..];
    WellFormedConcat(text[..i], text[i..]);
  }

  lemma StartsWithLead(s: Bytes)
    requires WellFormed(s) && s != []
    ensures !IsTail(s[0])
  {
  }

  /** Self-synchronisation: one byte tells whether a position is a boundary. */
  lemma {:induction false} BoundaryByByte(text: Bytes, i: nat)
    requires WellFormed(text) && i <= |text|
    ensures Boundary(text, i) <==> i == |text| || text[i] < 0x80 || text[i] >= 0xC0
    decreases |text|
  {
    if i == |text| {
      assert text[..i] == text;
    } else if i > 0 {
      var n := CharLen(text);
      if i < n {
        assert IsTail(text[i]) && text[i..][0] == text[i];
        if Boundary(text, i) {
          BoundarySplits(text, i);
          StartsWithLead(text[i..]);
        }
      } else {
        BoundaryByByte(text[n..], i - n);
        assert text[n..][..i - n] == text[..i][n..];
        assert text[..i][..n] == text[..n];
        CharLenPrefix(text, text[..i]);
      }
    }
  }

  /** An occurrence in well-formed text lies on boundaries at both ends exactly when the text sought is well-formed. */
  lemma OccurrenceOnBoundaries(text: Bytes, sub: Bytes, i: nat)
    requires WellFormed(text) && sub != [] && OccursAt(text, sub, i)
    ensures WellFormed(sub) <==> Boundary(text, i) && Boundary(text, i + |sub|)
  {
    var j := i + |sub|;
    if WellFormed(sub) {
      StartsWithLead(sub);
      assert text[i] == sub[0];
      BoundaryByByte(text, i);
      EndOfOccurrence(text, sub, i);
    } else if Boundary(text, i) && Boundary(text, j) {
      hide WellFormed;
      var _ := OccurrenceCuts(text, sub, i);
      WellFormedConcat(text[..i], sub);
    }
  }

  lemma EndOfOccurrence(text: Bytes, sub: Bytes, i: nat)
    requires WellFormed(text) && WellFormed(sub) && OccursAt(text, sub, i) && Boundary(text, i)
    ensures Boundary(text, i + |sub|) && WellFormed(text[i + |sub|..])
    ensures Decode(text) == Decode(text[..i]) + (Decode(sub) + Decode(text[i + |sub|..]))
  {
    hide WellFormed, Decode, OccursAt;
    var j := OccurrenceCuts(text, sub, i);
    WellFormedConcat(text[..i], sub);
    BoundarySplits(text, i);
    WellFormedConcat(sub, text[j..]);
  }

  lemma OccurrenceCuts(text: Bytes, sub: Bytes, i: nat) returns (j: nat)
    requires OccursAt(text, sub, i)
    ensures j == i + |sub| <= |text| && text[..j] == text[..i] + sub && text[i..] == sub + text[j..]
  {
    j := i + |sub|;
  }

  /** So decoding such a range gives the code points of the text sought, and the rest decodes around it. */
  lemma OccurrenceDecodes(text: Bytes, sub: Bytes, i: nat, j: nat)
    requires WellFormed(text) && WellFormed(sub) && OccursAt(text, sub, i) && j == i + |sub|
    requires sub == [] ==> Boundary(text, i)
    ensures j <= |text| && Boundary(text, i) && Boundary(text, j)
    ensures text[i..j] == sub && WellFormed(text[j..])
    ensures Decode(text) == Decode(text[..i]) + (Decode(sub) + Decode(text[j..]))
  {
    hide WellFormed, Decode;
    if sub != [] {
      OccurrenceOnBoundaries(text, sub, i);
    }
    EndOfOccurrence(text, sub, i);
  }
}
