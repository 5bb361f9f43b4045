/** Well-formed UTF-8, by the grammar of section 4 of RFC 3629. The listener
    accepts an exchange tag only when Rust's str::from_utf8 does. */
module Utf8 {
  import opened BigEndian

  predicate Tail(b: Byte) { 0x80 <= b <= 0xBF }

  /** The length of the well-formed character s starts with, 0 if there is none. */
  function CharLength(s: seq<Byte>): (n: nat)
    ensures n <= |s| && n <= 4
  {
    if |s| >= 1 && s[0] <= 0x7F then 1
    else if |s| >= 2 && 0xC2 <= s[0] <= 0xDF && Tail(s[1]) then 2
    else if |s| >= 3 && SecondOfThree(s[0], s[1]) && Tail(s[2]) then 3
    else if |s| >= 4 && SecondOfFour(s[0], s[1]) && Tail(s[2]) && Tail(s[3]) then 4
    else 0
  }

  predicate SecondOfThree(a: Byte, b: Byte) {
    || (a == 0xE0 && 0xA0 <= b <= 0xBF)
    || (0xE1 <= a <= 0xEC && Tail(b))
    || (a == 0xED && 0x80 <= b <= 0x9F)
    || (0xEE <= a <= 0xEF && Tail(b))
  }

  predicate SecondOfFour(a: Byte, b: Byte) {
    || (a == 0xF0 && 0x90 <= b <= 0xBF)
    || (0xF1 <= a <= 0xF3 && Tail(b))
    || (a == 0xF4 && 0x80 <= b <= 0x8F)
  }

  predicate Valid(s: seq<Byte>)
    decreases |s|
  {
    s == [] || (CharLength(s) > 0 && Valid(s[CharLength(s)..]))
  }

  predicate Ascii(s: seq<Byte>) {
    forall i :: 0 <= i < |s| ==> s[i] <= 0x7F
  }

  lemma {:induction false} AsciiValid(s: seq<Byte>)
    requires Ascii(s)
    ensures Valid(s)
  {
    if s != [] { AsciiValid(s[1..]); }
  }

  lemma {:induction false} AsciiThen(a: seq<Byte>, s: seq<Byte>)
    requires Ascii(a)
    ensures Valid(a + s) <==> Valid(s)
  {
    if a == [] {
      assert a + s == s;
    } else {
      AsciiThen(a[1..], s);
      assert (a + s)[1..] == a[1..] + s;
    }
  }

  // ---------- what the grammar describes ----------

  /** The code points that have an encoding: all but the surrogates. */
  predicate Scalar(c: nat) { c < 0xD800 || 0xE000 <= c <= 0x10FFFF }

  /** The encoding of section 3 of RFC 3629. */
  function Encode(c: nat): (s: seq<Byte>)
    requires Scalar(c)
    ensures 1 <= |s| <= 4
  {
    var q1 := c / 0x40;
    var q2 := q1 / 0x40;
    if c < 0x80 then [c]
    else if c < 0x800 then [0xC0 + q1, 0x80 + c % 0x40]
    else if c < 0x10000 then [0xE0 + q2, 0x80 + q1 % 0x40, 0x80 + c % 0x40]
    else [0xF0 + q2 / 0x40, 0x80 + q2 % 0x40, 0x80 + q1 % 0x40, 0x80 + c % 0x40]
  }

  /** What a byte carries besides its mark. */
  function Bits(b: Byte, mark: nat): (v: nat)
    requires b >= mark
  {
    b as int - mark
  }

  function Decode(s: seq<Byte>): (c: nat)
    requires CharLength(s) > 0
  {
    match CharLength(s)
    case 1 => s[0]
    case 2 => 0x40 * Bits(s[0], 0xC0) + Bits(s[1], 0x80)
    case 3 => 0x40 * (0x40 * Bits(s[0], 0xE0) + Bits(s[1], 0x80)) + Bits(s[2], 0x80)
    case _ => 0x40 * (0x40 * (0x40 * Bits(s[0], 0xF0) + Bits(s[1], 0x80)) + Bits(s[2], 0x80)) + Bits(s[3], 0x80)
  }

  lemma Split64(q: nat, r: nat)
    requires r < 0x40
    ensures (0x40 * q + r) / 0x40 == q && (0x40 * q + r) % 0x40 == r
  {
  }

  lemma TwoBytes(w: nat, x: nat)
    requires 2 <= w < 0x20 && x < 0x40
    ensures var c := 0x40 * w + x; Scalar(c) && Encode(c) == [0xC0 + w, 0x80 + x]
  {
    Split64(w, x);
  }

  lemma ThreeBytes(w: nat, x: nat, y: nat)
    requires w < 0x10 && x < 0x40 && y < 0x40 && SecondOfThree(0xE0 + w, 0x80 + x)
    ensures var c := 0x40 * (0x40 * w + x) + y; Scalar(c) && Encode(c) == [0xE0 + w, 0x80 + x, 0x80 + y]
  {
    Split64(0x40 * w + x, y);
    Split64(w, x);
  }

  lemma FourBytes(w: nat, x: nat, y: nat, z: nat)
    requires w < 5 && x < 0x40 && y < 0x40 && z < 0x40 && SecondOfFour(0xF0 + w, 0x80 + x)
    ensures var c := 0x40 * (0x40 * (0x40 * w + x) + y) + z;
      Scalar(c) && Encode(c) == [0xF0 + w, 0x80 + x, 0x80 + y, 0x80 + z]
  {
    Split64(0x40 * (0x40 * w + x) + y, z);
    Split64(0x40 * w + x, y);
    Split64(w, x);
  }

  lemma CharIsEncoded(s: seq<Byte>)
    requires CharLength(s) > 0
    ensures Scalar(Decode(s)) && Encode(Decode(s)) == s[..CharLength(s)]
  {
    hide Encode;
    match CharLength(s) {
      case 1 => OneByte(s[0]);
      case 2 =>
        TwoBytes(Bits(s[0], 0xC0), Bits(s[1], 0x80));
        assert s[..2] == [s[0], s[1]];
      case 3 =>
        ThreeBytes(Bits(s[0], 0xE0), Bits(s[1], 0x80), Bits(s[2], 0x80));
        assert s[..3] == [s[0], s[1], s[2]];
      case _ =>
        FourBytes(Bits(s[0], 0xF0), Bits(s[1], 0x80), Bits(s[2], 0x80), Bits(s[3], 0x80));
        assert s[..4] == [s[0], s[1], s[2], s[3]];
    }
  }

  lemma OneByte(b: Byte)
    requires b < 0x80
    ensures Scalar(b) && Encode(b) == [b]
  {
  }

  lemma EncodedIsChar(c: nat, s: seq<Byte>)
    requires Scalar(c) && Encode(c) <= s
    ensures CharLength(s) == |Encode(c)|
  {
    var e := Encode(c);
    assert forall i :: 0 <= i < |e| ==> s[i] == e[i];
  }

  /** The grammar recognises exactly the encodings: s begins with a character of n bytes if
      and only if it begins with the n bytes of some code point's encoding. */
  lemma CharLengthMeaning(s: seq<Byte>, n: nat)
    requires n > 0
    ensures CharLength(s) == n <==> exists c :: Scalar(c) && Encode(c) <= s && |Encode(c)| == n
  {
    hide Encode, Scalar;
    if CharLength(s) == n {
      CharIsEncoded(s);
    }
    if c :| Scalar(c) && Encode(c) <= s && |Encode(c)| == n {
      EncodedIsChar(c, s);
    }
  }

  predicate AllScalar(cs: seq<nat>) {
    forall i :: 0 <= i < |cs| ==> Scalar(cs[i])
  }

  function EncodeAll(cs: seq<nat>): (s: seq<Byte>)
    requires AllScalar(cs)
  {
    if cs == [] then [] else Encode(cs[0]) + EncodeAll(cs[1..])
  }

  lemma EncodeAllNext(c: nat, cs: seq<nat>)
    requires Scalar(c) && AllScalar(cs)
    ensures AllScalar([c] + cs) && EncodeAll([c] + cs) == Encode(c) + EncodeAll(cs)
  {
    assert ([c] + cs)[1..] == cs;
  }

  /** And a byte string is well-formed if and only if it encodes a text. */
  lemma ValidMeaning(s: seq<Byte>)
    ensures Valid(s) <==> exists cs :: AllScalar(cs) && EncodeAll(cs) == s
  {
    if Valid(s) { var cs := Decoded(s); }
    if cs :| AllScalar(cs) && EncodeAll(cs) == s { EncodedIsValid(cs); }
  }

  lemma {:induction false} Decoded(s: seq<Byte>) returns (cs: seq<nat>)
    requires Valid(s)
    ensures AllScalar(cs) && EncodeAll(cs) == s
    decreases |s|
  {
    hide EncodeAll, AllScalar, CharLength, Decode;
    if s == [] {
      cs := [];
      NothingEncoded();
    } else {
      var rest := Decoded(s[CharLength(s)..]);
      OneMoreDecoded(s, rest);
      cs := [Decode(s)] + rest;
    }
  }

  lemma NothingEncoded()
    ensures AllScalar([]) && EncodeAll([]) == []
  {
  }

  lemma OneMoreDecoded(s: seq<Byte>, rest: seq<nat>)
    requires CharLength(s) > 0 && AllScalar(rest) && EncodeAll(rest) == s[CharLength(s)..]
    ensures AllScalar([Decode(s)] + rest) && EncodeAll([Decode(s)] + rest) == s
  {
    hide Encode, EncodeAll, Scalar, AllScalar, CharLength, Decode;
    CharIsEncoded(s);
    EncodeAllNext(Decode(s), rest);
    assert s == s[..CharLength(s)] + s[CharLength(s)..];
  }

  lemma {:induction false} EncodedIsValid(cs: seq<nat>)
    requires AllScalar(cs)
    ensures Valid(EncodeAll(cs))
  {
    if cs != [] {
      hide Encode, Scalar, CharLength;
      var s := EncodeAll(cs);
      EncodedIsValid(cs[1..]);
      EncodedIsChar(cs[0], s);
      assert s[|Encode(cs[0])|..] == EncodeAll(cs[1..]);
    }
  }
}
