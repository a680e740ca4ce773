/** Well-formed UTF-8, by the byte ranges of Table 3-7 of the Unicode Standard. */
module Utf8 {
  import opened ByteStrings

  predicate Between(lo: int, b: Byte, hi: int) {
    lo <= b <= hi
  }

  predicate ValidUtf8(s: seq<Byte>) {
    if s == [] then true
    else if s[0] < 0x80 then ValidUtf8(s[1..])
    else if |s| >= 2 && Between(0xC2, s[0], 0xDF) then Between(0x80, s[1], 0xBF) && ValidUtf8(s[2..])
    else if |s| >= 3 && Between(0xE0, s[0], 0xEF) then
      && Between(if s[0] == 0xE0 then 0xA0 else 0x80, s[1], if s[0] == 0xED then 0x9F else 0xBF)
      && Between(0x80, s[2], 0xBF)
      && ValidUtf8(s[3..])
    else if |s| >= 4 && Between(0xF0, s[0], 0xF4) then
      && Between(if s[0] == 0xF0 then 0x90 else 0x80, s[1], if s[0] == 0xF4 then 0x8F else 0xBF)
      && Between(0x80, s[2], 0xBF)
      && Between(0x80, s[3], 0xBF)
      && ValidUtf8(s[4..])
    else false
  }

  // ---------- The texts it is the encoding of ----------

  /** A Unicode scalar value: a code point that is no surrogate. */
  predicate Scalar(c: nat) {
    c < 0xD800 || 0xE000 <= c <= 0x10FFFF
  }

  predicate Scalars(text: seq<nat>) {
    forall i | 0 <= i < |text| :: Scalar(text[i])
  }

  /** The bits of a scalar value, six in each byte that follows the first, by Table 3-6 of the Unicode Standard. */
  function EncodeScalar(c: nat): (s: seq<Byte>)
    requires Scalar(c)
    ensures s != []
  {
    if c < 0x80 then [c]
    else if c < 0x800 then [0xC0 + c / 64, 0x80 + c % 64]
    else if c < 0x1_0000 then [0xE0 + c / 4096, 0x80 + c / 64 % 64, 0x80 + c % 64]
    else [0xF0 + c / 262144, 0x80 + c / 4096 % 64, 0x80 + c / 64 % 64, 0x80 + c % 64]
  }

  function EncodeText(text: seq<nat>): seq<Byte>
    requires Scalars(text)
  {
    if text == [] then [] else EncodeScalar(text[0]) + EncodeText(text[1..])
  }

  lemma ValidAfterScalar(c: nat, rest: seq<Byte>)
    requires Scalar(c)
    ensures ValidUtf8(EncodeScalar(c) + rest) == ValidUtf8(rest)
  {
    var s := EncodeScalar(c) + rest;
    assert s[|EncodeScalar(c)|..] == rest;
  }

  lemma Sextets(high: nat, mid: nat, low: nat)
    requires mid < 64 && low < 64
    ensures var c := high * 4096 + mid * 64 + low;
            c / 4096 == high && c / 64 % 64 == mid && c % 64 == low && c / 262144 == high / 64
  {
  }

  lemma ThreeBytes(first: int, mid: int, low: int)
    requires 0xE0 <= first <= 0xEF && 0x80 <= mid <= 0xBF && 0x80 <= low <= 0xBF
    requires (first == 0xE0 ==> mid >= 0xA0) && (first == 0xED ==> mid <= 0x9F)
    ensures var c := (first - 0xE0) * 4096 + (mid - 0x80) * 64 + (low - 0x80);
            c >= 0 && Scalar(c) && EncodeScalar(c) == [first, mid, low]
  {
    Sextets(first - 0xE0, mid - 0x80, low - 0x80);
  }

  lemma FourBytes(first: int, high: int, mid: int, low: int)
    requires 0xF0 <= first <= 0xF4 && 0x80 <= high <= 0xBF && 0x80 <= mid <= 0xBF && 0x80 <= low <= 0xBF
    requires (first == 0xF0 ==> high >= 0x90) && (first == 0xF4 ==> high <= 0x8F)
    ensures var c := ((first - 0xF0) * 64 + (high - 0x80)) * 4096 + (mid - 0x80) * 64 + (low - 0x80);
            c >= 0 && Scalar(c) && EncodeScalar(c) == [first, high, mid, low]
  {
    Sextets((first - 0xF0) * 64 + (high - 0x80), mid - 0x80, low - 0x80);
  }

  /** The scalar value that valid bytes begin with. */
  lemma FirstScalar(s: seq<Byte>) returns (c: nat, rest: seq<Byte>)
    requires s != [] && ValidUtf8(s)
    ensures Scalar(c) && s == EncodeScalar(c) + rest && ValidUtf8(rest)
  {
    hide EncodeScalar;
    var first: int := s[0];
    if first < 0x80 {
      c, rest := first, s[1..];
      OneOrTwo(first, 0x80);
      assert s == [s[0]] + rest;
    } else if first <= 0xDF {
      var low: int := s[1];
      c, rest := (first - 0xC0) * 64 + (low - 0x80), s[2..];
      OneOrTwo(first, low);
      assert s == [s[0], s[1]] + rest;
    } else if first <= 0xEF {
      var mid: int, low: int := s[1], s[2];
      c, rest := (first - 0xE0) * 4096 + (mid - 0x80) * 64 + (low - 0x80), s[3..];
      ThreeBytes(first, mid, low);
      assert s == [s[0], s[1], s[2]] + rest;
    } else {
      var high: int, mid: int, low: int := s[1], s[2], s[3];
      c, rest := ((first - 0xF0) * 64 + (high - 0x80)) * 4096 + (mid - 0x80) * 64 + (low - 0x80), s[4..];
      FourBytes(first, high, mid, low);
      assert s == [s[0], s[1], s[2], s[3]] + rest;
    }
  }

  lemma OneOrTwo(first: int, low: int)
    ensures 0 <= first < 0x80 ==> EncodeScalar(first) == [first]
    ensures 0xC2 <= first <= 0xDF && 0x80 <= low <= 0xBF ==>
              var c := (first - 0xC0) * 64 + (low - 0x80);
              c >= 0 && Scalar(c) && EncodeScalar(c) == [first, low]
  {
  }

  lemma {:induction false} EncodedIsValid(text: seq<nat>)
    requires Scalars(text)
    ensures ValidUtf8(EncodeText(text))
  {
    if text != [] {
      EncodedIsValid(text[1..]);
      ValidAfterScalar(text[0], EncodeText(text[1..]));
    }
  }

  lemma {:induction false} ValidIsEncoded(s: seq<Byte>) returns (text: seq<nat>)
    requires ValidUtf8(s)
    ensures Scalars(text) && EncodeText(text) == s
  {
    text := [];
    if s != [] {
      var c, rest := FirstScalar(s);
      var more := ValidIsEncoded(rest);
      text := [c] + more;
      assert text[1..] == more;
    }
  }

  ghost predicate IsText(s: seq<Byte>) {
    exists text: seq<nat> :: Scalars(text) && EncodeText(text) == s
  }

  /** The valid byte strings are exactly the encodings of sequences of scalar values. */
  lemma ValidIsText(s: seq<Byte>)
    ensures ValidUtf8(s) <==> IsText(s)
  {
    if ValidUtf8(s) {
      var text := ValidIsEncoded(s);
    }
    if text: seq<nat> :| Scalars(text) && EncodeText(text) == s {
      EncodedIsValid(text);
    }
  }
}
