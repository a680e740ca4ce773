/**
 Signed integers as big-endian two's-complement bytes: the shortest form a big integer prints, its
 sign extension to a fixed width, and the number such a word stands for.
 */
module SignedWords {
  import opened ByteStrings

  /** The shortest two's-complement bytes of `n`. */
  function SignedBytes(n: int): (s: seq<Byte>)
    ensures |s| >= 1
    decreases if n < 0 then -n else n
  {
    if -128 <= n < 128 then [n % 256] else SignedBytes(n / 256) + [n % 256]
  }

  function Fill(b: Byte, n: nat): (s: seq<Byte>)
    ensures |s| == n && forall i :: 0 <= i < n ==> s[i] == b
  {
    seq(n, _ => b)
  }

  /** The shortest bytes copied to the end of a word filled with the sign. */
  function SignExtend(n: int, width: nat): (s: seq<Byte>)
    requires |SignedBytes(n)| <= width
    ensures |s| == width
  {
    Fill(if n < 0 then 0xff else 0, width - |SignedBytes(n)|) + SignedBytes(n)
  }

  /** The number a two's-complement word stands for. */
  function FromSignedBytes(s: seq<Byte>): int
    requires s != []
  {
    if s[0] >= 128 then ToNat(s) - Pow256(|s|) else ToNat(s)
  }

  lemma DivideByte(q: int, b: Byte)
    ensures (256 * q + b) / 256 == q && (256 * q + b) % 256 == b
    ensures 256 * q + b < 0 <==> q < 0
    ensures -128 <= 256 * q + b < 128 ==> q == if b >= 128 then -1 else 0
  {
  }

  /** A wider sign extension is a narrower one with the last byte behind it. */
  lemma SignExtendStep(q: int, b: Byte, width: nat)
    requires width >= 2
    ensures |SignedBytes(256 * q + b)| <= width <==> |SignedBytes(q)| <= width - 1
    ensures |SignedBytes(q)| <= width - 1 ==> SignExtend(256 * q + b, width) == SignExtend(q, width - 1) + [b]
  {
    var n := 256 * q + b;
    DivideByte(q, b);
    if -128 <= n < 128 {
      assert SignedBytes(n) == [b];
      assert SignedBytes(q) == [if q < 0 then 0xff else 0];
    } else {
      assert SignedBytes(n) == SignedBytes(q) + [b];
    }
  }

  lemma AppendByte(front: seq<Byte>, b: Byte)
    requires front != []
    ensures FromSignedBytes(front + [b]) == 256 * FromSignedBytes(front) + b
    ensures ToNat(front + [b]) == 256 * ToNat(front) + b
    ensures Pow256(|front + [b]|) == 256 * Pow256(|front|)
  {
    var s := front + [b];
    assert s[..|s| - 1] == front;
    assert s[0] == front[0];
  }

  lemma OneByte(b: Byte)
    ensures FromSignedBytes([b]) == if b >= 128 then b - 256 else b
    ensures ToNat([b]) == b && Pow256(1) == 256
  {
    var s := [b];
    assert s[..|s| - 1] == [];
    assert ToNat(s) == b;
    assert Pow256(|s|) == 256;
  }

  lemma {:induction false} FromSignExtended(n: int, width: nat)
    requires |SignedBytes(n)| <= width
    ensures FromSignedBytes(SignExtend(n, width)) == n
    ensures ToNat(SignExtend(n, width)) == if n < 0 then n + Pow256(width) else n
    decreases width
  {
    var q, b: Byte := n / 256, n % 256;
    if width == 1 {
      assert SignExtend(n, 1) == [b];
      OneByte(b);
    } else {
      SignExtendStep(q, b, width);
      FromSignExtended(q, width - 1);
      AppendByte(SignExtend(q, width - 1), b);
    }
  }

  /** Every word is the sign extension of the number it stands for. */
  lemma {:induction false} SignExtendFrom(s: seq<Byte>)
    requires s != []
    ensures |SignedBytes(FromSignedBytes(s))| <= |s|
    ensures SignExtend(FromSignedBytes(s), |s|) == s
  {
    var width := |s|;
    var front, b := s[..width - 1], s[width - 1];
    assert s == front + [b];
    if width == 1 {
      assert s == [b];
      OneByte(b);
      DivideByte(if b >= 128 then -1 else 0, b);
    } else {
      SignExtendFrom(front);
      AppendByte(front, b);
      SignExtendStep(FromSignedBytes(front), b, width);
    }
  }
}
