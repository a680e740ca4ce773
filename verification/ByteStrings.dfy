/** Bytes, big-endian numbers and slices of a buffer. */
module ByteStrings {
  type Byte = x: int | 0 <= x < 256

  /** The values a Rust `usize` or a Go `uint64` can hold are those below this bound. */
  const WORD64: nat := 0x1_0000_0000_0000_0000

  function Pow256(k: nat): (p: nat)
    ensures p >= 1
  {
    if k == 0 then 1 else 256 * Pow256(k - 1)
  }

  lemma Pow256At8()
    ensures Pow256(8) == WORD64
  {
    assert Pow256(4) == 0x1_0000_0000;
  }

  lemma Associate(x: int, y: int, z: int)
    ensures x * y * z == x * (y * z)
  {
  }

  lemma {:induction false} Pow256Monotone(a: nat, b: nat)
    requires a <= b
    ensures Pow256(a) <= Pow256(b)
  {
    if a < b {
      Pow256Monotone(a, b - 1);
    }
  }

  /** The number a big-endian byte string stands for. */
  function ToNat(s: seq<Byte>): nat {
    if s == [] then 0 else ToNat(s[..|s| - 1]) * 256 + s[|s| - 1]
  }

  /** The `k` low bytes of `n`, most significant first. */
  function FromNat(n: nat, k: nat): (s: seq<Byte>)
    ensures |s| == k
  {
    if k == 0 then [] else FromNat(n / 256, k - 1) + [n % 256]
  }

  lemma {:induction false} ToNatBound(s: seq<Byte>)
    ensures ToNat(s) < Pow256(|s|)
  {
    if s != [] {
      ToNatBound(s[..|s| - 1]);
    }
  }

  lemma {:induction false} ToNatFromNat(n: nat, k: nat)
    requires n < Pow256(k)
    ensures ToNat(FromNat(n, k)) == n
  {
    if k > 0 {
      var s := FromNat(n, k);
      assert s[..|s| - 1] == FromNat(n / 256, k - 1);
      ToNatFromNat(n / 256, k - 1);
    }
  }

  /** The 32-byte word of a number. */
  function Word32(n: nat): (w: seq<Byte>)
    ensures |w| == 32
    ensures n < WORD64 ==> ToNat(w) == n
  {
    var width := 32;
    Pow256At8();
    Pow256Monotone(8, width);
    if n < WORD64 then ToNatFromNat(n, width); FromNat(n, width) else FromNat(n, width)
  }

  lemma Word32Inverse(n: nat)
    requires n < Pow256(32)
    ensures ToNat(Word32(n)) == n
  {
    ToNatFromNat(n, 32);
  }

  lemma {:induction false} FromNatToNat(s: seq<Byte>)
    ensures FromNat(ToNat(s), |s|) == s
  {
    if s != [] {
      FromNatToNat(s[..|s| - 1]);
      assert ToNat(s) / 256 == ToNat(s[..|s| - 1]);
    }
  }

  /** `s` sits in `buf` at position `pos`. */
  predicate At(buf: seq<Byte>, pos: nat, s: seq<Byte>) {
    pos + |s| <= |buf| && buf[pos..pos + |s|] == s
  }

  lemma AtConcat(buf: seq<Byte>, pos: nat, a: seq<Byte>, b: seq<Byte>)
    ensures At(buf, pos, a + b) <==> At(buf, pos, a) && At(buf, pos + |a|, b)
  {
    if At(buf, pos, a + b) {
      assert buf[pos..pos + |a|] == buf[pos..pos + |a + b|][..|a|] == a;
      assert buf[pos + |a|..pos + |a| + |b|] == buf[pos..pos + |a + b|][|a|..] == b;
    }
    if At(buf, pos, a) && At(buf, pos + |a|, b) {
      assert buf[pos..pos + |a + b|] == buf[pos..pos + |a|] + buf[pos + |a|..pos + |a| + |b|];
    }
  }
}
