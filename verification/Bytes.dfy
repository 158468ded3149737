/** Bytes, fixed-width words and the few sequence facts every codec below shares. */
module Bytes {

  datatype Option<+T> = None | Some(value: T)

  type byte = b: int | 0 <= b < 256 witness 0
  type bytes = seq<byte>
  type uint16 = x: int | 0 <= x < 0x1_0000 witness 0
  type uint32 = x: int | 0 <= x < 0x1_0000_0000 witness 0
  type uint64 = x: int | 0 <= x < 0x1_0000_0000_0000_0000 witness 0

  const TWO32: int := 0x1_0000_0000
  const TWO64: int := 0x1_0000_0000_0000_0000

  function Pow256(k: nat): (p: nat)
    ensures p > 0
  {
    if k == 0 then 1 else 256 * Pow256(k - 1)
  }

  lemma Pow256Is()
    ensures Pow256(1) == 256 && Pow256(2) == 0x1_0000 && Pow256(4) == TWO32 && Pow256(8) == TWO64
  {
    assert Pow256(3) == 0x100_0000 && Pow256(5) == 0x100_0000_0000;
    assert Pow256(6) == 0x1_0000_0000_0000 && Pow256(7) == 0x100_0000_0000_0000;
  }

  /** The number a little-endian run of bytes spells. */
  function Value(w: bytes): (v: nat)
    ensures v < Pow256(|w|)
  {
    if w == [] then 0 else w[0] + 256 * Value(w[1..])
  }

  /** The `k` low-order base-256 digits of `n`, least significant first. */
  function Digits(n: nat, k: nat): (r: bytes)
    ensures |r| == k
  {
    if k == 0 then [] else [n % 256] + Digits(n / 256, k - 1)
  }

  lemma {:induction false} ValueDigits(n: nat, k: nat)
    ensures n < Pow256(k) ==> Value(Digits(n, k)) == n
  {
    if k > 0 {
      ValueDigits(n / 256, k - 1);
      assert Digits(n, k)[1..] == Digits(n / 256, k - 1);
    }
  }

  lemma {:induction false} DigitsValue(w: bytes)
    ensures Digits(Value(w), |w|) == w
  {
    if w != [] {
      DigitsValue(w[1..]);
      var rest, b0: int := Value(w[1..]), w[0];
      assert Value(w) / 256 == rest && Value(w) % 256 == b0;
    }
  }

  /** The number a big-endian run of bytes spells. */
  function BeValue(w: bytes): (v: nat)
    ensures v < Pow256(|w|)
  {
    if w == [] then 0 else 256 * BeValue(w[..|w| - 1]) + w[|w| - 1]
  }

  /** The `k` low-order base-256 digits of `n`, most significant first. */
  function BeDigits(n: nat, k: nat): (r: bytes)
    ensures |r| == k
  {
    if k == 0 then [] else BeDigits(n / 256, k - 1) + [n % 256]
  }

  lemma {:induction false} BeRoundTrip(n: nat, k: nat)
    ensures n < Pow256(k) ==> BeValue(BeDigits(n, k)) == n
  {
    if k > 0 {
      BeRoundTrip(n / 256, k - 1);
      assert BeDigits(n, k)[..k - 1] == BeDigits(n / 256, k - 1);
    }
  }

  /** Pieces one after the other. */
  function Concat(pieces: seq<bytes>): bytes {
    if pieces == [] then [] else pieces[0] + Concat(pieces[1..])
  }

  /** Little-endian 32-bit word at offset `o`. */
  function U32(b: bytes, o: nat): (v: uint32)
    requires o + 4 <= |b|
  {
    assert Pow256(4) == TWO32;
    Value(b[o..o + 4])
  }

  function Pack32(v: uint32): (r: bytes)
    ensures |r| == 4
    ensures Value(r) == v
  {
    ValueDigits(v, 4);
    Digits(v, 4)
  }

  /** `v` written over the bytes of `b` that start at `o`. */
  function Overwrite(b: bytes, o: nat, v: bytes): (r: bytes)
    requires o + |v| <= |b|
    ensures |r| == |b|
    ensures forall i :: 0 <= i < |b| ==> r[i] == if o <= i < o + |v| then v[i - o] else b[i]
  {
    b[..o] + v + b[o + |v|..]
  }

  lemma OverwriteElsewhere(b: bytes, o: nat, v: bytes, p: nat, n: nat)
    requires o + |v| <= |b| && p + n <= |b|
    requires p + n <= o || o + |v| <= p
    ensures Overwrite(b, o, v)[p..p + n] == b[p..p + n]
  {
  }

  lemma SliceOfSlice(b: bytes, p: nat, n: nat, o: nat, m: nat)
    requires p + n <= |b| && o + m <= n
    ensures b[p..p + n][o..o + m] == b[p + o..p + o + m]
  {
    var s := b[p..p + n];
    assert forall i :: 0 <= i < n ==> s[i] == b[p + i];
  }

  lemma Assoc<T>(a: seq<T>, b: seq<T>, c: seq<T>)
    ensures a + b + c == a + (b + c)
  {
  }

  predicate Distinct<T(==)>(s: seq<T>) {
    forall i, j :: 0 <= i < j < |s| ==> s[i] != s[j]
  }
}
