/** Unsigned big-endian fields, the only integer encoding of the DVD-Video
    navigation files. */
module Bytes {

  type byte = bv8

  function Pow256(k: nat): (p: nat)
    ensures p >= 1
  {
    if k == 0 then 1 else 256 * Pow256(k - 1)
  }

  /** The unsigned big-endian value of `s`. */
  function BE(s: seq<byte>): (n: nat)
    ensures n < Pow256(|s|)
  {
    if |s| == 0 then 0
    else
      var hi := BE(s[..|s| - 1]);
      assert hi * 256 + s[|s| - 1] as int <= (Pow256(|s| - 1) - 1) * 256 + 255;
      hi * 256 + s[|s| - 1] as int
  }

  /** The `w`-byte big-endian encoding of `n`: the writer the decoder undoes. */
  function ToBE(n: nat, w: nat): (s: seq<byte>)
    requires n < Pow256(w)
    ensures |s| == w
  {
    if w == 0 then []
    else ToBE(n / 256, w - 1) + [ByteOf(n % 256)]
  }

  /** The byte whose value is `n`, counted up one at a time so that no
      conversion from an unbounded integer to a bit-vector is needed. */
  function ByteOf(n: nat): (b: byte)
    requires n < 256
    ensures b as int == n
  {
    if n == 0 then 0 else ByteOf(n - 1) + 1
  }

  /** Counting up to a byte's value gives that byte back. */
  lemma {:induction false} ByteOfValue(b: byte)
    ensures ByteOf(b as int) == b
    decreases b as int
  {
    if b != 0 {
      var p := b - 1;
      assert p as int == b as int - 1;
      ByteOfValue(p);
    }
  }

  lemma {:induction false} BEOfToBE(n: nat, w: nat)
    requires n < Pow256(w)
    ensures BE(ToBE(n, w)) == n
  {
    if w > 0 {
      var s := ToBE(n, w);
      assert s[..w - 1] == ToBE(n / 256, w - 1);
      BEOfToBE(n / 256, w - 1);
      assert s[w - 1] as int == n % 256;
      assert BE(s) == (n / 256) * 256 + n % 256;
    }
  }

  lemma {:induction false} ToBEOfBE(s: seq<byte>)
    ensures ToBE(BE(s), |s|) == s
  {
    if |s| > 0 {
      var k := |s| - 1;
      ToBEOfBE(s[..k]);
      var n := BE(s);
      assert n / 256 == BE(s[..k]) && n % 256 == s[k] as int;
      ByteOfValue(s[k]);
      assert s == s[..k] + [s[k]];
    }
  }
}
