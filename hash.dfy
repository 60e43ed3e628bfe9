/** The content hash: djb2 computed in a 64-bit size_t, then masked to the hash width. */
module Hash {
  import opened IstrConfig

  const SEED: bv64 := 5381

  /** One djb2 step in size_t arithmetic: hash * 33 ^ b, wrapping at 2^64. */
  function Step(h: bv64, b: byte): bv64 {
    ((h << 5) + h) ^ (b as bv64)
  }

  /** The unmasked djb2 value of `s`, folding the bytes from the first to the last. */
  function Djb2(s: seq<byte>): bv64 {
    if |s| == 0 then SEED else Step(Djb2(s[..|s| - 1]), s[|s| - 1])
  }

  /** The stored hash of `s`: djb2 masked to Q_HASH_MASK, with 0 remapped to 1. */
  function HashOf(s: seq<byte>): (h: nat)
    ensures 1 <= h <= Q_HASH_MASK
  {
    var m := (Djb2(s) & 0xFF) as bv8;
    if m == 0 then 1 else m as nat
  }

  /** Reference definition: the same recurrence carried out in 8-bit arithmetic from the start. */
  function Djb2Narrow(s: seq<byte>): byte {
    if |s| == 0 then 0x05 else  // 5381 = 0x1505
      var h := Djb2Narrow(s[..|s| - 1]);
      ((h << 5) + h) ^ s[|s| - 1]
  }

  lemma StepLowByte(h: bv64, b: byte)
    ensures (Step(h, b) & 0xFF) as bv8
         == ((((h & 0xFF) as bv8) << 5) + ((h & 0xFF) as bv8)) ^ b
  {
  }

  /** Masking commutes with the recurrence: only the low byte of size_t ever reaches the stored hash. */
  lemma {:induction false} MaskedIsNarrow(s: seq<byte>)
    ensures (Djb2(s) & 0xFF) as bv8 == Djb2Narrow(s)
  {
    if |s| > 0 {
      MaskedIsNarrow(s[..|s| - 1]);
      StepLowByte(Djb2(s[..|s| - 1]), s[|s| - 1]);
    }
  }

  /** qstr_compute_hash: the byte loop, then the mask and the 0 to 1 remap. */
  method ComputeHash(data: seq<byte>) returns (hash: nat)
    ensures hash == HashOf(data)
    ensures 1 <= hash <= Q_HASH_MASK
  {
    var h: bv64 := SEED;
    var i := 0;
    while i < |data|
      invariant 0 <= i <= |data|
      invariant h == Djb2(data[..i])
    {
      assert data[..i + 1][..i] == data[..i];
      h := Step(h, data[i]);  // hash * 33 ^ data
      i := i + 1;
    }
    assert data[..i] == data;
    var masked := (h & 0xFF) as bv8;
    if masked == 0 {
      hash := 1;
    } else {
      hash := masked as nat;
    }
  }
}
