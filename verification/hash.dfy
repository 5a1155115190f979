/** The string hash of shared/include/MRD_utility.h:179-191. */
module Hash {
  import opened Bytes

  const MOD32: nat := 0x1_0000_0000
  const OFFSET_BASIS: nat := 0x811C9DC5
  const PRIME: nat := 0x01000193

  /** The state after hashing `data` from state `h`, in 32-bit arithmetic. */
  function HashFrom(h: nat, data: Str): nat
    decreases |data|
  {
    if data == [] then h else HashFrom((h + data[0]) * PRIME % MOD32, data[1..])
  }

  function HashOf(data: Str): nat {
    HashFrom(OFFSET_BASIS, data)
  }

  method StrHash(data: Str) returns (h: nat)
    ensures h == HashOf(data)
  {
    h := OFFSET_BASIS;
    for i := 0 to |data|
      invariant HashFrom(h, data[i..]) == HashOf(data)
    {
      assert data[i..][1..] == data[i + 1..];
      h := (h + data[i]) * PRIME % MOD32;
    }
  }

  /** The hash of a string goes on from the hash of its beginning. */
  lemma {:induction false} HashConcat(h: nat, a: Str, b: Str)
    ensures HashFrom(h, a + b) == HashFrom(HashFrom(h, a), b)
    decreases |a|
  {
    if a == [] {
      assert a + b == b;
    } else {
      assert (a + b)[1..] == a[1..] + b && (a + b)[0] == a[0];
      HashConcat((h + a[0]) * PRIME % MOD32, a[1..], b);
    }
  }

  /** The hashes of "", "a" and "ab". */
  lemma HashSamples()
    ensures HashOf([]) == 2166136261 && HashOf([97]) == 1712125394 && HashOf([97] + [98]) == 3664221148
  {
    assert HashOf([]) == 2166136261;
    var h: nat := 1712125394;
    Mixed();
    OneByte(OFFSET_BASIS, 97);
    OneByte(h, 98);
    HashConcat(OFFSET_BASIS, [97], [98]);
    assert HashOf([97]) == HashFrom(OFFSET_BASIS, [97]);
    assert HashOf([97] + [98]) == HashFrom(OFFSET_BASIS, [97] + [98]);
    hide *;
  }

  lemma Mixed()
    ensures (OFFSET_BASIS + 97) * PRIME % MOD32 == 1712125394 && (1712125394 + 98) * PRIME % MOD32 == 3664221148
  {
  }

  lemma OneByte(h: nat, b: Byte)
    ensures HashFrom(h, [b]) == (h + b) * PRIME % MOD32
  {
    var next := (h + b) * PRIME % MOD32;
    assert [b][1..] == [] && HashFrom(next, []) == next;
  }
}
