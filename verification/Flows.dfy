/** Flow identity, the per-flow record and the bucket hash of the kernel flow table. */
module Flows {
  import opened Machine

  const HASH_RANGE: int := 256

  /** The 4-tuple that identifies a flow. */
  datatype FlowKey = FlowKey(localIp: u32, remoteIp: u32, localPort: u16, remotePort: u16)

  /** The information kept for a flow. Times are in nanoseconds; 0 means "never". */
  datatype FlowInfo = FlowInfo(
    lastCopyTime: int,
    lastUpdateTime: int,
    lastTimeoutSeq: u32,
    lastSeq: u32,
    lastAck: u32,
    bytesSent: u32,
    timeouts: u16,
    messages: u16)

  /** A map without one key. */
  function Without<V>(m: map<FlowKey, V>, key: FlowKey): map<FlowKey, V> {
    map k | k in m && k != key :: m[k]
  }

  lemma WithoutSize<V>(m: map<FlowKey, V>, key: FlowKey)
    ensures |Without(m, key)| == |m| - if key in m then 1 else 0
    ensures key !in m ==> Without(m, key) == m
  {
    if key in m {
      assert m.Keys == Without(m, key).Keys + {key};
    } else {
      assert Without(m, key) == m;
    }
  }

  function Mul32(a: u32, b: u32): u32 {
    ToU32(a * b)
  }

  /** Bucket of a flow, in wrapping unsigned arithmetic. */
  function HashFlow(k: FlowKey): (h: nat)
    ensures h < HASH_RANGE
  {
    Mul32(Mul32(Mul32(k.localIp / 0x100_0000 + 1, k.remoteIp / 0x100_0000 + 1),
                k.localPort + 1),
          k.remotePort + 1) % 0x100
  }

  lemma ModOfMod32(x: nat)
    ensures ToU32(x) % 0x100 == x % 0x100
  {
  }

  lemma Distribute(q: int, r: int, y: int)
    ensures (HASH_RANGE * q + r) * y == HASH_RANGE * (q * y) + r * y
  {
  }

  lemma ModMultiple(x: int, p: int, z: int)
    requires x == HASH_RANGE * p + z
    ensures x % 0x100 == z % 0x100
  {
  }

  lemma ModMul(x: nat, x': nat, y: nat)
    requires x % 0x100 == x' % 0x100
    ensures (x * y) % 0x100 == (x' * y) % 0x100
  {
    var q, q', r := x / HASH_RANGE, x' / HASH_RANGE, x % 0x100;
    Distribute(q, r, y);
    ModMultiple(x * y, q * y, r * y);
    Distribute(q', r, y);
    ModMultiple(x' * y, q' * y, r * y);
  }

  /** One wrapping multiplication does not change the residue modulo the hash range. */
  lemma Mul32Residue(wrapped: u32, exact: nat, y: u32)
    requires wrapped % 0x100 == exact % 0x100
    ensures Mul32(wrapped, y) % 0x100 == (exact * y) % 0x100
  {
    ModMul(wrapped, exact, y);
    assert wrapped * y >= 0;
    ModOfMod32(wrapped * y);
  }

  /** Wrap-around does not matter: the hash is the unbounded product modulo 256. */
  lemma HashIsExactProduct(k: FlowKey)
    ensures HashFlow(k) ==
            ((k.localIp / 0x100_0000 + 1) * (k.remoteIp / 0x100_0000 + 1)
             * (k.localPort + 1) * (k.remotePort + 1)) % 0x100
  {
    var a, b := k.localIp / 0x100_0000 + 1, k.remoteIp / 0x100_0000 + 1;
    var c, d := k.localPort + 1, k.remotePort + 1;
    Mul32Residue(a, a, b);
    assert a * b >= 0;
    Mul32Residue(Mul32(a, b), a * b, c);
    assert (a * b) * c >= 0;
    Mul32Residue(Mul32(Mul32(a, b), c), a * b * c, d);
  }
}
