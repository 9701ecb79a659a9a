/** Fixed-width integers in network byte order, as the credential and the registration proof lay them out. */
module BigEndian {
  import opened Ids

  function Power(width: nat): (p: nat)
    ensures p >= 1
  {
    if width == 0 then 1 else 256 * Power(width - 1)
  }

  /** The low `width` bytes of `v`, the most significant first. */
  function Put(v: nat, width: nat): (r: Bytes)
    ensures |r| == width
  {
    if width == 0 then [] else Put(v / 256, width - 1) + [v % 256]
  }

  function Get(b: Bytes): nat
  {
    if b == [] then 0 else 256 * Get(b[..|b| - 1]) + b[|b| - 1]
  }

  lemma {:induction false} GetBounded(b: Bytes)
    ensures Get(b) < Power(|b|)
  {
    if b != [] {
      GetBounded(b[..|b| - 1]);
    }
  }

  /** Reading what was written gives the value back where it fits. */
  lemma {:induction false} GetPut(v: nat, width: nat)
    requires v < Power(width)
    ensures Get(Put(v, width)) == v
  {
    if width > 0 {
      assert Put(v, width)[..width - 1] == Put(v / 256, width - 1);
      GetPut(v / 256, width - 1);
    }
  }

  /** Writing what was read gives the bytes back. */
  lemma {:induction false} PutGet(b: Bytes)
    ensures Put(Get(b), |b|) == b
  {
    if b != [] {
      PutGet(b[..|b| - 1]);
      assert b == b[..|b| - 1] + [b[|b| - 1]];
    }
  }

  lemma Power8()
    ensures Power(2) == 0x1_0000 && Power(8) == 0x1_0000_0000_0000_0000
  {
    assert Power(3) == 256 * Power(2) && Power(4) == 256 * Power(3) && Power(5) == 256 * Power(4);
    assert Power(6) == 256 * Power(5) && Power(7) == 256 * Power(6) && Power(8) == 256 * Power(7);
  }

  const TWO_63: int := 0x8000_0000_0000_0000

  const TWO_64: int := 0x1_0000_0000_0000_0000

  /** The two's complement conversions between int64 and uint64. */
  function ToUnsigned(x: int): nat
  {
    x % TWO_64
  }

  function ToSigned(u: nat): int
  {
    if u >= TWO_63 then u - TWO_64 else u
  }

  predicate Int64(x: int)
  {
    -TWO_63 <= x < TWO_63
  }

  function PutInt64(x: int): (r: Bytes)
    ensures |r| == 8
  {
    Put(ToUnsigned(x), 8)
  }

  function GetInt64(b: Bytes): int
    requires |b| == 8
  {
    ToSigned(Get(b))
  }

  lemma Int64RoundTrip(x: int)
    requires Int64(x)
    ensures GetInt64(PutInt64(x)) == x
  {
    Power8();
    GetPut(ToUnsigned(x), 8);
    hide Get, Put;
  }

  lemma Int64Bytes(b: Bytes)
    requires |b| == 8
    ensures Int64(GetInt64(b)) && PutInt64(GetInt64(b)) == b
  {
    Power8();
    GetBounded(b);
    PutGet(b);
    hide Get, Put;
  }

  /** What stands in front counts for more: as many times 256 as there are bytes behind it. */
  lemma {:induction false} FrontCountsMore(a: Bytes, b: Bytes)
    ensures Get(a + b) == Get(a) * Power(|b|) + Get(b)
  {
    if b == [] {
      assert a + b == a;
    } else {
      var past := b[..|b| - 1];
      assert (a + b)[..|a + b| - 1] == a + past;
      FrontCountsMore(a, past);
      assert 256 * (Get(a) * Power(|past|)) == Get(a) * (256 * Power(|past|));
    }
  }
}
