/**
 Fixed-width integers. Big-endian ones round trip and their byte order is number
 order, so a key-ordered scan meets numbered entries in sequence; little-endian
 ones, as Borsh writes them, are told apart by their bytes.
 */
module BigEndian {
  import opened LogTables

  function Encode(n: nat, width: nat): (bytes: Bytes)
    ensures |bytes| == width
  {
    if width == 0 then [] else Encode(n / 256, width - 1) + [n % 256]
  }

  function Decode(bytes: Bytes): nat {
    if bytes == [] then 0 else 256 * Decode(bytes[..|bytes| - 1]) + bytes[|bytes| - 1]
  }

  function Limit(width: nat): nat {
    if width == 0 then 1 else 256 * Limit(width - 1)
  }

  const U64_LIMIT: nat := 0x1_0000_0000_0000_0000

  lemma {:induction false} Limit8()
    ensures Limit(8) == U64_LIMIT
  {
    assert Limit(2) == 65_536;
    assert Limit(4) == 65_536 * 65_536;
    assert Limit(6) == 65_536 * 65_536 * 65_536;
  }

  lemma {:induction false} RoundTrip(n: nat, width: nat)
    requires n < Limit(width)
    ensures Decode(Encode(n, width)) == n
  {
    if width > 0 {
      RoundTrip(n / 256, width - 1);
      assert Encode(n, width)[..width - 1] == Encode(n / 256, width - 1);
    }
  }

  lemma {:induction false} LessAppend(a: Bytes, b: Bytes, x: Byte, y: Byte)
    requires |a| == |b|
    requires Less(a, b) || (a == b && x < y)
    ensures Less(a + [x], b + [y])
  {
    if a != [] {
      assert (a + [x])[1..] == a[1..] + [x] && (b + [y])[1..] == b[1..] + [y];
      if a[0] == b[0] {
        LessAppend(a[1..], b[1..], x, y);
      }
    }
  }

  lemma {:induction false} KeepsOrder(n: nat, m: nat, width: nat)
    requires n < m < Limit(width)
    ensures Less(Encode(n, width), Encode(m, width))
  {
    if n / 256 < m / 256 {
      KeepsOrder(n / 256, m / 256, width - 1);
    }
    LessAppend(Encode(n / 256, width - 1), Encode(m / 256, width - 1), n % 256, m % 256);
  }

  function EncodeLittle(n: nat, width: nat): (bytes: Bytes)
    ensures |bytes| == width
  {
    if width == 0 then [] else [n % 256] + EncodeLittle(n / 256, width - 1)
  }

  function DecodeLittle(bytes: Bytes): nat {
    if bytes == [] then 0 else bytes[0] + 256 * DecodeLittle(bytes[1..])
  }

  lemma {:induction false} LittleRoundTrip(n: nat, width: nat)
    requires n < Limit(width)
    ensures DecodeLittle(EncodeLittle(n, width)) == n
  {
    if width > 0 {
      LittleRoundTrip(n / 256, width - 1);
      assert EncodeLittle(n, width)[1..] == EncodeLittle(n / 256, width - 1);
    }
  }

  lemma {:induction false} LittleInjective(n: nat, m: nat, width: nat)
    requires n < Limit(width) && m < Limit(width) && EncodeLittle(n, width) == EncodeLittle(m, width)
    ensures n == m
  {
    LittleRoundTrip(n, width);
    LittleRoundTrip(m, width);
  }

  lemma {:induction false} BigInjective(n: nat, m: nat, width: nat)
    requires n < Limit(width) && m < Limit(width) && Encode(n, width) == Encode(m, width)
    ensures n == m
  {
    RoundTrip(n, width);
    RoundTrip(m, width);
  }

  lemma {:induction false} Limit16()
    ensures Limit(16) == U64_LIMIT * U64_LIMIT
  {
    Limit8();
    assert Limit(10) == 65_536 * Limit(8);
    assert Limit(12) == 65_536 * Limit(10);
    assert Limit(14) == 65_536 * Limit(12);
    assert Limit(16) == 65_536 * Limit(14);
  }
}
