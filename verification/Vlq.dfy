/**
 Variable-length quantities of the Standard MIDI File format: seven bits per
 byte, most significant group first, the top bit set on every byte but the
 last. At most four bytes, so values up to 0x0FFFFFFF.
 */
module Vlq {
  import opened Midi

  /** The largest value a four-byte quantity holds. */
  const Max := 0x0FFF_FFFF

  /** `_calcVariableLengthQuantity`. The source masks with 32-bit `&`; on a
      non-negative value `(d & 0x0fe00000) >> 21` is bits 21-27, and the
      8-bit mask `0x3fc000` overlaps the `| 0x80` in bit 21, so every
      continuation byte is `0x80` plus seven bits of `d`. Bits above 27 are
      dropped; a negative value is below every threshold and gives its low
      seven bits. */
  function Encode(d: int): (r: seq<byte>)
    ensures 1 <= |r| <= 4
  {
    (if d > 0x1F_FFFF then [0x80 + d / 0x20_0000 % 0x80] else [])
    + (if d > 0x3FFF then [0x80 + d / 0x4000 % 0x80] else [])
    + (if d > 0x7F then [0x80 + d / 0x80 % 0x80] else [])
    + [d % 0x80]
  }

  /** 128 to the power `n`. */
  function Pow128(n: nat): (p: int)
    ensures p >= 1
  {
    if n == 0 then 1 else 0x80 * Pow128(n - 1)
  }

  /** Four groups at most: 2^28. */
  lemma Pow128UpTo4(n: nat)
    requires n <= 4
    ensures Pow128(n) <= 0x1000_0000
  {
    assert Pow128(1) == 0x80 && Pow128(2) == 0x4000;
    assert Pow128(3) == 0x20_0000 && Pow128(4) == 0x1000_0000;
  }

  /** Every byte but the last carries the continuation bit, and the length
      grows at the source's three thresholds. */
  lemma EncodeShape(d: int)
    ensures var r := Encode(d);
      && (forall i :: 0 <= i < |r| - 1 ==> r[i] >= 0x80)
      && r[|r| - 1] < 0x80
      && (|r| == 1 <==> d <= 0x7F)
      && (|r| == 2 <==> 0x7F < d <= 0x3FFF)
      && (|r| == 3 <==> 0x3FFF < d <= 0x1F_FFFF)
      && (|r| == 4 <==> 0x1F_FFFF < d)
  {
  }

  /** Reference reading of a quantity: the seven-bit groups, most significant
      first. */
  function Value(bs: seq<byte>): (v: int)
    ensures 0 <= v < Pow128(|bs|)
  {
    if |bs| == 0 then 0 else Value(bs[..|bs| - 1]) * 0x80 + bs[|bs| - 1] % 0x80
  }

  /** Read a quantity starting at byte `p` of `bs`: its value and its length
      in bytes, or `None` if no byte below 0x80 ends it within four bytes. */
  function Parse(bs: seq<byte>, p: nat): (r: Option<(int, nat)>)
    requires p <= |bs|
    ensures r.Some? ==> 1 <= r.value.1 <= 4 && p + r.value.1 <= |bs|
  {
    ParseFrom(bs, p, 0, 0)
  }

  /** Continue reading after `i` bytes, which gave `acc`. */
  function ParseFrom(bs: seq<byte>, p: nat, i: nat, acc: int): (r: Option<(int, nat)>)
    requires p + i <= |bs| && i <= 4
    ensures r.Some? ==> i < r.value.1 <= 4 && p + r.value.1 <= |bs|
    decreases 4 - i
  {
    if i == 4 || p + i == |bs| then None
    else if bs[p + i] < 0x80 then Some((acc * 0x80 + bs[p + i] % 0x80, i + 1))
    else ParseFrom(bs, p, i + 1, acc * 0x80 + bs[p + i] % 0x80)
  }

  /** What `Parse` reads is the reference value of the bytes it took, and
      fits four bytes. */
  lemma ParseValue(bs: seq<byte>, p: nat)
    requires p <= |bs|
    ensures var r := Parse(bs, p);
      r.Some? ==> r.value.0 == Value(bs[p..p + r.value.1]) && 0 <= r.value.0 <= Max
  {
    assert Value(bs[p..p + 0]) == 0 by { assert bs[p..p + 0] == []; }
    ParseFromValue(bs, p, 0, 0);
    var r := Parse(bs, p);
    if r.Some? {
      Pow128UpTo4(r.value.1);
    }
  }

  lemma {:induction false} ParseFromValue(bs: seq<byte>, p: nat, i: nat, acc: int)
    requires p + i <= |bs| && i <= 4 && acc == Value(bs[p..p + i])
    ensures var r := ParseFrom(bs, p, i, acc);
      r.Some? ==> r.value.0 == Value(bs[p..p + r.value.1])
    decreases 4 - i
  {
    if i < 4 && p + i < |bs| {
      var acc' := acc * 0x80 + bs[p + i] % 0x80;
      assert acc' == Value(bs[p..p + (i + 1)]) by { ValueStep(bs, p, i); }
      if bs[p + i] < 0x80 {
        assert ParseFrom(bs, p, i, acc) == Some((acc', i + 1));
      } else {
        assert ParseFrom(bs, p, i, acc) == ParseFrom(bs, p, i + 1, acc');
        ParseFromValue(bs, p, i + 1, acc');
      }
    }
  }

  /** The seven-bit groups of a non-negative value, lowest first, and the
      value modulo 2^28 rebuilt from them. */
  lemma Groups(d: int)
    requires d >= 0
    ensures d / 0x4000 == d / 0x80 / 0x80
    ensures d / 0x20_0000 == d / 0x80 / 0x80 / 0x80
    ensures d % 0x1000_0000 ==
      ((d / 0x20_0000 % 0x80 * 0x80 + d / 0x4000 % 0x80) * 0x80 + d / 0x80 % 0x80) * 0x80 + d % 0x80
  {
    var d1 := d / 0x80;
    var d2 := d1 / 0x80;
    var d3 := d2 / 0x80;
    var d4 := d3 / 0x80;
    assert d == 0x80 * d1 + d % 0x80;
    assert d1 == 0x80 * d2 + d1 % 0x80;
    assert d2 == 0x80 * d3 + d2 % 0x80;
    assert d3 == 0x80 * d4 + d3 % 0x80;
    var low := ((d3 % 0x80 * 0x80 + d2 % 0x80) * 0x80 + d1 % 0x80) * 0x80 + d % 0x80;
    assert d == 0x1000_0000 * d4 + low;
    assert 0 <= low < 0x1000_0000;
    assert d == 0x4000 * d2 + (0x80 * (d1 % 0x80) + d % 0x80);
    assert d == 0x20_0000 * d3 + (0x4000 * (d2 % 0x80) + 0x80 * (d1 % 0x80) + d % 0x80);
  }

  /** What `Encode` writes reads back as the value modulo 2^28 (the four
      seven-bit groups it keeps); a negative value reads back as its low
      seven bits. */
  lemma EncodeValue(d: int)
    ensures d >= 0 ==> Value(Encode(d)) == d % 0x1000_0000
    ensures d < 0 ==> Value(Encode(d)) == d % 0x80
  {
    if d > 0x1F_FFFF {
      EncodeValue4(d);
    } else if d > 0x3FFF {
      EncodeValue3(d);
    } else if d > 0x7F {
      EncodeValue2(d);
    } else {
      assert Encode(d) == [d % 0x80];
      Value1(d % 0x80);
    }
  }

  lemma EncodeValue4(d: int)
    requires d > 0x1F_FFFF
    ensures Value(Encode(d)) == d % 0x1000_0000
  {
    var e, c, b, a := d % 0x80, d / 0x80 % 0x80, d / 0x4000 % 0x80, d / 0x20_0000 % 0x80;
    assert Encode(d) == [0x80 + a, 0x80 + b, 0x80 + c, e];
    Continued4(a, b, c, e);
    Groups(d);
  }

  lemma EncodeValue3(d: int)
    requires 0x3FFF < d <= 0x1F_FFFF
    ensures Value(Encode(d)) == d % 0x1000_0000
  {
    var e, c, b := d % 0x80, d / 0x80 % 0x80, d / 0x4000 % 0x80;
    assert Encode(d) == [0x80 + b, 0x80 + c, e];
    Continued3(b, c, e);
    Groups(d);
  }

  lemma EncodeValue2(d: int)
    requires 0x7F < d <= 0x3FFF
    ensures Value(Encode(d)) == d % 0x1000_0000
  {
    var e, c := d % 0x80, d / 0x80 % 0x80;
    assert Encode(d) == [0x80 + c, e];
    Continued2(c, e);
    Groups(d);
  }

  /** Groups `a`, `b`, `c` written with the continuation bit, then `e`. */
  lemma Continued4(a: int, b: int, c: int, e: int)
    requires 0 <= a < 0x80 && 0 <= b < 0x80 && 0 <= c < 0x80 && 0 <= e < 0x80
    ensures Value([0x80 + a, 0x80 + b, 0x80 + c, e]) == ((a * 0x80 + b) * 0x80 + c) * 0x80 + e
  {
    Value4(0x80 + a, 0x80 + b, 0x80 + c, e);
    assert (0x80 + a) % 0x80 == a && (0x80 + b) % 0x80 == b;
    assert (0x80 + c) % 0x80 == c && e % 0x80 == e;
  }

  lemma Continued3(b: int, c: int, e: int)
    requires 0 <= b < 0x80 && 0 <= c < 0x80 && 0 <= e < 0x80
    ensures Value([0x80 + b, 0x80 + c, e]) == (b * 0x80 + c) * 0x80 + e
  {
    Value3(0x80 + b, 0x80 + c, e);
    assert (0x80 + b) % 0x80 == b && (0x80 + c) % 0x80 == c && e % 0x80 == e;
  }

  lemma Continued2(c: int, e: int)
    requires 0 <= c < 0x80 && 0 <= e < 0x80
    ensures Value([0x80 + c, e]) == c * 0x80 + e
  {
    Value2(0x80 + c, e);
    assert (0x80 + c) % 0x80 == c && e % 0x80 == e;
  }

  lemma Value1(w: byte)
    ensures Value([w]) == w % 0x80
  {
    assert [w][..0] == [];
  }

  lemma Value2(w: byte, x: byte)
    ensures Value([w, x]) == w % 0x80 * 0x80 + x % 0x80
  {
    assert [w, x][..1] == [w];
    Value1(w);
  }

  lemma Value3(w: byte, x: byte, y: byte)
    ensures Value([w, x, y]) == (w % 0x80 * 0x80 + x % 0x80) * 0x80 + y % 0x80
  {
    assert [w, x, y][..2] == [w, x];
    Value2(w, x);
  }

  lemma Value4(w: byte, x: byte, y: byte, z: byte)
    ensures Value([w, x, y, z]) == ((w % 0x80 * 0x80 + x % 0x80) * 0x80 + y % 0x80) * 0x80 + z % 0x80
  {
    assert [w, x, y, z][..3] == [w, x, y];
    Value3(w, x, y);
  }

  /** One more byte read: the value so far shifts by seven bits. */
  lemma ValueStep(bs: seq<byte>, p: nat, i: nat)
    requires p + i < |bs|
    ensures Value(bs[p..p + (i + 1)]) == Value(bs[p..p + i]) * 0x80 + bs[p + i] % 0x80
  {
    var s := bs[p..p + (i + 1)];
    assert s[..|s| - 1] == bs[p..p + i];
  }

  /** Round trip: within range, reading back what `Encode` wrote, wherever
      it sits and whatever follows it, gives the value and the length
      written. */
  lemma ParseEncode(d: int, bs: seq<byte>, p: nat)
    requires 0 <= d <= Max
    requires p + |Encode(d)| <= |bs| && bs[p..p + |Encode(d)|] == Encode(d)
    ensures Parse(bs, p) == Some((d, |Encode(d)|))
  {
    var r := Encode(d);
    EncodeValue(d);
    EncodeShape(d);
    assert forall j :: p <= j < p + |r| ==> bs[j] == r[j - p];
    ParseTerminated(bs, p, |r|);
  }

  /** `Parse` stops at the first byte below 0x80. */
  lemma ParseTerminated(bs: seq<byte>, p: nat, k: nat)
    requires 1 <= k <= 4 && p + k <= |bs|
    requires forall j :: p <= j < p + k - 1 ==> bs[j] >= 0x80
    requires bs[p + k - 1] < 0x80
    ensures Parse(bs, p) == Some((Value(bs[p..p + k]), k))
  {
    assert Value(bs[p..p + 0]) == 0 by { assert bs[p..p + 0] == []; }
    ParseFromTerminated(bs, p, 0, 0, k);
  }

  lemma {:induction false} ParseFromTerminated(bs: seq<byte>, p: nat, i: nat, acc: int, k: nat)
    requires i < k <= 4 && p + k <= |bs| && acc == Value(bs[p..p + i])
    requires forall j :: p + i <= j < p + k - 1 ==> bs[j] >= 0x80
    requires bs[p + k - 1] < 0x80
    ensures ParseFrom(bs, p, i, acc) == Some((Value(bs[p..p + k]), k))
    decreases k - i
  {
    ValueStep(bs, p, i);
    if i < k - 1 {
      ParseFromTerminated(bs, p, i + 1, acc * 0x80 + bs[p + i] % 0x80, k);
    }
  }

  /** The thresholds of the source, byte for byte. */
  lemma EncodeBoundaries()
    ensures Encode(0) == [0x00] && Encode(0x7F) == [0x7F]
    ensures Encode(0x80) == [0x81, 0x00] && Encode(0x3FFF) == [0xFF, 0x7F]
    ensures Encode(0x4000) == [0x81, 0x80, 0x00] && Encode(0x1F_FFFF) == [0xFF, 0xFF, 0x7F]
    ensures Encode(0x20_0000) == [0x81, 0x80, 0x80, 0x00] && Encode(Max) == [0xFF, 0xFF, 0xFF, 0x7F]
    ensures Encode(Max + 1) == [0x80, 0x80, 0x80, 0x00]
  {
  }
}
