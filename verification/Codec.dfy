/** Numbers as big-endian buffers, on a host that stores them little-endian. */
module Bytes {
  import opened Dom

  type Byte = b: nat | b < 0x100

  function Pow(b: nat, e: nat): nat { if e == 0 then 1 else b * Pow(b, e - 1) }

  lemma {:induction false} PowPositive(b: nat, e: nat)
    requires b > 0
    ensures Pow(b, e) > 0
    decreases e
  {
    if e > 0 { PowPositive(b, e - 1); }
  }

  lemma DivUnique(n: int, d: nat, q: int, r: nat)
    requires r < d && n == q * d + r
    ensures n / d == q && n % d == r
  {
    var x := n / d - q;
    assert d * x == d * (n / d) - d * q;
    assert d * x == r - n % d;
    Multiple(d, x);
  }

  lemma Multiple(d: nat, x: int)
    ensures x >= 1 ==> d * x >= d
    ensures x <= -1 ==> d * x + d <= 0
  {
  }

  /** Dividing twice is dividing by the product. */
  lemma DivTwice(n: int, a: nat, b: nat)
    requires a > 0 && b > 0
    ensures a * b > 0 && n / a / b == n / (a * b) && n % (a * b) == (n / a % b) * a + n % a
  {
    var t, u, r := n / a / b, n / a % b, n % a;
    Spread(t, b, u, a);
    Below(u, b, a, r);
    DivUnique(n, a * b, t, u * a + r);
  }

  lemma Spread(t: int, b: nat, u: nat, a: nat)
    ensures (t * b + u) * a == t * (a * b) + u * a
  {
  }

  lemma Below(u: nat, b: nat, a: nat, r: nat)
    requires u < b && r < a
    ensures a * b > 0 && u * a + r < a * b
  {
    var d := b - u - 1;
    assert b == u + 1 + d;
    assert a * (u + 1 + d) == a * u + a + a * d;
    assert a * d >= 0;
  }

  // ---- big end and little end first -------------------------------------

  function BigValue(bs: seq<Byte>): nat {
    if bs == [] then 0 else BigValue(bs[..|bs| - 1]) * 0x100 + bs[|bs| - 1]
  }

  function BigBytes(n: nat, width: nat): (bs: seq<Byte>)
    ensures |bs| == width
  {
    if width == 0 then [] else BigBytes(n / 0x100, width - 1) + [n % 0x100]
  }

  /** What an integer's memory holds. */
  function Memory(n: nat, width: nat): (bs: seq<Byte>)
    ensures |bs| == width
  {
    if width == 0 then [] else [n % 0x100] + Memory(n / 0x100, width - 1)
  }

  /** The integer that some memory holds. */
  function Stored(bs: seq<Byte>): nat {
    if bs == [] then 0 else bs[0] + 0x100 * Stored(bs[1..])
  }

  lemma {:induction false} StoredReverse(bs: seq<Byte>)
    ensures Stored(Reverse(bs)) == BigValue(bs)
    decreases |bs|
  {
    if bs != [] {
      var init, last := bs[..|bs| - 1], bs[|bs| - 1];
      assert bs == init + [last];
      ReverseSnoc(init, last);
      assert ([last] + Reverse(init))[1..] == Reverse(init);
      StoredReverse(init);
    }
  }

  lemma {:induction false} StoredPadded(bs: seq<Byte>, zeros: seq<Byte>)
    requires forall i :: 0 <= i < |zeros| ==> zeros[i] == 0
    ensures Stored(bs + zeros) == Stored(bs)
    decreases |bs| + |zeros|
  {
    if bs != [] {
      assert (bs + zeros)[0] == bs[0] && (bs + zeros)[1..] == bs[1..] + zeros;
      StoredPadded(bs[1..], zeros);
    } else if zeros != [] {
      assert bs + zeros == zeros;
      StoredPadded([], zeros[1..]);
      assert [] + zeros[1..] == zeros[1..];
    }
  }

  lemma {:induction false} ReverseMemory(n: nat, width: nat)
    ensures Reverse(Memory(n, width)) == BigBytes(n, width)
    decreases width
  {
    if width > 0 {
      ReverseMemory(n / 0x100, width - 1);
      var m := Memory(n, width);
      assert m[1..] == Memory(n / 0x100, width - 1);
    }
  }

  /** The bytes from an offset on are the memory of the shifted number. */
  lemma {:induction false} MemoryAt(n: nat, width: nat, offset: nat, count: nat)
    requires offset + count <= width
    ensures Pow(0x100, offset) > 0
    ensures Memory(n, width)[offset..offset + count] == Memory(n / Pow(0x100, offset), count)
    decreases width
  {
    PowPositive(0x100, offset);
    var m := Memory(n, width);
    if offset > 0 {
      PowPositive(0x100, offset - 1);
      MemoryAt(n / 0x100, width - 1, offset - 1, count);
      DivTwice(n, 0x100, Pow(0x100, offset - 1));
      assert m[offset..offset + count] == m[1..][offset - 1..offset - 1 + count];
    } else if count > 0 {
      MemoryAt(n / 0x100, width - 1, 0, count - 1);
      assert m[0..count] == [m[0]] + m[1..][0..count - 1];
      assert n / 1 == n && n / 0x100 / 1 == n / 0x100;
    }
  }

  // ---- the loops --------------------------------------------------------

  method ReverseCopy(src: seq<Byte>, dst: array<Byte>)
    requires |src| <= dst.Length
    modifies dst
    ensures dst[..] == Reverse(src) + old(dst[..])[|src|..]
  {
    var first, last := 0, |src|;
    while last != 0
      invariant 0 <= first && 0 <= last && first + last == |src|
      invariant forall i :: 0 <= i < first ==> dst[i] == src[|src| - 1 - i]
      invariant forall i :: first <= i < dst.Length ==> dst[i] == old(dst[i])
    {
      last := last - 1;
      dst[first] := src[last];
      first := first + 1;
    }
    forall i | 0 <= i < |src| ensures Reverse(src)[i] == dst[i] {
      ReverseAt(src, i);
    }
  }

  method ReverseInPlace(a: array<Byte>)
    modifies a
    ensures a[..] == Reverse(old(a[..]))
  {
    ghost var was := a[..];
    var first, last := 0, a.Length;
    while last - first > 1
      invariant 0 <= first <= last && first + last == a.Length
      invariant forall i :: 0 <= i < first || last <= i < a.Length ==> a[i] == was[a.Length - 1 - i]
      invariant forall i :: first <= i < last ==> a[i] == was[i]
    {
      last := last - 1;
      a[first], a[last] := a[last], a[first];
      first := first + 1;
    }
    forall i | 0 <= i < a.Length ensures Reverse(was)[i] == a[i] {
      ReverseAt(was, i);
    }
  }

  /** The value of as many leading bytes as the type is wide, or of all there are. */
  function Numeric(buffer: seq<Byte>, width: nat): nat {
    BigValue(if |buffer| < width then buffer else buffer[..width])
  }

  method ToNumeric(buffer: seq<Byte>, width: nat) returns (r: nat)
    ensures r == Numeric(buffer, width)
  {
    var size := if |buffer| < width then |buffer| else width;
    var src := new Byte[size](_ => 0);
    ReverseCopy(buffer[..size], src);
    assert src[..] == Reverse(buffer[..size]);
    StoredReverse(buffer[..size]);
    StoredPadded(src[..], seq(width - size, _ => 0));
    // the object starts as zero and only its first bytes are overwritten
    r := Stored(src[..] + seq(width - size, _ => 0));
    assert |buffer| < width ==> buffer[..size] == buffer;
  }

  method ToNumericAt(buffer: seq<Byte>, width: nat, offset: nat) returns (r: nat)
    requires offset <= |buffer| && width <= |buffer| - offset
    ensures r == Numeric(buffer[offset..], width)
  {
    var size := if |buffer| < width then |buffer| else width;
    var src := new Byte[width](_ => 0);
    ReverseCopy(buffer[offset..offset + size], src);
    assert src[..] == Reverse(buffer[offset..offset + size]);
    StoredReverse(buffer[offset..offset + size]);
    r := Stored(src[..]);
    assert buffer[offset..][..width] == buffer[offset..offset + size];
  }

  /** Copies `count` bytes of the number's memory from `offset` on, then turns them round. */
  method ToBuffer(n: nat, width: nat, count: nat, offset: nat) returns (buffer: seq<Byte>)
    requires n < Pow(0x100, width) && offset <= count && count + offset <= width
    ensures Pow(0x100, offset) > 0 && buffer == BigBytes(n / Pow(0x100, offset), count)
  {
    var src := Memory(n, width);
    var vec := new Byte[count](_ => 0);
    for i := 0 to count
      invariant vec[..i] == src[offset..offset + i]
    {
      vec[i] := src[offset + i];
    }
    MemoryAt(n, width, offset, count);
    assert vec[..] == vec[..count];
    ReverseMemory(n / Pow(0x100, offset), count);
    ReverseInPlace(vec);
    buffer := vec[..];
  }

  // ---- round trips ------------------------------------------------------

  lemma {:induction false} ValueOfBytes(n: nat, width: nat)
    ensures Pow(0x100, width) > 0 && BigValue(BigBytes(n, width)) == n % Pow(0x100, width)
    decreases width
  {
    PowPositive(0x100, width);
    if width > 0 {
      PowPositive(0x100, width - 1);
      ValueOfBytes(n / 0x100, width - 1);
      DivTwice(n, 0x100, Pow(0x100, width - 1));
      var bs := BigBytes(n, width);
      assert bs[..width - 1] == BigBytes(n / 0x100, width - 1);
    }
  }

  lemma {:induction false} BytesOfValue(bs: seq<Byte>)
    ensures BigBytes(BigValue(bs), |bs|) == bs
    decreases |bs|
  {
    if bs != [] {
      BytesOfValue(bs[..|bs| - 1]);
      DivUnique(BigValue(bs), 0x100, BigValue(bs[..|bs| - 1]), bs[|bs| - 1]);
      assert bs == bs[..|bs| - 1] + [bs[|bs| - 1]];
    }
  }

  /** Reading undoes writing for every width, whatever follows the number in the buffer. */
  lemma {:induction false} NumberRoundTrip(n: nat, width: nat, rest: seq<Byte>)
    requires n < Pow(0x100, width)
    ensures Numeric(BigBytes(n, width) + rest, width) == n
  {
    ValueOfBytes(n, width);
    var b := BigBytes(n, width) + rest;
    assert b[..width] == BigBytes(n, width);
    DivUnique(n, Pow(0x100, width), 0, n);
  }

  /** Writing undoes reading exactly on buffers of the type's own width. */
  lemma {:induction false} BufferRoundTrip(buffer: seq<Byte>, width: nat)
    ensures BigBytes(Numeric(buffer, width), width) == buffer <==> |buffer| == width
  {
    if |buffer| == width {
      assert buffer[..width] == buffer;
      BytesOfValue(buffer);
    }
  }

  /** Writing with a byte count and an offset keeps that slice of the number's bytes. */
  lemma {:induction false} SlicedRoundTrip(n: nat, count: nat, offset: nat)
    ensures Pow(0x100, offset) > 0 && Pow(0x100, count) > 0
    ensures Numeric(BigBytes(n / Pow(0x100, offset), count), count) == n / Pow(0x100, offset) % Pow(0x100, count)
  {
    PowPositive(0x100, offset);
    ValueOfBytes(n / Pow(0x100, offset), count);
    var b := BigBytes(n / Pow(0x100, offset), count);
    assert b[..count] == b;
  }

  // ---- which end comes first --------------------------------------------

  /** The first byte counts most. */
  lemma {:induction false} FirstByte(b: Byte, rest: seq<Byte>)
    ensures BigValue([b] + rest) == b * Pow(0x100, |rest|) + BigValue(rest)
    decreases |rest|
  {
    var all := [b] + rest;
    if rest == [] {
      assert all[..0] == [];
    } else {
      var n := |rest| - 1;
      assert all[..|all| - 1] == [b] + rest[..n] && all[|all| - 1] == rest[n];
      FirstByte(b, rest[..n]);
      assert (b * Pow(0x100, n) + BigValue(rest[..n])) * 0x100
        == b * (0x100 * Pow(0x100, n)) + BigValue(rest[..n]) * 0x100;
    }
  }

  /** The i-th byte of a number in a buffer. */
  lemma {:induction false} ByteAt(n: nat, width: nat, i: nat)
    requires i < width
    ensures Pow(0x100, width - 1 - i) > 0 && BigBytes(n, width)[i] == n / Pow(0x100, width - 1 - i) % 0x100
    decreases width
  {
    PowPositive(0x100, width - 1 - i);
    if i < width - 1 {
      PowPositive(0x100, width - 2 - i);
      ByteAt(n / 0x100, width - 1, i);
      DivTwice(n, 0x100, Pow(0x100, width - 2 - i));
    } else {
      assert n / 1 == n;
    }
  }
}
