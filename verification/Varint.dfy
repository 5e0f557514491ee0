/** Variable-length integers of lib/src/marshall.c (section 16 of RFC 9000). */
module Varint {
  import opened Ivals

  type Byte = b: int | 0 <= b < 256

  const VARINT_LIMIT: nat := 0x4000_0000_0000_0000

  // ----- bytes of a value

  function Pow256(k: nat): (r: nat)
    ensures r > 0
  {
    if k == 0 then 1 else 256 * Pow256(k - 1)
  }

  /** `v >> 8 * k` */
  function Shr8(v: nat, k: nat): (r: nat)
  {
    if k == 0 then v else Shr8(v / 256, k - 1)
  }

  /** The last `n` bytes of `v`, most significant first. */
  function BigEndian(v: nat, n: nat): (r: seq<Byte>)
    ensures |r| == n
  {
    if n == 0 then [] else BigEndian(v / 256, n - 1) + [v % 256]
  }

  function Value(b: seq<Byte>): (r: nat)
  {
    if b == [] then 0 else Value(b[..|b| - 1]) * 256 + b[|b| - 1]
  }

  lemma {:induction false} ByteAt(v: nat, n: nat, k: nat)
    requires k < n
    ensures BigEndian(v, n)[n - 1 - k] == Shr8(v, k) % 256
  {
    if k > 0 { ByteAt(v / 256, n - 1, k - 1); }
  }

  lemma {:induction false} ShrBelow(v: nat, k: nat, m: nat)
    requires v < m * Pow256(k)
    ensures Shr8(v, k) < m
  {
    if k > 0 {
      assert m * Pow256(k) == 256 * (m * Pow256(k - 1));
      ShrBelow(v / 256, k - 1, m);
    }
  }

  lemma {:induction false} ValueOfBytes(v: nat, n: nat)
    requires v < Pow256(n)
    ensures Value(BigEndian(v, n)) == v
  {
    if n > 0 {
      ValueOfBytes(v / 256, n - 1);
      assert BigEndian(v, n)[..n - 1] == BigEndian(v / 256, n - 1);
    }
  }

  lemma {:induction false} LeadingZeros(v: nat, n: nat, k: nat)
    requires v < Pow256(n)
    ensures BigEndian(v, k + n) == Zeros(k) + BigEndian(v, n)
  {
    if n > 0 {
      LeadingZeros(v / 256, n - 1, k);
    } else if k > 0 {
      LeadingZeros(v, 0, k - 1);
      assert BigEndian(0, k) == Zeros(k - 1) + [0] == Zeros(k);
    }
  }

  function Zeros(k: nat): (r: seq<Byte>)
  {
    seq(k, i => 0)
  }

  // ----- the encoder

  /** varint_size selects the length with bit masks; on values below 2^62 the masks
      are thresholds. */
  lemma MasksAreThresholds(v: bv64)
    requires v & 0xc000_0000_0000_0000 == 0
    ensures v & 0x3fff_ffff_c000_0000 != 0 <==> v >= 0x4000_0000
    ensures v < 0x4000_0000 ==> (v & 0x3fff_c000 != 0 <==> v >= 0x4000)
    ensures v < 0x4000 ==> (v & 0x3fc0 != 0 <==> v >= 0x40)
  {
  }

  predicate Width(len: nat)
  {
    len == 1 || len == 2 || len == 4 || len == 8
  }

  /** The least width that can hold `v`. */
  function VarintSize(v: nat): (r: nat)
    ensures Width(r)
    ensures v < VARINT_LIMIT ==> forall len :: Width(len) ==> (v < Capacity(len) <==> r <= len)
  {
    if v >= 0x4000_0000 then 8 else if v >= 0x4000 then 4 else if v >= 0x40 then 2 else 1
  }

  /** One more than the largest value a form of `len` bytes can hold. */
  function Capacity(len: nat): (r: nat)
  {
    if len == 8 then VARINT_LIMIT else if len == 4 then 0x4000_0000 else if len == 2 then 0x4000
    else if len == 1 then 0x40 else 0
  }

  function Tag(len: nat): (r: nat)
  {
    if len == 8 then 0xc0 else if len == 4 then 0x80 else if len == 2 then 0x40 else 0
  }

  /** encv: the bytes of `v`, the two top bits of the first saying how many. */
  function EncodeV(v: nat): (r: seq<Byte>)
    ensures |r| == VarintSize(v)
  {
    Tagged(BigEndian(v, VarintSize(v)))
  }

  /** encvl: a form of exactly `len` bytes. */
  function EncodeVl(v: nat, len: nat): (r: seq<Byte>)
    requires Width(len) && VarintSize(v) <= len
    ensures |r| == len
  {
    if VarintSize(v) == len then EncodeV(v)
    else if len == 2 then [0x40, v % 0x100]
    else if len == 4 then [0x80, 0] + BigEndian(v, 2)
    else [0xc0, 0, 0, 0] + BigEndian(v, 4)
  }

  lemma PaddedForm(v: nat, h: nat)
    requires v < Pow256(h) && h > 0
    ensures BigEndian(v, 2 * h) == [0] + Zeros(h - 1) + BigEndian(v, h)
  {
    LeadingZeros(v, h, h);
    assert Zeros(h) == [0] + Zeros(h - 1);
    assert 2 * h == h + h;
  }

  /** `b` with the length tag in its first byte. */
  function Tagged(b: seq<Byte>): (r: seq<Byte>)
    requires Width(|b|)
    ensures |r| == |b|
  {
    [b[0] % 0x40 + Tag(|b|)] + b[1..]
  }

  /** The wider forms are the same bytes behind zeros. */
  lemma WiderForm(v: nat, len: nat)
    requires Width(len) && v < VARINT_LIMIT && VarintSize(v) <= len
    ensures EncodeVl(v, len) == Tagged(BigEndian(v, len))
  {
    if VarintSize(v) < len {
      Powers();
      PaddedForm(v, len / 2);
      WiderFormBytes(v, len);
    }
  }

  lemma WiderFormBytes(v: nat, len: nat)
    requires Width(len) && v < VARINT_LIMIT && VarintSize(v) < len
    requires BigEndian(v, len) == [0] + Zeros(len / 2 - 1) + BigEndian(v, len / 2)
    ensures EncodeVl(v, len) == Tagged(BigEndian(v, len))
  {
    var low := BigEndian(v, len / 2);
    TagBefore(len, Zeros(len / 2 - 1), low);
    if len == 2 {
      assert low == [v % 256];
    } else if len == 4 {
      assert [0x80] + Zeros(1) == [0x80, 0];
    } else {
      assert [0xc0] + Zeros(3) == [0xc0, 0, 0, 0];
    }
  }

  lemma TagBefore(len: nat, z: seq<Byte>, low: seq<Byte>)
    requires Width(len) && 1 + |z| + |low| == len
    ensures Tagged([0] + z + low) == [Tag(len)] + z + low
  {
    HeadApart(0, z, low);
    HeadApart(Tag(len), z, low);
  }

  lemma HeadApart<T>(x: T, z: seq<T>, low: seq<T>)
    ensures [x] + z + low == [x] + (z + low) && ([x] + (z + low))[1..] == z + low
  {
  }

  // ----- the decoder

  /** The value decv reads from a form: in the 8-byte form the second byte is added
      twice. */
  function ReadV(b: seq<Byte>): (r: nat)
    requires Width(|b|)
  {
    var second: int := if |b| == 8 then b[1] else 0;
    Value([b[0] % 0x40] + b[1..]) + second * 0x1_0000_0000_0000
  }

  /** The length that the two top bits of the first byte announce. */
  function Announced(b: Byte): (r: nat)
    ensures Width(r)
  {
    if b >= 0xc0 then 8 else if b >= 0x80 then 4 else if b >= 0x40 then 2 else 1
  }

  /** decv: value and new position, or None when the form does not end by `end`. */
  function DecodeV(s: seq<Byte>, pos: nat, end: nat): (r: Option<(nat, nat)>)
    requires end <= |s|
    ensures r.Some? ==> pos < r.value.1 <= end
  {
    if pos >= end || pos + Announced(s[pos]) > end then None
    else
      var n := Announced(s[pos]);
      Some((ReadV(s[pos..pos + n]), pos + n))
  }

  // ----- round trip

  /** Bits 48 to 55, in place. */
  function Repeated(v: nat): (r: nat)
  {
    Shr8(v, 6) % 0x100 * 0x1_0000_0000_0000
  }

  /** What decv reads where `v` was written. */
  function Seen(v: nat): (r: nat)
  {
    v + Repeated(v)
  }

  /** A value decv gives back. */
  predicate Plain(v: nat)
  {
    v < VARINT_LIMIT && Repeated(v) == 0
  }

  lemma Powers()
    ensures Pow256(1) == 0x100 && Pow256(2) == 0x1_0000 && Pow256(3) == 0x100_0000 && Pow256(4) == 0x1_0000_0000
    ensures Pow256(6) == 0x1_0000_0000_0000 && Pow256(7) == 0x100_0000_0000_0000
    ensures Pow256(8) == 0x1_0000_0000_0000_0000
  {
    assert Pow256(3) == 256 * Pow256(2);
    assert Pow256(4) == 256 * Pow256(3);
    assert Pow256(5) == 256 * Pow256(4);
    assert Pow256(6) == 256 * Pow256(5);
    assert Pow256(7) == 256 * Pow256(6);
    assert Pow256(8) == 256 * Pow256(7);
  }

  /** Everything below 2^48 is given back. */
  lemma BelowIsPlain(v: nat)
    requires v < 0x1_0000_0000_0000
    ensures Plain(v)
  {
    Powers();
    ShrBelow(v, 6, 1);
  }

  /** The tag bits are free in every permitted form. */
  lemma TopFree(v: nat, len: nat)
    requires Width(len) && v < Capacity(len)
    ensures v < Pow256(len) && BigEndian(v, len)[0] < 0x40
  {
    Powers();
    ShrBelow(v, len - 1, 0x40);
    ByteAt(v, len, len - 1);
  }

  lemma Untag(b: seq<Byte>)
    requires Width(|b|) && b[0] < 0x40
    ensures [Tagged(b)[0] % 0x40] + Tagged(b)[1..] == b && Announced(Tagged(b)[0]) == |b|
    ensures |b| == 8 ==> Tagged(b)[1] == b[1]
  {
  }

  /** Every form reads back as the value plus bits 48 to 55 once more. */
  lemma ReadEncoded(v: nat, len: nat)
    requires v < VARINT_LIMIT && Width(len) && VarintSize(v) <= len
    ensures Announced(EncodeVl(v, len)[0]) == len
    ensures ReadV(EncodeVl(v, len)) == v + Repeated(v)
  {
    var b := BigEndian(v, len);
    WiderForm(v, len);
    TopFree(v, len);
    ValueOfBytes(v, len);
    Untag(b);
    if len == 8 {
      ByteAt(v, 8, 6);
    } else {
      BelowIsPlain(v);
    }
  }

  lemma Slice(a: seq<Byte>, b: seq<Byte>, c: seq<Byte>)
    ensures (a + b + c)[|a|..|a| + |b|] == b
  {
  }

  /** Round trip in place: decv consumes exactly the bytes written, and yields the
      value if and only if bits 48 to 55 are zero. */
  lemma RoundTrip(v: nat, len: nat, before: seq<Byte>, after: seq<Byte>, end: nat)
    requires v < VARINT_LIMIT && Width(len) && VarintSize(v) <= len
    requires |before| + len <= end <= |before| + len + |after|
    ensures DecodeV(before + EncodeVl(v, len) + after, |before|, end) == Some((v + Repeated(v), |before| + len))
    ensures Plain(v) <==> DecodeV(before + EncodeVl(v, len) + after, |before|, end) == Some((v, |before| + len))
  {
    var e := EncodeVl(v, len);
    ReadEncoded(v, len);
    Slice(before, e, after);
    assert (before + e + after)[|before|] == e[0];
  }

  lemma RepeatedBit()
    ensures Seen(0x1_0000_0000_0000) == 0x2_0000_0000_0000
  {
    assert Shr8(0x1_0000_0000_0000, 6) == Shr8(0x100_0000_0000, 5) == Shr8(0x1_0000_0000, 4) == Shr8(0x100_0000, 3);
    assert Shr8(0x100_0000, 3) == Shr8(0x1_0000, 2) == Shr8(0x100, 1) == 1;
  }

  /** 2^48 is written and read back as 2^49. */
  lemma RepeatedByteExample()
    ensures DecodeV(EncodeV(0x1_0000_0000_0000), 0, 8) == Some((0x2_0000_0000_0000, 8))
  {
    var v := 0x1_0000_0000_0000;
    RoundTrip(v, 8, [], [], 8);
    assert [] + EncodeVl(v, 8) + [] == EncodeV(v);
    RepeatedBit();
  }

  /** A form of any width that would run past the end is refused. */
  lemma CutOff(v: nat, len: nat, before: seq<Byte>, end: nat)
    requires v < VARINT_LIMIT && Width(len) && VarintSize(v) <= len && |before| <= end < |before| + len
    ensures DecodeV(before + EncodeVl(v, len), |before|, end) == None
  {
    ReadEncoded(v, len);
    if end > |before| { assert (before + EncodeVl(v, len))[|before|] == EncodeVl(v, len)[0]; }
  }

  // ----- a field in a buffer

  /** The bytes `b` are in `s` at `pos`. */
  ghost predicate At(s: seq<Byte>, pos: nat, b: seq<Byte>)
  {
    pos + |b| <= |s| && s[pos..pos + |b|] == b
  }

  lemma AtSplit(s: seq<Byte>, pos: nat, a: seq<Byte>, b: seq<Byte>)
    requires At(s, pos, a + b)
    ensures At(s, pos, a) && At(s, pos + |a|, b)
  {
    assert s[pos..pos + |a|] == (a + b)[..|a|];
    assert s[pos + |a|..pos + |a| + |b|] == (a + b)[|a|..];
  }

  /** decv finds what was written at `pos`, with bits 48 to 55 added once more. */
  lemma Finds(s: seq<Byte>, pos: nat, x: nat, end: nat)
    requires x < VARINT_LIMIT && At(s, pos, EncodeV(x)) && pos + |EncodeV(x)| <= end <= |s|
    ensures DecodeV(s, pos, end) == Some((Seen(x), pos + |EncodeV(x)|))
  {
    RoundTrip(x, VarintSize(x), s[..pos], s[pos + |EncodeV(x)|..], end);
    assert s == s[..pos] + EncodeV(x) + s[pos + |EncodeV(x)|..];
  }

  /** Reading a field at a position gives its value and the next position. */
  type Reader = nat -> Option<(nat, nat)>

  /** decv on the bytes of `s` up to `end`. */
  function Decoder(s: seq<Byte>, end: nat): (r: Reader)
    requires end <= |s|
  {
    (pos: nat) => DecodeV(s, pos, end)
  }

  // ----- through a moving position

  /** A run of `n` bytes of `v` into a buffer, most significant first. */
  method PutBytes(buf: array<Byte>, pos: nat, v: nat, n: nat)
    requires pos + n <= buf.Length
    modifies buf
    ensures buf[..] == old(buf[..pos]) + BigEndian(v, n) + old(buf[pos + n..])
  {
    var k := 0;
    while k < n
      invariant 0 <= k <= n
      invariant forall i :: 0 <= i < buf.Length ==>
        buf[i] == if pos <= i < pos + k then BigEndian(v, n)[i - pos] else old(buf[i])
    {
      ByteAt(v, n, n - 1 - k);
      buf[pos + k] := Shr8(v, n - 1 - k) % 256;
      k := k + 1;
    }
  }

  /** encv into a buffer. */
  method EncV(buf: array<Byte>, pos: nat, v: nat) returns (next: nat)
    requires v < VARINT_LIMIT && pos + VarintSize(v) <= buf.Length
    modifies buf
    ensures next == pos + VarintSize(v)
    ensures buf[..] == old(buf[..pos]) + EncodeV(v) + old(buf[next..])
  {
    var n := VarintSize(v);
    PutBytes(buf, pos, v, n);
    buf[pos] := buf[pos] % 0x40 + Tag(n);
    next := pos + n;
    ghost var b := BigEndian(v, n);
    assert Tagged(b) == b[0 := b[0] % 0x40 + Tag(n)];
  }
}
