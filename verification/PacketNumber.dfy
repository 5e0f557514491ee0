/** Truncation and expansion of packet numbers in lib/src/pkt.c (section 17.1 and
    appendix A of RFC 9000). */
module PacketNumber {
  import opened Varint

  const PKT_NR_LIMIT: nat := 0x4000_0000_0000_0000

  /** needed_pkt_nr_len; lgAcked is -1 while nothing has been acked. */
  function NeededPktNrLen(lgAcked: int, n: nat): (r: nat)
    requires lgAcked <= n
    ensures 1 <= r <= 4
    ensures var d := (n - (if lgAcked < 0 then 0 else lgAcked)) * 2;
            (d < Pow256(4) ==> d < Pow256(r)) && (r > 1 ==> d >= Pow256(r - 1))
  {
    Powers();
    var d := (n - (if lgAcked < 0 then 0 else lgAcked)) * 2;
    if d <= 0xff then 1 else if d <= 0xffff then 2 else if d <= 0xff_ffff then 3 else 4
  }

  /** The low bytes of the number, as enc_pkt writes them. */
  function Truncate(n: nat, len: nat): (r: seq<Byte>)
    ensures |r| == len
  {
    BigEndian(n, len)
  }

  /** undo_hp: the number meant by `tr` in a field of `len` bytes when `expected` is
      the next number. */
  function Expand(expected: nat, len: nat, tr: nat): (r: int)
  {
    var win := Pow256(len);
    var c := expected - expected % win + tr;
    if c + win / 2 <= expected && c + win / 2 < PKT_NR_LIMIT then c + win
    else if c > expected + win / 2 && c >= win then c - win
    else c
  }

  /** When `n` can be told from its low bytes: it is less than half a window behind
      and at most half a window ahead of the expected number, or it is in the same
      block and the correction is held back at the low or high end of the range. */
  ghost predicate Recoverable(expected: nat, len: nat, n: nat)
  {
    var win := Pow256(len);
    || (expected < n + win / 2 && n <= expected + win / 2)
    || (n / win == expected / win && n > expected + win / 2 && n < win)
    || (n / win == expected / win && n + win / 2 <= expected && n + win / 2 >= PKT_NR_LIMIT)
  }

  lemma ExpandExact1(e: nat, n: nat)
    requires n < PKT_NR_LIMIT && Pow256(1) == 0x100
    ensures Expand(e, 1, n % 0x100) == n <==> Recoverable(e, 1, n)
  {
  }

  lemma ExpandExact2(e: nat, n: nat)
    requires n < PKT_NR_LIMIT && Pow256(2) == 0x1_0000
    ensures Expand(e, 2, n % 0x1_0000) == n <==> Recoverable(e, 2, n)
  {
  }

  lemma ExpandExact3(e: nat, n: nat)
    requires n < PKT_NR_LIMIT && Pow256(3) == 0x100_0000
    ensures Expand(e, 3, n % 0x100_0000) == n <==> Recoverable(e, 3, n)
  {
  }

  lemma ExpandExact4(e: nat, n: nat)
    requires n < PKT_NR_LIMIT && Pow256(4) == 0x1_0000_0000
    ensures Expand(e, 4, n % 0x1_0000_0000) == n <==> Recoverable(e, 4, n)
  {
  }

  /** Expansion undoes truncation for exactly the recoverable numbers. */
  lemma ExpandExact(e: nat, len: nat, n: nat)
    requires n < PKT_NR_LIMIT && 1 <= len <= 4
    ensures Expand(e, len, n % Pow256(len)) == n <==> Recoverable(e, len, n)
  {
    Powers();
    if len == 1 { ExpandExact1(e, n); } else if len == 2 { ExpandExact2(e, n); }
    else if len == 3 { ExpandExact3(e, n); } else { ExpandExact4(e, n); }
  }

  lemma {:induction false} ValueOfLowBytes(v: nat, n: nat)
    ensures Value(BigEndian(v, n)) == v % Pow256(n)
  {
    if n > 0 {
      ValueOfLowBytes(v / 256, n - 1);
      assert BigEndian(v, n)[..n - 1] == BigEndian(v / 256, n - 1);
      ModSplit(v, Pow256(n - 1));
    }
  }

  lemma ModSplit(v: nat, m: nat)
    requires m > 0
    ensures v % (256 * m) == v / 256 % m * 256 + v % 256
  {
    var q, r := v / 256 / m, v / 256 % m;
    assert v == (q * m + r) * 256 + v % 256;
    assert v == q * (256 * m) + (r * 256 + v % 256);
    assert r * 256 + v % 256 < 256 * m;
    Remainder(v, 256 * m, q, r * 256 + v % 256);
  }

  lemma SmallMultiple(k: int, m: int)
    requires m > 0 && -m < k * m < m
    ensures k == 0
  {
  }

  lemma Remainder(v: nat, m: nat, q: nat, r: nat)
    requires m > 0 && v == q * m + r && r < m
    ensures v % m == r
  {
    var q', r' := v / m, v % m;
    assert v == q' * m + r';
    assert (q - q') * m == r' - r;
    SmallMultiple(q - q', m);
  }

  /** Round trip (appendix A of RFC 9000): the length that the sender chooses is enough
      for every receiver that expects a number above the largest acked one and for which
      the packet is less than half a window late.  NumberRuns shows that the first always
      holds. */
  lemma RecoversNumber(lgAcked: int, n: nat, expected: nat)
    requires lgAcked <= n < PKT_NR_LIMIT && n - (if lgAcked < 0 then 0 else lgAcked) < 0x8000_0000
    requires lgAcked < expected && expected < n + Pow256(NeededPktNrLen(lgAcked, n)) / 2
    ensures var len := NeededPktNrLen(lgAcked, n);
            Expand(expected, len, Value(Truncate(n, len))) == n
  {
    var len := NeededPktNrLen(lgAcked, n);
    Powers();
    ValueOfLowBytes(n, len);
    ExpandExact(expected, len, n);
  }

  /** A packet half a window late is taken for one a window ahead. */
  lemma LateExample()
    ensures Expand(200, 1, 72) == 328
  {
    Powers();
  }
}
