/** STREAM and CRYPTO frames on the wire: enc_stream_or_crypto_frame and the parsing part
    of dec_stream_or_crypto_frame in lib/src/frame.c (sections 19.6 and 19.8 of RFC 9000). */
module StreamCodec {
  import opened Ivals
  import opened Varint
  import opened Streams

  const FRM_CRY: Byte := 0x06
  const FRM_STR: Byte := 0x08
  const F_STREAM_FIN: nat := 0x01
  const F_STREAM_LEN: nat := 0x02
  const F_STREAM_OFF: nat := 0x04

  /** A frame and the stream it is for; None is the crypto stream, which has no FIN. */
  datatype Wire = Wire(sid: Option<nat>, frame: Frame)

  // ----- encoding

  /** The offset field is left out at the start of a stream. */
  predicate HasOff(w: Wire)
  {
    w.sid.None? || w.frame.off != 0
  }

  /** The length field is left out when the data is `full`, as much as a packet takes. */
  predicate HasLen(w: Wire, full: nat)
  {
    w.sid.None? || |w.frame.data| != full
  }

  function FrameType(w: Wire, full: nat): (r: Byte)
  {
    if w.sid.None? then FRM_CRY
    else
      FRM_STR + (if HasOff(w) then F_STREAM_OFF else 0) + (if HasLen(w, full) then F_STREAM_LEN else 0)
      + (if w.frame.fin then F_STREAM_FIN else 0)
  }

  /** The type byte (section 19.8 of RFC 9000): 0x06 for CRYPTO, and for STREAM frames
      0x08 with bits for the offset, the length and the end. */
  lemma TypeIs(w: Wire, full: nat)
    ensures WireBytes(w, full)[0] ==
      if w.sid.None? then 0x06
      else 0x08 + (if w.frame.off != 0 then 4 else 0) + (if |w.frame.data| != full then 2 else 0)
           + if w.frame.fin then 1 else 0
  {
  }

  function SidBytes(w: Wire): (r: seq<Byte>)
  {
    if w.sid.Some? then EncodeV(w.sid.value) else []
  }

  function OffBytes(w: Wire): (r: seq<Byte>)
  {
    if HasOff(w) then EncodeV(w.frame.off) else []
  }

  function LenBytes(w: Wire, full: nat): (r: seq<Byte>)
  {
    if HasLen(w, full) then EncodeV(|w.frame.data|) else []
  }

  function HeaderBytes(w: Wire, full: nat): (r: seq<Byte>)
  {
    [FrameType(w, full)] + (SidBytes(w) + (OffBytes(w) + LenBytes(w, full)))
  }

  function WireBytes(w: Wire, full: nat): (r: seq<Byte>)
  {
    [FrameType(w, full)] + (SidBytes(w) + (OffBytes(w) + (LenBytes(w, full) + w.frame.data)))
  }

  lemma HeaderFirst(w: Wire, full: nat)
    ensures WireBytes(w, full) == HeaderBytes(w, full) + w.frame.data
  {
    var t, a, b, c, d := [FrameType(w, full)], SidBytes(w), OffBytes(w), LenBytes(w, full), w.frame.data;
    Associate(b, c, d);
    Associate(a, b + c, d);
    Associate(t, a + (b + c), d);
  }

  /** What can be encoded: fields below 2^62, and no more data than a packet takes. */
  ghost predicate Encodable(w: Wire, full: nat)
  {
    && w.frame.off < VARINT_LIMIT && |w.frame.data| <= full < 0x1_0000
    && (w.sid.Some? ==> w.sid.value < VARINT_LIMIT) && (w.sid.None? ==> !w.frame.fin)
  }

  // ----- parsing

  predicate Flag(t: Byte, f: nat)
    requires f == F_STREAM_FIN || f == F_STREAM_LEN || f == F_STREAM_OFF
  {
    t / f % 2 == 1
  }

  /** An optional field: its value and the position behind it, or `absent` if there is none. */
  function Field(read: Reader, pos: nat, present: bool, absent: nat): (r: Option<(nat, nat)>)
  {
    if present then read(pos) else Some((absent, pos))
  }

  /** The frame at `pos` of a packet that ends at `end`, and the position behind it. */
  function ParseFrame(s: seq<Byte>, pos: nat, end: nat): (r: Option<(Wire, nat)>)
    requires pos < end <= |s|
  {
    ParseVia(s, Decoder(s, end), pos, end)
  }

  function ParseVia(s: seq<Byte>, read: Reader, pos: nat, end: nat): (r: Option<(Wire, nat)>)
    requires pos < end <= |s|
  {
    var t := s[pos];
    var crypto := t == FRM_CRY;
    var sid := Field(read, pos + 1, !crypto, 0);
    if sid.None? then None
    else
      var off := Field(read, sid.value.1, crypto || Flag(t, F_STREAM_OFF), 0);
      if off.None? then None
      else
        var p := off.value.1;
        var len := Field(read, p, crypto || Flag(t, F_STREAM_LEN), if p <= end then end - p else 0);
        if len.None? || len.value.1 + len.value.0 > end then None
        else
          var q := len.value.1;
          var data := s[q..q + len.value.0];
          Some((Wire(if crypto then None else Some(sid.value.0),
                     Frame(off.value.0, data, !crypto && Flag(t, F_STREAM_FIN))), q + len.value.0))
  }

  // ----- round trip

  lemma TypeFlags(w: Wire, full: nat)
    ensures FrameType(w, full) == FRM_CRY <==> w.sid.None?
    ensures w.sid.Some? ==>
      && (Flag(FrameType(w, full), F_STREAM_OFF) <==> HasOff(w))
      && (Flag(FrameType(w, full), F_STREAM_LEN) <==> HasLen(w, full))
      && (Flag(FrameType(w, full), F_STREAM_FIN) <==> w.frame.fin)
  {
  }

  /** What the parser makes of a frame: sid and offset as decv reads them. */
  function SeenWire(w: Wire): (r: Wire)
  {
    Wire(if w.sid.Some? then Some(Seen(w.sid.value)) else None, w.frame.(off := Seen(w.frame.off)))
  }

  /** Where the fields of a frame lie: the offset at `b`, the length at `c`, the data at `q`. */
  ghost predicate LaidOut(w: Wire, full: nat, s: seq<Byte>, pos: nat, b: nat, c: nat, q: nat)
  {
    && b == pos + 1 + |SidBytes(w)| && c == b + |OffBytes(w)| && q == c + |LenBytes(w, full)|
    && q + |w.frame.data| <= |s| && s[pos] == FrameType(w, full) && At(s, pos + 1, SidBytes(w))
    && At(s, b, OffBytes(w)) && At(s, c, LenBytes(w, full)) && At(s, q, w.frame.data)
  }

  lemma FieldsAt(w: Wire, full: nat, s: seq<Byte>, pos: nat, b: nat, c: nat, q: nat)
    requires At(s, pos, WireBytes(w, full))
    requires b == pos + 1 + |SidBytes(w)| && c == b + |OffBytes(w)| && q == c + |LenBytes(w, full)|
    ensures LaidOut(w, full, s, pos, b, c, q) && q + |w.frame.data| == pos + |WireBytes(w, full)|
  {
    var t, x, y, z, d := [FrameType(w, full)], SidBytes(w), OffBytes(w), LenBytes(w, full), w.frame.data;
    AtSplit(s, pos, t, x + (y + (z + d)));
    AtSplit(s, pos + 1, x, y + (z + d));
    AtSplit(s, b, y, z + d);
    AtSplit(s, c, z, d);
    assert s[pos..pos + 1][0] == s[pos];
  }

  /** The stream of `w` is read at `a`, and `b` is behind it. */
  ghost predicate SidRead(w: Wire, read: Reader, a: nat, b: nat)
  {
    var r := Field(read, a, w.sid.Some?, 0);
    r.Some? && r.value.1 == b && (w.sid.Some? ==> r.value.0 == Seen(w.sid.value))
  }

  ghost predicate OffRead(w: Wire, read: Reader, b: nat, c: nat)
  {
    Field(read, b, HasOff(w), 0) == Some((Seen(w.frame.off), c))
  }

  ghost predicate LenRead(w: Wire, full: nat, read: Reader, end: nat, c: nat, q: nat)
  {
    c <= end && Field(read, c, HasLen(w, full), end - c) == Some((|w.frame.data|, q))
  }

  lemma SidFound(w: Wire, full: nat, s: seq<Byte>, pos: nat, end: nat)
    requires Encodable(w, full) && At(s, pos, SidBytes(w)) && pos + |SidBytes(w)| <= end <= |s|
    ensures SidRead(w, Decoder(s, end), pos, pos + |SidBytes(w)|)
  {
    if w.sid.Some? { Finds(s, pos, w.sid.value, end); }
  }

  lemma OffFound(w: Wire, full: nat, s: seq<Byte>, pos: nat, end: nat)
    requires Encodable(w, full) && At(s, pos, OffBytes(w)) && pos + |OffBytes(w)| <= end <= |s|
    ensures OffRead(w, Decoder(s, end), pos, pos + |OffBytes(w)|)
  {
    if HasOff(w) { Finds(s, pos, w.frame.off, end); } else { BelowIsPlain(0); }
  }

  lemma LenFound(w: Wire, full: nat, s: seq<Byte>, pos: nat, end: nat)
    requires Encodable(w, full) && At(s, pos, LenBytes(w, full))
    requires pos + |LenBytes(w, full)| + |w.frame.data| <= end <= |s|
    requires !HasLen(w, full) ==> pos + |w.frame.data| == end
    ensures LenRead(w, full, Decoder(s, end), end, pos, pos + |LenBytes(w, full)|)
  {
    if HasLen(w, full) {
      BelowIsPlain(|w.frame.data|);
      Finds(s, pos, |w.frame.data|, end);
    }
  }

  lemma FieldsFound(w: Wire, full: nat, s: seq<Byte>, pos: nat, end: nat, b: nat, c: nat, q: nat)
    requires Encodable(w, full) && LaidOut(w, full, s, pos, b, c, q) && q + |w.frame.data| <= end <= |s|
    requires !HasLen(w, full) ==> q + |w.frame.data| == end
    ensures SidRead(w, Decoder(s, end), pos + 1, b) && OffRead(w, Decoder(s, end), b, c)
    ensures LenRead(w, full, Decoder(s, end), end, c, q)
  {
    SidLaid(w, full, s, pos, end, b, c, q);
    OffLaid(w, full, s, pos, end, b, c, q);
    LenLaid(w, full, s, pos, end, b, c, q);
  }

  lemma SidLaid(w: Wire, full: nat, s: seq<Byte>, pos: nat, end: nat, b: nat, c: nat, q: nat)
    requires Encodable(w, full) && LaidOut(w, full, s, pos, b, c, q) && q + |w.frame.data| <= end <= |s|
    ensures SidRead(w, Decoder(s, end), pos + 1, b)
  {
    SidFound(w, full, s, pos + 1, end);
  }

  lemma OffLaid(w: Wire, full: nat, s: seq<Byte>, pos: nat, end: nat, b: nat, c: nat, q: nat)
    requires Encodable(w, full) && LaidOut(w, full, s, pos, b, c, q) && q + |w.frame.data| <= end <= |s|
    ensures OffRead(w, Decoder(s, end), b, c)
  {
    OffFound(w, full, s, b, end);
  }

  lemma LenLaid(w: Wire, full: nat, s: seq<Byte>, pos: nat, end: nat, b: nat, c: nat, q: nat)
    requires Encodable(w, full) && LaidOut(w, full, s, pos, b, c, q) && q + |w.frame.data| <= end <= |s|
    requires !HasLen(w, full) ==> q + |w.frame.data| == end
    ensures LenRead(w, full, Decoder(s, end), end, c, q)
  {
    LenFound(w, full, s, c, end);
  }

  lemma ParseFields(w: Wire, full: nat, s: seq<Byte>, read: Reader, pos: nat, end: nat, b: nat, c: nat, q: nat)
    requires pos < end <= |s| && s[pos] == FrameType(w, full) && At(s, q, w.frame.data) && Encodable(w, full)
    requires SidRead(w, read, pos + 1, b) && OffRead(w, read, b, c) && LenRead(w, full, read, end, c, q)
    requires q + |w.frame.data| <= end
    ensures ParseVia(s, read, pos, end) == Some((SeenWire(w), q + |w.frame.data|))
  {
    TypeFlags(w, full);
  }

  /** Parsing finds the frame that was written, with stream and offset as decv reads them,
      and stops behind it.  A frame without a length field has to end the packet. */
  lemma ParseSeen(w: Wire, full: nat, s: seq<Byte>, pos: nat, end: nat)
    requires Encodable(w, full) && At(s, pos, WireBytes(w, full)) && pos + |WireBytes(w, full)| <= end <= |s|
    requires !HasLen(w, full) ==> pos + |WireBytes(w, full)| == end
    ensures ParseFrame(s, pos, end) == Some((SeenWire(w), pos + |WireBytes(w, full)|))
  {
    var b := pos + 1 + |SidBytes(w)|;
    var c := b + |OffBytes(w)|;
    var q := c + |LenBytes(w, full)|;
    FieldsAt(w, full, s, pos, b, c, q);
    ParseFound(w, full, s, pos, end, b, c, q);
  }

  lemma ParseFound(w: Wire, full: nat, s: seq<Byte>, pos: nat, end: nat, b: nat, c: nat, q: nat)
    requires Encodable(w, full) && LaidOut(w, full, s, pos, b, c, q) && q + |w.frame.data| <= end <= |s|
    requires !HasLen(w, full) ==> q + |w.frame.data| == end
    ensures ParseFrame(s, pos, end) == Some((SeenWire(w), q + |w.frame.data|))
  {
    FieldsFound(w, full, s, pos, end, b, c, q);
    ParseFields(w, full, s, Decoder(s, end), pos, end, b, c, q);
  }

  lemma SeenSame(w: Wire)
    requires w.frame.off < VARINT_LIMIT && (w.sid.Some? ==> w.sid.value < VARINT_LIMIT)
    ensures SeenWire(w) == w <==> Plain(w.frame.off) && (w.sid.Some? ==> Plain(w.sid.value))
  {
  }

  /** The frame comes back if and only if decv gives back its stream and offset. */
  lemma WireRoundTrip(w: Wire, full: nat, s: seq<Byte>, pos: nat, end: nat)
    requires Encodable(w, full) && At(s, pos, WireBytes(w, full)) && pos + |WireBytes(w, full)| <= end <= |s|
    requires !HasLen(w, full) ==> pos + |WireBytes(w, full)| == end
    ensures ParseFrame(s, pos, end) == Some((w, pos + |WireBytes(w, full)|)) <==>
            Plain(w.frame.off) && (w.sid.Some? ==> Plain(w.sid.value))
  {
    ParseSeen(w, full, s, pos, end);
    SeenSame(w);
  }

  /** A frame at offset 2^48 is taken for one at 2^49. */
  lemma MisplacedFrameExample(sid: nat, data: seq<Byte>, full: nat)
    requires sid < 0x1_0000_0000_0000 && |data| <= full < 0x1_0000
    ensures var w := Wire(Some(sid), Frame(0x1_0000_0000_0000, data, false));
            var s := WireBytes(w, full);
            ParseFrame(s, 0, |s|) == Some((Wire(Some(sid), Frame(0x2_0000_0000_0000, data, false)), |s|))
  {
    var w := Wire(Some(sid), Frame(0x1_0000_0000_0000, data, false));
    RepeatedBit();
    BelowIsPlain(sid);
    assert SeenWire(w) == Wire(Some(sid), Frame(0x2_0000_0000_0000, data, false));
    ParseAlone(w, full, WireBytes(w, full));
  }

  /** A packet that is one frame. */
  lemma ParseAlone(w: Wire, full: nat, s: seq<Byte>)
    requires Encodable(w, full) && s == WireBytes(w, full)
    ensures |s| > 0 && ParseFrame(s, 0, |s|) == Some((SeenWire(w), |s|))
  {
    assert s[0..|s|] == s;
    ParseSeen(w, full, s, 0, |s|);
  }

  // ----- in place

  /** `s` is `s0` with `done` written at `from`. */
  ghost predicate Writing(s0: seq<Byte>, s: seq<Byte>, from: nat, done: seq<Byte>)
  {
    from + |done| <= |s0| && s == s0[..from] + done + s0[from + |done|..]
  }

  lemma WriteMore(s0: seq<Byte>, s: seq<Byte>, from: nat, done: seq<Byte>, b: seq<Byte>, s': seq<Byte>)
    requires Writing(s0, s, from, done) && from + |done| + |b| <= |s0|
    requires s' == s[..from + |done|] + b + s[from + |done| + |b|..]
    ensures Writing(s0, s', from, done + b)
  {
    assert s[..from + |done|] == s0[..from] + done;
    assert s[from + |done| + |b|..] == s0[from + |done| + |b|..];
  }

  lemma WriteBefore(s0: seq<Byte>, s: seq<Byte>, pos: nat, t: Byte, done: seq<Byte>)
    requires Writing(s0, s, pos + 1, done)
    ensures Writing(s0, s[pos := t], pos, [t] + done)
  {
  }

  lemma AlreadyThere(s0: seq<Byte>, s: seq<Byte>, pos: nat, done: seq<Byte>, data: seq<Byte>)
    requires Writing(s0, s, pos, done) && At(s0, pos + |done|, data)
    ensures Writing(s0, s, pos, done + data)
  {
    var n := pos + |done|;
    assert s0[n..] == data + s0[n + |data|..];
  }

  /** encv, if the field is there at all. */
  method PutOptional(buf: array<Byte>, ghost s0: seq<Byte>, ghost from: nat, pos: nat, present: bool, x: nat,
                     ghost done: seq<Byte>, ghost b: seq<Byte>)
    returns (next: nat)
    requires x < VARINT_LIMIT && b == (if present then EncodeV(x) else [])
    requires |s0| == buf.Length && from + |done| == pos && Writing(s0, buf[..], from, done) && pos + |b| <= buf.Length
    modifies buf
    ensures next == pos + |b| && Writing(s0, buf[..], from, done + b)
  {
    next := pos;
    if present {
      ghost var s := buf[..];
      next := EncV(buf, pos, x);
      WriteMore(s0, s, from, done, b, buf[..]);
    } else {
      assert done + b == done;
    }
  }

  method PutFields(buf: array<Byte>, pos: nat, w: Wire, full: nat, ghost a: seq<Byte>, ghost b: seq<Byte>, ghost c: seq<Byte>)
    returns (next: nat)
    requires Encodable(w, full) && a == SidBytes(w) && b == OffBytes(w) && c == LenBytes(w, full)
    requires pos + |a| + |b| + |c| <= buf.Length
    modifies buf
    ensures next == pos + |a| + |b| + |c| && Writing(old(buf[..]), buf[..], pos, a + (b + c))
  {
    ghost var s0 := buf[..];
    assert s0 == s0[..pos] + [] + s0[pos..] && [] + a == a;
    next := PutOptional(buf, s0, pos, pos, w.sid.Some?, if w.sid.Some? then w.sid.value else 0, [], a);
    next := PutOptional(buf, s0, pos, next, HasOff(w), w.frame.off, a, b);
    next := PutOptional(buf, s0, pos, next, HasLen(w, full), |w.frame.data|, a + b, c);
    Associate(a, b, c);
  }

  lemma Associate(a: seq<Byte>, b: seq<Byte>, c: seq<Byte>)
    ensures a + b + c == a + (b + c)
  {
  }

  method PutHeader(buf: array<Byte>, pos: nat, w: Wire, full: nat) returns (next: nat)
    requires Encodable(w, full) && pos + |HeaderBytes(w, full)| <= buf.Length
    modifies buf
    ensures next == pos + |HeaderBytes(w, full)| && Writing(old(buf[..]), buf[..], pos, HeaderBytes(w, full))
  {
    ghost var fields := SidBytes(w) + (OffBytes(w) + LenBytes(w, full));
    next := PutFields(buf, pos + 1, w, full, SidBytes(w), OffBytes(w), LenBytes(w, full));
    WriteBefore(old(buf[..]), buf[..], pos, FrameType(w, full), fields);
    buf[pos] := FrameType(w, full);
  }

  /** enc_stream_or_crypto_frame: writes the header in front of data that is already in
      place, the type byte last, and nothing else. */
  method EncStreamFrame(buf: array<Byte>, pos: nat, w: Wire, full: nat) returns (next: nat)
    requires Encodable(w, full) && pos + |WireBytes(w, full)| <= buf.Length
    requires At(buf[..], pos + |HeaderBytes(w, full)|, w.frame.data)
    modifies buf
    ensures next == pos + |WireBytes(w, full)| && Writing(old(buf[..]), buf[..], pos, WireBytes(w, full))
  {
    HeaderFirst(w, full);
    next := PutHeader(buf, pos, w, full);
    AlreadyThere(old(buf[..]), buf[..], pos, HeaderBytes(w, full), w.frame.data);
    next := next + |w.frame.data|;
  }
}
