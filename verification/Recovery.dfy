/** Packet bookkeeping of lib/src/recovery.c, lib/src/pn.c, rtx_pkt in
    lib/src/conn.c and free_iov in lib/src/quic.c, as transitions on values. */
module Recovery {

  const MIN_INI_LEN: nat := 1200
  const PN_INIT: nat := 0
  const PN_DATA: nat := 2
  const SPACES: nat := 3
  const K_PACKET_THRESHOLD: nat := 3

  /** Index into the engine's pkt_meta table. */
  type Id = nat

  /** The part of struct pkt_meta that recovery reads or writes.  `strm` says
      whether m->strm is set, `rtx` is the list of linked transmissions. */
  datatype Meta = Meta(space: nat, nr: nat, t: nat, udpLen: nat,
                       hasRtx: bool, inFlight: bool, ackEliciting: bool,
                       acked: bool, lost: bool, strm: bool, rtx: seq<Id>)

  /** struct pn_space: sent_pkts, and the sets that sent_pkt_nrs and acked_or_lost
      stand for.  -1 stands for the initial UINT_T_MAX of lg_sent and lg_acked. */
  datatype Space = Space(sent: map<nat, Id>, sentNrs: set<nat>, resolved: set<nat>,
                         lgSent: int, lgAcked: int, abandoned: bool)

  /** `meta` holds the records of transmitted packets that have not been freed. */
  datatype Conn = Conn(meta: map<Id, Meta>, sp: seq<Space>, inFlight: int, aeInFlight: int, clock: nat)

  const NEW_SPACE := Space(map[], {}, {}, -1, -1, false)
  const NEW_CONN := Conn(map[], [NEW_SPACE, NEW_SPACE, NEW_SPACE], 0, 0, 0)

  function PaddedLen(m: Meta): (r: nat)
  {
    if m.space == PN_INIT then MIN_INI_LEN else m.udpLen
  }

  /** A record in the table whose space exists. */
  predicate Known(c: Conn, id: Id)
  {
    |c.sp| == SPACES && id in c.meta && c.meta[id].space < SPACES
  }

  // ----- lib/src/pn.c

  /** pm_by_nr_ins */
  function PmByNrIns(c: Conn, id: Id): (r: Conn)
    requires Known(c, id)
  {
    var m := c.meta[id];
    var s := c.sp[m.space];
    c.(sp := c.sp[m.space := s.(sent := s.sent[m.nr := id], sentNrs := s.sentNrs + {m.nr})])
  }

  /** pm_by_nr_del; deleting a missing key changes nothing. */
  function PmByNrDel(c: Conn, id: Id): (r: Conn)
    requires Known(c, id)
  {
    var m := c.meta[id];
    var s := c.sp[m.space];
    c.(sp := c.sp[m.space := s.(sent := s.sent - {m.nr}, sentNrs := s.sentNrs - {m.nr})])
  }

  // ----- lib/src/recovery.c

  function RemoveFromInFlight(c: Conn, id: Id): (r: Conn)
    requires Known(c, id)
  {
    var m := c.meta[id];
    c.(inFlight := c.inFlight - PaddedLen(m),
       aeInFlight := if m.ackEliciting then c.aeInFlight - 1 else c.aeInFlight)
  }

  function AddToInFlight(c: Conn, id: Id): (r: Conn)
    requires Known(c, id)
  {
    var m := c.meta[id];
    c.(inFlight := c.inFlight + PaddedLen(m),
       aeInFlight := if m.ackEliciting then c.aeInFlight + 1 else c.aeInFlight)
  }

  /** diet_insert into acked_or_lost. */
  function Resolve(c: Conn, id: Id): (r: Conn)
    requires Known(c, id)
  {
    var m := c.meta[id];
    var s := c.sp[m.space];
    c.(sp := c.sp[m.space := s.(resolved := s.resolved + {m.nr})])
  }

  /** The part common to on_pkt_lost and on_pkt_acked. */
  function Settle(c: Conn, id: Id, counted: bool): (r: Conn)
    requires Known(c, id)
  {
    var c1 := if counted then RemoveFromInFlight(c, id) else c;
    PmByNrDel(Resolve(c1, id), id)
  }

  /** on_pkt_lost: `isLost` is false when a packet is merely freed. */
  function OnPktLost(c: Conn, id: Id, isLost: bool): (r: Conn)
    requires Known(c, id)
  {
    var c1 := Settle(c, id, c.meta[id].inFlight);
    if isLost then c1.(meta := c1.meta[id := c1.meta[id].(lost := true)]) else c1
  }

  /** Assignment of the next packet number in enc_pkt, then on_pkt_sent. */
  function OnPktSent(c: Conn, id: Id, now: nat, udpLen: nat): (r: Conn)
    requires Known(c, id)
  {
    var p := c.meta[id].space;
    var nr := c.sp[p].lgSent + 1;
    var m := c.meta[id].(nr := if nr >= 0 then nr else 0, t := now, udpLen := udpLen, lost := false);
    var c1 := c.(meta := c.meta[id := m], sp := c.sp[p := c.sp[p].(lgSent := nr)], clock := now);
    var c2 := PmByNrIns(c1, id);
    if m.inFlight then AddToInFlight(c2, id) else c2
  }

  // ----- lib/src/quic.c

  /** sl_remove of the first occurrence. */
  function Drop(s: seq<Id>, x: Id): (r: seq<Id>)
  {
    if s == [] then [] else if s[0] == x then s[1..] else [s[0]] + Drop(s[1..], x)
  }

  /** Forget the retransmission links of `id`: an earlier copy leaves the list of
      its successor, the latest copy releases all earlier ones. */
  function Unlink(c: Conn, id: Id): (r: map<Id, Meta>)
    requires id in c.meta
  {
    var m := c.meta[id];
    if m.rtx == [] then c.meta
    else if m.hasRtx then
      var s := m.rtx[0];
      if s in c.meta then c.meta[s := c.meta[s].(rtx := Drop(c.meta[s].rtx, id))] else c.meta
    else
      map x | x in c.meta :: if x in m.rtx then c.meta[x].(strm := false, rtx := []) else c.meta[x]
  }

  /** free_iov of a transmitted packet. */
  function FreeIov(c: Conn, id: Id): (r: Conn)
    requires Known(c, id)
  {
    var m := c.meta[id];
    var c1 := if !m.acked && !m.lost && !c.sp[m.space].abandoned then OnPktLost(c, id, false) else c;
    c1.(meta := Unlink(c1, id) - {id})
  }

  /** Does on_pkt_acked find a successor of `id` that has not been acked? */
  predicate HasPendingSuccessor(c: Conn, id: Id)
    requires Known(c, id)
  {
    var m := c.meta[id];
    m.hasRtx && m.rtx != [] && m.rtx[0] != id && Known(c, m.rtx[0]) && !c.meta[m.rtx[0]].acked
  }

  /** An earlier copy and its successor `s` change places: the record of the
      successor is marked acked under the acked number, and the earlier copy stands
      in for the successor's number and length. */
  function SwapWith(c: Conn, id: Id, s: Id): (r: Conn)
    requires Known(c, id) && Known(c, s)
  {
    var c1 := PmByNrDel(c, s);
    var m, ms := c.meta[id], c.meta[s];
    var c2 := c1.(meta := c1.meta[id := m.(nr := ms.nr, udpLen := ms.udpLen)]
                                 [s := ms.(nr := m.nr, udpLen := m.udpLen, acked := true)]);
    PmByNrIns(c2, id)
  }

  /** on_pkt_acked */
  function OnPktAcked(c: Conn, id: Id): (r: Conn)
    requires Known(c, id)
  {
    var c1 := Settle(c, id, c.meta[id].inFlight && !c.meta[id].lost);
    var m := c1.meta[id];
    if HasPendingSuccessor(c1, id) then SwapWith(c1, id, m.rtx[0])
    else
      var c2 := c1.(meta := c1.meta[id := m.(acked := true)]);
      if m.strm && !m.hasRtx then c2 else FreeIov(c2, id)
  }

  // ----- lib/src/conn.c

  /** rtx_pkt: the old transmission gets a record of its own under the spare index
      `orig`, unless the packet is already lost. */
  function RtxPkt(c: Conn, id: Id, orig: Id): (r: Conn)
    requires Known(c, id)
  {
    var m := c.meta[id];
    if m.lost then c
    else
      var o := m.(hasRtx := true, rtx := [id]);
      var c1 := PmByNrDel(c, id);
      var c2 := c1.(meta := c1.meta[id := m.(rtx := [orig] + m.rtx)][orig := o]);
      PmByNrIns(c2, orig)
  }
}
