/** The frame-parser side of websock.h: the packet types and their names,
    the websock_pkt structure with its internal parse state, and the
    operations that create, reset, grow and feed it.

    The parser is unfinished in the source: it collects at most the
    WebsockHdrSize bytes of a frame header (the largest header of section 5.2
    of RFC 6455), never decodes them, never enters the payload state, and
    always reports WebsockNotImpl. The model keeps exactly that behaviour.
    Allocation failure is a boolean parameter: oom says whether the
    allocator would fail. */
module Websock {
  import opened MmErrors
  import opened HttpParse

  const WebsockInitialSize: nat := 256
  const WebsockHdrSize: nat := 14

  /** payload_len is an unsigned long of 64 bits; storing -1 leaves its
      largest value. */
  const ULongMax: int := 0x1_0000_0000_0000_0000 - 1

  // ---------------------------------------------------------------------
  // Packet types
  // ---------------------------------------------------------------------

  /** websock_pkt_type_t: the frame opcodes the source names. */
  datatype PktType = Cont | Text | Bin | Ping | Pong

  /** The opcode each packet type stands for. */
  function Code(t: PktType): (c: nat)
    ensures c < 16
  {
    match t
    case Cont => 0
    case Text => 1
    case Bin => 2
    case Ping => 9
    case Pong => 10
  }

  /** The packet type an opcode stands for, if any. */
  function FromCode(c: int): (r: Option<PktType>)
    ensures r.Some? ==> Code(r.value) == c
  {
    if c == 0 then Some(Cont)
    else if c == 1 then Some(Text)
    else if c == 2 then Some(Bin)
    else if c == 9 then Some(Ping)
    else if c == 10 then Some(Pong)
    else None
  }

  /** Every packet type is recovered from its opcode. */
  lemma FromCodeOfCode(t: PktType)
    ensures FromCode(Code(t)) == Some(t)
  {
  }

  /** The name of a packet type, as the enumerator is spelt. */
  function EnumName(t: PktType): (r: string)
    ensures |r| > 8 && r[..8] == "WEBSOCK_"
  {
    match t
    case Cont => "WEBSOCK_CONT"
    case Text => "WEBSOCK_TEXT"
    case Bin => "WEBSOCK_BIN"
    case Ping => "WEBSOCK_PING"
    case Pong => "WEBSOCK_PONG"
  }

  const BadOp: string := "bad operation"

  /** websock_pkt_type_strs: one entry per 4-bit opcode. */
  const PktTypeStrs: seq<string> := [
    "WEBSOCK_CONT", "WEBSOCK_TEXT", "WEBSOCK_BIN",
    BadOp, BadOp, BadOp, BadOp, BadOp, BadOp,
    "WEBSOCK_PING", "WEBSOCK_PONG",
    BadOp, BadOp, BadOp, BadOp, BadOp]

  /** The table names every opcode of a packet type after its enumerator
      and every other opcode "bad operation". */
  lemma PktTypeStrsTable(c: nat)
    requires c < 16
    ensures |PktTypeStrs| == 16
    ensures PktTypeStrs[c] == (if FromCode(c).Some? then EnumName(FromCode(c).value) else BadOp)
  {
    assert |PktTypeStrs| == 16;
    if c < 3 || c == 9 || c == 10 {
      assert FromCode(c).Some?;
    } else {
      assert FromCode(c).None?;
    }
  }

  /** So "bad operation" marks exactly the opcodes no packet type has. */
  lemma PktTypeStrsBadOp(c: nat)
    requires c < 16
    ensures PktTypeStrs[c] == BadOp <==> FromCode(c).None?
  {
    PktTypeStrsTable(c);
    if FromCode(c).Some? {
      var n := EnumName(FromCode(c).value);
      assert n[0] == 'W' != BadOp[0];
    }
  }

  // ---------------------------------------------------------------------
  // The packet and its parse state
  // ---------------------------------------------------------------------

  /** websock_parse_state_t. */
  datatype ParseState = Hdr | Payload

  /** How many of len input bytes the header state takes when pos header
      bytes are already collected: as many as there are, up to a full
      header. */
  function HdrTaken(pos: int, len: int): (k: int)
    requires 0 <= pos <= WebsockHdrSize && 0 <= len
    ensures 0 <= k <= len && pos + k <= WebsockHdrSize
    ensures k < len ==> pos + k == WebsockHdrSize
  {
    if len < WebsockHdrSize - pos then len else WebsockHdrSize - pos
  }

  /** Feeding input in two pieces collects the same header bytes as feeding
      it at once. */
  lemma HdrTakenSplit(pos: int, a: int, b: int)
    requires 0 <= pos <= WebsockHdrSize && 0 <= a && 0 <= b
    ensures HdrTaken(pos, a) + HdrTaken(pos + HdrTaken(pos, a), b) == HdrTaken(pos, a + b)
  {
  }

  /** The capacity after expand_pkt_mem_to succeeds: unchanged when it
      already reaches minSz, doubled once otherwise; so it reaches minSz
      afterwards exactly when it or its double does. */
  function ExpandedCap(cap: int, minSz: int): (r: int)
    requires cap > 0
    ensures r >= cap
    ensures r >= minSz <==> cap >= minSz || 2 * cap >= minSz
    ensures r == cap || r == 2 * cap
  {
    if cap >= minSz then cap else 2 * cap
  }

  /** websock_pkt. The payload pointer is never used and is not modelled;
      base, pos, cap and state are the __internal fields. */
  class WebsockPkt {
    var pktType: PktType
    var fin: int
    var payloadLen: int
    var state: ParseState
    var base: array<char>
    var pos: int
    var cap: int

    /** cap is the size of base, never below the initial size. */
    predicate BufferOk()
      reads this
    {
      && base.Length == cap
      && WebsockInitialSize <= cap
    }

    /** The buffer is in order; nothing sets the payload state, so at most
        a header's worth of bytes is ever collected. */
    predicate Valid()
      reads this
    {
      && BufferOk()
      && state == Hdr
      && 0 <= pos <= WebsockHdrSize
      && 0 <= payloadLen <= ULongMax
    }

    /** The successful path of new_websock_pkt: a buffer of the initial
        size becomes base, and the packet is reset. */
    constructor ()
      ensures Valid()
      ensures fresh(base)
      ensures cap == WebsockInitialSize
      ensures state == Hdr && pos == 0 && payloadLen == ULongMax
    {
      pktType := Cont;
      fin := 0;
      base := new char[WebsockInitialSize];
      cap := WebsockInitialSize;
      new;
      Reset();
    }

    /** reset_websock_pkt: back to an empty header, with payload_len at its
        largest value; the buffer is kept. */
    method Reset()
      requires BufferOk()
      modifies this
      ensures Valid()
      ensures state == Hdr && pos == 0 && payloadLen == ULongMax
      ensures base == old(base) && cap == old(cap)
      ensures pktType == old(pktType) && fin == old(fin)
    {
      state := Hdr;
      pos := 0;
      payloadLen := ULongMax;
    }

    /** expand_pkt_mem_to: makes room for minSz bytes by doubling the
        buffer once, keeping its contents; HttpOom when the allocator
        fails. */
    method ExpandPktMemTo(minSz: int, err: MmErr, oom: bool) returns (err': MmErr)
      requires Valid()
      modifies this
      ensures Valid()
      ensures err.Failed() ==> err' == err
      ensures err' != MmSuccess ==> unchanged(this)
      ensures err' == MmSuccess <==> !err.Failed() && (old(cap) >= minSz || !oom)
      ensures !err.Failed() && old(cap) < minSz && oom ==> err' == HttpOom
      ensures err' == MmSuccess ==>
                && cap == ExpandedCap(old(cap), minSz)
                && (cap == old(cap) ==> unchanged(this))
                && (cap != old(cap) ==> fresh(base))
                && base[..old(cap)] == old(base[..])
                && state == old(state) && pos == old(pos) && payloadLen == old(payloadLen)
                && pktType == old(pktType) && fin == old(fin)
    {
      if err.Failed() {
        return err;
      }
      if cap >= minSz {
        return err;
      }
      if oom {
        return HttpOom;
      }
      var newBase := new char[2 * cap];
      forall i | 0 <= i < cap {
        newBase[i] := base[i];
      }
      base := newBase;
      cap := 2 * cap;
      err' := err;
    }

    /** The header state of write_to_websock_parser: bytes of buf move to
        base at pos until buf is used up or the header is complete. */
    method CollectHdr(buf: seq<char>, len: int)
      requires Valid()
      requires 0 <= len <= |buf|
      modifies this, base
      ensures Valid()
      ensures pos == old(pos) + HdrTaken(old(pos), len)
      ensures base == old(base) && cap == old(cap) && state == old(state)
      ensures forall i :: 0 <= i < base.Length ==>
                base[i] == if old(pos) <= i < pos then buf[i - old(pos)] else old(base[i])
      ensures payloadLen == old(payloadLen) && pktType == old(pktType) && fin == old(fin)
    {
      ghost var before := base[..];
      var rdPos := 0;
      while rdPos < len && pos < WebsockHdrSize
        invariant 0 <= rdPos <= len
        invariant pos == old(pos) + rdPos <= WebsockHdrSize
        invariant base == old(base) && cap == old(cap) && state == old(state)
        invariant payloadLen == old(payloadLen) && pktType == old(pktType) && fin == old(fin)
        invariant forall i :: 0 <= i < base.Length ==>
                    base[i] == if old(pos) <= i < pos then buf[i - old(pos)] else before[i]
        decreases len - rdPos
      {
        base[pos] := buf[rdPos];
        pos := pos + 1;
        rdPos := rdPos + 1;
      }
    }
  }

  /** new_websock_pkt: a reset packet with a fresh buffer of the initial
      size, or null and WebsockOom when either allocation fails. */
  method NewWebsockPkt(err: MmErr, oom: bool) returns (pkt: WebsockPkt?, err': MmErr)
    ensures pkt != null <==> err' == MmSuccess
    ensures err.Failed() ==> err' == err
    ensures !err.Failed() ==> err' == (if oom then WebsockOom else MmSuccess)
    ensures pkt != null ==>
              && fresh(pkt) && fresh(pkt.base) && pkt.Valid()
              && pkt.cap == WebsockInitialSize
              && pkt.state == Hdr && pkt.pos == 0 && pkt.payloadLen == ULongMax
  {
    if err.Failed() {
      return null, err;
    }
    if oom {
      return null, WebsockOom;
    }
    pkt := new WebsockPkt();
    err' := err;
  }

  /** write_to_websock_parser(pkt, buf, len, err). It always returns -1.
      After the argument checks and the buffer expansion it copies as many
      of the len bytes of buf as fit into the header, and then reports
      WebsockNotImpl. buf, when present, holds at least len bytes. */
  method WriteToWebsockParser(pkt: WebsockPkt?, buf: Option<seq<char>>, len: int,
                              err: MmErr, oom: bool)
    returns (rc: int, err': MmErr)
    requires pkt != null ==> pkt.Valid()
    requires buf.Some? && 0 <= len ==> len <= |buf.value|
    modifies if pkt == null then {} else {pkt, pkt.base}
    ensures rc == -1
    ensures pkt != null ==> pkt.Valid()
    ensures err.Failed() ==> err' == err
    ensures !err.Failed() && (pkt == null || buf.None?) ==> err' == WebsockNullArg
    ensures !err.Failed() && pkt != null && buf.Some? && len < 0 ==> err' == WebsockInvalidArg
    ensures !err.Failed() && pkt != null && buf.Some? && 0 <= len ==>
              err' == (if old(pkt.cap) < old(pkt.pos) + len && oom then HttpOom else WebsockNotImpl)
    ensures pkt != null && (err.Failed() || err' != WebsockNotImpl) ==>
              unchanged(pkt) && pkt.base[..] == old(pkt.base[..])
    ensures !err.Failed() && err' == WebsockNotImpl ==>
              && pkt != null && buf.Some? && 0 <= len
              && var k := HdrTaken(old(pkt.pos), len);
                 && pkt.pos == old(pkt.pos) + k
                 && pkt.cap == ExpandedCap(old(pkt.cap), old(pkt.pos) + len)
                 && pkt.state == Hdr && pkt.payloadLen == old(pkt.payloadLen)
                 && pkt.pktType == old(pkt.pktType) && pkt.fin == old(pkt.fin)
                 && (pkt.cap == old(pkt.cap) ==> pkt.base == old(pkt.base))
                 && (pkt.cap != old(pkt.cap) ==> fresh(pkt.base))
                 && forall i :: 0 <= i < old(pkt.cap) ==>
                      pkt.base[i] == (if old(pkt.pos) <= i < pkt.pos then buf.value[i - old(pkt.pos)]
                                      else old(pkt.base[i]))
  {
    if err.Failed() {
      return -1, err;
    }
    if pkt == null || buf.None? {
      return -1, WebsockNullArg;
    }
    if len < 0 {
      return -1, WebsockInvalidArg;
    }

    var e := pkt.ExpandPktMemTo(pkt.pos + len, err, oom);
    if e.Failed() {
      return -1, e;
    }

    assert forall i :: 0 <= i < old(pkt.cap) ==> pkt.base[i] == old(pkt.base[i]) by {
      forall i | 0 <= i < old(pkt.cap)
        ensures pkt.base[i] == old(pkt.base[i])
      {
        assert pkt.base[..old(pkt.cap)][i] == old(pkt.base[..])[i];
      }
    }
    if pkt.state == Hdr {
      pkt.CollectHdr(buf.value, len);
    }

    // Nothing sets the payload state, so its copy loop never runs.
    if pkt.state == Payload {
      assert false;
    }

    return -1, WebsockNotImpl;
  }
}
