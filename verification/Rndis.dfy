/**
 The RNDIS adapter: the globals of the driver, changed by calls of the network stack and by the
 completion interrupts of the USB hardware.
 */
module Rndis {
  import opened Bits
  import opened RndisSpec

  const RNDIS_DATA_IN_EP: nat := 0x81
  const MSG_PACKET: nat := 1

  function Ld32(b: seq<Byte>, i: nat): (r: nat)
    requires i + 3 < |b|
    ensures r < DWORD_SIZE
  {
    var b0: int, b1: int, b2: int, b3: int := b[i], b[i + 1], b[i + 2], b[i + 3];
    b0 + 0x100 * b1 + 0x1_0000 * b2 + 0x100_0000 * b3
  }

  // ---- receiving ----

  /** What `handle_packet` accepts, of a buffer with `size` bytes received. */
  predicate Accepted(b: seq<Byte>, size: nat)
    requires HEADER <= |b|
  {
    && size >= HEADER && Ld32(b, 0) == MSG_PACKET
    && (Ld32(b, 4) == size || Ld32(b, 4) == size - 1)
    && (Ld32(b, 8) + DATA_OFFSET_AT + Ld32(b, 12)) % DWORD_SIZE == Ld32(b, 4)
  }

  lemma HeaderWords(n: nat, b: seq<Byte>)
    requires n < 0x1_0000 && HEADER <= |b| && b[..HEADER] == Header(n)
    ensures Ld32(b, 0) == MSG_PACKET && Ld32(b, 4) == HEADER + n && Ld32(b, 8) == HEADER - DATA_OFFSET_AT
    ensures Ld32(b, 12) == n
  {
    var h := Header(n);
    assert h[4..8] == Word32(HEADER + n) && h[8..12] == Word32(HEADER - DATA_OFFSET_AT) && h[12..16] == Word32(n);
    assert h[..4] == Word32(1);
    Ld32At(b, 0, 1);
    Ld32At(b, 4, HEADER + n);
    Ld32At(b, 8, HEADER - DATA_OFFSET_AT);
    Ld32At(b, 12, n);
  }

  lemma Ld32At(b: seq<Byte>, i: nat, v: nat)
    requires i + 4 <= |b| && b[i..i + 4] == Word32(v) && v < DWORD_SIZE
    ensures Ld32(b, i) == v
  {
    var w := b[i..i + 4];
    assert w[0] == b[i] && w[1] == b[i + 1] && w[2] == b[i + 2] && w[3] == b[i + 3];
    WordValue(v);
  }

  lemma WordValue(v: nat)
    requires v < DWORD_SIZE
    ensures v == v % 0x100 + 0x100 * (v / 0x100 % 0x100) + 0x1_0000 * (v / 0x1_0000 % 0x100) +
                 0x100_0000 * (v / 0x100_0000 % 0x100)
  {
    ModSplit(v, 0x100, 0x100);
    ModSplit(v, 0x1_0000, 0x100);
    ModSplit(v, 0x100_0000, 0x100);
    ModUnique(v, DWORD_SIZE, 0, v);
  }

  /** The length checks accept what the transmit side frames, also with one more byte counted, and
      the data found is the frame. */
  lemma FramingIsAccepted(f: seq<Byte>, b: seq<Byte>)
    requires |f| <= ETH_MAX_PACKET_SIZE && |Message(f)| <= |b| && b[..|Message(f)|] == Message(f)
    ensures Accepted(b, HEADER + |f|) && Accepted(b, HEADER + |f| + 1)
    ensures Ld32(b, 12) % 0x1_0000 == |f| && b[HEADER..HEADER + |f|] == f
  {
    assert b[..HEADER] == Message(f)[..HEADER] == Header(|f|) by {
      hide Header;
    }
    HeaderWords(|f|, b);
    hide Header, Ld32;
    assert b[HEADER..HEADER + |f|] == Message(f)[HEADER..];
  }

  /** Of two framed messages of the same size only the one framed with that size is accepted. */
  lemma OtherSizesAreNot(f: seq<Byte>, b: seq<Byte>, size: nat)
    requires |f| <= ETH_MAX_PACKET_SIZE && |Message(f)| <= |b| && b[..|Message(f)|] == Message(f)
    ensures Accepted(b, size) <==> size == HEADER + |f| || size == HEADER + |f| + 1
  {
    FramingIsAccepted(f, b);
    hide Header, Ld32;
  }

  /** Four bytes, the lowest first. */
  predicate HoldsWord(b: seq<Byte>, i: nat, v: int)
    requires i + 4 <= |b|
  {
    var b0: int, b1: int, b2: int, b3: int := b[i], b[i + 1], b[i + 2], b[i + 3];
    b0 + 0x100 * b1 + 0x1_0000 * b2 + 0x100_0000 * b3 == v
  }

  /** The header of a frame of `n` bytes: message type 1, the length of the message, the offset of the data
      from byte 8 on, the length of the data, zeros. */
  lemma HeaderBytes(n: nat)
    requires n <= ETH_MAX_PACKET_SIZE
    ensures var h := Header(n);
      && |h| == 44 && HoldsWord(h, 0, 1) && HoldsWord(h, 4, 44 + n) && HoldsWord(h, 8, 36) && HoldsWord(h, 12, n)
      && forall k :: 16 <= k < 44 ==> h[k] == 0
  {
    HeaderWords(n, Header(n));
    assert Header(n)[16..] == Blank(28);
    hide Header, Blank;
    forall k | 16 <= k < 44
      ensures Header(n)[k] == 0
    {
      assert Header(n)[k] == Header(n)[16..][k - 16];
    }
  }

  /** What is accepted, by the numbers in the header: at least a header, a data packet, its length counted
      exactly or with one byte more, and the data, by their own offset and length, at its end. */
  lemma AcceptedIs(b: seq<Byte>, size: nat, kind: int, len: int, ofs: int, n: int)
    requires 44 <= |b| && HoldsWord(b, 0, kind) && HoldsWord(b, 4, len) && HoldsWord(b, 8, ofs) && HoldsWord(b, 12, n)
    ensures Accepted(b, size) <==>
      size >= 44 && kind == 1 && (size == len || size == len + 1) && (ofs + 8 + n) % 0x1_0000_0000 == len
  {
  }

  function PutWord(s: seq<Byte>, i: nat, v: nat): (r: seq<Byte>)
    requires i + 4 <= |s|
    ensures |r| == |s|
  {
    s[..i] + Word32(v) + s[i + 4..]
  }

  lemma HeaderBuilt(n: nat, tail: seq<Byte>)
    ensures var two := PutWord(PutWord(Blank(HEADER) + tail, 0, MSG_PACKET), 4, HEADER + n);
      PutWord(PutWord(two, 8, HEADER - DATA_OFFSET_AT), 12, n) == Header(n) + tail
  {
    var z := Blank(HEADER) + tail;
    hide Word32, Blank;
    var a := PutWord(z, 0, MSG_PACKET);
    assert a == Word32(1) + z[4..];
    var b := PutWord(a, 4, HEADER + n);
    assert b == Word32(1) + Word32(HEADER + n) + z[8..];
    var c := PutWord(b, 8, HEADER - DATA_OFFSET_AT);
    assert c == Word32(1) + Word32(HEADER + n) + Word32(HEADER - DATA_OFFSET_AT) + z[12..];
    var d := PutWord(c, 12, n);
    assert d == Word32(1) + Word32(HEADER + n) + Word32(HEADER - DATA_OFFSET_AT) + Word32(n) + z[16..];
    assert z[16..] == Blank(28) + tail;
  }

  // ---- what happens to the adapter ----

  /** Calls and completions of the transmit side, transfers of other endpoints, a call for a frame, and
      a packet. */
  datatype Happening = Sending(e: Event) | OtherIn(epnum: nat) | Listening | Packet(buffer: seq<Byte>, size: nat)

  /** The receive side. */
  datatype Receiver = Receiver(started: bool, size: nat, ok: nat, bad: nat)

  /** One packet is taken for each call of `rndis_rx_start`. */
  function Receive(r: Receiver, h: Happening): Receiver
    requires h.Packet? ==> HEADER <= |h.buffer|
  {
    if h.Listening? then r.(started := true)
    else if !h.Packet? then r
    else if Accepted(h.buffer, h.size) && r.started then
      Receiver(false, Ld32(h.buffer, 12) % 0x1_0000, (r.ok + 1) % DWORD_SIZE, r.bad)
    else r.(bad := (r.bad + 1) % DWORD_SIZE)
  }

  /** The buffer of the receiver always holds a header. */
  predicate Buffered(hs: seq<Happening>) {
    forall i :: 0 <= i < |hs| && hs[i].Packet? ==> HEADER <= |hs[i].buffer|
  }

  function Received(hs: seq<Happening>, k: nat): Receiver
    requires Buffered(hs) && k <= |hs|
  {
    if k == 0 then Receiver(false, 0, 0, 0) else Receive(Received(hs, k - 1), hs[k - 1])
  }

  /** The packets among the first `k` happenings. */
  function Packets(hs: seq<Happening>, k: nat): nat
    requires k <= |hs|
  {
    if k == 0 then 0 else Packets(hs, k - 1) + One(hs[k - 1].Packet?)
  }

  /** The calls of `rndis_rx_start` among them that were granted. */
  function Granted(hs: seq<Happening>, k: nat): nat
    requires Buffered(hs) && k <= |hs|
  {
    if k == 0 then 0
    else Granted(hs, k - 1) + One(hs[k - 1].Listening? && !Received(hs, k - 1).started)
  }

  /** Every packet is counted, as good or as bad, and the good ones are those that were called for. */
  lemma {:induction false} PacketsAreCounted(hs: seq<Happening>, k: nat)
    requires Buffered(hs) && k <= |hs|
    ensures var r := Received(hs, k);
      && (r.ok + r.bad) % DWORD_SIZE == Packets(hs, k) % DWORD_SIZE
      && (r.ok + One(r.started)) % DWORD_SIZE == Granted(hs, k) % DWORD_SIZE
  {
    if k > 0 {
      PacketsAreCounted(hs, k - 1);
      ReceiveCounts(Received(hs, k - 1), hs[k - 1], Packets(hs, k - 1), Granted(hs, k - 1));
    }
  }

  lemma ReceiveCounts(r: Receiver, h: Happening, packets: nat, granted: nat)
    requires h.Packet? ==> HEADER <= |h.buffer|
    requires (r.ok + r.bad) % DWORD_SIZE == packets % DWORD_SIZE
    requires (r.ok + One(r.started)) % DWORD_SIZE == granted % DWORD_SIZE
    ensures var s := Receive(r, h);
      && (s.ok + s.bad) % DWORD_SIZE == (packets + One(h.Packet?)) % DWORD_SIZE
      && (s.ok + One(s.started)) % DWORD_SIZE == (granted + One(h.Listening? && !r.started)) % DWORD_SIZE
  {
    hide Ld32, Accepted;
    NextMod(r.ok + r.bad, packets);
    NextMod(r.ok + One(r.started), granted);
    WrapIn(r.ok + 1, r.bad);
    WrapIn(r.bad + 1, r.ok);
    WrapIn(r.ok + 1, 0);
  }

  /** The happenings of the transmit side. */
  function EventsOf(hs: seq<Happening>): seq<Event> {
    if hs == [] then [] else (if hs[0].Sending? then [hs[0].e] else []) + EventsOf(hs[1..])
  }

  /** Completions answer transfers, and calls count themselves once. */
  ghost predicate Feasible(d: Device, es: seq<Event>)
    requires Safe(d)
    decreases |es|
  {
    es == [] || (Enabled(d, es[0]) && (StepIsSafe(d, es[0]); Feasible(Step(d, es[0]), es[1..])))
  }

  lemma FeasibleStep(d: Device, es: seq<Event>)
    requires Safe(d) && Feasible(d, es) && es != []
    ensures Enabled(d, es[0]) && Safe(Step(d, es[0])) && Feasible(Step(d, es[0]), es[1..])
  {
    StepIsSafe(d, es[0]);
    hide Step, Enabled, Safe;
  }

  lemma RunGrows(ds: seq<Device>, es: seq<Event>, e: Event)
    requires IsRun(ds, es) && Safe(ds[|es|]) && Enabled(ds[|es|], e)
    ensures IsRun(ds + [Step(ds[|es|], e)], es + [e])
  {
    hide Step, Enabled, Safe;
  }

  lemma RunStarts()
    ensures IsRun([POWER_ON], []) && Safe(POWER_ON)
  {
  }

  lemma NextEvents(hs: seq<Happening>, i: nat)
    requires i < |hs|
    ensures EventsOf(hs[i..]) == (if hs[i].Sending? then [hs[i].e] else []) + EventsOf(hs[i + 1..])
    ensures hs[i].Sending? ==> EventsOf(hs[i..]) != [] && EventsOf(hs[i..])[0] == hs[i].e
    ensures hs[i].Sending? ==> EventsOf(hs[i..])[1..] == EventsOf(hs[i + 1..])
    ensures !hs[i].Sending? ==> EventsOf(hs[i..]) == EventsOf(hs[i + 1..])
  {
    assert hs[i..][1..] == hs[i + 1..];
  }

  lemma FrameLimit()
    ensures ETH_MAX_PACKET_SIZE == 1514
  {
  }

  lemma AcceptsIs(d: Device, data: seq<Byte>)
    ensures Accepts(d, data) <==> !d.transmitting && 0 < |data| <= ETH_MAX_PACKET_SIZE
  {
  }

  lemma RefusedIs(d: Device, data: seq<Byte>)
    requires Safe(d) && !Accepts(d, data)
    ensures Begin(d, data) == d.(open := d.open + 1) && Safe(Begin(d, data))
  {
  }

  /** What a call that is accepted leaves, field by field. */
  lemma BegunIs(d: Device, data: seq<Byte>, n: nat)
    requires Safe(d) && Accepts(d, data) && n == if PACKET - HEADER > |data| then |data| else PACKET - HEADER
    ensures |d.first| == PACKET && n <= |data| && HEADER + n <= PACKET
    ensures var first := Header(|data|) + data[..n] + d.first[HEADER + n..];
      Begin(d, data) == Device(At(data[n..]), |data| - n, true, (HEADER + |data|) % PACKET == 0, first,
        d.txok, d.txbad, d.open + 1, true, d.wire + [first])
    ensures Safe(Begin(d, data))
  {
    hide Header;
  }

  // ---- the adapter ----

  class Adapter {
    var rest: Rest                 // rndis_tx_ptr
    var txDataSize: nat
    var transmitting: bool
    var zlp: bool
    const first: array<Byte>       // the static buffer of rndis_tx_start
    var txok: nat
    var txbad: nat
    var rxok: nat
    var rxbad: nat
    var rxStarted: bool
    var rxDataSize: nat
    var pending: bool              // the hardware holds a transfer
    ghost var open: nat
    ghost var wire: seq<seq<Byte>>

    ghost predicate Valid()
      reads this, first
    {
      first.Length == PACKET && Safe(Tx())
    }

    /** The transmit side as a value. */
    ghost function Tx(): Device
      reads this, first
    {
      Device(rest, txDataSize, transmitting, zlp, first[..], txok, txbad, open, pending, wire)
    }

    /** The receive side as a value. */
    ghost function Rx(): Receiver
      reads this
    {
      Receiver(rxStarted, rxDataSize, rxok, rxbad)
    }

    constructor ()
      ensures Valid() && Tx() == POWER_ON && fresh(first)
      ensures Rx() == Receiver(false, 0, 0, 0)
    {
      rest, txDataSize, transmitting, zlp := Null, 0, false, false;
      first := new Byte[64](i => 0);
      txok, txbad, rxok, rxbad := 0, 0, 0, 0;
      rxStarted, rxDataSize, pending, open, wire := false, 0, false, 0, [];
      new;
      assert first[..] == Blank(64);
    }

    /** `USBD_LL_Transmit` */
    method Transmit(t: seq<Byte>)
      requires !pending
      modifies this`pending, this`wire
      ensures pending && wire == old(wire) + [t]
    {
      pending := true;
      wire := wire + [t];
    }

    /** Stores a DWORD of the header. */
    method StoreWord(i: nat, v: nat)
      requires i + 4 <= first.Length
      modifies first
      ensures first[..] == PutWord(old(first[..]), i, v)
    {
      first[i], first[i + 1] := v % 0x100, v / 0x100 % 0x100;
      first[i + 2], first[i + 3] := v / 0x1_0000 % 0x100, v / 0x100_0000 % 0x100;
    }

    /** `memset` of the header. */
    method ClearHeader()
      requires first.Length == PACKET
      modifies first
      ensures first[..] == Blank(HEADER) + old(first[HEADER..])
    {
      var i: nat := 0;
      while i < HEADER
        invariant i <= HEADER && first[..] == Blank(i) + old(first[..])[i..]
      {
        first[i] := 0;
        i := i + 1;
      }
    }

    /** The header of a message with `size` bytes of data. */
    method StoreHeader(size: nat)
      requires first.Length == PACKET
      modifies first
      ensures first[..] == Header(size) + old(first[HEADER..])
    {
      ghost var tail := first[HEADER..];
      ClearHeader();
      hide Word32, Blank, PutWord, Header;
      StoreWord(0, MSG_PACKET);
      StoreWord(4, HEADER + size);
      StoreWord(8, HEADER - DATA_OFFSET_AT);
      StoreWord(12, size);
      HeaderBuilt(size, tail);
    }

    /** The first packet: the header and the bytes of the frame that fit behind it. */
    method FillFirst(data: seq<Byte>, sended: nat)
      requires first.Length == PACKET && sended <= |data| && HEADER + sended <= PACKET
      modifies first
      ensures first[..] == Header(|data|) + data[..sended] + old(first[HEADER + sended..])
    {
      ghost var was := first[..];
      StoreHeader(|data|);
      hide Header;
      var i: nat := 0;
      while i < sended
        invariant i <= sended && first[..] == Header(|data|) + data[..i] + was[HEADER + i..]
      {
        first[HEADER + i] := data[i];
        i := i + 1;
      }
    }

    /** `rndis_tx_start` up to the point where interrupts are enabled again. */
    method TxBegin(data: seq<Byte>) returns (ok: bool)
      requires Valid()
      modifies this`rest, this`txDataSize, this`transmitting, this`zlp, this`pending, this`wire, this`open, first
      ensures Valid() && Tx() == Begin(old(Tx()), data)
      ensures ok == Accepts(old(Tx()), data)
      ensures ok <==> !old(transmitting) && 0 < |data| <= 1514
    {
      hide *;
      TxFacts();
      PacketSize();
      FrameLimit();
      ghost var d := Tx();
      AcceptsIs(d, data);
      open := open + 1;
      if transmitting || |data| > ETH_MAX_PACKET_SIZE || |data| == 0 {
        RefusedIs(d, data);
        IsTx(Begin(d, data));
        return false;
      }
      transmitting := true;
      var sended := PACKET - HEADER;
      if sended > |data| {
        sended := |data|;
      }
      FillFirst(data, sended);
      rest := At(data[sended..]);
      txDataSize := |data| - sended;
      if (HEADER + |data|) % PACKET == 0 {
        zlp := true;
      }
      Transmit(first[..]);
      BegunIs(d, data, sended);
      IsTx(Begin(d, data));
      ok := true;
    }

    lemma TxFacts()
      requires Valid()
      ensures first.Length == PACKET && Safe(Tx())
      ensures Tx() == Device(rest, txDataSize, transmitting, zlp, first[..], txok, txbad, open, pending, wire)
      ensures pending == transmitting && (!transmitting ==> !zlp)
    {
    }

    lemma IsTx(d: Device)
      requires d == Device(rest, txDataSize, transmitting, zlp, first[..], txok, txbad, open, pending, wire)
      requires Safe(d) && first.Length == PACKET
      ensures Valid() && Tx() == d
    {
    }

    /** The end of `rndis_tx_start`: the call counts as bad until its frame is sent. */
    method TxCount()
      requires Valid() && open > 0
      modifies this`txbad, this`open
      ensures Valid() && Tx() == Count(old(Tx()))
    {
      txbad := (txbad + 1) % DWORD_SIZE;
      open := open - 1;
    }

    /** `usbd_rndis_data_in`: the hardware has sent what it held. */
    method DataIn(epnum: nat)
      requires Valid() && (epnum % 16 == RNDIS_DATA_IN_EP % 16 ==> pending)
      modifies this`rest, this`txDataSize, this`transmitting, this`zlp, this`pending, this`wire, this`txok, this`txbad
      ensures Valid()
      ensures Tx() == if epnum % 16 == RNDIS_DATA_IN_EP % 16 then Done(old(Tx())) else old(Tx())
    {
      if epnum % 16 == RNDIS_DATA_IN_EP % 16 {
        pending := false;
        if txDataSize != 0 && rest.At? {
          Transmit(rest.bytes[..txDataSize]);
          txDataSize := 0;
          rest := Null;
        } else if zlp {
          Transmit([]);
          zlp := false;
        } else {
          txbad := Sub32(txbad, 1);
          txok := (txok + 1) % DWORD_SIZE;
          transmitting := false;
        }
      }
    }

    /** `rndis_rx_start` */
    method RxStart() returns (ok: bool)
      modifies this`rxStarted
      ensures rxStarted && ok == !old(rxStarted)
    {
      if rxStarted {
        return false;
      }
      rxStarted := true;
      ok := true;
    }

    /** `handle_packet`: `size` bytes have arrived in `buffer`. */
    method HandlePacket(buffer: seq<Byte>, size: nat)
      requires HEADER <= |buffer| && rxbad < DWORD_SIZE && rxok < DWORD_SIZE
      modifies this`rxok, this`rxbad, this`rxStarted, this`rxDataSize
      ensures if Accepted(buffer, size) && old(rxStarted) then
          !rxStarted && rxDataSize == Ld32(buffer, 12) % 0x1_0000 && rxok == (old(rxok) + 1) % DWORD_SIZE
            && rxbad == old(rxbad)
        else
          rxStarted == old(rxStarted) && rxDataSize == old(rxDataSize) && rxok == old(rxok)
          && rxbad == (old(rxbad) + 1) % DWORD_SIZE
    {
      hide Ld32;
      if size < HEADER {
        rxbad := (rxbad + 1) % DWORD_SIZE;
        return;
      }
      if Ld32(buffer, 0) != MSG_PACKET || (Ld32(buffer, 4) != size && Ld32(buffer, 4) != size - 1) {
        rxbad := (rxbad + 1) % DWORD_SIZE;
        return;
      }
      var sz := Ld32(buffer, 4);
      if (Ld32(buffer, 8) + DATA_OFFSET_AT + Ld32(buffer, 12)) % DWORD_SIZE != sz {
        rxbad := (rxbad + 1) % DWORD_SIZE;
        return;
      }
      if !rxStarted {
        rxbad := (rxbad + 1) % DWORD_SIZE;
        return;
      }
      rxDataSize := Ld32(buffer, 12) % 0x1_0000;
      rxStarted := false;
      rxok := (rxok + 1) % DWORD_SIZE;
    }

    /** One thing happens. */
    method Handle(h: Happening)
      requires Valid() && (h.Packet? ==> HEADER <= |h.buffer|) && rxok < DWORD_SIZE && rxbad < DWORD_SIZE
      requires h.Sending? ==> Enabled(Tx(), h.e)
      requires h.OtherIn? ==> h.epnum % 16 != RNDIS_DATA_IN_EP % 16
      modifies this, first
      ensures Valid() && Rx() == Receive(old(Rx()), h) && rxok < DWORD_SIZE && rxbad < DWORD_SIZE
      ensures Tx() == if h.Sending? then Step(old(Tx()), h.e) else old(Tx())
    {
      hide Safe, Begin, Done, Accepts, Ld32, Accepted;
      match h
      case Sending(e) =>
        match e {
          case CallBegins(data) => var _ := TxBegin(data);
          case CallCounts => TxCount();
          case Completion => DataIn(RNDIS_DATA_IN_EP);
        }
      case OtherIn(epnum) => DataIn(epnum);
      case Listening => var _ := RxStart();
      case Packet(buffer, size) => HandlePacket(buffer, size);
    }
  }

  /** Whatever happens to the adapter from power-on on: it goes through a run of the transmit side, the
      host has what the accepted frames make, every call and every packet is counted. */
  method Run(hs: seq<Happening>) returns (a: Adapter, ghost ds: seq<Device>)
    requires Buffered(hs) && Safe(POWER_ON) && Feasible(POWER_ON, EventsOf(hs))
    requires forall i :: 0 <= i < |hs| && hs[i].OtherIn? ==> hs[i].epnum % 16 != RNDIS_DATA_IN_EP % 16
    ensures fresh(a) && a.Valid()
    ensures var es := EventsOf(hs);
      && IsRun(ds, es) && a.Tx() == ds[|es|]
      && (!a.transmitting ==> HostOf(a.wire) == Arrived(ds, es, |es|))
      && (a.txok + a.txbad + a.open) % DWORD_SIZE == Calls(es, |es|) % DWORD_SIZE
      && (a.txok + One(a.transmitting)) % DWORD_SIZE == |Frames(ds, es, |es|)| % DWORD_SIZE
    ensures a.Rx() == Received(hs, |hs|)
    ensures (a.rxok + a.rxbad) % DWORD_SIZE == Packets(hs, |hs|) % DWORD_SIZE
  {
    hide *;
    a := new Adapter();
    RunStarts();
    ReceivedNone(hs);
    FieldsOf(a);
    DwordSize();
    ds := [POWER_ON];
    ghost var done: seq<Event> := [];
    assert hs[0..] == hs;
    for i := 0 to |hs|
      invariant fresh(a) && fresh(a.first) && a.Valid()
      invariant IsRun(ds, done) && |ds| == |done| + 1 && a.Tx() == ds[|done|]
      invariant Safe(a.Tx()) && Feasible(a.Tx(), EventsOf(hs[i..])) && done + EventsOf(hs[i..]) == EventsOf(hs)
      invariant a.Rx() == Received(hs, i) && a.rxok < DWORD_SIZE && a.rxbad < DWORD_SIZE
    {
      NextEvents(hs, i);
      ReceivedNext(hs, i);
      ghost var d := a.Tx();
      if hs[i].Sending? {
        FeasibleStep(d, EventsOf(hs[i..]));
        RunGrows(ds, done, hs[i].e);
        ds := ds + [Step(d, hs[i].e)];
        done := done + [hs[i].e];
      }
      a.Handle(hs[i]);
    }
    assert hs[|hs|..] == [];
    NoEvents();
    assert done == EventsOf(hs);
    FieldsOf(a);
    FramesArrive(ds, done, |done|);
    CallsAreCounted(ds, done, |done|);
    PacketsAreCounted(hs, |hs|);
  }

  lemma NoEvents()
    ensures EventsOf([]) == []
  {
  }

  lemma ReceivedNone(hs: seq<Happening>)
    requires Buffered(hs)
    ensures Received(hs, 0) == Receiver(false, 0, 0, 0)
  {
  }

  lemma ReceivedNext(hs: seq<Happening>, i: nat)
    requires Buffered(hs) && i < |hs|
    ensures hs[i].Packet? ==> HEADER <= |hs[i].buffer|
    ensures Received(hs, i + 1) == Receive(Received(hs, i), hs[i])
  {
    hide Receive;
  }

  lemma FieldsOf(a: Adapter)
    ensures a.Tx().wire == a.wire && a.Tx().transmitting == a.transmitting && a.Tx().open == a.open
    ensures a.Tx().txok == a.txok && a.Tx().txbad == a.txbad
    ensures a.Rx().ok == a.rxok && a.Rx().bad == a.rxbad
  {
  }
}
