/**
 The transmit side of the RNDIS adapter as a state machine against the USB hardware, and the host
 that puts packets together to messages again.
 */
module RndisSpec {
  import opened Bits

  const HEADER: nat := 44
  const PACKET: nat := 64
  const ETH_MAX_PACKET_SIZE: nat := 1514
  const DATA_OFFSET_AT: nat := 8

  // ---- the framing ----

  function Blank(n: nat): (r: seq<Byte>)
    ensures |r| == n && forall k :: 0 <= k < n ==> r[k] == 0
  {
    if n == 0 then [] else Blank(n - 1) + [0]
  }

  function Word32(v: nat): (r: seq<Byte>)
    ensures |r| == 4
  {
    [v % 0x100, v / 0x100 % 0x100, v / 0x1_0000 % 0x100, v / 0x100_0000 % 0x100]
  }

  /** The header of a data packet message with `n` bytes of data. */
  function Header(n: nat): (r: seq<Byte>)
    ensures |r| == HEADER
  {
    Word32(1) + Word32(HEADER + n) + Word32(HEADER - DATA_OFFSET_AT) + Word32(n) + Blank(28)
  }

  function Message(f: seq<Byte>): (r: seq<Byte>)
    ensures |r| == HEADER + |f|
  {
    Header(|f|) + f
  }

  // ---- the adapter ----

  /** `rndis_tx_ptr`: the bytes it points to. */
  datatype Rest = Null | At(bytes: seq<Byte>)

  datatype Device = Device(
    rest: Rest,
    size: nat,             // rndis_tx_data_size
    transmitting: bool,
    zlp: bool,
    first: seq<Byte>,      // the static buffer of the first packet
    txok: nat,
    txbad: nat,
    open: nat,             // calls that have enabled interrupts again and not yet counted themselves
    pending: bool,         // the hardware holds a transfer
    wire: seq<seq<Byte>>)  // all transfers handed to the hardware

  const POWER_ON: Device := Device(Null, 0, false, false, Blank(64), 0, 0, 0, false, [])

  /** What every run keeps. */
  predicate Safe(d: Device) {
    && |d.first| == PACKET && d.txok < DWORD_SIZE && d.txbad < DWORD_SIZE
    && d.pending == d.transmitting
    && (!d.transmitting ==> d.size == 0 && !d.zlp)
    && (d.size > 0 ==> d.rest.At? && d.size <= |d.rest.bytes|)
  }

  /** `USBD_LL_Transmit`: never called while the hardware holds a transfer. */
  function Transmit(d: Device, t: seq<Byte>): Device
    requires !d.pending
  {
    d.(pending := true, wire := d.wire + [t])
  }

  predicate Accepts(d: Device, data: seq<Byte>) {
    !d.transmitting && 0 < |data| <= ETH_MAX_PACKET_SIZE
  }

  function Copied(data: seq<Byte>): (n: nat)
    ensures n <= |data| && n <= PACKET - HEADER
  {
    if |data| < PACKET - HEADER then |data| else PACKET - HEADER
  }

  /** `rndis_tx_start` up to the point where interrupts are enabled again. */
  function Begin(d: Device, data: seq<Byte>): Device
    requires Safe(d)
  {
    if !Accepts(d, data) then d.(open := d.open + 1)
    else
      var n := Copied(data);
      var first := Header(|data|) + data[..n] + d.first[HEADER + n..];
      Transmit(d.(transmitting := true, rest := At(data[n..]), size := |data| - n, first := first,
                  zlp := (HEADER + |data|) % PACKET == 0, open := d.open + 1), first)
  }

  /** The last statement of `rndis_tx_start`, on both its paths. */
  function Count(d: Device): Device
    requires d.open > 0
  {
    d.(txbad := (d.txbad + 1) % DWORD_SIZE, open := d.open - 1)
  }

  /** `usbd_rndis_data_in`: the hardware has sent what it held. */
  function Done(d: Device): Device
    requires Safe(d) && d.pending
  {
    var e := d.(pending := false);
    if e.size != 0 && e.rest.At? then Transmit(e.(size := 0, rest := Null), e.rest.bytes[..e.size])
    else if e.zlp then Transmit(e.(zlp := false), [])
    else e.(txbad := Sub32(e.txbad, 1), txok := (e.txok + 1) % DWORD_SIZE, transmitting := false)
  }

  // ---- runs ----

  datatype Event = CallBegins(data: seq<Byte>) | CallCounts | Completion

  /** A completion answers a transfer, and may call again before the call it interrupts has counted. */
  predicate Enabled(d: Device, e: Event) {
    if e.CallBegins? then true else if e.CallCounts? then d.open > 0 else d.pending
  }

  function Step(d: Device, e: Event): Device
    requires Safe(d) && Enabled(d, e)
  {
    if e.CallBegins? then Begin(d, e.data) else if e.CallCounts? then Count(d) else Done(d)
  }

  /** The invariant, whatever is sent and whenever the hardware answers. */
  lemma StepIsSafe(d: Device, e: Event)
    requires Safe(d) && Enabled(d, e)
    ensures Safe(Step(d, e))
  {
    hide Header;
  }

  /** A run of events: the adapter passes through the states `ds`. */
  ghost predicate IsRun(ds: seq<Device>, es: seq<Event>) {
    && |ds| == |es| + 1 && ds[0] == POWER_ON
    && forall i :: 0 <= i < |es| ==> Safe(ds[i]) && Enabled(ds[i], es[i]) && ds[i + 1] == Step(ds[i], es[i])
  }

  /** The frames accepted among the first `k` events. */
  ghost function Frames(ds: seq<Device>, es: seq<Event>, k: nat): seq<seq<Byte>>
    requires k <= |es| <= |ds|
  {
    if k == 0 then []
    else if es[k - 1].CallBegins? && Accepts(ds[k - 1], es[k - 1].data) then Frames(ds, es, k - 1) + [es[k - 1].data]
    else Frames(ds, es, k - 1)
  }

  /** The calls among the first `k` events. */
  ghost function Calls(es: seq<Event>, k: nat): nat
    requires k <= |es|
  {
    if k == 0 then 0 else Calls(es, k - 1) + if es[k - 1].CallBegins? then 1 else 0
  }

  function One(b: bool): nat { if b then 1 else 0 }

  /** Every call is counted once, as good or as bad: a frame under way counts as bad until it is done. */
  lemma {:induction false} CallsAreCounted(ds: seq<Device>, es: seq<Event>, k: nat)
    requires IsRun(ds, es) && k <= |es|
    ensures (ds[k].txok + ds[k].txbad + ds[k].open) % DWORD_SIZE == Calls(es, k) % DWORD_SIZE
    ensures (ds[k].txok + One(ds[k].transmitting)) % DWORD_SIZE == |Frames(ds, es, k)| % DWORD_SIZE
  {
    hide Step, Safe, Enabled;
    if k > 0 {
      CallsAreCounted(ds, es, k - 1);
      assert ds[k - 1 + 1] == Step(ds[k - 1], es[k - 1]);
      CountStep(ds[k - 1], es[k - 1], Calls(es, k - 1), |Frames(ds, es, k - 1)|);
    }
  }

  lemma CountStep(d: Device, e: Event, c: nat, n: nat)
    requires Safe(d) && Enabled(d, e)
    requires (d.txok + d.txbad + d.open) % DWORD_SIZE == c % DWORD_SIZE
    requires (d.txok + One(d.transmitting)) % DWORD_SIZE == n % DWORD_SIZE
    ensures var s := Step(d, e); var c2 := c + One(e.CallBegins?);
      && (s.txok + s.txbad + s.open) % DWORD_SIZE == c2 % DWORD_SIZE
      && (s.txok + One(s.transmitting)) % DWORD_SIZE == (n + One(e.CallBegins? && Accepts(d, e.data))) % DWORD_SIZE
  {
    StepCounts(d, e);
    hide *;
    DwordSize();
    OneIs(d, e);
    var s := Step(d, e);
    if e.CallBegins? {
      NextMod(d.txok + d.txbad + d.open, c);
      NextMod(d.txok, n);
    } else if e.CallCounts? {
      WrapIn(d.txbad + 1, d.txok + d.open - 1);
    } else if !s.transmitting {
      WrapIn(d.txok + 1, 0);
      DoneMod(d.txok, d.txbad, d.open);
    }
  }

  lemma OneIs(d: Device, e: Event)
    requires Safe(d) && Enabled(d, e)
    ensures One(true) == 1 && One(false) == 0
    ensures e.CallCounts? ==> d.open > 0
    ensures e.Completion? ==> d.transmitting
  {
  }

  /** What a step does to the counters. */
  lemma StepCounts(d: Device, e: Event)
    requires Safe(d) && Enabled(d, e)
    ensures e.CallBegins? ==> Step(d, e).open == d.open + 1 && Step(d, e).txok == d.txok && Step(d, e).txbad == d.txbad
    ensures e.CallBegins? ==> Step(d, e).transmitting == (d.transmitting || Accepts(d, e.data))
    ensures e.CallBegins? && Accepts(d, e.data) ==> !d.transmitting
    ensures e.CallCounts? ==>
      Step(d, e).open == d.open - 1 && Step(d, e).txok == d.txok && Step(d, e).transmitting == d.transmitting
    ensures e.CallCounts? ==> Step(d, e).txbad == (d.txbad + 1) % 0x1_0000_0000
    ensures e.Completion? ==> Step(d, e).open == d.open
    ensures e.Completion? && Step(d, e).transmitting ==> Step(d, e).txok == d.txok && Step(d, e).txbad == d.txbad
    ensures e.Completion? && !Step(d, e).transmitting ==> Step(d, e).txok == (d.txok + 1) % 0x1_0000_0000
    ensures e.Completion? && !Step(d, e).transmitting ==> Step(d, e).txbad == if d.txbad == 0 then 0xFFFF_FFFF
      else d.txbad - 1
  {
    hide Header;
  }

  lemma NextMod(x: nat, c: nat)
    ensures x % 0x1_0000_0000 == c % 0x1_0000_0000 ==> (x + 1) % 0x1_0000_0000 == (c + 1) % 0x1_0000_0000
  {
  }

  lemma WrapIn(x: nat, y: nat)
    ensures (y + x % 0x1_0000_0000) % 0x1_0000_0000 == (y + x) % 0x1_0000_0000
    ensures (x % 0x1_0000_0000 + y) % 0x1_0000_0000 == (y + x) % 0x1_0000_0000
  {
  }

  lemma DoneMod(ok: nat, bad: nat, z: nat)
    requires bad < 0x1_0000_0000
    ensures ((ok + 1) % 0x1_0000_0000 + (if bad == 0 then 0xFFFF_FFFF else bad - 1) + z) % 0x1_0000_0000
      == (ok + bad + z) % 0x1_0000_0000
  {
  }

  // ---- the host ----

  /** The host: messages received, and the packets of the one under way. */
  datatype Host = Host(msgs: seq<seq<Byte>>, acc: seq<Byte>)

  /** One transfer arrives in packets of 64 bytes, the last one with what is left, an empty transfer
      as one empty packet. A packet shorter than 64 bytes ends the message (USB 2.0, section 5.8.3). */
  function Feed(h: Host, t: seq<Byte>): Host
    decreases |t|
  {
    if |t| < PACKET then Host(h.msgs + [h.acc + t], [])
    else if |t| == PACKET then Host(h.msgs, h.acc + t)
    else Feed(Host(h.msgs, h.acc + t[..PACKET]), t[PACKET..])
  }

  function HostOf(wire: seq<seq<Byte>>): Host {
    if wire == [] then Host([], []) else Feed(HostOf(wire[..|wire| - 1]), wire[|wire| - 1])
  }

  /** The message ends with a transfer exactly if that is no positive multiple of 64. */
  lemma {:induction false} FeedEnds(h: Host, t: seq<Byte>)
    ensures Feed(h, t) ==
      if |t| > 0 && |t| % PACKET == 0 then Host(h.msgs, h.acc + t) else Host(h.msgs + [h.acc + t], [])
    decreases |t|
  {
    if |t| > PACKET {
      FeedEnds(Host(h.msgs, h.acc + t[..PACKET]), t[PACKET..]);
      assert (h.acc + t[..PACKET]) + t[PACKET..] == h.acc + t;
    }
  }

  /** The transfers of a frame that fills the first packet. */
  function Transfers(f: seq<Byte>): seq<seq<Byte>>
    requires |f| >= PACKET - HEADER
  {
    var m := Message(f);
    [m[..PACKET]] + (if |m| > PACKET then [m[PACKET..]] else []) + (if |m| % PACKET == 0 then [[]] else [])
  }

  lemma HostNext(wire: seq<seq<Byte>>, t: seq<Byte>)
    ensures HostOf(wire + [t]) == Feed(HostOf(wire), t)
  {
    assert (wire + [t])[..|wire|] == wire;
  }

  /** The host gets the message, behind what it already holds, and is ready for the next. */
  lemma FrameArrives(wire: seq<seq<Byte>>, f: seq<Byte>)
    requires |f| >= PACKET - HEADER
    ensures var h := HostOf(wire); HostOf(wire + Transfers(f)) == Host(h.msgs + [h.acc + Message(f)], [])
  {
    var m := Message(f);
    var h := HostOf(wire);
    hide HostOf, Message, Feed;
    var a, b := m[..PACKET], m[PACKET..];
    assert a + b == m;
    var w1 := wire + [a];
    HostNext(wire, a);
    FeedEnds(h, a);
    var h1 := Host(h.msgs, h.acc + a);
    assert h1.acc + b == h.acc + m;
    if |m| > PACKET {
      var w2 := w1 + [b];
      HostNext(w1, b);
      FeedEnds(h1, b);
      if |m| % PACKET == 0 {
        HostNext(w2, []);
        FeedEnds(Host(h.msgs, h.acc + m), []);
        assert h.acc + m + [] == h.acc + m;
        assert wire + Transfers(f) == w2 + [[]];
      } else {
        assert wire + Transfers(f) == w2;
      }
    } else {
      HostNext(w1, []);
      FeedEnds(h1, []);
      assert h1.acc + [] == h.acc + m;
      assert wire + Transfers(f) == w1 + [[]];
    }
  }

  // ---- what is on the wire ----

  predicate Full(f: seq<Byte>) { |f| >= PACKET - HEADER }

  function Messages(fs: seq<seq<Byte>>): seq<seq<Byte>> {
    if fs == [] then [] else Messages(fs[..|fs| - 1]) + [Message(fs[|fs| - 1])]
  }

  lemma HostNone()
    ensures HostOf([]) == Host([], [])
  {
  }

  /** Frame `f` is under way, after the transfers `sent`. */
  ghost predicate Sending(d: Device, sent: seq<seq<Byte>>, f: seq<Byte>) {
    var m := Message(f);
    && Full(f) && d.transmitting
    && (|| (d.wire == sent + [m[..PACKET]] && d.rest == At(f[PACKET - HEADER..])
            && d.size == |f| - (PACKET - HEADER) && d.zlp == (|m| % PACKET == 0))
        || (|m| > PACKET && d.wire == sent + [m[..PACKET], m[PACKET..]] && d.size == 0 && d.zlp == (|m| % PACKET == 0))
        || (|m| % PACKET == 0 && d.wire == sent + Transfers(f) && d.size == 0 && !d.zlp))
  }

  lemma BeginSends(d: Device, f: seq<Byte>)
    requires Safe(d) && Accepts(d, f) && Full(f)
    ensures Sending(Begin(d, f), d.wire, f)
  {
    hide Header;
    assert Header(|f|) + f[..PACKET - HEADER] + d.first[PACKET..] == Message(f)[..PACKET];
  }

  lemma DoneSends(d: Device, sent: seq<seq<Byte>>, f: seq<Byte>)
    requires Safe(d) && d.pending && Sending(d, sent, f)
    ensures if Done(d).transmitting then Sending(Done(d), sent, f) else Done(d).wire == sent + Transfers(f)
  {
    hide Transfers, Message, Header;
    TransferShapes(sent, f);
    MessageTail(f);
  }

  lemma MessageTail(f: seq<Byte>)
    requires Full(f)
    ensures Message(f)[PACKET..] == f[PACKET - HEADER..] == f[PACKET - HEADER..][..|f| - (PACKET - HEADER)]
  {
    hide Header;
  }

  lemma TransferShapes(sent: seq<seq<Byte>>, f: seq<Byte>)
    requires Full(f)
    ensures var m := Message(f);
      && (sent + [m[..PACKET]]) + [m[PACKET..]] == sent + [m[..PACKET], m[PACKET..]]
      && (|m| == PACKET ==> (sent + [m[..PACKET]]) + [[]] == sent + Transfers(f))
      && (|m| > PACKET && |m| % PACKET == 0 ==> (sent + [m[..PACKET], m[PACKET..]]) + [[]] == sent + Transfers(f))
      && (|m| % PACKET != 0 ==> sent + [m[..PACKET], m[PACKET..]] == sent + Transfers(f))
  {
    hide Message;
    var m := Message(f);
    assert [m[..PACKET]] + [m[PACKET..]] == [m[..PACKET], m[PACKET..]];
  }

  /** A call that is accepted sends one packet, the beginning of the message; behind a short message stands
      what the packet before it left there. A call that is refused sends nothing. */
  lemma FirstHolds(d: Device, f: seq<Byte>)
    requires Safe(d)
    ensures Accepts(d, f) ==> exists first: seq<Byte> ::
      && Begin(d, f).wire == d.wire + [first] && |first| == 64
      && (forall k :: 0 <= k < 64 && k < 44 + |f| ==> first[k] == Message(f)[k])
      && forall k :: 44 + |f| <= k < 64 ==> first[k] == d.first[k]
    ensures !Accepts(d, f) ==> Begin(d, f).wire == d.wire
  {
    if Accepts(d, f) {
      hide Header;
      var n := Copied(f);
      var first := Header(|f|) + f[..n] + d.first[HEADER + n..];
      assert Begin(d, f).wire == d.wire + [first];
    }
  }

  /** Frame `f` is under way, after the transfers `sent`; a short one in one packet, `first`. */
  ghost predicate UnderWay(d: Device, sent: seq<seq<Byte>>, f: seq<Byte>, first: seq<Byte>) {
    if Full(f) then Sending(d, sent, f)
    else d.transmitting && |first| == PACKET && d.wire == sent + [first] && d.size == 0 && !d.zlp
  }

  /** What the host makes of frame `f`: a short one stays behind as the start of the next message. */
  function Taken(h: Host, f: seq<Byte>, first: seq<Byte>): Host {
    if Full(f) then Host(h.msgs + [h.acc + Message(f)], []) else Host(h.msgs, h.acc + first)
  }

  lemma BeginIsUnderWay(d: Device, f: seq<Byte>)
    requires Safe(d) && Accepts(d, f)
    ensures UnderWay(Begin(d, f), d.wire, f, Begin(d, f).first)
  {
    if Full(f) {
      BeginSends(d, f);
    }
    hide Header;
  }

  /** A completion goes on with the frame, or the host has taken it. */
  lemma DoneGoesOn(d: Device, sent: seq<seq<Byte>>, f: seq<Byte>, first: seq<Byte>)
    requires Safe(d) && d.pending && UnderWay(d, sent, f, first)
    ensures if Done(d).transmitting then UnderWay(Done(d), sent, f, first)
      else HostOf(Done(d).wire) == Taken(HostOf(sent), f, first)
  {
    hide HostOf, Message, Transfers, Header;
    if Full(f) {
      DoneSends(d, sent, f);
      FrameArrives(sent, f);
    } else {
      HostNext(sent, first);
      FeedEnds(HostOf(sent), first);
    }
  }

  /** Until then the host has all messages before it, and no part of the frame for a message. */
  lemma PartArrives(d: Device, sent: seq<seq<Byte>>, f: seq<Byte>, first: seq<Byte>)
    requires UnderWay(d, sent, f, first)
    ensures var h := HostOf(d.wire);
      h == Taken(HostOf(sent), f, first) || (Full(f) && h.msgs == HostOf(sent).msgs)
  {
    hide *;
    UnderWayIs(d, sent, f, first);
    TakenIs(HostOf(sent), f, first);
    if Full(f) {
      SendingCases(d, sent, f);
      FrameArrives(sent, f);
      StartArrives(sent, f);
    } else {
      HostNext(sent, first);
      FeedEnds(HostOf(sent), first);
      PacketSize();
    }
  }

  lemma PacketSize()
    ensures PACKET == 64 && HEADER == 44
  {
  }

  lemma UnderWayIs(d: Device, sent: seq<seq<Byte>>, f: seq<Byte>, first: seq<Byte>)
    requires UnderWay(d, sent, f, first)
    ensures Full(f) ==> Sending(d, sent, f)
    ensures !Full(f) ==> |first| == PACKET && d.wire == sent + [first]
  {
    hide Sending;
  }

  lemma TakenIs(h: Host, f: seq<Byte>, first: seq<Byte>)
    ensures Taken(h, f, first) ==
      if Full(f) then Host(h.msgs + [h.acc + Message(f)], []) else Host(h.msgs, h.acc + first)
  {
    hide Message;
  }

  lemma SendingCases(d: Device, sent: seq<seq<Byte>>, f: seq<Byte>)
    requires Sending(d, sent, f)
    ensures var m := Message(f);
      && Full(f) && |f| >= PACKET - HEADER && |m| >= PACKET
      && (|| d.wire == sent + [m[..PACKET]] || d.wire == sent + [m[..PACKET], m[PACKET..]]
          || d.wire == sent + Transfers(f))
  {
    hide Message, Transfers;
  }

  lemma StartArrives(sent: seq<seq<Byte>>, f: seq<Byte>)
    requires Full(f)
    ensures var m := Message(f); var h := HostOf(sent);
      && |m| >= PACKET && HostOf(sent + [m[..PACKET]]).msgs == h.msgs
      && (HostOf(sent + [m[..PACKET], m[PACKET..]]).msgs == h.msgs
          || HostOf(sent + [m[..PACKET], m[PACKET..]]) == Host(h.msgs + [h.acc + m], []))
  {
    hide HostOf, Message, Feed;
    var m, h := Message(f), HostOf(sent);
    var w := sent + [m[..PACKET]];
    HostNext(sent, m[..PACKET]);
    FeedEnds(h, m[..PACKET]);
    HostNext(w, m[PACKET..]);
    FeedEnds(HostOf(w), m[PACKET..]);
    assert w + [m[PACKET..]] == sent + [m[..PACKET], m[PACKET..]];
    assert (h.acc + m[..PACKET]) + m[PACKET..] == h.acc + m;
  }

  // ---- what has arrived ----

  /** Event `i` is a call with a frame that is accepted. */
  predicate Starts(ds: seq<Device>, es: seq<Event>, i: nat)
    requires i < |es| <= |ds|
  {
    es[i].CallBegins? && Accepts(ds[i], es[i].data)
  }

  /** What the host has when all frames accepted among the first `k` events are through. */
  ghost function Arrived(ds: seq<Device>, es: seq<Event>, k: nat): Host
    requires IsRun(ds, es) && k <= |es|
  {
    if k == 0 then Host([], [])
    else if Starts(ds, es, k - 1) then
      Taken(Arrived(ds, es, k - 1), es[k - 1].data, Begin(ds[k - 1], es[k - 1].data).first)
    else Arrived(ds, es, k - 1)
  }

  /** The frame of event `j` is under way at `k`. */
  ghost predicate InFlight(ds: seq<Device>, es: seq<Event>, k: nat, j: nat)
    requires IsRun(ds, es) && j < k <= |es|
  {
    && Starts(ds, es, j) && Arrived(ds, es, k) == Arrived(ds, es, j + 1)
    && HostOf(ds[j].wire) == Arrived(ds, es, j)
    && UnderWay(ds[k], ds[j].wire, es[j].data, Begin(ds[j], es[j].data).first)
  }

  /** What every run keeps: the wire carries the accepted frames, the last one maybe in part. */
  ghost predicate Tracks(ds: seq<Device>, es: seq<Event>, k: nat)
    requires IsRun(ds, es) && k <= |es|
  {
    if ds[k].transmitting then exists j: nat :: j < k && InFlight(ds, es, k, j)
    else HostOf(ds[k].wire) == Arrived(ds, es, k)
  }

  lemma RunFacts(ds: seq<Device>, es: seq<Event>, i: nat)
    requires IsRun(ds, es) && i < |es|
    ensures |ds| == |es| + 1 && Safe(ds[i]) && Enabled(ds[i], es[i]) && ds[i + 1] == Step(ds[i], es[i])
  {
    hide Safe, Enabled, Step;
  }

  lemma RunSize(ds: seq<Device>, es: seq<Event>)
    requires IsRun(ds, es)
    ensures |ds| == |es| + 1
  {
  }

  lemma ArrivedNext(ds: seq<Device>, es: seq<Event>, i: nat)
    requires IsRun(ds, es) && i < |es|
    ensures Safe(ds[i])
    ensures Arrived(ds, es, i + 1) ==
      if Starts(ds, es, i) then Taken(Arrived(ds, es, i), es[i].data, Begin(ds[i], es[i].data).first)
      else Arrived(ds, es, i)
  {
    hide Safe, Enabled, Step, Taken, Begin, Starts;
  }

  lemma StepCases(d: Device, e: Event)
    requires Safe(d) && Enabled(d, e)
    ensures e.CallBegins? ==> Step(d, e) == Begin(d, e.data)
    ensures e.CallBegins? && Accepts(d, e.data) ==> !d.transmitting && Begin(d, e.data).transmitting
    ensures e.CallBegins? && !Accepts(d, e.data) ==> Step(d, e) == d.(open := d.open + 1)
    ensures e.CallCounts? ==> d.open > 0 && Step(d, e) == d.(txbad := (d.txbad + 1) % DWORD_SIZE, open := d.open - 1)
    ensures e.Completion? ==> d.pending && d.transmitting && Step(d, e) == Done(d)
  {
    hide Header;
  }

  /** The other fields do not matter. */
  lemma SameWire(d: Device, e: Device, sent: seq<seq<Byte>>, f: seq<Byte>, first: seq<Byte>)
    requires UnderWay(d, sent, f, first)
    requires e.wire == d.wire && e.rest == d.rest && e.size == d.size && e.zlp == d.zlp
    requires e.transmitting == d.transmitting
    ensures UnderWay(e, sent, f, first)
  {
    hide Message, Transfers, Full;
  }

  lemma {:induction false} RunTracks(ds: seq<Device>, es: seq<Event>, k: nat)
    requires IsRun(ds, es) && k <= |es|
    ensures Tracks(ds, es, k)
  {
    hide *;
    RunSize(ds, es);
    if k == 0 {
      NothingSent(ds, es);
    } else {
      var i: nat := k - 1;
      RunTracks(ds, es, i);
      RunFacts(ds, es, i);
      StepCases(ds[i], es[i]);
      ArrivedNext(ds, es, i);
      StartsIs(ds, es, i);
      TracksIs(ds, es, i);
      if Starts(ds, es, i) {
        BeginIsUnderWay(ds[i], es[i].data);
        IsInFlight(ds, es, k, i);
      } else if ds[i].transmitting {
        var j: nat :| j < i && InFlight(ds, es, i, j);
        InFlightIs(ds, es, i, j);
        var first := Begin(ds[j], es[j].data).first;
        if es[i].Completion? {
          DoneGoesOn(ds[i], ds[j].wire, es[j].data, first);
          ArrivedNext(ds, es, j);
        } else {
          SameWire(ds[i], ds[k], ds[j].wire, es[j].data, first);
        }
        if ds[k].transmitting {
          IsInFlight(ds, es, k, j);
        }
      }
      TracksIs(ds, es, k);
    }
  }

  lemma StartsIs(ds: seq<Device>, es: seq<Event>, i: nat)
    requires i < |es| <= |ds|
    ensures Starts(ds, es, i) <==> es[i].CallBegins? && Accepts(ds[i], es[i].data)
  {
    hide Accepts;
  }

  lemma TracksIs(ds: seq<Device>, es: seq<Event>, k: nat)
    requires IsRun(ds, es) && k <= |es|
    ensures Tracks(ds, es, k) <==>
      if ds[k].transmitting then exists j: nat :: j < k && InFlight(ds, es, k, j)
      else HostOf(ds[k].wire) == Arrived(ds, es, k)
  {
    hide IsRun, InFlight, HostOf, Arrived;
  }

  lemma InFlightIs(ds: seq<Device>, es: seq<Event>, k: nat, j: nat)
    requires IsRun(ds, es) && j < k <= |es| && InFlight(ds, es, k, j)
    ensures Safe(ds[j]) && es[j].CallBegins? && Starts(ds, es, j) && Arrived(ds, es, k) == Arrived(ds, es, j + 1)
    ensures HostOf(ds[j].wire) == Arrived(ds, es, j)
    ensures UnderWay(ds[k], ds[j].wire, es[j].data, Begin(ds[j], es[j].data).first)
  {
    RunFacts(ds, es, j);
    hide IsRun, HostOf, Arrived, UnderWay, Begin, Safe, Accepts;
  }

  lemma IsInFlight(ds: seq<Device>, es: seq<Event>, k: nat, j: nat)
    requires IsRun(ds, es) && j < k <= |es| && Safe(ds[j])
    requires Starts(ds, es, j) && Arrived(ds, es, k) == Arrived(ds, es, j + 1)
    requires HostOf(ds[j].wire) == Arrived(ds, es, j)
    requires UnderWay(ds[k], ds[j].wire, es[j].data, Begin(ds[j], es[j].data).first)
    ensures InFlight(ds, es, k, j)
  {
    hide IsRun, HostOf, Arrived, UnderWay, Begin, Safe, Starts;
  }

  lemma NothingSent(ds: seq<Device>, es: seq<Event>)
    requires IsRun(ds, es)
    ensures Tracks(ds, es, 0)
  {
    HostNone();
  }

  /** Between frames the host has exactly what the accepted ones make, in order; while one is sent it
      has all before it, and never a part of a frame for a message. */
  lemma FramesArrive(ds: seq<Device>, es: seq<Event>, k: nat)
    requires IsRun(ds, es) && k <= |es|
    ensures var a := Arrived(ds, es, k); var h := HostOf(ds[k].wire);
      || h == a
      || (ds[k].transmitting && |a.msgs| > 0 && h.msgs == a.msgs[..|a.msgs| - 1])
  {
    hide *;
    RunSize(ds, es);
    RunTracks(ds, es, k);
    TracksIs(ds, es, k);
    if ds[k].transmitting {
      var j: nat :| j < k && InFlight(ds, es, k, j);
      InFlightIs(ds, es, k, j);
      ArrivedNext(ds, es, j);
      var first := Begin(ds[j], es[j].data).first;
      PartArrives(ds[k], ds[j].wire, es[j].data, first);
      TakenIs(HostOf(ds[j].wire), es[j].data, first);
    }
  }

  /** That is exactly the accepted frames, each as header and payload, if and only if none of them is
      too short to fill the first packet. */
  lemma {:induction false} ArrivedWhole(ds: seq<Device>, es: seq<Event>, k: nat)
    requires IsRun(ds, es) && k <= |es|
    ensures var fs := Frames(ds, es, k); var a := Arrived(ds, es, k);
      && |a.msgs| <= |fs| == |Messages(fs)|
      && (a == Host(Messages(fs), []) <==> forall f :: f in fs ==> Full(f))
      && (|a.msgs| == |fs| <==> forall f :: f in fs ==> Full(f))
  {
    hide *;
    RunSize(ds, es);
    FramesNone(ds, es);
    if k > 0 {
      var i: nat := k - 1;
      ArrivedWhole(ds, es, i);
      ArrivedNext(ds, es, i);
      FramesNext(ds, es, i);
      StartsIs(ds, es, i);
      if Starts(ds, es, i) {
        var fs, f := Frames(ds, es, i), es[i].data;
        assert Frames(ds, es, k) == fs + [f];
        TakenIs(Arrived(ds, es, i), f, Begin(ds[i], f).first);
        LastMessage(fs, f);
        forall x | x in fs + [f]
          ensures x in fs || x == f
        {
        }
        assert f in fs + [f] && forall x :: x in fs ==> x in fs + [f];
        assert [] + Message(f) == Message(f);
      }
    }
  }

  lemma FramesNone(ds: seq<Device>, es: seq<Event>)
    requires IsRun(ds, es)
    ensures Frames(ds, es, 0) == [] && Messages([]) == [] && Arrived(ds, es, 0) == Host([], [])
  {
  }

  lemma FramesNext(ds: seq<Device>, es: seq<Event>, i: nat)
    requires i < |es| <= |ds|
    ensures Frames(ds, es, i + 1) == if Starts(ds, es, i) then Frames(ds, es, i) + [es[i].data] else Frames(ds, es, i)
  {
    hide Accepts;
  }

  lemma LastMessage(fs: seq<seq<Byte>>, f: seq<Byte>)
    ensures Messages(fs + [f]) == Messages(fs) + [Message(f)]
  {
    assert (fs + [f])[..|fs|] == fs;
    hide Message;
  }

  // ---- one frame ----

  /** All completions until the frame is done: each hands over at most what is left. */
  function Finish(d: Device): Device
    requires Safe(d) && d.pending
    decreases (if d.size != 0 then 2 else 0) + (if d.zlp then 1 else 0)
  {
    StepIsSafe(d, Completion);
    var e := Done(d);
    if e.pending then Finish(e) else e
  }

  lemma {:induction false} FinishSends(d: Device, sent: seq<seq<Byte>>, f: seq<Byte>)
    requires Safe(d) && d.pending && Sending(d, sent, f)
    ensures Finish(d).wire == sent + Transfers(f) && !Finish(d).transmitting
    decreases (if d.size != 0 then 2 else 0) + (if d.zlp then 1 else 0)
  {
    hide Transfers, Message;
    StepIsSafe(d, Completion);
    DoneSends(d, sent, f);
    if Done(d).pending {
      FinishSends(Done(d), sent, f);
    }
  }

  /** An accepted frame reaches the host as a message of its own exactly if it fills the first packet:
      a shorter one is padded to 64 bytes, and nothing tells the host that it has ended. */
  lemma ArrivesIffFull(d: Device, f: seq<Byte>)
    requires Safe(d) && Accepts(d, f) && HostOf(d.wire).acc == []
    ensures Safe(Begin(d, f)) && Begin(d, f).pending
    ensures HostOf(Finish(Begin(d, f)).wire) == Host(HostOf(d.wire).msgs + [Message(f)], []) <==> |f| >= PACKET - HEADER
  {
    hide HostOf, Header, Transfers, Message;
    var b := Begin(d, f);
    if |f| >= PACKET - HEADER {
      BeginSends(d, f);
      FinishSends(b, d.wire, f);
      FrameArrives(d.wire, f);
      assert [] + Message(f) == Message(f);
    } else {
      HostNext(d.wire, b.first);
      FeedEnds(HostOf(d.wire), b.first);
      assert HostOf(Finish(b).wire).acc == [] + b.first;
    }
  }

  /** A frame of 19 bytes, the first one sent: the host gets no message. */
  lemma ShortFrameIsHeld(f: seq<Byte>)
    requires |f| == 19
    ensures Safe(POWER_ON) && Accepts(POWER_ON, f) && Safe(Begin(POWER_ON, f)) && Begin(POWER_ON, f).pending
    ensures HostOf(Finish(Begin(POWER_ON, f)).wire) == Host([], Begin(POWER_ON, f).first)
  {
    hide HostOf, Header;
    HostNone();
    var first := Begin(POWER_ON, f).first;
    HostNext([], first);
    FeedEnds(HostOf([]), first);
    assert [] + first == first;
    assert Finish(Begin(POWER_ON, f)).wire == [] + [first];
  }
}
