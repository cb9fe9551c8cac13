/** Several virtual serial ports over one: the bytes of a port follow the number of its service. */
module Sermux {
  import opened Bytes
  import opened CharBuffers

  const SERVICE_ID_FIRST := 0xD0
  const SERVICE_ID_LAST := 0xD7
  const SERVICE_MAX := 8
  const ESCAPE_CHAR: Byte := 0xC0
  const FORCE_SID_CHAR: Byte := 0xFF
  const ESC_MASK := 0x100
  const NONE := -1

  /** Exclusive or with 0x20. */
  function Toggled(b: Byte): Byte {
    if b / 0x20 % 2 == 0 then b + 0x20 else b - 0x20
  }

  predicate Special(b: Byte) {
    b == ESCAPE_CHAR || b == FORCE_SID_CHAR || SERVICE_ID_FIRST <= b <= SERVICE_ID_LAST
  }

  /** A byte as it is sent. */
  function Escaped(b: Byte): seq<Byte> {
    if Special(b) then [ESCAPE_CHAR, Toggled(b)] else [b]
  }

  /** A byte for a service. */
  datatype Delivery = Delivery(id: Byte, data: Byte)

  /** What a sender, whose last service was out, sends for one byte. */
  function Sent(out: int, d: Delivery): seq<Byte> {
    (if d.id != out then [d.id] else []) + Escaped(d.data)
  }

  function SentAll(out: int, ds: seq<Delivery>): seq<Byte>
    decreases |ds|
  {
    if ds == [] then [] else Sent(out, ds[0]) + SentAll(ds[0].id, ds[1..])
  }

  /** What a sender remembers of the last byte, and what it sends when asked for it again. */
  function LastSent(b: Byte): nat {
    if Special(b) then ESC_MASK + Toggled(b) else b
  }

  function Again(out: Byte, last: nat): seq<Byte> {
    [out] + (if last / ESC_MASK % 2 == 1 then [ESCAPE_CHAR] else []) + [last % 0x100]
  }

  /** The service that bytes belong to, or none, and whether the last byte was the escape character. */
  datatype Receiver = Receiver(serviceIn: int, gotEsc: bool)

  predicate ServiceId(n: nat, b: int) {
    SERVICE_ID_FIRST <= b < SERVICE_ID_FIRST + n
  }

  /** A byte arrives: the receiver after it, the byte that is delivered, and whether the service is asked for. */
  function After(r: Receiver, n: nat, b: Byte): Receiver {
    if b == ESCAPE_CHAR then r.(gotEsc := true)
    else if ServiceId(n, b) then r.(serviceIn := b)
    else r.(gotEsc := false)
  }

  function Data(r: Receiver, b: Byte): Byte {
    if r.gotEsc then Toggled(b) else b
  }

  predicate Asks(r: Receiver, n: nat, b: Byte) {
    b != ESCAPE_CHAR && !ServiceId(n, b) && r.serviceIn == NONE
  }

  predicate Delivers(r: Receiver, n: nat, b: Byte) {
    b != ESCAPE_CHAR && !ServiceId(n, b) && 0 <= r.serviceIn < 0x100
  }

  /** The same for a number of bytes. */
  function AfterAll(r: Receiver, n: nat, bs: seq<Byte>): Receiver
    decreases |bs|
  {
    if bs == [] then r else AfterAll(After(r, n, bs[0]), n, bs[1..])
  }

  function Delivered(r: Receiver, n: nat, bs: seq<Byte>): seq<Delivery>
    decreases |bs|
  {
    if bs == [] then []
    else
      (if Delivers(r, n, bs[0]) then [Delivery(r.serviceIn, Data(r, bs[0]))] else [])
      + Delivered(After(r, n, bs[0]), n, bs[1..])
  }

  function Asked(r: Receiver, n: nat, bs: seq<Byte>): nat
    decreases |bs|
  {
    if bs == [] then 0 else (if Asks(r, n, bs[0]) then 1 else 0) + Asked(After(r, n, bs[0]), n, bs[1..])
  }

  lemma {:induction false} InParts(r: Receiver, n: nat, a: seq<Byte>, b: seq<Byte>)
    ensures AfterAll(r, n, a + b) == AfterAll(AfterAll(r, n, a), n, b)
    ensures Delivered(r, n, a + b) == Delivered(r, n, a) + Delivered(AfterAll(r, n, a), n, b)
    ensures Asked(r, n, a + b) == Asked(r, n, a) + Asked(AfterAll(r, n, a), n, b)
    decreases |a|
  {
    hide After, Delivers, Asks, Data;
    if a == [] {
      assert a + b == b;
    } else {
      InParts(After(r, n, a[0]), n, a[1..], b);
      assert (a + b)[1..] == a[1..] + b;
    }
  }

  lemma ToggledTwice(b: Byte)
    ensures Toggled(Toggled(b)) == b
    ensures Special(b) ==> !Special(Toggled(b))
  {
  }

  /** One byte as it is sent, at a receiver that is in step: it is delivered if the service is known, and
      otherwise the service is asked for once. */
  lemma OneByte(r: Receiver, n: nat, b: Byte)
    requires n <= SERVICE_MAX && !r.gotEsc && (r.serviceIn == NONE || ServiceId(n, r.serviceIn))
    ensures AfterAll(r, n, Escaped(b)) == r && FORCE_SID_CHAR !in Escaped(b)
    ensures r.serviceIn != NONE ==>
      Delivered(r, n, Escaped(b)) == [Delivery(r.serviceIn, b)] && Asked(r, n, Escaped(b)) == 0
    ensures r.serviceIn == NONE ==> Delivered(r, n, Escaped(b)) == [] && Asked(r, n, Escaped(b)) == 1
  {
    ToggledTwice(b);
    if Special(b) {
      var e, t := [ESCAPE_CHAR], [Toggled(b)];
      InParts(r, n, e, t);
      assert e + t == Escaped(b);
      Single(r, n, ESCAPE_CHAR);
      Single(r.(gotEsc := true), n, Toggled(b));
    } else {
      Single(r, n, b);
    }
  }

  lemma Single(r: Receiver, n: nat, b: Byte)
    ensures AfterAll(r, n, [b]) == After(r, n, b)
    ensures Delivered(r, n, [b]) == if Delivers(r, n, b) then [Delivery(r.serviceIn, Data(r, b))] else []
    ensures Asked(r, n, [b]) == if Asks(r, n, b) then 1 else 0
  {
    assert [b][1..] == [];
  }

  /** A sender that knows no service yet, or a receiver that knows the one of the sender. */
  predicate InStep(r: Receiver, n: nat, out: int) {
    !r.gotEsc && (r.serviceIn == NONE || ServiceId(n, r.serviceIn)) && (out == NONE || r.serviceIn == out)
  }

  lemma OneSent(r: Receiver, n: nat, out: int, d: Delivery)
    requires n <= SERVICE_MAX && InStep(r, n, out) && ServiceId(n, d.id)
    ensures AfterAll(r, n, Sent(out, d)) == Receiver(d.id, false) && FORCE_SID_CHAR !in Sent(out, d)
    ensures Delivered(r, n, Sent(out, d)) == [d] && Asked(r, n, Sent(out, d)) == 0
  {
    hide Escaped;
    OneByte(Receiver(d.id, false), n, d.data);
    if d.id != out {
      InParts(r, n, [d.id], Escaped(d.data));
      Single(r, n, d.id);
    } else {
      assert Sent(out, d) == Escaped(d.data);
    }
  }

  /** Whatever bytes are sent for whatever services, the receiver delivers just these, in that order. The
      character that asks for the service is never among what is sent. */
  lemma {:induction false} RoundTrip(r: Receiver, n: nat, out: int, ds: seq<Delivery>)
    requires n <= SERVICE_MAX && InStep(r, n, out) && forall d :: d in ds ==> ServiceId(n, d.id)
    ensures Delivered(r, n, SentAll(out, ds)) == ds && Asked(r, n, SentAll(out, ds)) == 0
    ensures FORCE_SID_CHAR !in SentAll(out, ds)
    ensures ds != [] ==> AfterAll(r, n, SentAll(out, ds)) == Receiver(ds[|ds| - 1].id, false)
    decreases |ds|
  {
    hide Sent, AfterAll, Delivered, Asked;
    Empty(r, n);
    if ds != [] {
      OneSent(r, n, out, ds[0]);
      Empty(Receiver(ds[0].id, false), n);
      InParts(r, n, Sent(out, ds[0]), SentAll(ds[0].id, ds[1..]));
      RoundTrip(Receiver(ds[0].id, false), n, ds[0].id, ds[1..]);
    }
  }

  lemma Empty(r: Receiver, n: nat)
    ensures AfterAll(r, n, []) == r && Delivered(r, n, []) == [] && Asked(r, n, []) == 0
  {
  }

  /** The bytes of one service. */
  function OfService(ds: seq<Delivery>, id: Byte): seq<Byte> {
    if ds == [] then [] else OfService(ds[..|ds| - 1], id) + (if ds[|ds| - 1].id == id then [ds[|ds| - 1].data] else [])
  }

  lemma {:induction false} OfServiceInParts(a: seq<Delivery>, b: seq<Delivery>, id: Byte)
    ensures OfService(a + b, id) == OfService(a, id) + OfService(b, id)
    decreases |b|
  {
    if b == [] {
      assert a + b == a;
    } else {
      OfServiceInParts(a, b[..|b| - 1], id);
      assert (a + b)[..|a + b| - 1] == a + b[..|b| - 1];
    }
  }

  /** A receiver that has lost the service of the sender asks for it when the next byte arrives, which it
      drops. What the sender sends again then delivers that byte: once in all, as if nothing had been lost. */
  lemma LockStep(n: nat, d: Delivery)
    requires n <= SERVICE_MAX && ServiceId(n, d.id)
    ensures var lost := Receiver(NONE, false);
      && Delivered(lost, n, Sent(d.id, d)) == [] && Asked(lost, n, Sent(d.id, d)) == 1
      && AfterAll(lost, n, Sent(d.id, d)) == lost
      && Delivered(lost, n, Again(d.id, LastSent(d.data))) == [d] && Asked(lost, n, Again(d.id, LastSent(d.data))) == 0
      && AfterAll(lost, n, Again(d.id, LastSent(d.data))) == Receiver(d.id, false)
  {
    var lost := Receiver(NONE, false);
    OneByte(lost, n, d.data);
    OneByte(Receiver(d.id, false), n, d.data);
    AgainIs(d);
    assert Sent(d.id, d) == Escaped(d.data);
    InParts(lost, n, [d.id], Escaped(d.data));
    Single(lost, n, d.id);
  }

  lemma AgainIs(d: Delivery)
    ensures Again(d.id, LastSent(d.data)) == [d.id] + Escaped(d.data)
  {
  }

  /** So many times the character that asks for the service. */
  function Requests(n: nat): seq<Byte> {
    seq(n, _ => FORCE_SID_CHAR)
  }

  class Mux {
    const rings: seq<CharBuffer>
    var serviceIn: int
    var serviceOut: int
    var gotEsc: bool
    var lastSent: int
    // What was sent on the physical port
    var wire: seq<Byte>

    ghost function Buffers(): set<object>
    {
      (set r: CharBuffer | r in rings :: r as object) + (set r: CharBuffer | r in rings :: r.buf as object)
    }

    lemma InBuffers(r: CharBuffer)
      requires r in rings
      ensures r in Buffers() && r.buf in Buffers()
    {
    }

    ghost predicate Valid()
      reads this, rings
    {
      && |rings| <= SERVICE_MAX && (serviceIn == NONE || ServiceId(|rings|, serviceIn))
      && (serviceOut == NONE || ServiceId(|rings|, serviceOut))
      && (lastSent == NONE || (0 <= lastSent < 0x200 && serviceOut != NONE))
      && (forall r :: r in rings ==> r.Valid())
      && (forall i, j :: 0 <= i < j < |rings| ==> rings[i] != rings[j] && rings[i].buf != rings[j].buf)
    }

    ghost function State(): Receiver
      reads this
    {
      Receiver(serviceIn, gotEsc)
    }

    constructor (rings: seq<CharBuffer>)
      requires |rings| <= SERVICE_MAX && forall r :: r in rings ==> r.Valid()
      requires forall i, j :: 0 <= i < j < |rings| ==> rings[i] != rings[j] && rings[i].buf != rings[j].buf
      ensures Valid() && this.rings == rings && State() == Receiver(NONE, false) && serviceOut == NONE
      ensures lastSent == NONE && wire == []
    {
      this.rings := rings;
      serviceIn, serviceOut, gotEsc, lastSent, wire := NONE, NONE, false, NONE, [];
    }

    /** Sends a byte on a virtual port. */
    method Send(id: nat, data: Byte)
      requires Valid() && ServiceId(|rings|, id)
      modifies this
      ensures Valid() && State() == old(State()) && serviceOut == id && lastSent == LastSent(data)
      ensures wire == old(wire) + Sent(old(serviceOut), Delivery(id, data))
    {
      if id != serviceOut {
        wire := wire + [id];
      }
      lastSent := data;
      if data == ESCAPE_CHAR || data == FORCE_SID_CHAR || SERVICE_ID_FIRST <= data <= SERVICE_ID_LAST {
        wire := wire + [ESCAPE_CHAR];
        wire := wire + [Toggled(data)];
        lastSent := ESC_MASK + Toggled(data);
      } else {
        wire := wire + [data];
      }
      serviceOut := id;
    }

    /** Sends the service and the last byte again. */
    method Resend()
      requires Valid() && lastSent != NONE
      modifies this
      ensures Valid() && State() == old(State()) && serviceOut == old(serviceOut) && lastSent == NONE
      ensures wire == old(wire) + Again(serviceOut, old(lastSent))
    {
      wire := wire + [serviceOut];
      if lastSent / ESC_MASK % 2 == 1 {
        wire := wire + [ESCAPE_CHAR];
      }
      wire := wire + [lastSent % 0x100];
      lastSent := NONE;
    }

    /** A byte arrives on the physical port. */
    method Receive(data: Byte)
      requires Valid()
      modifies this, Buffers()
      ensures Valid() && serviceOut == old(serviceOut)
      ensures data == FORCE_SID_CHAR && old(lastSent) != NONE ==>
        && State() == old(State()) && lastSent == NONE && wire == old(wire) + Again(serviceOut, old(lastSent))
        && forall k :: 0 <= k < |rings| ==> rings[k].Contents() == old(rings[k].Contents())
      ensures data != FORCE_SID_CHAR || old(lastSent) == NONE ==>
        && State() == After(old(State()), |rings|, data) && lastSent == old(lastSent)
        && wire == old(wire) + (if Asks(old(State()), |rings|, data) then [FORCE_SID_CHAR] else [])
        && forall k :: 0 <= k < |rings| ==>
             if Delivers(old(State()), |rings|, data) && old(serviceIn) == SERVICE_ID_FIRST + k then
               rings[k].Contents() == Kept(old(rings[k].Contents()) + [Data(old(State()), data)], rings[k].buf.Length)
             else rings[k].Contents() == old(rings[k].Contents())
    {
      hide Kept, RingBytes, Toggled;
      if data == ESCAPE_CHAR {
        gotEsc := true;
      } else if SERVICE_ID_FIRST <= data < SERVICE_ID_FIRST + |rings| {
        serviceIn := data;
      } else if data == FORCE_SID_CHAR && lastSent != NONE {
        Resend();
      } else {
        var c := data;
        if gotEsc {
          c := Toggled(c);
          gotEsc := false;
        }
        if serviceIn == NONE {
          wire := wire + [FORCE_SID_CHAR];
        } else {
          InBuffers(rings[serviceIn - SERVICE_ID_FIRST]);
          var ok := rings[serviceIn - SERVICE_ID_FIRST].Write(c);
        }
      }
    }

    /** The bytes of ring k among those that arrive. */
    ghost function Share(r: Receiver, bytes: seq<Byte>, k: nat): seq<Byte>
      requires k < SERVICE_MAX
    {
      OfService(Delivered(r, |rings|, bytes), SERVICE_ID_FIRST + k)
    }

    lemma Nothing(r: Receiver)
      ensures AfterAll(r, |rings|, []) == r && forall k :: 0 <= k < SERVICE_MAX ==> Share(r, [], k) == []
    {
    }

    lemma NoRequests(r: Receiver)
      ensures Requests(Asked(r, |rings|, [])) == []
    {
    }

    /** What byte i adds to the share of ring k. */
    ghost predicate ShareGrows(r: Receiver, bytes: seq<Byte>, i: nat, k: nat)
      requires i < |bytes| && k < SERVICE_MAX
    {
      var r' := AfterAll(r, |rings|, bytes[..i]);
      && Share(r, bytes[..i + 1], k) == Share(r, bytes[..i], k)
         + (if Delivers(r', |rings|, bytes[i]) && r'.serviceIn == SERVICE_ID_FIRST + k then [Data(r', bytes[i])]
           else [])
    }

    lemma ShareMore(r: Receiver, bytes: seq<Byte>, i: nat, k: nat)
      requires i < |bytes| && k < SERVICE_MAX
      ensures ShareGrows(r, bytes, i, k)
    {
      hide After, Delivers, Data;
      var n, a, b := |rings|, bytes[..i], [bytes[i]];
      var r' := AfterAll(r, n, a);
      InParts(r, n, a, b);
      assert a + b == bytes[..i + 1] && bytes[..i + 1] + bytes[i + 1..] == bytes;
      InParts(r, n, bytes[..i + 1], bytes[i + 1..]);
      Single(r', n, bytes[i]);
      hide AfterAll, Delivered, Asked, OfService;
      OfServiceInParts(Delivered(r, n, a), Delivered(r', n, b), SERVICE_ID_FIRST + k);
      OfServiceInParts(Delivered(r, n, bytes[..i + 1]), Delivered(AfterAll(r, n, bytes[..i + 1]), n, bytes[i + 1..]),
                       SERVICE_ID_FIRST + k);
      OfServiceOne(r', n, bytes[i], SERVICE_ID_FIRST + k);
    }

    lemma StateMore(r: Receiver, bytes: seq<Byte>, i: nat)
      requires i < |bytes|
      ensures var r' := AfterAll(r, |rings|, bytes[..i]);
        && AfterAll(r, |rings|, bytes[..i + 1]) == After(r', |rings|, bytes[i])
        && Requests(Asked(r, |rings|, bytes[..i + 1])) ==
             Requests(Asked(r, |rings|, bytes[..i])) + (if Asks(r', |rings|, bytes[i]) then [FORCE_SID_CHAR] else [])
    {
      hide After, Delivers, Data, Asks;
      assert bytes[..i] + [bytes[i]] == bytes[..i + 1];
      InParts(r, |rings|, bytes[..i], [bytes[i]]);
      Single(AfterAll(r, |rings|, bytes[..i]), |rings|, bytes[i]);
    }

    /** A ring that holds its share of the bytes up to byte i, and its share of that byte. */
    lemma ShareKept(contents: seq<Byte>, r: Receiver, bytes: seq<Byte>, i: nat, k: nat, n: nat)
      requires i < |bytes| && k < SERVICE_MAX && ShareGrows(r, bytes, i, k) && 0 < n
      ensures var r' := AfterAll(r, |rings|, bytes[..i]); var kept := Kept(contents + Share(r, bytes[..i], k), n);
        Kept(contents + Share(r, bytes[..i + 1], k), n) ==
          if Delivers(r', |rings|, bytes[i]) && r'.serviceIn == SERVICE_ID_FIRST + k
          then Kept(kept + [Data(r', bytes[i])], n) else kept
    {
      hide After, Delivers, Data, AfterAll, Share, Kept;
      var all, more := contents + Share(r, bytes[..i], k), [Data(AfterAll(r, |rings|, bytes[..i]), bytes[i])];
      assert all + more == contents + (Share(r, bytes[..i], k) + more);
      assert Share(r, bytes[..i], k) + [] == Share(r, bytes[..i], k);
      KeptMore(all, more, n);
    }

    /** Bytes arrive: each ring gets just those of its service, in order, as far as it holds them. */
    method RxInterrupt(bytes: seq<Byte>)
      requires Valid() && (FORCE_SID_CHAR !in bytes || lastSent == NONE)
      modifies this, Buffers()
      ensures Valid() && State() == AfterAll(old(State()), |rings|, bytes) && serviceOut == old(serviceOut)
      ensures lastSent == old(lastSent)
      ensures wire == old(wire) + Requests(Asked(old(State()), |rings|, bytes))
      ensures forall k :: 0 <= k < |rings| ==>
        rings[k].Contents() == Kept(old(rings[k].Contents()) + Share(old(State()), bytes, k), rings[k].buf.Length)
      ensures forall k :: 0 <= k < |rings| && Share(old(State()), bytes, k) == [] ==>
        rings[k].Contents() == old(rings[k].Contents())
    {
      hide After, Delivers, Data, Asks, AfterAll, Share, Asked, Requests, Kept, ShareGrows;
      ghost var r := State();
      Nothing(r);
      NoRequests(r);
      forall k | 0 <= k < |rings|
        ensures rings[k].Contents() == Kept(rings[k].Contents() + [], rings[k].buf.Length)
        ensures rings[k].buf.Length > 0
      {
        rings[k].NothingWritten();
        assert rings[k].Contents() + [] == rings[k].Contents();
      }
      for i := 0 to |bytes|
        invariant Valid() && State() == AfterAll(r, |rings|, bytes[..i]) && serviceOut == old(serviceOut)
        invariant lastSent == old(lastSent)
        invariant wire == old(wire) + Requests(Asked(r, |rings|, bytes[..i]))
        invariant forall k :: 0 <= k < |rings| ==>
          rings[k].Contents() == Kept(old(rings[k].Contents()) + Share(r, bytes[..i], k), rings[k].buf.Length)
      {
        forall k | 0 <= k < |rings| ensures ShareGrows(r, bytes, i, k) {
          ShareMore(r, bytes, i, k);
        }
        StateMore(r, bytes, i);
        ghost var r' := State();
        label L:
        Receive(bytes[i]);
        forall k | 0 <= k < |rings|
          ensures rings[k].Contents() ==
            Kept(old(rings[k].Contents()) + Share(r, bytes[..i + 1], k), rings[k].buf.Length)
        {
          assert ShareGrows(r, bytes, i, k);
          ShareKept(old(rings[k].Contents()), r, bytes, i, k, rings[k].buf.Length);
        }
      }
      assert bytes[..|bytes|] == bytes;
    }
  }

  lemma OfServiceOne(r: Receiver, n: nat, b: Byte, id: Byte)
    ensures OfService([], id) == []
    ensures Delivers(r, n, b) ==>
      OfService([Delivery(r.serviceIn, Data(r, b))], id) == if r.serviceIn == id then [Data(r, b)] else []
  {
  }

  /** Sends bytes on virtual ports. */
  method SendAll(tx: Mux, ds: seq<Delivery>)
    requires tx.Valid() && forall d :: d in ds ==> ServiceId(|tx.rings|, d.id)
    modifies tx
    ensures tx.Valid() && tx.State() == old(tx.State()) && tx.wire == old(tx.wire) + SentAll(old(tx.serviceOut), ds)
    ensures tx.serviceOut == if ds == [] then old(tx.serviceOut) else ds[|ds| - 1].id
  {
    hide Sent;
    ghost var out, wire := tx.serviceOut, tx.wire;
    for i := 0 to |ds|
      invariant tx.Valid() && tx.State() == old(tx.State())
      invariant tx.wire + SentAll(tx.serviceOut, ds[i..]) == wire + SentAll(out, ds)
      invariant tx.serviceOut == if i == 0 then out else ds[i - 1].id
    {
      assert ds[i..][1..] == ds[i + 1..];
      tx.Send(ds[i].id, ds[i].data);
    }
  }

  /** Whatever is sent on virtual ports of one side arrives in the rings of the same ports on the other side,
      each byte once and in order, as far as the rings hold them. The other side asks for nothing. */
  method Transfer(tx: Mux, rx: Mux, ds: seq<Delivery>)
    requires tx.Valid() && rx.Valid() && tx != rx && tx !in rx.Buffers() && rx.Buffers() !! tx.Buffers()
    requires |tx.rings| == |rx.rings|
    requires InStep(rx.State(), |rx.rings|, tx.serviceOut) && forall d :: d in ds ==> ServiceId(|rx.rings|, d.id)
    modifies tx, rx, rx.Buffers()
    ensures tx.Valid() && rx.Valid() && InStep(rx.State(), |rx.rings|, tx.serviceOut) && rx.wire == old(rx.wire)
    ensures forall k :: 0 <= k < |rx.rings| ==>
      var all := old(rx.rings[k].Contents()) + OfService(ds, SERVICE_ID_FIRST + k);
      rx.rings[k].Contents() == Kept(all, rx.rings[k].buf.Length)
      && (|all| <= rx.rings[k].buf.Length ==> rx.rings[k].Contents() == all)
  {
    hide SentAll, AfterAll, Delivered, Asked;
    var before := |tx.wire|;
    ghost var out := tx.serviceOut;
    SendAll(tx, ds);
    var bytes := tx.wire[before..];
    assert bytes == SentAll(out, ds);
    RoundTrip(rx.State(), |rx.rings|, out, ds);
    NothingSent(rx.State(), |rx.rings|, out);
    rx.RxInterrupt(bytes);
  }

  lemma NothingSent(r: Receiver, n: nat, out: int)
    ensures AfterAll(r, n, SentAll(out, [])) == r && Requests(0) == []
  {
  }

  /** Is one side ready to send bytes for service id to the other one, which has room for one more? */
  ghost predicate Linked(tx: Mux, rx: Mux, id: nat)
    reads tx, rx, tx.rings, rx.rings
  {
    && tx.Valid() && rx.Valid() && tx != rx && tx !in rx.Buffers() && rx !in tx.Buffers()
    && rx.Buffers() !! tx.Buffers()
    && |tx.rings| == |rx.rings| && ServiceId(|rx.rings|, id) && tx.serviceOut == id
    && rx.rings[id - SERVICE_ID_FIRST].count < rx.rings[id - SERVICE_ID_FIRST].buf.Length
  }

  /** The other side has forgotten which service bytes belong to: it drops the byte, and asks. */
  method TransferLost(tx: Mux, rx: Mux, id: nat, data: Byte)
    requires Linked(tx, rx, id) && rx.State() == Receiver(NONE, false)
    modifies tx, rx, rx.Buffers()
    ensures Linked(tx, rx, id) && rx.State() == Receiver(NONE, false) && tx.lastSent == LastSent(data)
    ensures rx.wire == old(rx.wire) + [FORCE_SID_CHAR]
    ensures forall k :: 0 <= k < |rx.rings| ==> rx.rings[k].Contents() == old(rx.rings[k].Contents())
  {
    hide AfterAll, Delivered, Asked, Sent, Again, Kept, RingBytes;
    ghost var n, d := |rx.rings|, Delivery(id, data);
    LockStep(n, d);
    NoForce(n, d);
    var sent := |tx.wire|;
    tx.Send(id, data);
    rx.RxInterrupt(tx.wire[sent..]);
  }

  /** The other side has forgotten which service bytes belong to: it asks for it, and gets the byte that it
      has dropped, once. */
  method TransferAgain(tx: Mux, rx: Mux, id: nat, data: Byte)
    requires Linked(tx, rx, id) && rx.State() == Receiver(NONE, false)
    modifies tx, rx, tx.Buffers(), rx.Buffers()
    ensures tx.Valid() && rx.Valid() && rx.State() == Receiver(id, false) && tx.serviceOut == id && tx.lastSent == NONE
    ensures rx.wire == old(rx.wire) + [FORCE_SID_CHAR]
    ensures rx.rings[id - SERVICE_ID_FIRST].Contents() == old(rx.rings[id - SERVICE_ID_FIRST].Contents()) + [data]
    ensures forall k :: 0 <= k < |rx.rings| && k != id - SERVICE_ID_FIRST ==>
      rx.rings[k].Contents() == old(rx.rings[k].Contents())
  {
    hide AfterAll, Delivered, Asked, Sent, Again, Kept, RingBytes;
    ghost var n, d := |rx.rings|, Delivery(id, data);
    LockStep(n, d);
    NoForce(n, d);
    KeptAll(rx.rings[id - SERVICE_ID_FIRST].Contents() + [data], rx.rings[id - SERVICE_ID_FIRST].buf.Length);
    var asked := |rx.wire|;
    TransferLost(tx, rx, id, data);
    var sent := |tx.wire|;
    tx.Receive(rx.wire[asked]);
    rx.RxInterrupt(tx.wire[sent..]);
  }

  lemma NoForce(n: nat, d: Delivery)
    requires n <= SERVICE_MAX && ServiceId(n, d.id)
    ensures FORCE_SID_CHAR !in Sent(d.id, d) && FORCE_SID_CHAR !in Again(d.id, LastSent(d.data))
    ensures Requests(1) == [FORCE_SID_CHAR] && Requests(0) == []
    ensures forall id :: OfService([], id) == [] && OfService([d], id) == if id == d.id then [d.data] else []
  {
    OneByte(Receiver(d.id, false), n, d.data);
    AgainIs(d);
  }
}
