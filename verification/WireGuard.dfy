/**
  The WireGuard tunnel device (petra/src/net/wireguard.rs): data packets under a
  shared secret, with a counter as nonce.
*/
module WireGuard {
  import opened Words
  import opened ChaCha20
  import opened Poly1305Mac
  import opened Aead

  datatype Errno = EINVAL | ENOTCONN | ENETDOWN | EACCES

  datatype Result<T> = Ok(value: T) | Err(error: Errno)

  /** The part of the peer configuration that data packets use. */
  datatype Peer = Peer(secret: seq<Byte>, receiverIndex: U32) {
    predicate Valid() { |secret| == 32 }
  }

  const DATA: U32 := 4

  function Nonce(counter: U64): (n: seq<Byte>)
    ensures |n| == 12
  {
    Zeros(4) + ToLE(counter, 8)
  }

  /** A data packet: type, receiver index, counter, ciphertext, tag. */
  function Encode(peer: Peer, counter: U64, payload: seq<Byte>): seq<Byte>
    requires peer.Valid()
  {
    var (ciphertext, tag) := Seal(peer.secret, Nonce(counter), [], payload);
    ToLE(DATA, 4) + ToLE(peer.receiverIndex, 4) + ToLE(counter, 8) + ciphertext + tag
  }

  /** What a packet from the network leads to. */
  datatype Verdict = Rejected(error: Errno) | Ignored | Delivered(payload: seq<Byte>)

  function Decode(peer: Option<Peer>, packet: seq<Byte>): Verdict
    requires peer.Some? ==> peer.value.Valid()
  {
    if |packet| < 32 then Rejected(EINVAL)
    else if LE(packet[0..4]) != DATA then Ignored
    else if peer.None? then Rejected(ENOTCONN)
    else
      var n := |packet| - 16;
      match Open(peer.value.secret, Zeros(4) + packet[8..16], [], packet[16..n], packet[n..])
      case Some(payload) => Delivered(payload)
      case None => Rejected(EACCES)
  }

  /** The counter a packet carries. */
  function Counter(packet: seq<Byte>): nat
    requires |packet| >= 16
  {
    LE(packet[8..16])
  }

  lemma PacketParts(peer: Peer, counter: U64, payload: seq<Byte>)
    requires peer.Valid()
    ensures var p := Encode(peer, counter, payload);
            var (ciphertext, tag) := Seal(peer.secret, Nonce(counter), [], payload);
            |p| == |payload| + 32 && p[0..4] == ToLE(DATA, 4) && p[8..16] == ToLE(counter, 8)
            && p[16..|p| - 16] == ciphertext && p[|p| - 16..] == tag
  {
    hide ToLE, Tag, Nonce, Crypt;
    TagLength(peer.secret, Nonce(counter), [], Crypt(peer.secret, Nonce(counter), 1, payload));
  }

  lemma TagLength(key: seq<Byte>, nonce: seq<Byte>, aad: seq<Byte>, ciphertext: seq<Byte>)
    requires |key| == 32 && |nonce| == 12
    ensures |Tag(key, nonce, aad, ciphertext)| == 16
  {
    hide ToLE, OneTimeKey, MacData;
  }

  /** A packet made under a secret is delivered, unchanged, by any device that has that secret. */
  lemma DecodeEncode(sender: Peer, receiver: Peer, counter: U64, payload: seq<Byte>)
    requires sender.Valid() && receiver.Valid() && sender.secret == receiver.secret
    ensures Decode(Some(receiver), Encode(sender, counter, payload)) == Delivered(payload)
    ensures |Encode(sender, counter, payload)| >= 32 && Counter(Encode(sender, counter, payload)) == counter
  {
    hide ToLE, LE, Zeros, Seal, Open, Encode;
    PacketParts(sender, counter, payload);
    LE32(DATA);
    LE64(counter);
    OpenSeal(sender.secret, Nonce(counter), [], payload);
  }

  /** The packets a device with counter `c` makes of a list of payloads. */
  function Stream(peer: Peer, c: U64, payloads: seq<seq<Byte>>): seq<seq<Byte>>
    requires peer.Valid()
  {
    seq(|payloads|, i requires 0 <= i < |payloads| =>
      Encode(peer, (c + i) % 0x1_0000_0000_0000_0000, payloads[i]))
  }

  /** Until the 64-bit counter wraps, later packets carry larger counters, so no nonce is used twice. */
  lemma CountersIncrease(peer: Peer, c: U64, payloads: seq<seq<Byte>>, i: nat, j: nat)
    requires peer.Valid() && i < j < |payloads|
    requires c + |payloads| <= 0x1_0000_0000_0000_0000
    ensures |Stream(peer, c, payloads)[i]| >= 32 && |Stream(peer, c, payloads)[j]| >= 32
    ensures Counter(Stream(peer, c, payloads)[i]) < Counter(Stream(peer, c, payloads)[j])
  {
    hide Encode, Decode, Counter;
    assert (c + i) % 0x1_0000_0000_0000_0000 == c + i && (c + j) % 0x1_0000_0000_0000_0000 == c + j;
    DecodeEncode(peer, peer, c + i, payloads[i]);
    DecodeEncode(peer, peer, c + j, payloads[j]);
  }

  class WireGuardDevice {
    var enabled: bool
    var txCounter: U64
    var peer: Option<Peer>
    var rxQueue: seq<seq<Byte>>
    var txQueue: seq<seq<Byte>>

    ghost predicate Valid()
      reads this
    {
      peer.Some? ==> peer.value.Valid()
    }

    constructor ()
      ensures Valid() && enabled && txCounter == 1 && peer.None? && rxQueue == [] && txQueue == []
    {
      enabled, txCounter, peer, rxQueue, txQueue := true, 1, None, [], [];
    }

    method SetPeer(p: Peer)
      requires p.Valid()
      modifies this`peer
      ensures Valid() && peer == Some(p)
    {
      peer := Some(p);
    }

    method Transmit(payload: seq<Byte>) returns (r: Result<()>)
      requires Valid()
      modifies this`txCounter, this`txQueue
      ensures !(enabled && peer.Some?) ==> r == Err(ENETDOWN) && txCounter == old(txCounter) && txQueue == old(txQueue)
      ensures enabled && peer.Some? ==>
        && r == Ok(())
        && txQueue == old(txQueue) + [Encode(peer.value, old(txCounter), payload)]
        && txCounter == WrapAdd64(old(txCounter), 1)
    {
      hide ToLE, Zeros, Seal;
      if !(enabled && peer.Some?) {
        return Err(ENETDOWN);
      }
      var counter := txCounter;
      txCounter := WrapAdd64(txCounter, 1);
      var body := new Byte[|payload|](i requires 0 <= i < |payload| => payload[i]);
      assert body[..] == payload;
      var tag := EncryptInPlace(peer.value.secret, Nonce(counter), [], body);
      var header := ToLE(DATA, 4) + ToLE(peer.value.receiverIndex, 4) + ToLE(counter, 8);
      txQueue := txQueue + [header + body[..] + tag];
      r := Ok(());
    }

    method ReceiveUdpPacket(packet: seq<Byte>) returns (r: Result<()>)
      requires Valid()
      modifies this`rxQueue
      ensures match Decode(peer, packet)
              case Rejected(e) => r == Err(e) && rxQueue == old(rxQueue)
              case Ignored => r == Ok(()) && rxQueue == old(rxQueue)
              case Delivered(payload) => r == Ok(()) && rxQueue == old(rxQueue) + [payload]
    {
      hide LE, ToLE, Zeros, Open;
      if |packet| < 32 {
        return Err(EINVAL);
      }
      if LE(packet[0..4]) != DATA {
        return Ok(());
      }
      if peer.None? {
        return Err(ENOTCONN);
      }
      CounterBytes(packet[8..16]);
      var counter := LE(packet[8..16]);
      var nonce := Nonce(counter);
      var n := |packet| - 16;
      var body := new Byte[n - 16](i requires 0 <= i < n - 16 => packet[16 + i]);
      assert body[..] == packet[16..n];
      var ok := DecryptInPlace(peer.value.secret, nonce, [], body, packet[n..]);
      if !ok {
        return Err(EACCES);
      }
      rxQueue := rxQueue + [body[..]];
      r := Ok(());
    }

    method PopTransmitted() returns (p: Option<seq<Byte>>)
      modifies this`txQueue
      ensures old(txQueue) == [] ==> p == None && txQueue == []
      ensures old(txQueue) != [] ==> p == Some(old(txQueue)[0]) && txQueue == old(txQueue)[1..]
    {
      if txQueue == [] {
        p := None;
      } else {
        p := Some(txQueue[0]);
        txQueue := txQueue[1..];
      }
    }

    /** The oldest packet, cut to the buffer; the rest of it is gone. */
    method Receive(buf: array<Byte>) returns (n: nat)
      modifies this`rxQueue, buf
      ensures old(rxQueue) == [] ==> n == 0 && rxQueue == [] && buf[..] == old(buf[..])
      ensures old(rxQueue) != [] ==>
        && n <= buf.Length && n <= |old(rxQueue)[0]| && (n == buf.Length || n == |old(rxQueue)[0]|)
        && rxQueue == old(rxQueue)[1..]
        && buf[..] == old(rxQueue)[0][..n] + old(buf[..])[n..]
    {
      if rxQueue == [] {
        return 0;
      }
      var packet := rxQueue[0];
      rxQueue := rxQueue[1..];
      n := if |packet| < buf.Length then |packet| else buf.Length;
      for i := 0 to n
        invariant forall k :: 0 <= k < buf.Length ==> buf[k] == if k < i then packet[k] else old(buf[k])
        modifies buf
      {
        buf[i] := packet[i];
      }
    }
  }

  lemma CounterBytes(s: seq<Byte>)
    requires |s| == 8
    ensures LE(s) < 0x1_0000_0000_0000_0000 && ToLE(LE(s), 8) == s
  {
    hide LE, ToLE, Pow256;
    Pow256Values();
    LEBound(s);
    ToLELE(s);
  }

  /** Everything `a` transmits and the network carries arrives at `b`: whole, and in order. */
  method Tunnel(a: WireGuardDevice, b: WireGuardDevice, payloads: seq<seq<Byte>>)
    requires a != b && a.Valid() && b.Valid() && a.enabled && a.peer.Some? && b.peer.Some?
    requires a.peer.value.secret == b.peer.value.secret && a.txQueue == []
    modifies a`txCounter, a`txQueue, b`rxQueue
    ensures b.rxQueue == old(b.rxQueue) + payloads
    ensures a.txQueue == [] && a.txCounter == (old(a.txCounter) + |payloads|) % 0x1_0000_0000_0000_0000
  {
    hide Encode, Decode;
    for i := 0 to |payloads|
      invariant b.rxQueue == old(b.rxQueue)
      invariant a.txCounter == (old(a.txCounter) + i) % 0x1_0000_0000_0000_0000
      invariant a.txQueue == Stream(a.peer.value, old(a.txCounter), payloads[..i])
    {
      var r := a.Transmit(payloads[i]);
    }
    assert payloads[..|payloads|] == payloads;
    for i := 0 to |payloads|
      invariant a.txQueue == Stream(a.peer.value, old(a.txCounter), payloads)[i..]
      invariant b.rxQueue == old(b.rxQueue) + payloads[..i]
      invariant a.txCounter == (old(a.txCounter) + |payloads|) % 0x1_0000_0000_0000_0000
    {
      ghost var c := (old(a.txCounter) + i) % 0x1_0000_0000_0000_0000;
      DecodeEncode(a.peer.value, b.peer.value, c, payloads[i]);
      var p := a.PopTransmitted();
      var r := b.ReceiveUdpPacket(p.value);
      assert b.rxQueue == old(b.rxQueue) + (payloads[..i] + [payloads[i]]);
    }
  }

  // Two devices and the network between them, in any order of events.

  /** `sent` and `got` are what the sender transmitted and the receiver's reader has taken out; `wire` is in flight. */
  datatype Net = Net(counter: U64, tx: seq<seq<Byte>>, wire: seq<seq<Byte>>, rx: seq<seq<Byte>>,
                     sent: seq<seq<Byte>>, got: seq<seq<Byte>>)

  datatype Event = Send(payload: seq<Byte>) | Pop | Arrive | Take

  function Step(a: Peer, b: Peer, n: Net, e: Event): Net
    requires a.Valid() && b.Valid()
  {
    match e
    case Send(payload) =>
      n.(tx := n.tx + [Encode(a, n.counter, payload)], counter := WrapAdd64(n.counter, 1), sent := n.sent + [payload])
    case Pop => if n.tx == [] then n else n.(tx := n.tx[1..], wire := n.wire + [n.tx[0]])
    case Arrive =>
      if n.wire == [] then n
      else n.(wire := n.wire[1..],
              rx := match Decode(Some(b), n.wire[0])
                    case Delivered(payload) => n.rx + [payload]
                    case _ => n.rx)
    case Take => if n.rx == [] then n else n.(rx := n.rx[1..], got := n.got + [n.rx[0]])
  }

  function Run(a: Peer, b: Peer, n: Net, events: seq<Event>): Net
    requires a.Valid() && b.Valid()
  {
    if events == [] then n else Step(a, b, Run(a, b, n, events[..|events| - 1]), events[|events| - 1])
  }

  /** Each packet is delivered at `b` with its payload. */
  ghost predicate Carries(b: Peer, packets: seq<seq<Byte>>, payloads: seq<seq<Byte>>)
    requires b.Valid()
  {
    |packets| == |payloads| && forall i :: 0 <= i < |packets| ==> Decode(Some(b), packets[i]) == Delivered(payloads[i])
  }

  /** What was sent has been taken out, waits at the receiver, is in flight or waits at the sender, in this order. */
  ghost predicate InOrder(b: Peer, n: Net, flying: seq<seq<Byte>>, waiting: seq<seq<Byte>>)
    requires b.Valid()
  {
    Carries(b, n.wire, flying) && Carries(b, n.tx, waiting) && n.sent == n.got + n.rx + flying + waiting
  }

  lemma StepInOrder(a: Peer, b: Peer, n: Net, e: Event, flying: seq<seq<Byte>>, waiting: seq<seq<Byte>>)
    returns (flying': seq<seq<Byte>>, waiting': seq<seq<Byte>>)
    requires a.Valid() && b.Valid() && a.secret == b.secret && InOrder(b, n, flying, waiting)
    ensures InOrder(b, Step(a, b, n, e), flying', waiting')
  {
    hide Encode, Decode;
    flying', waiting' := flying, waiting;
    match e
    case Send(payload) =>
      DecodeEncode(a, b, n.counter, payload);
      waiting' := waiting + [payload];
      Regroup(n.got + n.rx + flying, waiting, [payload]);
    case Pop =>
      if n.tx != [] {
        flying', waiting' := flying + [waiting[0]], waiting[1..];
        MoveAcross(n.got + n.rx, flying, waiting);
      }
    case Arrive =>
      if n.wire != [] {
        flying' := flying[1..];
        MoveAcross(n.got, n.rx, flying);
      }
    case Take =>
      if n.rx != [] { MoveAcross([], n.got, n.rx); }
  }

  lemma Regroup(p: seq<seq<Byte>>, q: seq<seq<Byte>>, r: seq<seq<Byte>>)
    ensures (p + q) + r == p + (q + r)
  {
  }

  lemma MoveAcross(p: seq<seq<Byte>>, q: seq<seq<Byte>>, r: seq<seq<Byte>>)
    requires r != []
    ensures p + q + r == p + (q + [r[0]]) + r[1..] && q + r == (q + [r[0]]) + r[1..]
  {
  }

  /** However transmits, pops, arrivals and reads interleave, nothing is lost, changed or reordered between two devices
      that share a secret. */
  lemma {:induction false} EveryRunInOrder(a: Peer, b: Peer, c: U64, events: seq<Event>)
    returns (flying: seq<seq<Byte>>, waiting: seq<seq<Byte>>)
    requires a.Valid() && b.Valid() && a.secret == b.secret
    ensures InOrder(b, Run(a, b, Net(c, [], [], [], [], []), events), flying, waiting)
    decreases |events|
  {
    hide Step, Encode, Decode;
    if events == [] {
      flying, waiting := [], [];
    } else {
      var front := events[..|events| - 1];
      var f, w := EveryRunInOrder(a, b, c, front);
      flying, waiting := StepInOrder(a, b, Run(a, b, Net(c, [], [], [], [], []), front), events[|events| - 1], f, w);
    }
  }

  /** One event, on the devices themselves. */
  method Perform(a: WireGuardDevice, b: WireGuardDevice, wire: seq<seq<Byte>>, e: Event, buf: array<Byte>)
    returns (wire': seq<seq<Byte>>)
    requires a != b && a.Valid() && b.Valid() && a.enabled && a.peer.Some? && b.peer.Some?
    modifies a`txCounter, a`txQueue, b`rxQueue, buf
    ensures forall sent, got ::
              var n := Step(a.peer.value, b.peer.value,
                            Net(old(a.txCounter), old(a.txQueue), wire, old(b.rxQueue), sent, got), e);
              (a.txCounter, a.txQueue, wire', b.rxQueue) == (n.counter, n.tx, n.wire, n.rx)
  {
    hide Encode, Decode;
    wire' := wire;
    match e {
      case Send(payload) =>
        var r := a.Transmit(payload);
      case Pop =>
        var p := a.PopTransmitted();
        if p.Some? {
          wire' := wire + [p.value];
        }
      case Arrive =>
        if wire != [] {
          var r := b.ReceiveUdpPacket(wire[0]);
          wire' := wire[1..];
        }
      case Take =>
        var n := b.Receive(buf);
    }
  }

  /** No counter is compared: a packet received again is delivered again, exactly when it is delivered at all. */
  method ReceiveTwice(d: WireGuardDevice, packet: seq<Byte>)
    requires d.Valid()
    modifies d`rxQueue
    ensures match Decode(d.peer, packet)
            case Delivered(payload) => d.rxQueue == old(d.rxQueue) + [payload, payload]
            case _ => d.rxQueue == old(d.rxQueue)
  {
    hide Decode;
    var first := d.ReceiveUdpPacket(packet);
    var second := d.ReceiveUdpPacket(packet);
  }

  function Copies(x: seq<Byte>, k: nat): seq<seq<Byte>> { seq(k, i => x) }

  /** Of k copies of a packet on the wire, the first j are delivered j times. */
  lemma {:induction false} ReplayCount(a: Peer, b: Peer, n: Net, packet: seq<Byte>, k: nat, j: nat)
    requires a.Valid() && b.Valid() && n.wire == Copies(packet, k) && j <= k
    ensures var r := Run(a, b, n, seq(j, i => Arrive));
            && r.wire == Copies(packet, k - j)
            && match Decode(Some(b), packet)
               case Delivered(payload) => r.rx == n.rx + Copies(payload, j)
               case _ => r.rx == n.rx
    decreases j
  {
    hide Decode;
    var events := seq(j, i => Arrive);
    if j > 0 {
      ReplayCount(a, b, n, packet, k, j - 1);
      assert events[..j - 1] == seq(j - 1, i => Arrive);
    }
  }
}
