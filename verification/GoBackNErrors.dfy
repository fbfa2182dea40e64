/** Go-Back-N over a network that may change one byte of any data packet: exactly which files it
    transfers safely. The client's test for an empty payload comes before its checksum, so this
    takes more than an unnoticed error. */
module GoBackNErrors {
  import opened Bytes
  import opened PacketUtil
  import opened DataPackets
  import opened Corruption
  import opened PacketBuilders
  import opened SenderParts
  import opened Networks
  import opened GoBackN
  import opened GoBackNTransfer
  import opened GoBackNFinish
  import Errors = OneByteErrors

  ghost predicate PacketOnWire(z: Sys, p: Packet) {
    || (exists i :: 0 <= i < |z.sender.wire| && p == z.sender.wire[i])
    || (z.endSent && p == EndMarker(z.sender.nextSeqNumber))
  }

  /** What this network can deliver; ACKs that mislead the sender are not its subject. */
  ghost predicate Possible(z: Sys, step: Step) {
    match step
    case DataArrives(d) =>
      !z.client.done && (OnWire(z, d) || exists p :: PacketOnWire(z, p) && Errors.OffByOne(p, d))
    case AckArrives(r, net) => Enabled(z, step) && !Misleads(z, step)
    case AckLost(k) => Enabled(z, step)
    case DataLost(wire) => Enabled(z, step)
    case Resend(i, outcome) => Enabled(z, step)
    case TransferEnds => Enabled(z, step)
  }

  ghost function Take(z: Sys, step: Step): Sys {
    if !Possible(z, step) then z
    else if step.DataArrives? then
      if Decode(step.datagram).Some? then ClientStep(z, Decode(step.datagram).value) else z
    else Apply(z, step)
  }

  ghost function TakeAll(z: Sys, steps: seq<Step>): Sys
    decreases |steps|
  {
    if steps == [] then z else TakeAll(Take(z, steps[0]), steps[1..])
  }

  ghost predicate Right(file: bytes, c: Client) {
    && |c.written| <= |Chunks(file)| && c.written == Chunks(file)[..|c.written|]
    && (c.done ==> Flatten(c.written) == file)
  }

  // ---------- which packets one wrong byte makes empty ----------

  /** The length field becomes 8. */
  predicate EmptiedBy(p: Packet, i: nat, b: byte) {
    (i == 4 && p.len < 256 && b == HEADER_SIZE) || (i == 5 && p.len % 256 == HEADER_SIZE && b == 0)
  }

  lemma EmptyIff(p: Packet, i: nat, b: byte)
    requires p.Packable() && p.data != [] && i < |Encode(p)| && Encode(p)[i] != b
    ensures Decode(Damage(p, i, b)).value.data == [] <==> EmptiedBy(p, i, b)
  {
    if 4 <= i < 6 {
      LengthDamageView(p, i, b);
      LengthBytes(p);
    } else {
      LengthKept(p, i, b);
    }
  }

  lemma LengthKept(p: Packet, i: nat, b: byte)
    requires p.Packable() && i < |Encode(p)| && (i < 4 || 6 <= i)
    ensures |Decode(Damage(p, i, b)).value.data| == |p.data|
  {
    EncodedLayout(p, []);
    assert Encode(p) + [] == Encode(p);
    LengthBytes(p);
    assert Damage(p, i, b)[4] == Encode(p)[4] && Damage(p, i, b)[5] == Encode(p)[5];
  }

  /** Pieces of 1 to 247 bytes, and of 256. */
  predicate Emptiable(piece: bytes) {
    1 <= |piece| <= 247 || |piece| == 256
  }

  /** Where and with what a packet with such a piece is hit. */
  function HitAt(piece: bytes): nat {
    if |piece| <= 247 then 4 else 5
  }

  function HitWith(piece: bytes): byte {
    if |piece| <= 247 then HEADER_SIZE else 0
  }

  lemma EmptiableIff(p: Packet)
    requires p.Packable() && 1 <= |p.data| <= MAX_DATA_SIZE
    ensures Emptiable(p.data) ==> && EmptiedBy(p, HitAt(p.data), HitWith(p.data))
                                  && Encode(p)[HitAt(p.data)] != HitWith(p.data)
    ensures !Emptiable(p.data) ==>
      forall i: nat, b: byte :: i < |Encode(p)| && Encode(p)[i] != b ==> !EmptiedBy(p, i, b)
  {
    LengthBytes(p);
  }

  // ---------- files it transfers safely ----------

  ghost predicate Sturdy(all: seq<Packet>) {
    forall k :: 0 <= k < |all| ==> !Errors.Fragile(all[k].data) && !Emptiable(all[k].data)
  }

  lemma WireIsSized(z: Sys, all: seq<Packet>, p: Packet)
    requires SysInv(z, all) && Errors.Sized(all) && PacketOnWire(z, p)
    ensures p.Packable() && p.Intact() && |p.data| <= MAX_DATA_SIZE
    ensures p.data != [] ==> p.seqno < |all| && p == all[p.seqno]
    ensures p.data == [] ==> z.endSent
  {
    if i :| 0 <= i < |z.sender.wire| && p == z.sender.wire[i] {
      assert p == all[p.seqno] && Sound(all[p.seqno]);
    } else {
      NothingLeft(z.sender, all);
      MarkerPacket(z.sender.nextSeqNumber);
    }
  }

  /** A damaged packet is noticed, and not taken for the end marker before the end. */
  lemma DamageIsHarmless(z: Sys, all: seq<Packet>, p: Packet, d: bytes)
    requires SysInv(z, all) && Errors.Sized(all) && Sturdy(all) && PacketOnWire(z, p) && Errors.OffByOne(p, d)
    ensures |d| >= HEADER_SIZE && !Decode(d).value.Intact()
    ensures Decode(d).value.data == [] ==> z.endSent
  {
    WireIsSized(z, all, p);
    Errors.NoticedIffSturdy(p, d);
    if p.data != [] {
      var i: nat, b: byte :| i < |Encode(p)| && Encode(p)[i] != b && d == Damage(p, i, b);
      EmptiableIff(p);
      EmptyIff(p, i, b);
    }
  }

  lemma PossibleIsEnabled(z: Sys, all: seq<Packet>, step: Step)
    requires SysInv(z, all) && Errors.Sized(all) && Sturdy(all) && Possible(z, step)
    ensures Enabled(z, step) && Take(z, step) == Apply(z, step) && !Misleads(z, step)
    ensures Deceives(z, step) ==> z.endSent
  {
    if step.DataArrives? {
      var d := step.datagram;
      if OnWire(z, d) {
        WirePacket(z, all, d);
      } else {
        var p :| PacketOnWire(z, p) && Errors.OffByOne(p, d);
        DamageIsHarmless(z, all, p, d);
      }
    }
  }

  lemma SturdyStep(z: Sys, all: seq<Packet>, step: Step)
    requires SysInv(z, all) && DoneIsWhole(z, all) && Errors.Sized(all) && Sturdy(all)
    ensures SysInv(Take(z, step), all) && DoneIsWhole(Take(z, step), all)
  {
    if Possible(z, step) {
      PossibleIsEnabled(z, all, step);
      if Deceives(z, step) {
        NothingLeft(z.sender, all);
        StepKeeps(z, all, step);
        InStepAfter(z, all, step);
        DoneByData(z, all, step.datagram);
      } else {
        UndeceivedStep(z, all, step);
      }
    }
  }

  /** The invariant, folded for the induction over a run. */
  ghost predicate Safe(z: Sys, all: seq<Packet>) {
    forall y: Sys :: y == z ==> SysInv(y, all) && DoneIsWhole(y, all)
  }

  lemma SafeStep(z: Sys, all: seq<Packet>, step: Step)
    requires Safe(z, all) && Errors.Sized(all) && Sturdy(all)
    ensures Safe(Take(z, step), all)
  {
    assert SysInv(z, all);
    SturdyStep(z, all, step);
  }

  lemma {:induction false} SturdyRun(z: Sys, all: seq<Packet>, steps: seq<Step>)
    requires Safe(z, all) && Errors.Sized(all) && Sturdy(all)
    ensures Safe(TakeAll(z, steps), all)
    decreases |steps|
  {
    if steps != [] {
      SafeStep(z, all, steps[0]);
      SturdyRun(Take(z, steps[0]), all, steps[1..]);
    }
  }

  lemma SturdyIsRight(file: bytes, clientWindow: nat, net: Network, steps: seq<Step>)
    requires |Chunks(file)| < 0x1_0000_0000
    requires Errors.Sized(Numbered(Chunks(file), 0)) && Sturdy(Numbered(Chunks(file), 0))
    ensures Right(file, TakeAll(Start(Numbered(Chunks(file), 0), clientWindow, net), steps).client)
  {
    var all := Numbered(Chunks(file), 0);
    var z := TakeAll(Start(all, clientWindow, net), steps);
    FileStream(file);
    StartHolds(all, clientWindow, net);
    SturdyRun(Start(all, clientWindow, net), all, steps);
    assert SysInv(z, all) && DoneIsWhole(z, all);
    WrittenPieces(z, Chunks(file));
    PiecesAreFile(file, z.client.written);
  }

  // ---------- and all others ----------

  /** Everything is in step, and the last packet delivered has its ACK in flight. */
  ghost predicate OnCourse(z: Sys, all: seq<Packet>) {
    && SysInv(z, all) && Roomy(z, all) && InStep(z) && !z.client.done
    && (z.client.expectedSeqno > 0 ==> z.client.expectedSeqno - 1 in z.acks)
  }

  lemma DeliverOnCourse(z: Sys, all: seq<Packet>)
    requires OnCourse(z, all) && z.client.expectedSeqno < z.sender.nextSeqNumber
    requires Sent(z.sender.wire, z.client.expectedSeqno)
    ensures var step := DataArrives(Encode(all[z.client.expectedSeqno]));
            && Allowed(z, step, true) && !Misleads(z, step) && OnCourse(Apply(z, step), all)
            && Apply(z, step).client.expectedSeqno == z.client.expectedSeqno + 1
            && Apply(z, step).sender == z.sender
  {
    DeliverMove(z, all);
  }

  lemma ResendOnCourse(z: Sys, all: seq<Packet>)
    requires OnCourse(z, all) && z.client.expectedSeqno < z.sender.nextSeqNumber
    ensures 0 <= Missing(z) < |z.sender.window|
    ensures var step := Resend(Missing(z), Outcome.Delivered);
            && Apply(z, step) == Resent(z) && OnCourse(Resent(z), all)
            && Resent(z).sender.nextSeqNumber == z.sender.nextSeqNumber
            && Resent(z).sender.Base() == z.sender.Base()
            && Sent(Resent(z).sender.wire, z.client.expectedSeqno)
  {
    ResendMove(z, all);
  }

  lemma ReleaseOnCourse(z: Sys, all: seq<Packet>, k: uint32, net: Network)
    requires OnCourse(z, all) && z.client.expectedSeqno == z.sender.nextSeqNumber < |all|
    requires k == z.sender.nextSeqNumber - 1 && Lossless(net)
    ensures var step := AckArrives(EncodeAck(MakeAck(k)), net);
            && Allowed(z, step, true) && !Misleads(z, step) && OnCourse(Apply(z, step), all)
            && Apply(z, step).client == z.client && Apply(z, step).sender.Base() > z.sender.Base()
  {
    assert z.sender.window != [];
    NumberCarried(z.acks, k);
    ReleaseMove(z, all, k, net, true);
    InStepAfter(z, all, AckArrives(EncodeAck(MakeAck(k)), net));
    CarriedAck(z, EncodeAck(MakeAck(k)), net);
  }

  /** A run in which nothing is damaged and no ACK misleads. */
  ghost predicate Plain(z: Sys, steps: seq<Step>)
    decreases |steps|
  {
    steps != [] ==>
      Allowed(z, steps[0], true) && !Misleads(z, steps[0]) && Plain(Apply(z, steps[0]), steps[1..])
  }

  lemma PlainMore(z: Sys, step: Step, rest: seq<Step>)
    requires Allowed(z, step, true) && !Misleads(z, step) && Plain(Apply(z, step), rest)
    ensures Plain(z, [step] + rest) && Exec(z, [step] + rest) == Exec(Apply(z, step), rest)
  {
    assert ([step] + rest)[0] == step && ([step] + rest)[1..] == rest;
  }

  /** Such a run gets any packet of the file to the point of its arrival. */
  lemma {:induction false} Reaches(z: Sys, all: seq<Packet>, k: nat) returns (steps: seq<Step>)
    requires OnCourse(z, all) && z.client.expectedSeqno <= k < |all|
    ensures Plain(z, steps)
    ensures var y := Exec(z, steps); OnCourse(y, all) && y.client.expectedSeqno == k && Sent(y.sender.wire, k)
    decreases |all| - z.sender.Base(), k - z.client.expectedSeqno,
              if Sent(z.sender.wire, z.client.expectedSeqno) then 0 else 1
  {
    var e := z.client.expectedSeqno;
    if e == z.sender.nextSeqNumber {
      assert e > 0 && e - 1 in z.acks by { assert z.sender.window != []; }
      var last: uint32, net: Network := e - 1, _ => Outcome.Delivered;
      var step := AckArrives(EncodeAck(MakeAck(last)), net);
      ReleaseOnCourse(z, all, last, net);
      var rest := Reaches(Apply(z, step), all, k);
      steps := [step] + rest;
      PlainMore(z, step, rest);
    } else if !Sent(z.sender.wire, e) {
      var step := Resend(Missing(z), Outcome.Delivered);
      ResendOnCourse(z, all);
      var rest := Reaches(Resent(z), all, k);
      steps := [step] + rest;
      PlainMore(z, step, rest);
    } else if e < k {
      var step := DataArrives(Encode(all[e]));
      DeliverOnCourse(z, all);
      var rest := Reaches(Apply(z, step), all, k);
      steps := [step] + rest;
      PlainMore(z, step, rest);
    } else {
      steps := [];
    }
  }

  lemma TakePlain(z: Sys, all: seq<Packet>, step: Step)
    requires SysInv(z, all) && Allowed(z, step, true) && !Misleads(z, step)
    ensures Take(z, step) == Apply(z, step)
  {
    if step.DataArrives? {
      WirePacket(z, all, step.datagram);
    }
  }

  lemma TakeFirst(z: Sys, step: Step, rest: seq<Step>)
    ensures TakeAll(z, [step] + rest) == TakeAll(Take(z, step), rest)
  {
    assert ([step] + rest)[0] == step && ([step] + rest)[1..] == rest;
  }

  lemma {:induction false} TakePlainRun(z: Sys, all: seq<Packet>, steps: seq<Step>, last: Step)
    requires SysInv(z, all) && Plain(z, steps)
    ensures TakeAll(z, steps + [last]) == Take(Exec(z, steps), last)
    decreases |steps|
  {
    if steps == [] {
      assert steps + [last] == [last] + [];
      TakeFirst(z, last, []);
    } else {
      assert steps + [last] == [steps[0]] + (steps[1..] + [last]);
      TakeFirst(z, steps[0], steps[1..] + [last]);
      TakePlain(z, all, steps[0]);
      StepKeeps(z, all, steps[0]);
      TakePlainRun(Apply(z, steps[0]), all, steps[1..], last);
    }
  }

  /** The wrong byte that the packet is hit with. */
  function Hit(p: Packet): bytes
    requires p.Packable() && (Emptiable(p.data) || Errors.Fragile(p.data))
  {
    if Emptiable(p.data) then Damage(p, HitAt(p.data), HitWith(p.data)) else Damage(p, 5, 0)
  }

  lemma HitReads(p: Packet)
    requires Sound(p) && |p.data| <= MAX_DATA_SIZE && (Emptiable(p.data) || Errors.Fragile(p.data))
    ensures Errors.OffByOne(p, Hit(p)) && Decode(Hit(p)).Some? && Decode(Hit(p)).value.seqno == p.seqno
    ensures var q := Decode(Hit(p)).value;
            if Emptiable(p.data) then q.data == [] else q.Intact() && q.data != [] && |q.data| < |p.data|
  {
    if Emptiable(p.data) {
      var i, b := HitAt(p.data), HitWith(p.data);
      EmptiableIff(p);
      EmptyIff(p, i, b);
      LengthDamageView(p, i, b);
      assert Errors.OffByOne(p, Damage(p, i, b));
    } else {
      Errors.ShortenedArrives(p);
    }
  }

  lemma HitIsWrong(z: Sys, all: seq<Packet>, q: Packet, file: bytes)
    requires |Chunks(file)| < 0x1_0000_0000 && all == Numbered(Chunks(file), 0)
    requires SysInv(z, all) && Roomy(z, all) && z.client.expectedSeqno == q.seqno < |all|
    requires q.data == [] || (q.Intact() && |q.data| < |Chunks(file)[q.seqno]|)
    ensures !Right(file, ClientStep(z, q).client)
  {
    ExpectedIsInWindow(z.client, |all|);
    WrittenPieces(z, Chunks(file));
    PiecesAreFile(file, z.client.written);
    if q.data != [] {
      assert Receive(z.client, q).0.written[q.seqno] == q.data;
    }
  }

  lemma HitStep(z: Sys, p: Packet, d: bytes)
    requires !z.client.done && PacketOnWire(z, p) && Errors.OffByOne(p, d) && Decode(d).Some?
    ensures Take(z, DataArrives(d)) == ClientStep(z, Decode(d).value)
  {
  }

  lemma SentIsPacket(z: Sys, all: seq<Packet>, k: nat)
    requires SysInv(z, all) && Sent(z.sender.wire, k)
    ensures k < |all| && PacketOnWire(z, all[k]) && Sound(all[k]) && all[k].seqno == k
  {
    var i :| 0 <= i < |z.sender.wire| && z.sender.wire[i].seqno == k;
    assert z.sender.wire[i] == all[k];
  }

  lemma PieceOf(cs: seq<bytes>, k: nat)
    requires |cs| < 0x1_0000_0000 && k < |cs|
    ensures Numbered(cs, 0)[k].data == cs[k]
  {
  }

  lemma GoesWrong(file: bytes, clientWindow: nat, k: nat, net: Network) returns (bad: seq<Step>)
    requires |Chunks(file)| + clientWindow < 0x1_0000_0000 && clientWindow >= 1 && k < |Chunks(file)|
    requires Emptiable(Chunks(file)[k]) || Errors.Fragile(Chunks(file)[k])
    requires Errors.Sized(Numbered(Chunks(file), 0))
    ensures !Right(file, TakeAll(Start(Numbered(Chunks(file), 0), clientWindow, net), bad).client)
  {
    var all := Numbered(Chunks(file), 0);
    var z := Start(all, clientWindow, net);
    FileStream(file);
    StartHolds(all, clientWindow, net);
    PieceOf(Chunks(file), k);
    var steps := Reaches(z, all, k);
    var y := Exec(z, steps);
    var p := all[k];
    SentIsPacket(y, all, k);
    HitReads(p);
    HitStep(y, p, Hit(p));
    HitIsWrong(y, all, Decode(Hit(p)).value, file);
    TakePlainRun(z, all, steps, DataArrives(Hit(p)));
    bad := steps + [DataArrives(Hit(p))];
  }

  /** The Go-Back-N transfer over such a network is always right, whatever is lost on the way,
      if and only if no piece of the file is fragile and none has 1 to 247 or 256 bytes. */
  lemma RightIffSturdy(file: bytes, clientWindow: nat)
    requires |Chunks(file)| + clientWindow < 0x1_0000_0000 && clientWindow >= 1
    ensures (forall net: Network, steps: seq<Step> ::
               Right(file, TakeAll(Start(Numbered(Chunks(file), 0), clientWindow, net), steps).client))
       <==> forall k :: 0 <= k < |Chunks(file)| ==> !Errors.Fragile(Chunks(file)[k]) && !Emptiable(Chunks(file)[k])
  {
    var all := Numbered(Chunks(file), 0);
    ChunksIsCut(file);
    assert Errors.Sized(all);
    if k :| 0 <= k < |Chunks(file)| && (Errors.Fragile(Chunks(file)[k]) || Emptiable(Chunks(file)[k])) {
      var net: Network := _ => Outcome.Delivered;
      var bad := GoesWrong(file, clientWindow, k, net);
      assert !Right(file, TakeAll(Start(Numbered(Chunks(file), 0), clientWindow, net), bad).client);
    } else {
      assert Sturdy(all);
      forall net: Network, steps: seq<Step>
        ensures Right(file, TakeAll(Start(Numbered(Chunks(file), 0), clientWindow, net), steps).client)
      {
        SturdyIsRight(file, clientWindow, net, steps);
      }
    }
  }
}
