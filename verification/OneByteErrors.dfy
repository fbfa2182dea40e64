/** Selective Repeat over a network that may change one byte of any datagram: exactly which
    files it transfers safely. */
module OneByteErrors {
  import opened Bytes
  import opened PacketUtil
  import opened DataPackets
  import opened Corruption
  import opened PacketBuilders
  import opened SenderParts
  import opened Networks
  import opened Receiver
  import opened Transfer
  import SR = SelectiveRepeat
  import Facts = SelectiveRepeatInvariant
  import Progress

  /** A packet that is on the wire: from the file, or the end marker. */
  ghost predicate PacketOnWire(z: Sys, p: Packet) {
    || (exists i :: 0 <= i < |z.sender.wire| && p == z.sender.wire[i])
    || (z.endSent && p == EndMarker(z.sender.nextSeqNumber))
  }

  ghost predicate OffByOne(p: Packet, d: bytes) {
    exists i: nat, b: byte :: i < |Encode(p)| && Encode(p)[i] != b && d == Damage(p, i, b)
  }

  ghost predicate AckOffByOne(k: uint32, r: bytes) {
    exists i: nat, b: byte :: i < ACK_PKT_LEN && EncodeAck(MakeAck(k))[i] != b && r == AckDamage(MakeAck(k), i, b)
  }

  /** What this network can deliver. */
  ghost predicate Possible(z: Sys, step: Step) {
    match step
    case DataArrives(d) =>
      !z.client.done && (OnWire(z, d) || exists p :: PacketOnWire(z, p) && OffByOne(p, d))
    case AckArrives(r, _) =>
      z.sender.window != [] && (AckOnWire(z, r) || exists k <- z.acks :: AckOffByOne(k, r))
    case TimerFires(_) => Enabled(z, step)
    case TransferEnds => Enabled(z, step)
  }

  ghost function Take(z: Sys, step: Step): Sys {
    if !Possible(z, step) then z
    else
      match step
      case DataArrives(d) => if Decode(d).Some? then ClientStep(z, Decode(d).value) else z
      case AckArrives(r, net) =>
        if |r| >= ACK_PKT_LEN then z.(sender := SR.Acknowledge(z.sender, DecodeAck(r), net)) else z
      case TimerFires(net) => Apply(z, step)
      case TransferEnds => Apply(z, step)
  }

  ghost function TakeAll(z: Sys, steps: seq<Step>): Sys
    decreases |steps|
  {
    if steps == [] then z else TakeAll(Take(z, steps[0]), steps[1..])
  }

  /** The client's output is right so far, and complete if the client is done. */
  ghost predicate Right(file: bytes, z: Sys) {
    && |z.client.written| <= |Chunks(file)| && z.client.written == Chunks(file)[..|z.client.written|]
    && (z.client.done ==> Flatten(z.client.written) == file)
  }

  /** A piece that ends in 256 bytes adding up to 65279. */
  predicate Fragile(piece: bytes) {
    |piece| >= 256 && ByteSum(piece[|piece| - 256..]) == 65279
  }

  // ---------- files without a fragile piece ----------

  lemma NoticedIffSturdy(p: Packet, d: bytes)
    requires p.Packable() && p.Intact() && |p.data| <= MAX_DATA_SIZE && OffByOne(p, d) && !Fragile(p.data)
    ensures |d| >= HEADER_SIZE && !Decode(d).value.Intact()
  {
    var i: nat, b: byte :| i < |Encode(p)| && Encode(p)[i] != b && d == Damage(p, i, b);
    SingleByteDamage(p, i, b);
    HiddenInProtocol(p, i, b);
  }

  lemma AckNoticed(k: uint32, r: bytes)
    requires AckOffByOne(k, r)
    ensures |r| >= ACK_PKT_LEN && !DecodeAck(r).Intact()
  {
    var i: nat, b: byte :| i < ACK_PKT_LEN && EncodeAck(MakeAck(k))[i] != b && r == AckDamage(MakeAck(k), i, b);
    SingleByteAckDamage(MakeAck(k), i, b);
  }

  /** Packets on the wire are intact and of the protocol's size. */
  ghost predicate Sized(all: seq<Packet>) {
    forall k :: 0 <= k < |all| ==> |all[k].data| <= MAX_DATA_SIZE
  }

  ghost predicate Sturdy(all: seq<Packet>) {
    forall k :: 0 <= k < |all| ==> !Fragile(all[k].data)
  }

  lemma WireIsSized(z: Sys, all: seq<Packet>, p: Packet)
    requires SysInv(z, all) && Sized(all) && PacketOnWire(z, p)
    ensures p.Packable() && p.Intact() && |p.data| <= MAX_DATA_SIZE
    ensures p.data != [] ==> Facts.Known(p, z.sender.nextSeqNumber, all)
  {
    if i :| 0 <= i < |z.sender.wire| && p == z.sender.wire[i] {
      SentPacket(z.sender, all, i);
    } else {
      MarkerPacket(z.sender.nextSeqNumber);
    }
  }

  /** Without a fragile piece this network is no worse than one whose damage always shows. */
  lemma PossibleIsEnabled(z: Sys, all: seq<Packet>, step: Step)
    requires SysInv(z, all) && Sized(all) && Sturdy(all) && Possible(z, step)
    ensures Enabled(z, step) && Take(z, step) == Apply(z, step)
  {
    match step
    case DataArrives(d) =>
      if OnWire(z, d) {
        WirePacket(z, all, d);
      } else {
        var p :| PacketOnWire(z, p) && OffByOne(p, d);
        WireIsSized(z, all, p);
        if p.data != [] { assert !Fragile(all[p.seqno - 1].data); }
        NoticedIffSturdy(p, d);
      }
    case AckArrives(r, net) =>
      if AckOnWire(z, r) {
        CarriedNumber(z.acks, r);
      } else {
        var k :| k in z.acks && AckOffByOne(k, r);
        AckNoticed(k, r);
      }
    case TimerFires(net) =>
    case TransferEnds =>
  }

  lemma {:induction false} SturdyRun(z: Sys, all: seq<Packet>, steps: seq<Step>)
    requires SysInv(z, all) && Sized(all) && Sturdy(all)
    ensures SysInv(TakeAll(z, steps), all)
    decreases |steps|
  {
    if steps != [] {
      if Possible(z, steps[0]) {
        PossibleIsEnabled(z, all, steps[0]);
        StepKeeps(z, all, steps[0]);
      }
      SturdyRun(Take(z, steps[0]), all, steps[1..]);
    }
  }

  // ---------- files with a fragile piece ----------

  /** The packet with its last 256 bytes cut off by one wrong byte. */
  function Shortened(p: Packet): Packet
    requires |p.data| >= 256 && p.len >= 256
  {
    p.(len := p.len - 256, data := p.data[..|p.data| - 256])
  }

  lemma ShortenedReads(p: Packet)
    requires p.Packable() && |p.data| <= MAX_DATA_SIZE && Fragile(p.data)
    ensures p.len >= 264 && OffByOne(p, Damage(p, 5, 0)) && Decode(Damage(p, 5, 0)) == Some(Shortened(p))
  {
    assert p.len - 256 - HEADER_SIZE == |p.data| - 256;
    LengthBytes(p);
    LengthDamageView(p, 5, 0);
  }

  lemma ShortenedArrives(p: Packet)
    requires p.Packable() && p.Intact() && |p.data| <= MAX_DATA_SIZE && Fragile(p.data)
    ensures p.len >= 264 && OffByOne(p, Damage(p, 5, 0))
    ensures Decode(Damage(p, 5, 0)) == Some(Shortened(p)) && Shortened(p).Intact()
  {
    ShortenedReads(p);
    HiddenInProtocol(p, 5, 0);
    SingleByteDamage(p, 5, 0);
  }

  /** The clients differ only in what they hold under number j. */
  ghost predicate Alike(c: Client, d: Client, j: nat, short: bytes) {
    && d.expectedSeqno == c.expectedSeqno && d.windowSize == c.windowSize && d.done == c.done
    && |d.written| == |c.written| && d.window.Keys == c.window.Keys
    && (forall i :: 0 <= i < |c.written| ==> d.written[i] == if i == j - 1 then short else c.written[i])
    && (forall k :: k in c.window ==> if k == j then d.window[k].data == short else d.window[k] == c.window[k])
  }

  lemma SameMinKey(c: Client, d: Client)
    requires d.window.Keys == c.window.Keys && c.window != map[]
    ensures d.window != map[] && MinKey(d.window) == MinKey(c.window)
  {
    var k := MinKey(c.window);
    assert k in c.window.Keys;
    assert k in d.window;
    assert IsMinKey(d.window, MinKey(d.window));
    assert MinKey(d.window) in c.window.Keys;
  }

  lemma {:induction false} DeliverAlike(c: Client, d: Client, j: nat, short: bytes)
    requires Consistent(c, c.expectedSeqno) && !Exhausted(Accepted(c)) && Alike(c, d, j, short)
    ensures Alike(Deliver(c), Deliver(d), j, short)
    decreases c.window.Keys
  {
    if c.window != map[] { SameMinKey(c, d); }
    if c.expectedSeqno in c.window {
      NotLast(c);
      DeliverUnfolds(c);
      DeliverOneKeeps(c);
      var c1, d1 := DeliverOne(c), DeliverOne(d);
      OneAlike(c, d, j, short);
      assert IsMinKey(c.window, MinKey(c.window));
      assert MinKey(c.window) == c.expectedSeqno;
      assert Deliver(d) == Deliver(d1);
      DeliverAlike(c1, d1, j, short);
    } else {
      assert d.expectedSeqno !in d.window.Keys;
    }
  }

  lemma OneAlike(c: Client, d: Client, j: nat, short: bytes)
    requires Alike(c, d, j, short) && c.expectedSeqno in c.window
    requires |c.written| == c.expectedSeqno - 1
    ensures d.expectedSeqno in d.window && Alike(DeliverOne(c), DeliverOne(d), j, short)
  {
    assert d.expectedSeqno in d.window.Keys;
    var c1, d1 := DeliverOne(c), DeliverOne(d);
    assert c1.window.Keys == c.window.Keys - {c.expectedSeqno} && d1.window.Keys == c1.window.Keys;
    forall k | k in c1.window
      ensures if k == j then d1.window[k].data == short else d1.window[k] == c1.window[k]
    {
      assert c1.window[k] == c.window[k] && d1.window[k] == d.window[k];
    }
  }

  lemma InsertAlike(c: Client, d: Client, j: nat, short: bytes, p: Packet, q: Packet)
    requires Alike(c, d, j, short) && q.seqno == p.seqno
    requires if p.seqno == j then q.data == short else q == p
    ensures Alike(c.(window := c.window[p.seqno := p]), d.(window := d.window[p.seqno := q]), j, short)
  {
    assert d.window[p.seqno := q].Keys == c.window[p.seqno := p].Keys;
  }

  /** The same packet, or its shortened form under number j, keeps them alike. */
  lemma ReceiveAlike(c: Client, d: Client, j: nat, short: bytes, p: Packet, q: Packet)
    requires ClientInv(c) && !Exhausted(Extended(c, p).Keys) && Alike(c, d, j, short)
    requires q.seqno == p.seqno && q.Intact() == p.Intact() && (q.data == [] <==> p.data == [])
    requires if p.seqno == j && j !in Accepted(c) then q.data == short else q == p
    ensures Alike(Receive(c, p).0, Receive(d, q).0, j, short) && Receive(d, q).1 == Receive(c, p).1
  {
    assert p.seqno in d.window.Keys <==> p.seqno in c.window.Keys;
    if Fresh(c, p) {
      var c1, d1 := c.(window := c.window[p.seqno := p]), d.(window := d.window[p.seqno := q]);
      InsertAlike(c, d, j, short, p, q);
      InsertKeeps(c, p);
      if p.seqno == c.expectedSeqno {
        assert Accepted(c1) == Extended(c, p).Keys;
        DeliverAlike(c1, d1, j, short);
      }
    }
  }

  ghost predicate AlikeSys(z: Sys, y: Sys, j: nat, short: bytes) {
    y == z.(client := y.client) && Alike(z.client, y.client, j, short)
  }

  /** Undamaged steps of this network. */
  ghost predicate Clean(z: Sys, step: Step) {
    && (step.DataArrives? ==> OnWire(z, step.datagram))
    && (step.AckArrives? ==> AckOnWire(z, step.reply))
  }

  ghost predicate CleanRun(z: Sys, steps: seq<Step>)
    decreases |steps|
  {
    steps != [] ==> Clean(z, steps[0]) && CleanRun(Apply(z, steps[0]), steps[1..])
  }

  lemma TakeClean(z: Sys, all: seq<Packet>, step: Step)
    requires SysInv(z, all) && Clean(z, step)
    ensures Take(z, step) == Apply(z, step)
  {
    match step
    case DataArrives(d) => WirePacket(z, all, d);
    case AckArrives(r, net) => CarriedNumber(z.acks, r);
    case TimerFires(net) =>
    case TransferEnds =>
  }

  lemma DataAlike(z: Sys, y: Sys, all: seq<Packet>, d: bytes, j: nat, short: bytes)
    requires SysInv(z, all) && AlikeSys(z, y, j, short) && j in Accepted(z.client) && OnWire(z, d) && !z.client.done
    ensures Decode(d).Some? && AlikeSys(ClientStep(z, Decode(d).value), ClientStep(y, Decode(d).value), j, short)
  {
    WirePacket(z, all, d);
    var p := Decode(d).value;
    if p.data == [] {
      MarkerArrives(z, all, p);
    } else {
      StreamIsShort(z.client, p, all, z.sender.nextSeqNumber);
      ReceiveAlike(z.client, y.client, j, short, p, p);
    }
  }

  lemma DataStepAlike(z: Sys, y: Sys, all: seq<Packet>, d: bytes, j: nat, short: bytes)
    requires SysInv(z, all) && AlikeSys(z, y, j, short) && j in Accepted(z.client) && OnWire(z, d)
    ensures AlikeSys(Apply(z, DataArrives(d)), Take(y, DataArrives(d)), j, short)
    ensures j in Accepted(Apply(z, DataArrives(d)).client)
  {
    WirePacket(z, all, d);
    if !z.client.done {
      DataAlike(z, y, all, d, j, short);
      AcceptedStays(z, all, d, j);
    }
  }

  lemma AckStepAlike(z: Sys, y: Sys, r: bytes, net: Network, j: nat, short: bytes)
    requires AlikeSys(z, y, j, short) && AckOnWire(z, r)
    ensures AlikeSys(Apply(z, AckArrives(r, net)), Take(y, AckArrives(r, net)), j, short)
    ensures Apply(z, AckArrives(r, net)).client == z.client
  {
    CarriedNumber(z.acks, r);
  }

  lemma SenderStepAlike(z: Sys, y: Sys, step: Step, j: nat, short: bytes)
    requires AlikeSys(z, y, j, short) && (step.TimerFires? || step.TransferEnds?)
    ensures AlikeSys(Apply(z, step), Take(y, step), j, short) && Apply(z, step).client == z.client
  {
  }

  lemma CleanStepAlike(z: Sys, y: Sys, all: seq<Packet>, step: Step, j: nat, short: bytes)
    requires SysInv(z, all) && AlikeSys(z, y, j, short) && j in Accepted(z.client) && Clean(z, step)
    ensures AlikeSys(Apply(z, step), Take(y, step), j, short) && j in Accepted(Apply(z, step).client)
  {
    match step
    case DataArrives(d) => DataStepAlike(z, y, all, d, j, short);
    case AckArrives(r, net) => AckStepAlike(z, y, r, net, j, short);
    case TimerFires(net) => SenderStepAlike(z, y, step, j, short);
    case TransferEnds => SenderStepAlike(z, y, step, j, short);
  }

  lemma AcceptedStays(z: Sys, all: seq<Packet>, d: bytes, j: nat)
    requires SysInv(z, all) && OnWire(z, d) && !z.client.done && j in Accepted(z.client)
    ensures Decode(d).Some? && j in Accepted(Receive(z.client, Decode(d).value).0)
  {
    WirePacket(z, all, d);
    var p := Decode(d).value;
    if p.data == [] {
      MarkerArrives(z, all, p);
      MarkDone(z.client, z.acks, all, z.sender.nextSeqNumber);
    } else {
      ClientAccepts(z.client, z.acks, all, z.sender.nextSeqNumber, p);
    }
  }

  lemma {:induction false} CleanRunAlike(z: Sys, y: Sys, all: seq<Packet>, steps: seq<Step>, j: nat, short: bytes)
    requires SysInv(z, all) && AlikeSys(z, y, j, short) && j in Accepted(z.client) && CleanRun(z, steps)
    ensures AlikeSys(Exec(z, steps), TakeAll(y, steps), j, short)
    decreases |steps|
  {
    if steps != [] {
      CleanStepAlike(z, y, all, steps[0], j, short);
      StepKeeps(z, all, steps[0]);
      CleanRunAlike(Apply(z, steps[0]), Take(y, steps[0]), all, steps[1..], j, short);
    }
  }

  /** A schedule without the steps that change nothing because they are damaged. */
  lemma {:induction false} CleanSchedule(z: Sys, all: seq<Packet>, steps: seq<Step>) returns (clean: seq<Step>)
    requires SysInv(z, all)
    ensures CleanRun(z, clean) && Exec(z, clean) == Exec(z, steps)
    decreases |steps|
  {
    if steps == [] {
      clean := [];
    } else if Clean(z, steps[0]) {
      StepKeeps(z, all, steps[0]);
      var rest := CleanSchedule(Apply(z, steps[0]), all, steps[1..]);
      clean := [steps[0]] + rest;
      assert clean[0] == steps[0] && clean[1..] == rest;
    } else {
      DamagedNoStep(z, steps[0]);
      clean := CleanSchedule(z, all, steps[1..]);
    }
  }

  lemma DamagedNoStep(z: Sys, step: Step)
    requires !Clean(z, step)
    ensures Apply(z, step) == z
  {
    if step.DataArrives? && Enabled(z, step) { DamagedIgnored(z, Decode(step.datagram).value); }
  }

  /** The shortened packet arrives in place of the whole one. */
  lemma ShortStep(z: Sys, p: Packet)
    requires Sound(p) && |p.data| <= MAX_DATA_SIZE && Fragile(p.data) && !z.client.done && PacketOnWire(z, p)
    ensures p.len >= 264 && Shortened(p).Intact()
    ensures Take(z, DataArrives(Damage(p, 5, 0))) == ClientStep(z, Shortened(p))
  {
    ShortenedArrives(p);
  }

  lemma OnlyDataReaches(z: Sys, step: Step)
    requires Apply(z, step).client != z.client
    ensures step.DataArrives? && Enabled(z, step) && Apply(z, step) == ClientStep(z, Decode(step.datagram).value)
  {
  }

  lemma MarkerAcceptsNothing(z: Sys, all: seq<Packet>, p: Packet)
    requires SysInv(z, all) && MayArrive(z, all, p) && p.data == []
    ensures Accepted(Receive(z.client, p).0) == Accepted(z.client)
  {
    MarkerArrives(z, all, p);
    MarkDone(z.client, z.acks, all, z.sender.nextSeqNumber);
  }

  lemma ArrivingPacket(z: Sys, all: seq<Packet>, p: Packet, j: nat)
    requires SysInv(z, all) && MayArrive(z, all, p)
    requires j !in Accepted(z.client) && j in Accepted(Receive(z.client, p).0)
    ensures 1 <= j <= |all| && p == all[j - 1] && Facts.Known(p, z.sender.nextSeqNumber, all) && Fresh(z.client, p)
  {
    if p.data == [] {
      MarkerAcceptsNothing(z, all, p);
    } else {
      NewlyAccepted(z.client, z.acks, all, z.sender.nextSeqNumber, p, j);
    }
  }

  /** Packet j is new to the client and may arrive now. */
  ghost predicate Due(z: Sys, all: seq<Packet>, j: nat) {
    && 1 <= j <= |all| && !z.client.done && PacketOnWire(z, all[j - 1])
    && Facts.Known(all[j - 1], z.sender.nextSeqNumber, all) && Fresh(z.client, all[j - 1])
  }

  /** The step that brings packet j to the client is its arrival. */
  lemma ArrivalOf(z: Sys, all: seq<Packet>, step: Step, j: nat)
    requires SysInv(z, all) && Clean(z, step) && j !in Accepted(z.client) && j in Accepted(Apply(z, step).client)
    ensures Due(z, all, j) && Apply(z, step) == ClientStep(z, all[j - 1])
  {
    OnlyDataReaches(z, step);
    WirePacket(z, all, step.datagram);
    OnWireAsPacket(z, all, step.datagram);
    ArrivingPacket(z, all, Decode(step.datagram).value, j);
  }

  lemma NewlyAccepted(c: Client, acks: set<uint32>, all: seq<Packet>, bound: nat, p: Packet, j: nat)
    requires ClientSound(c, acks, all, bound) && |all| < SEQNO_LIMIT && Facts.Known(p, bound, all) && Sound(p)
    requires j !in Accepted(c) && j in Accepted(Receive(c, p).0)
    ensures p.seqno == j && Fresh(c, p)
  {
    ClientAccepts(c, acks, all, bound, p);
    StreamIsShort(c, p, all, bound);
    ReceiveRefines(c, p);
    assert Contents(Receive(c, p).0).Keys == Accepted(Receive(c, p).0);
  }

  lemma OnWireAsPacket(z: Sys, all: seq<Packet>, d: bytes)
    requires SysInv(z, all) && OnWire(z, d)
    ensures Decode(d).Some? && PacketOnWire(z, Decode(d).value)
  {
    if i :| 0 <= i < |z.sender.wire| && d == Encode(z.sender.wire[i]) {
      SentPacket(z.sender, all, i);
    } else {
      MarkerPacket(z.sender.nextSeqNumber);
    }
  }

  /** A payload of exactly 256 bytes is cut off whole, and reads as the end marker. */
  lemma EmptiedPacket(z: Sys, p: Packet)
    requires ClientInv(z.client) && Fresh(z.client, p) && |p.data| == 256 && p.len >= 256 && Shortened(p).Intact()
    ensures ClientStep(z, Shortened(p)) == z.(client := z.client.(done := true))
    ensures |z.client.written| < p.seqno
  {
    assert Shortened(p).data == [];
  }

  lemma GoesOnShort(z: Sys, all: seq<Packet>, p: Packet)
    requires SysInv(z, all) && Facts.Known(p, z.sender.nextSeqNumber, all)
    requires Fresh(z.client, p) && |p.data| > 256 && p.len >= 256 && Shortened(p).Intact()
    ensures AlikeSys(ClientStep(z, p), ClientStep(z, Shortened(p)), p.seqno, Shortened(p).data)
  {
    StreamIsShort(z.client, p, all, z.sender.nextSeqNumber);
    assert Alike(z.client, z.client, p.seqno, Shortened(p).data);
    ReceiveAlike(z.client, z.client, p.seqno, Shortened(p).data, p, Shortened(p));
  }

  lemma HitEmpties(z: Sys, p: Packet, file: bytes)
    requires |Chunks(file)| + 1 < 0x1_0000_0000 && SysInv(z, Numbered(Chunks(file), 1))
    requires Fresh(z.client, p) && |p.data| == 256 && p.len >= 256 && Shortened(p).Intact() && p.seqno <= |Chunks(file)|
    ensures !Right(file, ClientStep(z, Shortened(p)))
  {
    EmptiedPacket(z, p);
    UnfinishedIsWrong(z, file);
  }

  lemma RestGoesWrong(x: Sys, y: Sys, rest: seq<Step>, file: bytes, j: nat, short: bytes)
    requires |Chunks(file)| + 1 < 0x1_0000_0000 && SysInv(x, Numbered(Chunks(file), 1))
    requires AlikeSys(x, y, j, short) && j in Accepted(x.client)
    requires CleanRun(x, rest) && Exec(x, rest).client.done
    requires 1 <= j <= |Chunks(file)| && |short| < |Chunks(file)[j - 1]|
    ensures !Right(file, TakeAll(y, rest))
  {
    CleanRunAlike(x, y, Numbered(Chunks(file), 1), rest, j, short);
    RunKeeps(x, Numbered(Chunks(file), 1), rest);
    ShortIsWrong(Exec(x, rest), TakeAll(y, rest), file, j, short);
  }

  lemma PieceOf(cs: seq<bytes>, j: nat)
    requires |cs| + 1 < 0x1_0000_0000 && 1 <= j <= |cs|
    ensures Numbered(cs, 1)[j - 1].data == cs[j - 1]
  {
  }

  lemma HitShortens(z: Sys, all: seq<Packet>, p: Packet, x: Sys, rest: seq<Step>, file: bytes)
    requires |Chunks(file)| + 1 < 0x1_0000_0000 && all == Numbered(Chunks(file), 1)
    requires SysInv(z, all) && Facts.Known(p, z.sender.nextSeqNumber, all)
    requires Fresh(z.client, p) && |p.data| > 256 && p.len >= 256 && Shortened(p).Intact()
    requires x == ClientStep(z, p) && SysInv(x, all) && p.seqno in Accepted(x.client)
    requires CleanRun(x, rest) && Exec(x, rest).client.done
    ensures !Right(file, TakeAll(ClientStep(z, Shortened(p)), rest))
  {
    GoesOnShort(z, all, p);
    PieceOf(Chunks(file), p.seqno);
    RestGoesWrong(x, ClientStep(z, Shortened(p)), rest, file, p.seqno, Shortened(p).data);
  }

  /** The shortened packet arrives instead of the whole one, and the rest of the schedule follows. */
  lemma HitGoesWrong(z: Sys, all: seq<Packet>, x: Sys, rest: seq<Step>, j: nat, file: bytes)
    requires |Chunks(file)| + 1 < 0x1_0000_0000 && all == Numbered(Chunks(file), 1) && Sized(all)
    requires SysInv(z, all) && Due(z, all, j) && Fragile(all[j - 1].data)
    requires x == ClientStep(z, all[j - 1]) && SysInv(x, all) && j in Accepted(x.client)
    requires CleanRun(x, rest) && Exec(x, rest).client.done
    ensures var y := Take(z, DataArrives(Damage(all[j - 1], 5, 0)));
            !Right(file, TakeAll(y, if |all[j - 1].data| == 256 then [] else rest))
  {
    var p := all[j - 1];
    assert p.seqno == j && Sound(p) && |p.data| <= MAX_DATA_SIZE;
    ShortStep(z, p);
    if |p.data| == 256 {
      HitEmpties(z, p, file);
    } else {
      HitShortens(z, all, p, x, rest, file);
    }
  }

  /** A run that goes wrong on a file with a fragile piece. */
  lemma {:induction false} GoesWrong(z: Sys, all: seq<Packet>, steps: seq<Step>, j: nat, file: bytes)
    returns (bad: seq<Step>)
    requires |Chunks(file)| + 1 < 0x1_0000_0000 && all == Numbered(Chunks(file), 1) && Sized(all)
    requires SysInv(z, all) && CleanRun(z, steps) && Exec(z, steps).client.done
    requires 1 <= j <= |all| && Fragile(all[j - 1].data)
    requires j !in Accepted(z.client) && j in Accepted(Exec(z, steps).client)
    ensures !Right(file, TakeAll(z, bad))
    decreases |steps|
  {
    assert steps != [];
    var step, x := steps[0], Apply(z, steps[0]);
    StepKeeps(z, all, step);
    if j !in Accepted(x.client) {
      var rest := GoesWrong(x, all, steps[1..], j, file);
      TakeClean(z, all, step);
      bad := [step] + rest;
      TakeMore(z, step, rest);
    } else {
      ArrivalOf(z, all, step, j);
      HitGoesWrong(z, all, x, steps[1..], j, file);
      var hit := DataArrives(Damage(all[j - 1], 5, 0));
      var rest := if |all[j - 1].data| == 256 then [] else steps[1..];
      bad := [hit] + rest;
      TakeMore(z, hit, rest);
    }
  }

  lemma TakeMore(z: Sys, step: Step, rest: seq<Step>)
    ensures TakeAll(z, [step] + rest) == TakeAll(Take(z, step), rest)
  {
    assert ([step] + rest)[0] == step && ([step] + rest)[1..] == rest;
  }

  lemma UnfinishedIsWrong(z: Sys, file: bytes)
    requires |Chunks(file)| + 1 < 0x1_0000_0000 && SysInv(z, Numbered(Chunks(file), 1))
    requires |z.client.written| < |Chunks(file)|
    ensures !Right(file, z.(client := z.client.(done := true)))
  {
    WrittenPieces(z, Chunks(file));
    PiecesAreFile(file, z.client.written);
  }

  lemma ShortIsWrong(z: Sys, y: Sys, file: bytes, j: nat, short: bytes)
    requires |Chunks(file)| + 1 < 0x1_0000_0000 && SysInv(z, Numbered(Chunks(file), 1)) && z.client.done
    requires 1 <= j <= |Chunks(file)| && |short| < |Chunks(file)[j - 1]|
    requires AlikeSys(z, y, j, short)
    ensures !Right(file, y)
  {
    WrittenPieces(z, Chunks(file));
    assert y.client.written[j - 1] == short;
  }

  /** The transfer of a file over such a network is always right, whatever the windows, losses
      and errors, if and only if no piece of the file is fragile. */
  lemma RightIffNoFragilePiece(file: bytes, maxWindowSize: nat, clientWindow: nat)
    requires |Chunks(file)| + 1 < 0x1_0000_0000 && maxWindowSize >= 1 && clientWindow >= 1
    ensures (forall net: Network, steps: seq<Step> ::
               Right(file, TakeAll(Start(Numbered(Chunks(file), 1), maxWindowSize, clientWindow, net), steps)))
       <==> forall i :: 0 <= i < |Chunks(file)| ==> !Fragile(Chunks(file)[i])
  {
    var all := Numbered(Chunks(file), 1);
    FileStream(file);
    ChunksIsCut(file);
    assert Sized(all);
    if i :| 0 <= i < |Chunks(file)| && Fragile(Chunks(file)[i]) {
      var net: Network := _ => Outcome.Delivered;
      var bad := FragileGoesWrong(file, maxWindowSize, clientWindow, i, net);
      assert !Right(file, TakeAll(Start(Numbered(Chunks(file), 1), maxWindowSize, clientWindow, net), bad));
    } else {
      assert Sturdy(all);
      forall net: Network, steps: seq<Step>
        ensures Right(file, TakeAll(Start(Numbered(Chunks(file), 1), maxWindowSize, clientWindow, net), steps))
      {
        SturdyIsRight(file, maxWindowSize, clientWindow, net, steps);
      }
    }
  }

  lemma SturdyIsRight(file: bytes, maxWindowSize: nat, clientWindow: nat, net: Network, steps: seq<Step>)
    requires |Chunks(file)| + 1 < 0x1_0000_0000 && maxWindowSize >= 1 && clientWindow >= 1
    requires Sized(Numbered(Chunks(file), 1)) && Sturdy(Numbered(Chunks(file), 1))
    ensures Right(file, TakeAll(Start(Numbered(Chunks(file), 1), maxWindowSize, clientWindow, net), steps))
  {
    var all := Numbered(Chunks(file), 1);
    var z := TakeAll(Start(all, maxWindowSize, clientWindow, net), steps);
    FileStream(file);
    StartHolds(all, maxWindowSize, clientWindow, net);
    SturdyRun(Start(all, maxWindowSize, clientWindow, net), all, steps);
    WrittenPieces(z, Chunks(file));
    PiecesAreFile(file, z.client.written);
  }

  lemma FragileGoesWrong(file: bytes, maxWindowSize: nat, clientWindow: nat, i: nat, net: Network)
    returns (bad: seq<Step>)
    requires |Chunks(file)| + 1 < 0x1_0000_0000 && maxWindowSize >= 1 && clientWindow >= 1
    requires i < |Chunks(file)| && Fragile(Chunks(file)[i]) && Sized(Numbered(Chunks(file), 1))
    ensures !Right(file, TakeAll(Start(Numbered(Chunks(file), 1), maxWindowSize, clientWindow, net), bad))
  {
    var all := Numbered(Chunks(file), 1);
    var z := Start(all, maxWindowSize, clientWindow, net);
    FileStream(file);
    StartHolds(all, maxWindowSize, clientWindow, net);
    ClientStarts(all, clientWindow, 1);
    PieceOf(Chunks(file), i + 1);
    bad := FragileFrom(z, all, i + 1, file);
  }

  lemma FragileFrom(z: Sys, all: seq<Packet>, j: nat, file: bytes) returns (bad: seq<Step>)
    requires |Chunks(file)| + 1 < 0x1_0000_0000 && all == Numbered(Chunks(file), 1) && Sized(all)
    requires SysInv(z, all) && Accepted(z.client) == {} && 1 <= j <= |all| && Fragile(all[j - 1].data)
    ensures !Right(file, TakeAll(z, bad))
  {
    var clean := CompletingRun(z, all);
    assert j in Accepted(Exec(z, clean).client);
    bad := GoesWrong(z, all, clean, j, file);
  }

  lemma CompletingRun(z: Sys, all: seq<Packet>) returns (clean: seq<Step>)
    requires SysInv(z, all)
    ensures CleanRun(z, clean) && Exec(z, clean).client.done && Exec(z, clean).client.expectedSeqno == |all| + 1
  {
    NeverOutruns(z, all);
    var zs, steps := Progress.CompletingSchedule(z, all);
    Progress.PathIsExec(zs, steps);
    RunKeeps(z, all, steps);
    clean := CleanSchedule(z, all, steps);
  }
}
