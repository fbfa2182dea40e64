/** Stop-and-Wait, with its client window of one, over a network that may change one byte of any
    data packet and deliver any ACK: exactly which files it transfers safely. */
module StopAndWaitErrors {
  import opened Bytes
  import opened PacketUtil
  import opened DataPackets
  import opened Corruption
  import opened PacketBuilders
  import opened SenderParts
  import opened Networks
  import opened Receiver
  import opened StopAndWait
  import opened StopAndWaitTransfer
  import opened StopAndWaitFinish
  import Errors = OneByteErrors

  ghost predicate PacketOnWire(y: Sys, p: Packet) {
    || (exists i :: 0 <= i < |y.sender.wire| && p == y.sender.wire[i])
    || (y.endSent && p == EndMarker(y.sender.nextSeqNumber))
  }

  /** What this network can deliver. */
  ghost predicate Possible(y: Sys, step: Wide.Step) {
    match step
    case DataArrives(d) =>
      !y.client.done && (OnWire(y, d) || exists p :: PacketOnWire(y, p) && Errors.OffByOne(p, d))
    case AckArrives(r, _) => Enabled(y, step)
    case TimerFires(net) => Enabled(y, step)
    case TransferEnds => Enabled(y, step)
  }

  ghost function Take(y: Sys, step: Wide.Step): Sys {
    if !Possible(y, step) then y
    else if step.DataArrives? then
      if Decode(step.datagram).Some? then ClientStep(y, Decode(step.datagram).value) else y
    else Apply(y, step)
  }

  ghost function TakeAll(y: Sys, steps: seq<Wide.Step>): Sys
    decreases |steps|
  {
    if steps == [] then y else TakeAll(Take(y, steps[0]), steps[1..])
  }

  ghost predicate Right(file: bytes, c: Client) {
    && |c.written| <= |Chunks(file)| && c.written == Chunks(file)[..|c.written|]
    && (c.done ==> Flatten(c.written) == file)
  }

  // ---------- files without a fragile piece ----------

  lemma WireIsSized(y: Sys, all: seq<Packet>, p: Packet)
    requires SysInv(y, all) && Errors.Sized(all) && PacketOnWire(y, p)
    ensures p.Packable() && p.Intact() && |p.data| <= MAX_DATA_SIZE
    ensures p.data != [] ==> Facts.Known(p, y.sender.nextSeqNumber, all)
  {
    if i :| 0 <= i < |y.sender.wire| && p == y.sender.wire[i] {
      WireFacts(y.sender, all, i);
    } else {
      ExpectedBound(y, all);
      MarkerPacket(y.sender.nextSeqNumber);
    }
  }

  lemma PossibleIsEnabled(y: Sys, all: seq<Packet>, step: Wide.Step)
    requires SysInv(y, all) && Errors.Sized(all) && Errors.Sturdy(all) && Possible(y, step)
    ensures Enabled(y, step) && Take(y, step) == Apply(y, step)
  {
    if step.DataArrives? {
      var d := step.datagram;
      if OnWire(y, d) {
        ExpectedBound(y, all);
        Wide.CarriedPacket(Lift(y.sender), all, y.endSent, d);
      } else {
        var p :| PacketOnWire(y, p) && Errors.OffByOne(p, d);
        WireIsSized(y, all, p);
        if p.data != [] { assert !Errors.Fragile(all[p.seqno - 1].data); }
        Errors.NoticedIffSturdy(p, d);
      }
    }
  }

  lemma {:induction false} SturdyRun(y: Sys, all: seq<Packet>, steps: seq<Wide.Step>)
    requires SysInv(y, all) && Errors.Sized(all) && Errors.Sturdy(all)
    ensures SysInv(TakeAll(y, steps), all) && TakeAll(y, steps).client.windowSize == y.client.windowSize
    decreases |steps|
  {
    if steps != [] {
      if Possible(y, steps[0]) {
        PossibleIsEnabled(y, all, steps[0]);
        StepKeeps(y, all, steps[0]);
      }
      SturdyRun(Take(y, steps[0]), all, steps[1..]);
    }
  }

  lemma SturdyIsRight(file: bytes, net: Network, steps: seq<Wide.Step>)
    requires |Chunks(file)| + 1 < 0x1_0000_0000
    requires Errors.Sized(Numbered(Chunks(file), 1)) && Errors.Sturdy(Numbered(Chunks(file), 1))
    ensures Right(file, TakeAll(Start(Numbered(Chunks(file), 1), 1, net), steps).client)
  {
    var all := Numbered(Chunks(file), 1);
    var y := TakeAll(Start(all, 1, net), steps);
    Wide.FileStream(file);
    StartHolds(all, 1, net);
    SturdyRun(Start(all, 1, net), all, steps);
    Wide.ClientPieces(y.client, y.acks, Chunks(file), y.sender.nextSeqNumber);
    PiecesAreFile(file, y.client.written);
  }

  // ---------- files with a fragile piece ----------

  lemma TakeClean(y: Sys, all: seq<Packet>, step: Wide.Step)
    requires SysInv(y, all) && Allowed(y, step)
    ensures Take(y, step) == Apply(y, step)
  {
    if step.DataArrives? {
      ExpectedBound(y, all);
      Wide.CarriedPacket(Lift(y.sender), all, y.endSent, step.datagram);
    }
  }

  lemma TakeFirst(y: Sys, step: Wide.Step, rest: seq<Wide.Step>)
    ensures TakeAll(y, [step] + rest) == TakeAll(Take(y, step), rest)
  {
    assert ([step] + rest)[0] == step && ([step] + rest)[1..] == rest;
  }

  lemma {:induction false} TakeCleanRun(y: Sys, all: seq<Packet>, steps: seq<Wide.Step>, last: Wide.Step)
    requires SysInv(y, all) && CleanRun(y, steps)
    ensures TakeAll(y, steps + [last]) == Take(Exec(y, steps), last)
    decreases |steps|
  {
    if steps == [] {
      assert steps + [last] == [last] + [];
      TakeFirst(y, last, []);
    } else {
      assert steps + [last] == [steps[0]] + (steps[1..] + [last]);
      TakeFirst(y, steps[0], steps[1..] + [last]);
      TakeClean(y, all, steps[0]);
      StepKeeps(y, all, steps[0]);
      TakeCleanRun(Apply(y, steps[0]), all, steps[1..], last);
    }
  }

  /** A client with a window of one takes a new packet straight to the file. */
  lemma WrittenAtOnce(c: Client, q: Packet)
    requires ClientInv(c) && c.windowSize == 1 && Fresh(c, q) && q.seqno < SEQNO_LIMIT
    ensures Receive(c, q).0.written == c.written + [q.data]
  {
    assert q.seqno == c.expectedSeqno;
    assert c.window.Keys == {};
    var d := c.(window := c.window[q.seqno := q]);
    assert Consistent(d, d.expectedSeqno);
    DeliverUnfolds(d);
    assert DeliverOne(d).window.Keys == {};
  }

  /** The shortened packet is written, or taken for the end marker. */
  lemma HitIsWrong(y: Sys, all: seq<Packet>, p: Packet, file: bytes)
    requires |Chunks(file)| + 1 < 0x1_0000_0000 && all == Numbered(Chunks(file), 1)
    requires SysInv(y, all) && y.client.windowSize == 1 && 1 <= p.seqno <= |all| && p == all[p.seqno - 1]
    requires Fresh(y.client, p) && |p.data| >= 256 && p.len >= 256 && Errors.Shortened(p).Intact()
    ensures !Right(file, ClientStep(y, Errors.Shortened(p)).client)
  {
    var q := Errors.Shortened(p);
    Wide.ClientPieces(y.client, y.acks, Chunks(file), y.sender.nextSeqNumber);
    Errors.PieceOf(Chunks(file), p.seqno);
    if q.data == [] {
      PiecesAreFile(file, y.client.written);
    } else {
      WrittenAtOnce(y.client, q);
      assert Receive(y.client, q).0.written[p.seqno - 1] == q.data;
    }
  }

  /** Some clean run of Selective Repeat brings packet j to the point of its arrival. */
  lemma {:induction false} DueLater(z: Wide.Sys, all: seq<Packet>, steps: seq<Wide.Step>, j: nat)
    returns (some: seq<Wide.Step>)
    requires Wide.SysInv(z, all) && Errors.CleanRun(z, steps)
    requires j !in Accepted(z.client) && j in Accepted(Wide.Exec(z, steps).client)
    ensures Errors.Due(Wide.Exec(z, some), all, j)
    decreases |steps|
  {
    var x := Wide.Apply(z, steps[0]);
    Wide.StepKeeps(z, all, steps[0]);
    if j in Accepted(x.client) {
      Errors.ArrivalOf(z, all, steps[0], j);
      some := [];
    } else {
      var rest := DueLater(x, all, steps[1..], j);
      some := [steps[0]] + rest;
      assert some[0] == steps[0] && some[1..] == rest;
    }
  }

  lemma SeenOnWire(z: Wide.Sys, p: Packet)
    requires Errors.PacketOnWire(z, p)
    ensures PacketOnWire(Seen(z), p)
  {
  }

  lemma HitStep(y: Sys, p: Packet)
    requires Sound(p) && |p.data| <= MAX_DATA_SIZE && Errors.Fragile(p.data)
    requires !y.client.done && PacketOnWire(y, p)
    ensures p.len >= 264 && Errors.Shortened(p).Intact()
    ensures Take(y, Wide.DataArrives(Damage(p, 5, 0))) == ClientStep(y, Errors.Shortened(p))
  {
    Errors.ShortenedArrives(p);
  }

  lemma FragileGoesWrong(file: bytes, i: nat, net: Network) returns (bad: seq<Wide.Step>)
    requires |Chunks(file)| + 1 < 0x1_0000_0000 && i < |Chunks(file)| && Errors.Fragile(Chunks(file)[i])
    requires Errors.Sized(Numbered(Chunks(file), 1))
    ensures !Right(file, TakeAll(Start(Numbered(Chunks(file), 1), 1, net), bad).client)
  {
    var all := Numbered(Chunks(file), 1);
    var z := Wide.Start(all, 1, 1, net);
    Wide.FileStream(file);
    StartSame(all, 1, net);
    Wide.ClientStarts(all, 1, 1);
    var clean := Errors.CompletingRun(z, all);
    assert i + 1 in Accepted(Wide.Exec(z, clean).client);
    var some := DueLater(z, all, clean, i + 1);
    var steps := CleanSchedule(z, all, some);
    StartHolds(all, 1, net);
    RunKeeps(Start(all, 1, net), all, steps);
    Errors.PieceOf(Chunks(file), i + 1);
    DueFacts(Wide.Exec(z, some), all, i + 1);
    bad := HitAfter(Start(all, 1, net), Seen(Wide.Exec(z, some)), all, steps, all[i], file);
  }

  lemma DueFacts(z: Wide.Sys, all: seq<Packet>, j: nat)
    requires Stream(all, 1) && Errors.Due(z, all, j)
    ensures Sound(all[j - 1]) && all[j - 1].seqno == j && PacketOnWire(Seen(z), all[j - 1])
    ensures Fresh(z.client, all[j - 1]) && !z.client.done
  {
    SeenOnWire(z, all[j - 1]);
  }

  lemma HitAfter(y: Sys, x: Sys, all: seq<Packet>, steps: seq<Wide.Step>, p: Packet, file: bytes)
    returns (bad: seq<Wide.Step>)
    requires |Chunks(file)| + 1 < 0x1_0000_0000 && all == Numbered(Chunks(file), 1)
    requires SysInv(y, all) && CleanRun(y, steps) && Exec(y, steps) == x && SysInv(x, all)
    requires x.client.windowSize == 1 && !x.client.done && PacketOnWire(x, p) && Fresh(x.client, p)
    requires 1 <= p.seqno <= |all| && p == all[p.seqno - 1] && Sound(p)
    requires |p.data| <= MAX_DATA_SIZE && Errors.Fragile(p.data)
    ensures !Right(file, TakeAll(y, bad).client)
  {
    var hit := Wide.DataArrives(Damage(p, 5, 0));
    HitStep(x, p);
    HitIsWrong(x, all, p, file);
    TakeCleanRun(y, all, steps, hit);
    bad := steps + [hit];
  }

  /** The Stop-and-Wait transfer over such a network is always right if and only if no piece of
      the file is fragile. */
  lemma RightIffNoFragilePiece(file: bytes)
    requires |Chunks(file)| + 1 < 0x1_0000_0000
    ensures (forall net: Network, steps: seq<Wide.Step> ::
               Right(file, TakeAll(Start(Numbered(Chunks(file), 1), 1, net), steps).client))
       <==> forall i :: 0 <= i < |Chunks(file)| ==> !Errors.Fragile(Chunks(file)[i])
  {
    var all := Numbered(Chunks(file), 1);
    ChunksIsCut(file);
    assert Errors.Sized(all);
    if i :| 0 <= i < |Chunks(file)| && Errors.Fragile(Chunks(file)[i]) {
      var net: Network := _ => Outcome.Delivered;
      var bad := FragileGoesWrong(file, i, net);
      assert !Right(file, TakeAll(Start(Numbered(Chunks(file), 1), 1, net), bad).client);
    } else {
      assert Errors.Sturdy(all);
      forall net: Network, steps: seq<Wide.Step>
        ensures Right(file, TakeAll(Start(Numbered(Chunks(file), 1), 1, net), steps).client)
      {
        SturdyIsRight(file, net, steps);
      }
    }
  }
}
