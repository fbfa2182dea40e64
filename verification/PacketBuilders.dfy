/** The packetiser (server/filereader/packet_builder.cpp) and the pure cut it refines. */
module PacketBuilders {
  import opened Bytes
  import opened PacketUtil
  import opened DataPackets

  /** The file cut into pieces of MAX_DATA_SIZE bytes, the last one possibly shorter. */
  function Chunks(file: bytes): seq<bytes>
    decreases |file|
  {
    if file == [] then []
    else
      var n := Min(|file|, MAX_DATA_SIZE);
      [file[..n]] + Chunks(file[n..])
  }

  /** What it means to be a cut, said without the algorithm. */
  ghost predicate IsCut(file: bytes, cs: seq<bytes>) {
    && Flatten(cs) == file
    && (forall i :: 0 <= i < |cs| ==> 0 < |cs[i]| <= MAX_DATA_SIZE)
    && (forall i :: 0 <= i < |cs| - 1 ==> |cs[i]| == MAX_DATA_SIZE)
  }

  lemma {:induction false} ChunksIsCut(file: bytes)
    ensures IsCut(file, Chunks(file))
    decreases |file|
  {
    if file != [] {
      var n := Min(|file|, MAX_DATA_SIZE);
      ChunksIsCut(file[n..]);
      var cs := Chunks(file);
      assert file == file[..n] + file[n..];
      assert cs[0] == file[..n] && cs[1..] == Chunks(file[n..]);
      forall i | 0 <= i < |cs|
        ensures 0 < |cs[i]| <= MAX_DATA_SIZE && (i < |cs| - 1 ==> |cs[i]| == MAX_DATA_SIZE)
      {
        if i > 0 { assert cs[i] == cs[1..][i - 1]; }
      }
    }
  }

  /** A cut is determined by the file. */
  lemma {:induction false} CutIsUnique(file: bytes, cs: seq<bytes>)
    requires IsCut(file, cs)
    ensures cs == Chunks(file)
    decreases |cs|
  {
    if cs != [] {
      var n := |cs[0]|;
      assert Flatten(cs) == cs[0] + Flatten(cs[1..]);
      assert |file| == n + |Flatten(cs[1..])|;
      if |cs| == 1 {
        assert Flatten(cs[1..]) == [];
      } else {
        assert |cs[0]| == MAX_DATA_SIZE;
      }
      assert n == Min(|file|, MAX_DATA_SIZE);
      assert file[..n] == cs[0] && file[n..] == Flatten(cs[1..]);
      CutIsUnique(file[n..], cs[1..]);
      assert cs == [cs[0]] + cs[1..];
    }
  }

  /** The first pieces make a prefix of the file, and all of it exactly when none is missing. */
  lemma PiecesAreFile(file: bytes, written: seq<bytes>)
    requires |written| <= |Chunks(file)| && written == Chunks(file)[..|written|]
    ensures Flatten(written) <= file
    ensures Flatten(written) == file <==> |written| == |Chunks(file)|
  {
    var cs, n := Chunks(file), |written|;
    ChunksIsCut(file);
    assert cs == cs[..n] + cs[n..];
    FlattenAppend(cs[..n], cs[n..]);
    if n < |cs| {
      assert Flatten(cs[n..]) == cs[n..][0] + Flatten(cs[n..][1..]);
      assert |Flatten(cs[n..])| >= |cs[n]| > 0;
    } else {
      assert cs[n..] == [];
    }
  }

  /** Reading a whole number of pieces first does not move any piece boundary. */
  lemma {:induction false} ChunksOfBatch(batch: bytes, rest: bytes)
    requires |batch| % MAX_DATA_SIZE == 0 || rest == []
    ensures Chunks(batch + rest) == Chunks(batch) + Chunks(rest)
    decreases |batch|
  {
    if rest == [] {
      assert batch + rest == batch;
    } else if batch == [] {
      assert batch + rest == rest;
    } else {
      var n := MAX_DATA_SIZE;
      assert |batch| >= n;
      assert (batch + rest)[..n] == batch[..n];
      assert (batch + rest)[n..] == batch[n..] + rest;
      ChunksOfBatch(batch[n..], rest);
    }
  }

  /** Pieces as packets, numbered consecutively from first. */
  function Numbered(cs: seq<bytes>, first: nat): (ps: seq<Packet>)
    requires first + |cs| <= 0x1_0000_0000
    ensures |ps| == |cs|
  {
    seq(|cs|, i requires 0 <= i < |cs| => MakePacket(cs[i], first + i))
  }

  lemma NumberedAppend(a: seq<bytes>, b: seq<bytes>, first: nat)
    requires first + |a| + |b| <= 0x1_0000_0000
    ensures Numbered(a + b, first) == Numbered(a, first) + Numbered(b, first + |a|)
  {
  }

  function Values(ps: seq<DataPacket>): (vs: seq<Packet>)
    ensures |vs| == |ps|
  {
    seq(|ps|, i requires 0 <= i < |ps| => ps[i].Value())
  }

  ghost predicate Matches(queue: seq<DataPacket>, cut: seq<bytes>, first: nat) {
    && |queue| == |cut| && first + |cut| <= 0x1_0000_0000
    && forall i :: 0 <= i < |queue| ==> queue[i].Value() == MakePacket(cut[i], first + i)
  }

  lemma MatchingValues(queue: seq<DataPacket>, cut: seq<bytes>, first: nat)
    requires Matches(queue, cut, first)
    ensures Values(queue) == Numbered(cut, first)
  {
  }

  /** The queue holds the first pieces of the cut, and the buffer from start on the others. */
  ghost predicate CutTo(queue: seq<DataPacket>, buffer: bytes, start: nat, first: nat) {
    var cut := Chunks(buffer);
    && |queue| <= |cut| && start <= |buffer| && Chunks(buffer[start..]) == cut[|queue|..]
    && Matches(queue, cut[..|queue|], first)
  }

  /** The same, closed for proofs that only pass it on. */
  ghost predicate CutUpTo(queue: seq<DataPacket>, buffer: bytes, start: nat, first: nat) {
    forall k: nat :: k == first ==> CutTo(queue, buffer, start, k)
  }

  ghost predicate Unsent(queue: seq<DataPacket>)
    reads queue
  {
    forall p <- queue :: !p.acked && p.timeStamp == 0
  }

  /** Queues a new packet with the next piece of the buffer. */
  method Append(queue: seq<DataPacket>, buffer: bytes, start: nat, piece: bytes, seqno: uint32)
    returns (longer: seq<DataPacket>)
    requires start < |buffer| && piece == buffer[start..start + Min(|buffer| - start, MAX_DATA_SIZE)]
    requires |queue| <= seqno && CutUpTo(queue, buffer, start, seqno - |queue|) && Unsent(queue)
    ensures |longer| == |queue| + 1 <= |Chunks(buffer)| && fresh(longer[|queue|])
    ensures forall k :: 0 <= k < |queue| ==> longer[k] == queue[k]
    ensures CutUpTo(longer, buffer, start + |piece|, seqno - |queue|) && Unsent(longer)
  {
    ghost var cut := Chunks(buffer);
    assert CutTo(queue, buffer, start, seqno - |queue|);
    NextPiece(buffer, start, cut, |queue|);
    var packet := new DataPacket(piece, seqno);
    longer := queue + [packet];
    assert cut[..|longer|] == cut[..|queue|] + [piece];
  }

  /** The inner loop of get_next_packet: cuts one buffer into numbered packets. */
  method CutBuffer(buffer: bytes, nextSeqNum: uint32) returns (queue: seq<DataPacket>, next: uint32)
    requires nextSeqNum + |Chunks(buffer)| < 0x1_0000_0000
    ensures Values(queue) == Numbered(Chunks(buffer), nextSeqNum)
    ensures next == nextSeqNum + |queue|
    ensures fresh(queue) && Unsent(queue)
  {
    queue, next := [], nextSeqNum;
    var readLength, start := |buffer|, 0;
    NothingCut(buffer, nextSeqNum);
    while readLength > 0
      invariant 0 <= start <= |buffer| && readLength == |buffer| - start
      invariant next == nextSeqNum + |queue| && CutUpTo(queue, buffer, start, nextSeqNum)
      invariant Unsent(queue) && forall k :: 0 <= k < |queue| ==> fresh(queue[k])
    {
      var n := Min(readLength, MAX_DATA_SIZE);
      var packetData := buffer[start..start + n];
      queue := Append(queue, buffer, start, packetData, next);
      next := next + 1;
      readLength := readLength - n;
      start := start + n;
    }
    AllCut(queue, buffer, start, nextSeqNum);
  }

  lemma NothingCut(buffer: bytes, first: nat)
    requires first + |Chunks(buffer)| < 0x1_0000_0000
    ensures CutUpTo([], buffer, 0, first)
  {
    assert buffer[0..] == buffer;
  }

  lemma AllCut(queue: seq<DataPacket>, buffer: bytes, start: nat, first: nat)
    requires CutUpTo(queue, buffer, start, first) && start == |buffer| && first + |Chunks(buffer)| < 0x1_0000_0000
    ensures Values(queue) == Numbered(Chunks(buffer), first)
  {
    assert CutTo(queue, buffer, start, first);
    assert Chunks(buffer)[..|queue|] == Chunks(buffer);
    MatchingValues(queue, Chunks(buffer), first);
  }

  lemma NextPiece(buffer: bytes, start: nat, cut: seq<bytes>, k: nat)
    requires start < |buffer| && k <= |cut| && Chunks(buffer[start..]) == cut[k..]
    ensures var n := Min(|buffer| - start, MAX_DATA_SIZE);
            k < |cut| && cut[k] == buffer[start..start + n] && cut[k + 1..] == Chunks(buffer[start + n..])
  {
    var n := Min(|buffer| - start, MAX_DATA_SIZE);
    assert buffer[start..][..n] == buffer[start..start + n] && buffer[start..][n..] == buffer[start + n..];
    assert cut[k..] == [cut[k]] + cut[k + 1..];
  }

  lemma {:induction false} ChunkCount(file: bytes, n: nat)
    requires |file| <= MAX_DATA_SIZE * n
    ensures |Chunks(file)| <= n
    ensures |file| == MAX_DATA_SIZE * n ==> |Chunks(file)| == n
    decreases |file|
  {
    if file != [] {
      ChunkCount(file[Min(|file|, MAX_DATA_SIZE)..], n - 1);
    }
  }

  /** One batch read leaves the same packets to come. */
  lemma BatchOfFile(buffer: bytes, rest: bytes, first: nat, queueSize: nat)
    requires queueSize >= 1 && buffer != []
    requires |buffer| == MAX_DATA_SIZE * queueSize || (|buffer| < MAX_DATA_SIZE * queueSize && rest == [])
    requires first + |Chunks(buffer + rest)| < 0x1_0000_0000
    ensures |Chunks(buffer + rest)| == |Chunks(buffer)| + |Chunks(rest)|
    ensures Numbered(Chunks(buffer + rest), first)
         == Numbered(Chunks(buffer), first) + Numbered(Chunks(rest), first + |Chunks(buffer)|)
    ensures 1 <= |Chunks(buffer)| == Min(queueSize, |Chunks(buffer + rest)|)
  {
    if |buffer| == MAX_DATA_SIZE * queueSize {
      assert |buffer| % MAX_DATA_SIZE == 0;
    }
    ChunksOfBatch(buffer, rest);
    NumberedAppend(Chunks(buffer), Chunks(rest), first);
    ChunkCount(buffer, queueSize);
  }

  class PacketBuilder {
    const file: bytes        // the file on disk, which does not change during the transfer
    const queueSize: nat
    var position: nat        // read offset of the open file
    var dataNotRead: int
    var packetsReadQueue: seq<DataPacket>

    ghost predicate Valid()
      reads this, packetsReadQueue
    {
      && queueSize >= 1
      && position <= |file| && dataNotRead == |file| - position
      && Unsent(packetsReadQueue)
    }

    ghost function Unread(): bytes
      reads this
      requires position <= |file|
    {
      file[position..]
    }

    /** The sequence counter cannot run over 32 bits before the file ends. */
    ghost predicate Fits(nextSeqNum: nat)
      reads this
      requires position <= |file|
    {
      nextSeqNum + |Chunks(Unread())| < 0x1_0000_0000
    }

    /** Every packet still to be handed out, in order. */
    ghost function Remaining(nextSeqNum: nat): seq<Packet>
      reads this
      requires position <= |file| && Fits(nextSeqNum)
    {
      Values(packetsReadQueue) + Numbered(Chunks(Unread()), nextSeqNum)
    }

    predicate HasNext()
      reads this
    {
      dataNotRead > 0 || packetsReadQueue != []
    }

    /** What the builder still holds, and how far the counter runs ahead of first, the number of
        the packet it hands out next. */
    ghost predicate Offers(nextSeqNum: nat, todo: seq<Packet>, first: nat)
      reads this, packetsReadQueue
    {
      && Valid() && Fits(nextSeqNum) && todo == Remaining(nextSeqNum)
      && nextSeqNum == first + |packetsReadQueue|
    }

    /** Between calls of a builder with batches of one packet: what it still holds. */
    ghost predicate Holds(nextSeqNum: nat, todo: seq<Packet>)
      reads this, packetsReadQueue
    {
      Valid() && queueSize == 1 && packetsReadQueue == [] && Fits(nextSeqNum) && todo == Remaining(nextSeqNum)
    }

    constructor (file: bytes, queueSize: nat)
      requires queueSize >= 1
      ensures Valid() && this.file == file && this.queueSize == queueSize
      ensures packetsReadQueue == [] && Unread() == file
    {
      this.file := file;
      this.queueSize := queueSize;
      this.position := 0;
      this.dataNotRead := |file|;
      this.packetsReadQueue := [];
    }

    lemma AllRemaining(nextSeqNum: nat)
      requires Valid() && packetsReadQueue == [] && Unread() == file && Fits(nextSeqNum)
      ensures Remaining(nextSeqNum) == Numbered(Chunks(file), nextSeqNum)
    {
      assert Values([]) == [];
    }

    lemma HasNextIffRemaining(nextSeqNum: nat)
      requires Valid() && Fits(nextSeqNum)
      ensures HasNext() <==> Remaining(nextSeqNum) != []
    {
      if dataNotRead > 0 {
        assert Chunks(Unread()) != [];
      }
    }

    /** Reads one batch of the file and queues its packets. */
    method ReadBatch(nextSeqNum: uint32) returns (next: uint32)
      requires Valid() && Fits(nextSeqNum) && dataNotRead > 0 && packetsReadQueue == []
      modifies this
      ensures Valid() && Fits(next)
      ensures Remaining(next) == old(Remaining(nextSeqNum)) && packetsReadQueue != []
      ensures fresh(packetsReadQueue) && next == nextSeqNum + |packetsReadQueue|
      ensures |packetsReadQueue| == Min(queueSize, old(|Remaining(nextSeqNum)|))
    {
      var readLength := Min(MAX_DATA_SIZE * queueSize, dataNotRead);
      var buffer := file[position..position + readLength];
      ghost var rest := file[position + readLength..];
      assert Unread() == buffer + rest;
      BatchOfFile(buffer, rest, nextSeqNum, queueSize);
      position := position + readLength;
      dataNotRead := dataNotRead - readLength;
      packetsReadQueue, next := CutBuffer(buffer, nextSeqNum);
    }

    /** Hands out exactly the next packet of the cut, whatever the batch size. */
    method GetNextPacket(nextSeqNum: uint32) returns (packet: DataPacket, next: uint32)
      requires Valid() && Fits(nextSeqNum) && HasNext()
      modifies this
      ensures Valid() && Fits(next)
      ensures old(Remaining(nextSeqNum)) == [packet.Value()] + Remaining(next)
      ensures !packet.acked && packet.timeStamp == 0
      ensures packet in old(packetsReadQueue) || fresh(packet)
      ensures forall q <- packetsReadQueue :: q in old(packetsReadQueue) || fresh(q)
      ensures next == nextSeqNum + 1 + |packetsReadQueue| - |old(packetsReadQueue)|
      ensures |packetsReadQueue| + 1
           == if old(packetsReadQueue) == [] then Min(queueSize, old(|Remaining(nextSeqNum)|))
              else |old(packetsReadQueue)|
    {
      next := nextSeqNum;
      if dataNotRead > 0 && packetsReadQueue == [] {
        next := ReadBatch(nextSeqNum);
      }
      packet := packetsReadQueue[0];
      ghost var before := packetsReadQueue;
      packetsReadQueue := packetsReadQueue[1..];
      assert Values(before) == [packet.Value()] + Values(packetsReadQueue);
    }
  }
}
