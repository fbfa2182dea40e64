/** Fair infinite runs exist: one round-robin schedule without losses, built for any state. */
module FairSchedules {
  import opened Bytes
  import opened DataPackets
  import opened PacketBuilders
  import opened SenderParts
  import opened Networks
  import opened Transfer
  import opened Progress
  import opened Receiver
  import SWT = StopAndWaitTransfer
  import SW = StopAndWaitFinish

  /** How often n can be halved; every value comes up again and again. */
  function Turn(n: nat): nat {
    if n == 0 || n % 2 == 1 then 0 else 1 + Turn(n / 2)
  }

  /** A time after t at which turn j comes up. */
  function TimeOf(j: nat, t: nat): nat {
    if j == 0 then 2 * t + 1 else 2 * TimeOf(j - 1, t)
  }

  lemma {:induction false} TurnComes(j: nat, t: nat)
    ensures TimeOf(j, t) > t && Turn(TimeOf(j, t)) == j
  {
    if j > 0 { TurnComes(j - 1, t); }
  }

  function Perfect(): Network {
    _ => Outcome.Delivered
  }

  /** The four kinds of steps take turns, each through all packets, ACKs and the end marker. */
  ghost function Pick(z: Sys, j: nat): Step {
    var i := j / 4;
    if j % 4 == 0 then TimerFires(Perfect())
    else if j % 4 == 1 && i < |z.sender.wire| then DataArrives(Encode(z.sender.wire[i]))
    else if j % 4 == 2 && i in z.acks then AckArrives(EncodeAck(MakeAck(i)), Perfect())
    else if j % 4 == 3 && i == 1 && z.endSent then DataArrives(Encode(EndMarker(z.sender.nextSeqNumber)))
    else TransferEnds
  }

  ghost function Next(y: Sys, t: nat): Step {
    Pick(y, Turn(t + 1))
  }

  ghost function RoundRobin(z: Sys, t: nat): Sys {
    if t == 0 then z else Apply(RoundRobin(z, t - 1), Next(RoundRobin(z, t - 1), t - 1))
  }

  ghost function RunOf(z: Sys): nat -> Sys {
    (t: nat) => RoundRobin(z, t)
  }

  ghost function ScheduleOf(z: Sys): nat -> Step {
    (t: nat) => Next(RoundRobin(z, t), t)
  }

  lemma ScheduleAt(z: Sys, t: nat)
    ensures ScheduleOf(z)(t) == Next(RunOf(z)(t), t)
  {
  }

  lemma RunAt(z: Sys, t: nat)
    ensures RunOf(z)(t + 1) == Apply(RunOf(z)(t), Next(RunOf(z)(t), t))
  {
  }

  lemma RunStep(z: Sys, t: nat)
    ensures NextAt(RunOf(z), ScheduleOf(z), t)
  {
    RunAt(z, t);
    ScheduleAt(z, t);
  }

  lemma RoundRobinIsRun(z: Sys)
    ensures IsRun(RunOf(z), ScheduleOf(z)) && RunOf(z)(0) == z
  {
    forall t: nat
      ensures NextAt(RunOf(z), ScheduleOf(z), t)
    {
      RunStep(z, t);
    }
  }

  lemma Picks(y: Sys, i: nat)
    ensures i < |y.sender.wire| ==> Pick(y, 4 * i + 1) == DataArrives(Encode(y.sender.wire[i]))
    ensures i in y.acks ==> Pick(y, 4 * i + 2) == AckArrives(EncodeAck(MakeAck(i)), Perfect())
    ensures Pick(y, 0) == TimerFires(Perfect()) && Pick(y, 3) == TransferEnds
    ensures y.endSent ==> Pick(y, 7) == DataArrives(Encode(EndMarker(y.sender.nextSeqNumber)))
  {
    assert (4 * i + 1) / 4 == i && (4 * i + 1) % 4 == 1 && (4 * i + 2) / 4 == i && (4 * i + 2) % 4 == 2;
  }

  lemma NextIs(y: Sys, t: nat, j: nat)
    requires Turn(t + 1) == j
    ensures Next(y, t) == Pick(y, j)
  {
  }

  lemma TurnTime(j: nat, t: nat) returns (u: nat)
    ensures u >= t && Turn(u + 1) == j
  {
    TurnComes(j, t);
    u := TimeOf(j, t) - 1;
  }

  /** At some time from t on it is the turn of j. */
  lemma TurnAfter(z: Sys, j: nat, t: nat) returns (u: nat)
    ensures u >= t && ScheduleOf(z)(u) == Pick(RunOf(z)(u), j)
  {
    u := TurnTime(j, t);
    ScheduleAt(z, u);
    NextIs(RunOf(z)(u), u, j);
  }

  lemma SentStays(y: Sys, x: Sys, i: nat)
    requires Later(y, x) && i < |y.sender.wire|
    ensures i < |x.sender.wire| && x.sender.wire[i] == y.sender.wire[i]
  {
  }

  lemma FairPacket(z: Sys, all: seq<Packet>, t: nat, i: nat)
    requires Good(RunOf(z), all) && i < |RunOf(z)(t).sender.wire|
    ensures ArrivesAfter(ScheduleOf(z), t, Encode(RunOf(z)(t).sender.wire[i]))
  {
    RoundRobinIsRun(z);
    var u := TurnAfter(z, 4 * i + 1, t);
    AtLater(RunOf(z), all, ScheduleOf(z), t, u);
    SentStays(RunOf(z)(t), RunOf(z)(u), i);
    Picks(RunOf(z)(u), i);
    assert ArrivesAt(ScheduleOf(z), u, Encode(RunOf(z)(t).sender.wire[i]));
  }

  lemma FairMarker(z: Sys, all: seq<Packet>, t: nat)
    requires Good(RunOf(z), all) && RunOf(z)(t).endSent
    ensures MarkerReaches(RunOf(z), ScheduleOf(z))
  {
    RoundRobinIsRun(z);
    var u := TurnAfter(z, 7, t);
    AtLater(RunOf(z), all, ScheduleOf(z), t, u);
    Picks(RunOf(z)(u), 0);
    assert MarkerReachesAt(RunOf(z), ScheduleOf(z), u);
  }

  /** What is sent at least once arrives for ever. */
  lemma FairData(z: Sys, all: seq<Packet>, p: Packet, t: nat)
    requires Good(RunOf(z), all) && SentForever(RunOf(z), p)
    ensures ArrivesAfter(ScheduleOf(z), t, Encode(p))
  {
    assert SentAfter(RunOf(z), t, p);
    var u :| u >= t && SentAt(RunOf(z), u, p);
    var i :| |RunOf(z)(u).sender.wire| <= i < |RunOf(z)(u + 1).sender.wire| && RunOf(z)(u + 1).sender.wire[i] == p;
    FairPacket(z, all, u + 1, i);
    var v :| v >= u + 1 && ArrivesAt(ScheduleOf(z), v, Encode(p));
  }

  lemma FairAcks(z: Sys, all: seq<Packet>, t: nat, k: uint32)
    requires Good(RunOf(z), all) && k in RunOf(z)(t).acks
    ensures AckArrivesAfter(ScheduleOf(z), t, k)
  {
    RoundRobinIsRun(z);
    var u := TurnAfter(z, 4 * k + 2, t);
    AtLater(RunOf(z), all, ScheduleOf(z), t, u);
    Picks(RunOf(z)(u), k);
    assert AckArrivesAt(ScheduleOf(z), u, k);
  }

  lemma AckStillArrives(schedule: nat -> Step, t: nat, u: nat, k: uint32)
    requires u >= t && AckArrivesAfter(schedule, u, k)
    ensures AckArrivesAfter(schedule, t, k)
  {
    var v :| v >= u && AckArrivesAt(schedule, v, k);
  }

  lemma AnsweredOnce(run: nat -> Sys, schedule: nat -> Step, t: nat, k: uint32) returns (u: nat)
    requires IsRun(run, schedule) && AnswersForever(run, schedule, k)
    ensures u >= t && k in run(u).acks
  {
    assert AnswersAfter(run, schedule, t, k);
    var v :| v >= t && AnswersAt(run, schedule, v, k);
    AnswerInFlight(run, schedule, v, k);
    u := v + 1;
  }

  lemma FairAnswers(z: Sys, all: seq<Packet>, k: uint32, t: nat)
    requires Good(RunOf(z), all) && AnswersForever(RunOf(z), ScheduleOf(z), k)
    ensures AckArrivesAfter(ScheduleOf(z), t, k)
  {
    RoundRobinIsRun(z);
    var u := AnsweredOnce(RunOf(z), ScheduleOf(z), t, k);
    FairAcks(z, all, u, k);
    AckStillArrives(ScheduleOf(z), t, u, k);
  }

  lemma FairTimer(z: Sys, t: nat)
    ensures ResendsAfter(RunOf(z), ScheduleOf(z), t) && EndsAfter(ScheduleOf(z), t)
  {
    var u := TurnAfter(z, 0, t);
    Picks(RunOf(z)(u), 0);
    assert ResendsAt(RunOf(z), ScheduleOf(z), u);
    var v := TurnAfter(z, 3, t);
    Picks(RunOf(z)(v), 0);
    assert EndsAt(ScheduleOf(z), v);
  }

  /** From every reachable state there is a fair run. */
  lemma FairRunExists(file: bytes, z: Sys)
    requires |Chunks(file)| + 1 < 0x1_0000_0000 && Transfer.Reachable(file, z)
    ensures var run, schedule := RunOf(z), ScheduleOf(z);
            run(0) == z && IsRun(run, schedule) && Fair(run, schedule)
  {
    RoundRobinIsRun(z);
    ReachableGood(file, RunOf(z), ScheduleOf(z));
    var all := Numbered(Chunks(file), 1);
    forall t: nat
      ensures ResendsAfter(RunOf(z), ScheduleOf(z), t) && EndsAfter(ScheduleOf(z), t)
    {
      FairTimer(z, t);
    }
    forall p | SentForever(RunOf(z), p)
      ensures ArrivesForever(ScheduleOf(z), Encode(p))
    {
      forall t: nat
        ensures ArrivesAfter(ScheduleOf(z), t, Encode(p))
      {
        FairData(z, all, p, t);
      }
    }
    forall k: uint32 | AnswersForever(RunOf(z), ScheduleOf(z), k)
      ensures AckArrivesForever(ScheduleOf(z), k)
    {
      forall t: nat
        ensures AckArrivesAfter(ScheduleOf(z), t, k)
      {
        FairAnswers(z, all, k, t);
      }
    }
    forall t: nat | RunOf(z)(t).endSent
      ensures MarkerReaches(RunOf(z), ScheduleOf(z))
    {
      FairMarker(z, all, t);
    }
  }

  // ---------- Stop-and-Wait ----------

  lemma NotExpected(y: Sys, all: seq<Packet>, k: uint32)
    requires SysInv(y, all) && k in y.acks
    ensures k != y.client.expectedSeqno
  {
    LeastMissing(y.client);
    assert y.client.expectedSeqno !in Accepted(y.client);
  }

  /** The schedule damages nothing. */
  lemma PickAllowed(y: Sys, all: seq<Packet>, j: nat)
    requires SysInv(y, all)
    ensures SW.Allowed(SWT.Seen(y), Pick(y, j)) && !SWT.Misleads(SWT.Seen(y), Pick(y, j))
  {
    var i := j / 4;
    if j % 4 == 2 && i in y.acks {
      NumberCarried(y.acks, i);
      NotExpected(y, all, i);
    }
  }

  function SeenRun(run: nat -> Sys): nat -> SWT.Sys {
    (t: nat) => SWT.Seen(run(t))
  }

  ghost predicate PairAt(z: Sys, all: seq<Packet>, t: nat) {
    SWT.Pair(RoundRobin(z, t), all)
  }

  ghost predicate PairUntil(z: Sys, all: seq<Packet>, t: nat) {
    forall u: nat :: u <= t ==> PairAt(z, all, u)
  }

  lemma PairNext(z: Sys, all: seq<Packet>, t: nat)
    requires PairUntil(z, all, t)
    ensures PairUntil(z, all, t + 1)
  {
    assert PairAt(z, all, t);
    PairStep(RoundRobin(z, t), all, t);
    RunAt(z, t);
    assert RoundRobin(z, t + 1) == Apply(RoundRobin(z, t), Next(RoundRobin(z, t), t));
  }

  lemma {:induction false} RoundRobinPairs(z: Sys, all: seq<Packet>, t: nat)
    requires PairUntil(z, all, 0)
    ensures PairUntil(z, all, t)
  {
    if t > 0 {
      RoundRobinPairs(z, all, t - 1);
      PairNext(z, all, t - 1);
    }
  }

  lemma PairStep(y: Sys, all: seq<Packet>, t: nat)
    requires SWT.Pair(y, all)
    ensures SWT.Pair(Apply(y, Next(y, t)), all)
    ensures SWT.Apply(SWT.Seen(y), Next(y, t)) == SWT.Seen(Apply(y, Next(y, t)))
    ensures !SWT.Misleads(SWT.Seen(y), Next(y, t))
  {
    PickAllowed(y, all, Turn(t + 1));
    StepKeeps(y, all, Next(y, t));
    SW.CleanStepSame(y, all, Next(y, t));
  }

  lemma SeenIsHonestRun(z: Sys, all: seq<Packet>)
    requires SWT.Pair(z, all)
    ensures SW.IsHonestRun(SeenRun(RunOf(z)), ScheduleOf(z))
  {
    assert PairAt(z, all, 0);
    forall t: nat
      ensures SW.NextAt(SeenRun(RunOf(z)), ScheduleOf(z), t) && SW.HonestAt(SeenRun(RunOf(z)), ScheduleOf(z), t)
    {
      RoundRobinPairs(z, all, t);
      assert PairAt(z, all, t);
      PairStep(RoundRobin(z, t), all, t);
      RunAt(z, t);
      ScheduleAt(z, t);
    }
  }

  lemma SeenSends(z: Sys, p: Packet)
    requires SW.SentForever(SeenRun(RunOf(z)), p)
    ensures SentForever(RunOf(z), p)
  {
    forall t: nat
      ensures SentAfter(RunOf(z), t, p)
    {
      assert SW.SentAfter(SeenRun(RunOf(z)), t, p);
      var u :| u >= t && SW.SentAt(SeenRun(RunOf(z)), u, p);
      assert SentAt(RunOf(z), u, p);
    }
  }

  lemma SeenAnswers(z: Sys, k: uint32)
    requires SW.AnswersForever(SeenRun(RunOf(z)), ScheduleOf(z), k)
    ensures AnswersForever(RunOf(z), ScheduleOf(z), k)
  {
    forall t: nat
      ensures AnswersAfter(RunOf(z), ScheduleOf(z), t, k)
    {
      assert SW.AnswersAfter(SeenRun(RunOf(z)), ScheduleOf(z), t, k);
      var u :| u >= t && SW.AnswersAt(SeenRun(RunOf(z)), ScheduleOf(z), u, k);
      assert Answers(RunOf(z)(u), ScheduleOf(z)(u), k);
      assert AnswersAt(RunOf(z), ScheduleOf(z), u, k);
    }
  }

  lemma SeenResends(z: Sys, t: nat)
    requires ResendsAfter(RunOf(z), ScheduleOf(z), t)
    ensures SW.ResendsAfter(SeenRun(RunOf(z)), ScheduleOf(z), t)
  {
    var u :| u >= t && ResendsAt(RunOf(z), ScheduleOf(z), u);
    assert SW.ResendsAt(SeenRun(RunOf(z)), ScheduleOf(z), u);
  }

  lemma SeenMarker(z: Sys)
    requires MarkerReaches(RunOf(z), ScheduleOf(z))
    ensures SW.MarkerReaches(SeenRun(RunOf(z)), ScheduleOf(z))
  {
    var u: nat :| MarkerReachesAt(RunOf(z), ScheduleOf(z), u);
    assert SW.MarkerReachesAt(SeenRun(RunOf(z)), ScheduleOf(z), u);
  }

  lemma SeenIsFair(z: Sys)
    requires Fair(RunOf(z), ScheduleOf(z))
    ensures SW.Fair(SeenRun(RunOf(z)), ScheduleOf(z))
  {
    var run, schedule := SeenRun(RunOf(z)), ScheduleOf(z);
    forall t: nat
      ensures SW.ResendsAfter(run, schedule, t)
    {
      SeenResends(z, t);
    }
    forall p | SW.SentForever(run, p)
      ensures ArrivesForever(schedule, Encode(p))
    {
      SeenSends(z, p);
    }
    forall k: uint32 | SW.AnswersForever(run, schedule, k)
      ensures AckArrivesForever(schedule, k)
    {
      SeenAnswers(z, k);
    }
    forall t: nat | run(t).endSent
      ensures SW.MarkerReaches(run, schedule)
    {
      assert RunOf(z)(t).endSent;
      SeenMarker(z);
    }
  }

  /** From every state of an honest Stop-and-Wait run there is a fair one. */
  lemma StopAndWaitFairRunExists(file: bytes, y: SWT.Sys) returns (run: nat -> SWT.Sys, schedule: nat -> Step)
    requires |Chunks(file)| + 1 < 0x1_0000_0000 && SWT.HonestlyReachable(file, y)
    ensures run(0) == y && SW.IsHonestRun(run, schedule) && SW.Fair(run, schedule)
  {
    var z := SWT.ReachableTwin(file, y);
    FairRunExists(file, z);
    run, schedule := SeenRun(RunOf(z)), ScheduleOf(z);
    SeenIsHonestRun(z, Numbered(Chunks(file), 1));
    SeenIsFair(z);
  }
}
