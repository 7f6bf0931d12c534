/**
 Whole handshakes over a network that loses, repeats and reorders records (RFC 4347 sections 4.2.3 and 4.2.6;
 libressl ssl/d1_both.c): the messages that come out are the first of those that went in.
 */
module HandshakeRun {
  import opened HandshakeMessages
  import opened HandshakeReader
  import opened Octets

  /**
   A message is sent in records of these sizes, or sent again in others; or the receiver reads, and the network
   gives it those of all records so far that it likes.
   */
  datatype Step =
    | Send(m: Message, mtu: nat -> nat)
    | Resend(number: nat, mtu: nat -> nat)
    | Receive(picks: seq<nat>, max: nat)
  {
    ghost predicate Valid() {
      match this
      case Send(m, mtu) => m.Valid() && forall i :: mtu(i) > HEADER
      case Resend(_, mtu) => forall i :: mtu(i) > HEADER
      case Receive(_, _) => true
    }
  }

  /** The messages of the steps, in order. */
  function Sent(steps: seq<Step>): seq<Message> {
    if steps == [] then []
    else
      var last := steps[|steps| - 1];
      Sent(steps[..|steps| - 1]) + if last.Send? then [last.m] else []
  }

  /** The records that the network delivers: those of all so far that were picked. */
  function Picked(wire: seq<seq<Octet>>, picks: seq<nat>): (r: seq<seq<Octet>>)
    ensures forall x :: x in r ==> x in wire
  {
    if picks == [] then []
    else
      var last := picks[|picks| - 1];
      Picked(wire, picks[..|picks| - 1]) + if last < |wire| then [wire[last]] else []
  }

  /** The record says what it is a piece of; only the whole message is as long as a header and the body. */
  predicate Names(r: seq<Octet>, m: Message, number: nat) {
    && |r| >= HEADER && ParseHeader(r).number == number && ParseHeader(r).msgLen == |m.body|
    && |r| == HEADER + ParseHeader(r).fragLen
  }

  lemma PieceNames(r: seq<Octet>, m: Message, number: nat, start: nat, end: nat)
    requires IsPiece(r, m, number, start, end) && m.Valid() && number < 0x1_0000
    ensures Names(r, m, number)
  {
    HeaderRoundTrip(FragmentHeader(m, number, start, end - start), m.body[start..end]);
    hide ParseHeader;
  }

  lemma {:induction false} PiecesName(records: seq<seq<Octet>>, m: Message, number: nat, off: nat)
    requires Pieces(records, m, number, off) && m.Valid() && number < 0x1_0000
    ensures forall r :: r in records ==> Names(r, m, number)
    decreases |records|
  {
    hide Names, IsPiece;
    if records != [] {
      var last := |records| - 1;
      var start: nat :| IsPiece(records[last], m, number, start, off) && Pieces(records[..last], m, number, start);
      PiecesName(records[..last], m, number, start);
      PieceNames(records[last], m, number, start, off);
      assert records == records[..last] + [records[last]];
    }
  }

  /** No record of this size holds the whole message. */
  ghost predicate TooSmall(mtu: nat -> nat, m: Message) {
    forall i :: mtu(i) < HEADER + |m.body|
  }

  /** The step puts the message of this number on the wire in pieces, if at all. */
  ghost predicate Splits(sent: seq<Message>, step: Step, number: nat) {
    match step
    case Send(m, mtu) => |sent| == number ==> TooSmall(mtu, m)
    case Resend(k, mtu) => k == number && k < |sent| ==> TooSmall(mtu, sent[k])
    case Receive(_, _) => true
  }

  /** A sender, a receiver and all records that were ever on the wire. */
  class Network {
    const sender: Sender
    const receiver: Receiver
    var wire: seq<seq<Octet>>
    var sent: seq<Message>
    var failed: bool
    ghost var gathered: nat       // how many messages came out of the queue

    ghost function Repr(): set<object>
      reads this, receiver, receiver.buffered
    {
      {this, sender, sender.initBuf, receiver, receiver.initBuf} + receiver.Parts()
    }

    ghost predicate Valid()
      reads Repr()
    {
      && {this, sender, sender.initBuf} !! {receiver, receiver.initBuf} + receiver.Parts()
      && sender.initBuf.Length == HEADER + 0x100_0000
      && receiver.Valid(sent) && sender.finished == Transcript(sent)
      && forall x :: x in wire ==> Honest(x, sent)
    }

    constructor (maxHandshake: nat)
      ensures Valid() && wire == [] && sent == [] && !failed && fresh(Repr())
      ensures receiver.readSeq == 0 && receiver.buffered.list == [] && receiver.maxHandshake == maxHandshake
    {
      sender := new Sender(HEADER + 0x100_0000);
      receiver := new Receiver(maxHandshake);
      wire, sent, failed, gathered := [], [], false, 0;
      new;
      hide Stored, Honest;
    }

    /** What came out is the beginning of what went in, and the hashes agree on it. */
    lemma Agreement()
      requires Valid()
      ensures |receiver.delivered| <= |sent| && receiver.delivered == sent[..|receiver.delivered|]
      ensures sender.finished == Transcript(sent) && receiver.finished == Transcript(receiver.delivered)
    {}

    lemma DeliveredIs()
      requires Valid()
      ensures receiver.readSeq <= |sent| && receiver.delivered == sent[..receiver.readSeq]
    {}

    lemma StoreIs()
      requires Valid()
      ensures receiver.Store(sent)
    {}

    /** The queue hides what comes, and no record that ever was on the wire holds the whole next message. */
    ghost predicate Stuck()
      reads this, receiver, receiver.buffered, set x | x in receiver.buffered.list :: x.data
    {
      receiver.Stale() && forall x :: x in wire ==> !receiver.IsNext(x)
    }

    /** New records that are too short for the whole next message leave it so. */
    lemma StillStuck(records: seq<seq<Octet>>, m: Message, number: nat, mtu: nat -> nat)
      requires Pieces(records, m, number, |m.body|) && m.Valid() && number < 0x1_0000 && Within(records, mtu)
      ensures (receiver.readSeq == number ==> TooSmall(mtu, m)) ==> forall x :: x in records ==> !receiver.IsNext(x)
    {
      PiecesName(records, m, number, |m.body|);
      hide Pieces, ParseHeader;
    }

    /** A new message takes the next number. */
    method Send(m: Message, mtu: nat -> nat)
      requires Valid() && m.Valid() && |sent| < 0x1_0000 && forall i :: mtu(i) > HEADER
      modifies this, sender, sender.initBuf
      ensures Valid() && sent == old(sent) + [m] && failed == old(failed)
      ensures wire == old(wire) + Fragments(m, |old(sent)|, mtu, 0, 0)
      ensures receiver.readSeq == old(receiver.readSeq) && gathered == old(gathered)
      ensures forall n: nat :: old(receiver.Queued(n)) ==> receiver.Queued(n)
      ensures forall n: nat, j: nat :: old(receiver.Lacks(n, j)) ==> receiver.Lacks(n, j)
      ensures receiver.Stale() <==> old(receiver.Stale())
      ensures old(Stuck()) && (receiver.readSeq == |old(sent)| ==> TooSmall(mtu, m)) ==> Stuck()
      ensures Repr() == old(Repr()) && receiver.buffered.list == old(receiver.buffered.list)
    {
      hide Receiver.Valid, Transcript, Honest, Pieces, Unfragmented, Sender.BodyFrom;
      var number := |sent|;
      sender.Load(m);
      var records := sender.DoWrite(m, FragmentHeader(m, number, 0, |m.body|), mtu, false);
      ghost var before, was := sent, wire;
      assert receiver.Valid(before);
      sent := sent + [m];
      wire := wire + records;
      receiver.ValidLater(before, m);
      TranscriptNext(before, m);
      PiecesAreHonest(records, sent, number, |m.body|);
      forall x | x in was ensures Honest(x, sent) {
        HonestLater(x, before, m);
      }
      StillStuck(records, m, number, mtu);
    }

    /** A message of before goes out again, in other pieces. */
    method Resend(number: nat, mtu: nat -> nat)
      requires Valid() && number < |sent| && forall i :: mtu(i) > HEADER
      modifies this`wire, sender, sender.initBuf
      ensures Valid() && sent == old(sent)
      ensures wire == old(wire) + Fragments(sent[number], number, mtu, 0, 0)
      ensures forall n: nat :: old(receiver.Queued(n)) ==> receiver.Queued(n)
      ensures forall n: nat, j: nat :: old(receiver.Lacks(n, j)) ==> receiver.Lacks(n, j)
      ensures receiver.Stale() <==> old(receiver.Stale())
      ensures old(Stuck()) && (receiver.readSeq == number ==> TooSmall(mtu, sent[number])) ==> Stuck()
      ensures Repr() == old(Repr()) && receiver.buffered.list == old(receiver.buffered.list)
    {
      hide Receiver.Valid, Transcript, Honest, Pieces, Unfragmented, Sender.BodyFrom;
      var m := sent[number];
      receiver.SentFits(sent);
      assert m in sent && m.Valid();
      sender.Load(m);
      var records := sender.DoWrite(m, FragmentHeader(m, number, 0, |m.body|), mtu, true);
      PiecesAreHonest(records, sent, number, |m.body|);
      StillStuck(records, m, number, mtu);
      wire := wire + records;
    }

    /** The receiver reads with these records ready; records that never were do not come. */
    method Receive(picks: seq<nat>, max: nat) returns (r: Status, ghost queued: bool)
      requires Valid()
      modifies this`failed, this`gathered, receiver, receiver.initBuf, receiver.Parts()
      ensures Valid() && fresh(Repr() - old(Repr())) && sent == old(sent) && wire == old(wire)
      ensures failed <==> old(failed) || r == Failed
      ensures r == Failed && !old(failed) ==> receiver.TooLong(sent, max)
      ensures r != Retry && receiver.readSeq == old(receiver.readSeq) + if r == Complete then 1 else 0
      ensures gathered == old(gathered) + if r == Complete && queued then 1 else 0
      ensures r == Missing ==> (receiver.Stale() <==> old(receiver.Stale()))
      ensures r == Missing ==> forall x :: x in Picked(wire, picks) ==> receiver.Accounted(x)
      ensures r == Missing ==> receiver.AllLacking(old(receiver.Outstanding(Picked(wire, picks), sent)))
      ensures r == Complete && queued ==>
                !old(receiver.Stale()) && old(receiver.Outstanding(Picked(wire, picks), sent)) == {}
      ensures r == Complete && !queued ==> exists x :: x in Picked(wire, picks) && old(receiver.IsNext(x))
      ensures r == Complete && !queued && (old(receiver.Stale()) || old(receiver.Queued(receiver.readSeq))) ==>
                receiver.Stale()
      ensures old(Stuck()) ==> Stuck() && r != Complete
      ensures old(receiver.Stale()) ==> receiver.Stale()
    {
      hide Transcript, Honest, Receiver.Store, Sendable, Receiver.Stale, Receiver.Accounted, Receiver.Outstanding,
        Receiver.IsNext, Receiver.Queued, Receiver.AnyPiece, Receiver.TooLong, Receiver.HeadReady, Picked,
        Receiver.AllLacking;
      var ready := Picked(wire, picks);
      if failed {
        return Failed, false;
      }
      var used;
      r, used, queued := receiver.GetMessage(ready, max, sent);
      failed := r == Failed;
      gathered := gathered + if r == Complete && queued then 1 else 0;
    }

    /** One step; a message is sent again only if it was sent. */
    method Do(step: Step)
      requires Valid() && step.Valid() && (step.Send? ==> |sent| < 0x1_0000)
      modifies Repr()
      ensures Valid() && forall o :: o in Repr() ==> o in old(Repr()) || fresh(o)
      ensures sent == old(sent) + if step.Send? then [step.m] else []
      ensures old(receiver.Stale()) ==> receiver.Stale() && gathered == old(gathered)
      ensures old(Stuck()) && Splits(old(sent), step, old(receiver.readSeq)) ==>
                Stuck() && receiver.readSeq == old(receiver.readSeq)
    {
      hide Valid, Data, Nodes, Receiver.Stale, Stuck, TooSmall;
      match step {
        case Send(m, mtu) => Send(m, mtu);
        case Resend(number, mtu) =>
          if number < |sent| {
            Resend(number, mtu);
          }
        case Receive(picks, max) =>
          ghost var queued;
          var r;
          r, queued := Receive(picks, max);
      }
    }
  }

  lemma SentNext(steps: seq<Step>, k: nat)
    requires k < |steps|
    ensures Sent(steps[..k + 1]) == Sent(steps[..k]) + if steps[k].Send? then [steps[k].m] else []
  {
    assert steps[..k + 1][..k] == steps[..k];
  }

  lemma {:induction false} SentGrows(steps: seq<Step>, k: nat)
    requires k <= |steps|
    ensures |Sent(steps[..k])| <= |Sent(steps)|
    decreases |steps| - k
  {
    if k == |steps| {
      assert steps[..k] == steps;
    } else {
      SentGrows(steps, k + 1);
      SentNext(steps, k);
    }
  }

  /**
   Any run: what was delivered is a prefix of what was sent, message by message and byte for byte, and both ends
   have fed the same bytes to the Finished hash for the messages delivered.
   */
  method Run(maxHandshake: nat, steps: seq<Step>)
    returns (delivered: seq<Message>, sentHash: seq<Octet>, readHash: seq<Octet>)
    requires |Sent(steps)| <= 0x1_0000 && forall s :: s in steps ==> s.Valid()
    ensures |delivered| <= |Sent(steps)| && delivered == Sent(steps)[..|delivered|]
    ensures sentHash == Transcript(Sent(steps)) && readHash == Transcript(delivered)
  {
    var net := new Network(maxHandshake);
    hide Transcript, Step.Valid, Network.Valid, Sent, Data, Nodes;
    var k := 0;
    assert Sent(steps[..0]) == [] by { NothingSent(steps); }
    while k < |steps|
      invariant 0 <= k <= |steps| && net.Valid() && fresh(net.Repr()) && net.sent == Sent(steps[..k])
    {
      SentNext(steps, k);
      SentGrows(steps, k + 1);
      net.Do(steps[k]);
      k := k + 1;
    }
    assert steps[..k] == steps;
    net.Agreement();
    delivered, sentHash, readHash := net.receiver.delivered, net.sender.finished, net.receiver.finished;
  }

  lemma NothingSent(steps: seq<Step>)
    ensures Sent(steps[..0]) == []
  {}

  /** In all these steps, on top of the messages before, the message of this number is sent in pieces only. */
  ghost predicate NeverWhole(before: seq<Message>, steps: seq<Step>, number: nat) {
    forall k :: 0 <= k < |steps| ==> Splits(before + Sent(steps[..k]), steps[k], number)
  }

  /**
   Once an entry was left behind, the queue gives out nothing any more, whatever is sent and whatever arrives. The
   next message then comes out in one piece or not at all: sent in pieces only, it never does, nor does any after it.
   */
  method QueueIsDead(net: Network, steps: seq<Step>)
    requires net.Valid() && net.receiver.Stale() && forall s :: s in steps ==> s.Valid()
    requires |net.sent| + |Sent(steps)| <= 0x1_0000
    modifies net.Repr()
    ensures net.Valid() && net.receiver.Stale() && net.gathered == old(net.gathered)
    ensures old(net.Stuck()) && NeverWhole(old(net.sent), steps, old(net.receiver.readSeq)) ==>
              net.Stuck() && net.receiver.delivered == old(net.receiver.delivered)
  {
    hide Step.Valid, Network.Valid, Sent, Data, Nodes, Receiver.Stale, Network.Stuck, Splits;
    ghost var before, number, was := net.sent, net.receiver.readSeq, net.receiver.delivered;
    net.DeliveredIs();
    var k := 0;
    assert Sent(steps[..0]) == [] by { NothingSent(steps); }
    while k < |steps|
      invariant 0 <= k <= |steps| && net.Valid() && net.sent == before + Sent(steps[..k])
      invariant forall o :: o in net.Repr() ==> o in old(net.Repr()) || fresh(o)
      invariant net.receiver.Stale() && net.gathered == old(net.gathered)
      invariant old(net.Stuck()) && NeverWhole(before, steps, number) ==> net.Stuck() && net.receiver.readSeq == number
    {
      SentNext(steps, k);
      SentGrows(steps, k + 1);
      net.Do(steps[k]);
      k := k + 1;
    }
    net.DeliveredIs();
  }

  const FIRST := Message(1, [0, 0])
  const SECOND := Message(2, [0, 0])
  const BYTE_AT_A_TIME: nat -> nat := _ => HEADER + 1
  const AMPLE: nat -> nat := _ => 100

  /** The records of a message of two bytes: one for each byte, or one for both. */
  lemma TwoOrOne(m: Message, number: nat)
    requires m.Valid() && |m.body| == 2 && number < 0x1_0000
    ensures Fragments(m, number, BYTE_AT_A_TIME, 0, 0)
              == [FragmentRecord(m, number, 0, 1), FragmentRecord(m, number, 1, 1)]
    ensures Fragments(m, number, AMPLE, 0, 0) == [FragmentRecord(m, number, 0, 2)]
  {
    hide FragmentRecord;
  }

  lemma RecordSays(m: Message, number: nat, off: nat, len: nat)
    requires m.Valid() && number < 0x1_0000 && off + len <= |m.body|
    ensures var r := FragmentRecord(m, number, off, len);
      |r| == HEADER + len && ParseHeader(r) == FragmentHeader(m, number, off, len)
  {
    HeaderRoundTrip(FragmentHeader(m, number, off, len), m.body[off..off + len]);
  }

  /** What a receiver takes the piece of a next message for, and the whole of it. */
  lemma TakenFor(receiver: Receiver, m: Message, number: nat, off: nat, len: nat)
    requires m.Valid() && receiver.readSeq == number < 0x1_0000 && off + len <= |m.body|
    ensures var r := FragmentRecord(m, number, off, len);
      if len < |m.body| then receiver.IsPieceOfNext(r) && !receiver.IsNext(r)
        && forall j: nat :: receiver.PieceWith(r, j) <==> off <= j < off + len
      else receiver.IsNext(r) && !receiver.Accounted(r) && forall j: nat :: !receiver.PieceWith(r, j)
    ensures len < |m.body| && receiver.Accounted(FragmentRecord(m, number, off, len)) ==>
              receiver.Has(number, off, off + len)
  {
    RecordSays(m, number, off, len);
    hide ParseHeader, FragmentRecord, Receiver.Has;
  }

  lemma NotTooLong(receiver: Receiver, sent: seq<Message>)
    requires receiver.maxHandshake == 100 && forall m :: m in sent ==> |m.body| == 2
    ensures !receiver.TooLong(sent, 100)
  {}

  lemma PickedOne(wire: seq<seq<Octet>>, i: nat)
    requires i < |wire|
    ensures Picked(wire, [i]) == [wire[i]]
  {
    assert [i][..0] == [];
    assert Picked(wire, []) == [];
  }

  lemma PickedTwo(wire: seq<seq<Octet>>, i: nat, j: nat)
    requires i < |wire| && j < |wire|
    ensures Picked(wire, [i, j]) == [wire[i], wire[j]]
  {
    PickedOne(wire, i);
    assert [i, j][..1] == [i];
  }

  /** A network with room for these messages, none of them beyond a limit, after some of the run below. */
  ghost predicate Running(net: Network, sent: seq<Message>, readSeq: nat, wire: seq<seq<Octet>>)
    reads net, net.receiver, net.receiver.buffered, net.Repr()
  {
    && net.Valid() && !net.failed && net.receiver.maxHandshake == 100
    && net.sent == sent && net.receiver.readSeq == readSeq && net.wire == wire
  }

  /** A piece of the first message is queued, and the second byte of it lacking. */
  ghost predicate HalfThere(receiver: Receiver)
    reads receiver, receiver.buffered, set x | x in receiver.buffered.list :: x.data
  {
    receiver.Queued(0) && receiver.Lacks(0, 1)
  }

  function FirstWire(): seq<seq<Octet>> {
    [FragmentRecord(FIRST, 0, 0, 1), FragmentRecord(FIRST, 0, 1, 1)]
  }

  function SecondWire(): seq<seq<Octet>> {
    FirstWire() + [FragmentRecord(FIRST, 0, 0, 2)]
  }

  function ThirdWire(): seq<seq<Octet>> {
    SecondWire() + [FragmentRecord(SECOND, 1, 0, 1), FragmentRecord(SECOND, 1, 1, 1)]
  }

  method FirstIsSent() returns (net: Network)
    ensures fresh(net) && fresh(net.Repr()) && Running(net, [FIRST], 0, FirstWire()) && net.receiver.buffered.list == []
  {
    TwoOrOne(FIRST, 0);
    hide Network.Stuck, FragmentRecord, Fragments, Network.Valid;
    net := new Network(100);
    net.Send(FIRST, BYTE_AT_A_TIME);
  }

  /** The first piece of it comes. */
  method PieceComes(net: Network)
    requires Running(net, [FIRST], 0, FirstWire()) && net.receiver.buffered.list == []
    modifies net.Repr()
    ensures forall o :: o in net.Repr() ==> o in old(net.Repr()) || fresh(o)
    ensures Running(net, [FIRST], 0, FirstWire()) && HalfThere(net.receiver)
  {
    var receiver := net.receiver;
    PickedOne(net.wire, 0);
    TakenFor(receiver, FIRST, 0, 0, 1);
    NotTooLong(receiver, net.sent);
    assert receiver.Lacks(0, 1);
    assert 1 in receiver.Outstanding(Picked(net.wire, [0]), net.sent);
    hide Network.Valid, Network.Stuck, Receiver.Lacks, Receiver.Has, Receiver.Outstanding, Receiver.IsNext,
      Receiver.IsPieceOfNext, Receiver.PieceWith, Receiver.Accounted, Receiver.Stale, Receiver.TooLong, FragmentRecord,
      Picked;
    var r, queued := net.Receive([0], 100);
    assert r == Missing;
    TakenFor(receiver, FIRST, 0, 0, 1);
    HasIsQueued(receiver, 0, 0, 1);
  }

  lemma HasIsQueued(receiver: Receiver, number: nat, off: nat, end: nat)
    requires receiver.Has(number, off, end)
    ensures receiver.Queued(number)
  {}

  method FirstIsSentAgain(net: Network)
    requires Running(net, [FIRST], 0, FirstWire()) && HalfThere(net.receiver)
    modifies net.Repr()
    ensures forall o :: o in net.Repr() ==> o in old(net.Repr()) || fresh(o)
    ensures Running(net, [FIRST], 0, SecondWire()) && HalfThere(net.receiver)
  {
    TwoOrOne(FIRST, 0);
    hide Network.Stuck, FragmentRecord, Fragments, Receiver.Lacks, Receiver.Queued, Network.Valid;
    net.Resend(0, AMPLE);
  }

  /** Then the whole of it, which is handed up although a piece is in the queue: that is left behind. */
  method WholeComes(net: Network)
    requires Running(net, [FIRST], 0, SecondWire()) && HalfThere(net.receiver)
    modifies net.Repr()
    ensures forall o :: o in net.Repr() ==> o in old(net.Repr()) || fresh(o)
    ensures Running(net, [FIRST], 1, SecondWire()) && net.receiver.Stale()
  {
    var receiver := net.receiver;
    PickedOne(net.wire, 2);
    TakenFor(receiver, FIRST, 0, 0, 2);
    NotTooLong(receiver, net.sent);
    assert 1 in receiver.Outstanding(Picked(net.wire, [2]), net.sent);
    assert FragmentRecord(FIRST, 0, 0, 2) in Picked(net.wire, [2]);
    hide Network.Valid, Network.Stuck, Receiver.Lacks, Receiver.Queued, Receiver.Has, Receiver.Outstanding,
      Receiver.IsNext, Receiver.IsPieceOfNext, Receiver.PieceWith, Receiver.Accounted, Receiver.Stale, Receiver.TooLong,
      FragmentRecord, Picked;
    var r, queued := net.Receive([2], 100);
    if r == Missing {
      TakenFor(receiver, FIRST, 0, 0, 2);
    }
  }

  method SecondIsSent(net: Network)
    requires Running(net, [FIRST], 1, SecondWire()) && net.receiver.Stale()
    modifies net.Repr()
    ensures forall o :: o in net.Repr() ==> o in old(net.Repr()) || fresh(o)
    ensures Running(net, [FIRST, SECOND], 1, ThirdWire()) && net.receiver.Stale()
  {
    TwoOrOne(SECOND, 1);
    hide Network.Stuck, FragmentRecord, Fragments, Receiver.Stale, Network.Valid;
    net.Send(SECOND, BYTE_AT_A_TIME);
  }

  /** Both pieces of the second message come: it is whole in the queue. */
  method BothPiecesCome(net: Network)
    requires Running(net, [FIRST, SECOND], 1, ThirdWire()) && net.receiver.Stale()
    modifies net.Repr()
    ensures forall o :: o in net.Repr() ==> o in old(net.Repr()) || fresh(o)
    ensures Running(net, [FIRST, SECOND], 1, ThirdWire())
    ensures net.receiver.Stale() && net.receiver.NextIsWhole()
  {
    var receiver := net.receiver;
    PickedTwo(net.wire, 3, 4);
    TakenFor(receiver, SECOND, 1, 0, 1);
    TakenFor(receiver, SECOND, 1, 1, 1);
    NotTooLong(receiver, net.sent);
    assert Picked(net.wire, [3, 4]) == [FragmentRecord(SECOND, 1, 0, 1), FragmentRecord(SECOND, 1, 1, 1)];
    hide Network.Valid, Network.Stuck, Receiver.Lacks, Receiver.Queued, Receiver.Has, Receiver.Outstanding,
      Receiver.IsNext, Receiver.IsPieceOfNext, Receiver.PieceWith, Receiver.Accounted, Receiver.Stale, Receiver.TooLong,
      FragmentRecord, Picked, Receiver.NextIsWhole;
    var r, queued := net.Receive([3, 4], 100);
    assert r == Missing;
    BothThere(net);
  }

  lemma BothThere(net: Network)
    requires Running(net, [FIRST, SECOND], 1, ThirdWire())
    requires net.receiver.Accounted(FragmentRecord(SECOND, 1, 0, 1))
               && net.receiver.Accounted(FragmentRecord(SECOND, 1, 1, 1))
    ensures net.receiver.NextIsWhole()
  {
    TakenFor(net.receiver, SECOND, 1, 0, 1);
    TakenFor(net.receiver, SECOND, 1, 1, 1);
    net.StoreIs();
    hide Receiver.Has;
    net.receiver.AllThere(net.sent, 1);
  }

  /**
   A run in which the second message is never handed up, although all of it is in the queue and whatever follows,
   as long as it is sent in pieces.
   */
  method LeftBehind(steps: seq<Step>) returns (delivered: seq<Message>)
    requires |Sent(steps)| < 0xfffe && (forall s :: s in steps ==> s.Valid()) && NeverWhole([FIRST, SECOND], steps, 1)
    ensures delivered == [FIRST]
  {
    var net := AllComes();
    Ready(net, steps);
    hide Running, Sent, NeverWhole, Step.Valid, Network.Valid, Network.Stuck, Receiver.Stale, Receiver.NextIsWhole,
      Receiver.Parts;
    QueueIsDead(net, steps);
    delivered := net.receiver.delivered;
  }

  /** All of both messages has come, and the second is whole in the queue, behind what is left of the first. */
  method AllComes() returns (net: Network)
    ensures fresh(net) && fresh(net.Repr()) && Running(net, [FIRST, SECOND], 1, ThirdWire())
    ensures net.receiver.Stale() && net.receiver.NextIsWhole()
  {
    hide *;
    net := FirstIsSent();
    PieceComes(net);
    FirstIsSentAgain(net);
    WholeComes(net);
    SecondIsSent(net);
    BothPiecesCome(net);
  }

  lemma Ready(net: Network, steps: seq<Step>)
    requires Running(net, [FIRST, SECOND], 1, ThirdWire()) && net.receiver.Stale() && |Sent(steps)| < 0xfffe
    ensures net.Valid() && net.Stuck() && net.receiver.readSeq == 1 && net.receiver.delivered == [FIRST]
    ensures net.sent == [FIRST, SECOND] && |net.sent| + |Sent(steps)| <= 0x1_0000
  {
    NoneWhole(net);
    net.DeliveredIs();
  }

  lemma NoneWhole(net: Network)
    requires net.receiver.Stale() && net.receiver.readSeq == 1 && net.wire == ThirdWire()
    ensures net.Stuck()
  {
    RecordSays(FIRST, 0, 0, 1);
    RecordSays(FIRST, 0, 1, 1);
    RecordSays(FIRST, 0, 0, 2);
    RecordSays(SECOND, 1, 0, 1);
    RecordSays(SECOND, 1, 1, 1);
    hide FragmentRecord, ParseHeader;
  }
}
