/**
 The flight of handshake messages kept for retransmission (libressl ssl/d1_both.c): messages and ChangeCipherSpecs
 queue by 2 * sequence number - is_ccs, which brings them back in the order they were sent.
 */
module Flights {
  import opened Octets
  import opened PQueues
  import opened RecordWriter

  /** A buffered message or ChangeCipherSpec with the epoch it was written in. */
  datatype Fragment = Fragment(number: nat, isCcs: bool, epoch: nat, body: seq<Octet>) {
    /** dtls1_get_queue_priority. */
    function Priority(): int {
      number * 2 - if isCcs then 1 else 0
    }
  }

  /** Messages go by their numbers, and a ChangeCipherSpec goes just before the message of its number. */
  lemma PriorityIs(f: Fragment, g: Fragment)
    ensures f.Priority() < g.Priority() <==> f.number < g.number || (f.number == g.number && f.isCcs && !g.isCcs)
    ensures f.Priority() == g.Priority() <==> f.number == g.number && f.isCcs == g.isCcs
  {}

  /** The priorities of a flight fit the two bytes and increase strictly. */
  ghost predicate InOrder(flight: seq<Fragment>) {
    && (forall i :: 0 <= i < |flight| ==> 0 <= flight[i].Priority() < 0x1_0000)
    && forall i, j :: 0 <= i < j < |flight| ==> flight[i].Priority() < flight[j].Priority()
  }

  /** The queue holds exactly these messages, in this order. */
  ghost predicate Holds(list: seq<Item<Fragment>>, flight: seq<Fragment>) {
    && |list| == |flight|
    && forall i :: 0 <= i < |list| ==>
      list[i].data == flight[i] && list[i].priority == PriorityBytes(flight[i].Priority())
  }

  /** All messages were written in this epoch or the one before. */
  ghost predicate Recent(flight: seq<Fragment>, wEpoch: nat) {
    forall f :: f in flight ==> f.epoch <= wEpoch <= f.epoch + 1
  }

  /** A message of higher priority than all others goes last. */
  lemma InsertedLast(list: seq<Item<Fragment>>, flight: seq<Fragment>, item: Item<Fragment>, next: seq<Item<Fragment>>)
    requires Ordered(list) && Holds(list, flight) && InOrder(flight + [item.data])
    requires item.priority == PriorityBytes(item.data.Priority()) && IsInsertion(list, item, next)
    ensures next == list + [item] && Holds(next, flight + [item.data])
  {
    var all := flight + [item.data];
    assert all[|flight|] == item.data;
    PriorityRank(item.data.Priority());
    var k :| 0 <= k <= |list| && next == list[..k] + [item] + list[k..];
    if k < |list| {
      assert next[k] == item && next[k + 1] == list[k];
      assert flight[k] == all[k];
      PriorityRank(flight[k].Priority());
    }
  }

  /** A priority already in the queue belongs to a message of the flight. */
  lemma RefusedMeansPresent(list: seq<Item<Fragment>>, flight: seq<Fragment>, f: Fragment, i: nat)
    requires Holds(list, flight) && InOrder(flight) && 0 <= f.Priority() < 0x1_0000
    requires i < |list| && list[i].priority == PriorityBytes(f.Priority())
    ensures flight[i].Priority() == f.Priority()
  {
    PriorityRank(f.Priority());
    PriorityRank(flight[i].Priority());
  }

  /** Equal priorities at the end are equal bytes. */
  lemma LastPriority(list: seq<Item<Fragment>>, flight: seq<Fragment>, f: Fragment)
    requires Holds(list, flight)
    ensures flight != [] && flight[|flight| - 1].Priority() == f.Priority() ==>
      list[|list| - 1].priority == PriorityBytes(f.Priority())
  {}

  lemma OrderGrows(flight: seq<Fragment>, f: Fragment)
    requires InOrder(flight) && 0 <= f.Priority() < 0x1_0000
    requires flight != [] ==> flight[|flight| - 1].Priority() < f.Priority()
    ensures InOrder(flight + [f])
  {}

  lemma LastIsHighest(flight: seq<Fragment>, i: nat)
    requires InOrder(flight) && i < |flight|
    ensures flight[i].Priority() <= flight[|flight| - 1].Priority()
  {}

  /**
   Each message in its own epoch, under the next numbers of that epoch: what is written, and how many each has had.
   */
  ghost function Replay(fs: seq<Fragment>, log: seq<Header>, counts: seq<nat>, records: nat -> nat):
      (seq<Header>, seq<nat>)
  {
    if fs == [] then (log, counts)
    else
      var i := |fs| - 1;
      var before := Replay(fs[..i], log, counts, records);
      Sent(fs[i], before.0, before.1, records(i))
  }

  ghost function Sent(f: Fragment, log: seq<Header>, counts: seq<nat>, k: nat): (seq<Header>, seq<nat>) {
    if f.epoch < |counts| then (log + Numbered(f.epoch, counts[f.epoch], k), counts[f.epoch := counts[f.epoch] + k])
    else (log, counts)
  }

  lemma ReplayNext(fs: seq<Fragment>, f: Fragment, log: seq<Header>, counts: seq<nat>, records: nat -> nat)
    ensures var before := Replay(fs, log, counts, records);
      Replay(fs + [f], log, counts, records) == Sent(f, before.0, before.1, records(|fs|))
  {
    hide Sent;
    assert (fs + [f])[..|fs|] == fs;
  }

  lemma ReplayNothing(log: seq<Header>, counts: seq<nat>, records: nat -> nat)
    ensures Replay([], log, counts, records) == (log, counts)
  {}

  /** The records of a message have its epoch and the numbers that follow those the epoch has had. */
  lemma ReplayIs(fs: seq<Fragment>, f: Fragment, log: seq<Header>, counts: seq<nat>, records: nat -> nat)
    requires f.epoch < |Replay(fs, log, counts, records).1|
    ensures var (was, had) := Replay(fs, log, counts, records);
      var (now, has) := Replay(fs + [f], log, counts, records);
      && |now| == |was| + records(|fs|) && was <= now
      && (forall i :: |was| <= i < |now| ==> now[i].epoch == f.epoch)
      && (forall i :: |was| <= i < |now| ==> now[i].number == (had[f.epoch] + (i - |was|)) % 0x1_0000_0000_0000)
      && |has| == |had| && has[f.epoch] == had[f.epoch] + records(|fs|)
      && forall e :: 0 <= e < |had| && e != f.epoch ==> has[e] == had[e]
  {
    hide Replay;
    ReplayNext(fs, f, log, counts, records);
    var (was, had) := Replay(fs, log, counts, records);
    var now := Replay(fs + [f], log, counts, records).0;
    var more := Numbered(f.epoch, had[f.epoch], records(|fs|));
    forall i | |was| <= i < |now|
      ensures now[i].epoch == f.epoch && now[i].number == (had[f.epoch] + (i - |was|)) % 0x1_0000_0000_0000
    {
      assert now[i] == more[i - |was|];
    }
  }

  class Flight {
    const sent: PQueue<Fragment>
    const writer: Writer
    var next: nat                       // next_handshake_write_seq
    ghost var flight: seq<Fragment>

    ghost predicate Valid()
      reads this, sent, writer, set x | x in sent.list
    {
      && sent.Valid() && writer.Valid()
      && Holds(sent.list, flight) && InOrder(flight)
      && (flight != [] ==> flight[|flight| - 1].Priority() < 2 * next)
    }

    constructor (writer: Writer, next: nat)
      requires writer.Valid()
      ensures Valid() && flight == [] && this.writer == writer && this.next == next && fresh(sent)
    {
      this.writer, this.next, flight := writer, next, [];
      sent := new PQueue();
    }

    /** dtls1_buffer_message: kept at the end, unless a message of the same priority is there. */
    method BufferMessage(f: Fragment)
      requires sent.Valid() && Holds(sent.list, flight) && InOrder(flight) && 0 <= f.Priority() < 0x1_0000
      requires flight != [] ==> flight[|flight| - 1].Priority() <= f.Priority()
      modifies this`flight, sent, set x | x in sent.list
      ensures sent.Valid() && Holds(sent.list, flight) && InOrder(flight)
      ensures fresh((set x | x in sent.list) - old(set x | x in sent.list))
      ensures var was := old(flight);
        flight == if was != [] && was[|was| - 1].Priority() == f.Priority() then was else was + [f]
    {
      hide IsInsertion, Num, Holds, InOrder, Ordered, Fragment.Priority, PQueue.Valid, PriorityBytes;
      ghost var list := sent.list;
      QueueShape();
      LastPriority(list, flight, f);
      var item := new Item(PriorityBytes(f.Priority()), f);
      var r := sent.Insert(item);
      if r == null {
        ghost var i :| 0 <= i < |list| && list[i].priority == item.priority;
        RefusedMeansPresent(list, flight, f, i);
        LastIsHighest(flight, i);
      } else {
        OrderGrows(flight, f);
        InsertedLast(list, flight, item, sent.list);
        flight := flight + [f];
      }
    }

    lemma QueueShape()
      requires sent.Valid() && Holds(sent.list, flight)
      ensures Ordered(sent.list) && |sent.list| == |flight|
    {}

    /** A handshake message takes the next number (dtls1_set_message_header) and is kept. */
    method SendMessage(body: seq<Octet>)
      requires Valid() && next < 0x8000
      modifies this, sent, set x | x in sent.list
      ensures Valid() && next == old(next) + 1
      ensures fresh((set x | x in sent.list) - old(set x | x in sent.list))
      ensures flight == old(flight) + [Fragment(old(next), false, writer.wEpoch, body)]
    {
      hide Holds, InOrder, Writer.Valid, PQueue.Valid;
      var number := next;
      next := next + 1;
      BufferMessage(Fragment(number, false, writer.wEpoch, body));
    }

    /** dtls1_send_change_cipher_spec borrows the next number and is kept, unless it repeats. */
    method SendChangeCipherSpec(body: seq<Octet>)
      requires Valid() && 0 < next < 0x8000
      modifies this, sent, set x | x in sent.list
      ensures Valid() && next == old(next)
      ensures fresh((set x | x in sent.list) - old(set x | x in sent.list))
      ensures var was := old(flight);
        flight == if was != [] && was[|was| - 1].Priority() == 2 * next - 1 then was
                  else was + [Fragment(next, true, writer.wEpoch, body)]
    {
      hide Holds, InOrder;
      BufferMessage(Fragment(next, true, writer.wEpoch, body));
    }

    /** dtls1_clear_record_buffer. */
    method Clear()
      requires Valid()
      modifies this`flight, sent
      ensures Valid() && flight == []
    {
      var item := sent.Pop();
      while item != null
        invariant sent.Valid() && writer.Valid() && (item == null ==> sent.list == [])
        decreases |sent.list|, if item == null then 0 else 1
      {
        item := sent.Pop();
      }
      flight := [];
    }

    /** dtls1_retransmit_message: the message of this priority, in k records, under the counter of its epoch. */
    method RetransmitMessage(priority: int, k: nat) returns (found: seq<Fragment>)
      requires Valid() && Recent(flight, writer.wEpoch)
      modifies writer
      ensures writer.Valid() && writer.wEpoch == old(writer.wEpoch)
      ensures forall x :: x in sent.list && x.priority == PriorityBytes(priority) ==> found == [x.data]
      ensures found == [] ==> writer.log == old(writer.log) && writer.counts == old(writer.counts)
      ensures found != [] ==> (writer.log, writer.counts) == Sent(found[0], old(writer.log), old(writer.counts), k)
    {
      hide Holds, InOrder, Covers, Numbered, Sent;
      var item := sent.Find(PriorityBytes(priority));
      if item == null {
        return [];
      }
      FoundIsKept(sent.list, flight, item);
      forall x | x in sent.list && x.priority == item.priority ensures x == item {
        sent.FoundIsTheItem(x, item);
      }
      WriteAgain(item.data, k);
      return [item.data];
    }

    /** The records of one message, under the counter of its epoch. */
    method WriteAgain(f: Fragment, k: nat)
      requires writer.Valid() && f.epoch <= writer.wEpoch <= f.epoch + 1
      modifies writer
      ensures writer.Valid() && writer.wEpoch == old(writer.wEpoch)
      ensures (writer.log, writer.counts) == Sent(f, old(writer.log), old(writer.counts), k)
    {
      hide Covers, Numbered;
      assert f.epoch < |writer.counts|;
      writer.Retransmit(f.epoch, k);
    }

    /**
     dtls1_retransmit_buffered_messages: the whole flight again in its original order, without repeating a record
     number; the current epoch is unchanged.
     */
    method RetransmitBuffered(records: nat -> nat) returns (replayed: seq<Fragment>)
      requires Valid() && Recent(flight, writer.wEpoch)
      modifies writer
      ensures Valid() && replayed == flight && writer.wEpoch == old(writer.wEpoch)
      ensures (writer.log, writer.counts) == Replay(flight, old(writer.log), old(writer.counts), records)
    {
      hide Holds, InOrder, Recent, PriorityBytes, Writer.Valid, PQueue.Valid, Ordered, Fragment.Priority, Numbered,
        Replay, Sent;
      ReplayNothing(writer.log, writer.counts, records);
      QueueShape();
      var items := sent.Iterate();
      replayed := [];
      while |replayed| < |items|
        invariant Valid() && writer.wEpoch == old(writer.wEpoch)
        invariant |replayed| <= |flight| && replayed == flight[..|replayed|]
        invariant (writer.log, writer.counts) == Replay(replayed, old(writer.log), old(writer.counts), records)
        decreases |flight| - |replayed|
      {
        var i := |replayed|;
        KeptAt(items, flight, i);
        assert flight[..i + 1] == flight[..i] + [flight[i]];
        var again := RetransmitMessage(items[i].data.Priority(), records(i));
        ReplayNext(replayed, flight[i], old(writer.log), old(writer.counts), records);
        replayed := replayed + again;
      }
    }
  }

  lemma FoundIsKept(list: seq<Item<Fragment>>, flight: seq<Fragment>, item: Item<Fragment>)
    requires Holds(list, flight) && item in list
    ensures item.data in flight
  {}

  lemma KeptAt(list: seq<Item<Fragment>>, flight: seq<Fragment>, i: nat)
    requires Holds(list, flight) && i < |list|
    ensures i < |flight| && list[i].data == flight[i] && list[i].priority == PriorityBytes(list[i].data.Priority())
  {}
}
