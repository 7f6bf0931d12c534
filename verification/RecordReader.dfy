/**
 Reading DTLS records (libressl ssl/d1_pkt.c): choice of the window by epoch, the replay check, early records of
 the next epoch kept until the keys change, and the change itself. Over any run no record of an epoch is handed
 up twice.
 */
module RecordReader {
  import opened Octets
  import opened PQueues
  import opened ReplayWindow

  const EPOCHS: nat := 0x1_0000     // the wire carries epochs in 16 bits
  const QUEUE_LIMIT: nat := 100

  /**
   What matters of a record on the wire; `authentic` says whether decryption and the MAC check accept it under the keys
   of its epoch. Under others they do not.
   */
  datatype Packet = Packet(epoch: nat, number: seq<Octet>, handshakeOrAlert: bool, length: nat, authentic: bool) {
    predicate Valid() {
      epoch < EPOCHS && IsSequenceNumber(number)
    }
  }

  /** A packet filed under the window of an epoch, the epochs being counted without wrap-around. */
  datatype Record = Record(epoch: nat, packet: Packet) {
    function Id(): (nat, nat) {
      (epoch, Num(packet.number))
    }

    /** What the packet itself says of its place. */
    function WireId(): (nat, nat) {
      (packet.epoch, Num(packet.number))
    }

    predicate Valid() {
      packet.Valid() && packet.epoch == epoch % EPOCHS
    }

    /** Whether dtls1_process_record accepts it under the keys of this epoch. */
    predicate Passes(now: nat) {
      packet.authentic && epoch == now
    }
  }

  /** What a run does: read with some packets ready, or change to the next epoch. */
  datatype Step = Read(packets: seq<Packet>, inHandshake: bool) | NewKeys {
    predicate Valid() {
      Read? ==> forall p :: p in packets ==> p.Valid()
    }
  }

  datatype Outcome = Delivered(record: Record) | Nothing | Failed

  /** The records in a queue. */
  ghost function Records(q: seq<Item<Record>>): set<Record> {
    set x | x in q :: x.data
  }

  lemma RecordsGrow(q: seq<Item<Record>>, next: seq<Item<Record>>, added: Item<Record>)
    requires forall y :: y in next <==> y in q || y == added
    ensures Records(next) == Records(q) + {added.data}
  {}

  /** A queued record carries its number as priority, was marked, and was not handed up. */
  ghost predicate Waiting(x: Item<Record>, taken: set<(nat, nat)>, delivered: set<(nat, nat)>) {
    && x.data.Valid() && x.priority == x.data.packet.number
    && x.data.Id() in taken && x.data.Id() !in delivered
  }

  /** The early and the processed queue hold different waiting records, the processed ones authentic. */
  ghost predicate Kept(early: seq<Item<Record>>, late: seq<Item<Record>>,
                       taken: set<(nat, nat)>, delivered: set<(nat, nat)>) {
    && (forall x :: x in early ==> Waiting(x, taken, delivered))
    && (forall x :: x in late ==> Waiting(x, taken, delivered) && x.data.packet.authentic)
    && (forall x, y :: x in early && y in late ==> x != y && x.data.Id() != y.data.Id())
  }

  /** A record of another epoch has its number. */
  ghost predicate Clashes(records: set<Record>, record: Record) {
    exists x :: x in records && x.epoch != record.epoch && x.packet.number == record.packet.number
  }

  /** Records of two epochs with one number: only then can a queue refuse a record that is new. */
  ghost predicate Mixed(records: set<Record>) {
    exists x :: x in records && Clashes(records, x)
  }

  lemma RefusedClashes(early: seq<Item<Record>>, late: seq<Item<Record>>, taken: set<(nat, nat)>,
                       delivered: set<(nat, nat)>, record: Record)
    requires Kept(early, late, taken, delivered) && record.Id() !in taken
    requires exists x :: x in early && x.priority == record.packet.number
    ensures Clashes(Records(early), record)
  {
    var x :| x in early && x.priority == record.packet.number;
    assert x.data in Records(early);
  }

  lemma MovingClashes(early: seq<Item<Record>>, late: seq<Item<Record>>, taken: set<(nat, nat)>,
                      delivered: set<(nat, nat)>)
    requires Kept(early, late, taken, delivered) && early != []
    requires exists x :: x in late && x.priority == early[0].data.packet.number
    ensures Clashes(Records(late), early[0].data)
  {
    var x :| x in late && x.priority == early[0].data.packet.number;
    assert early[0] in early && x.data in Records(late);
  }

  /** The record is in the queue, unless that is full. */
  ghost predicate Gained(late: seq<Item<Record>>, next: seq<Item<Record>>, record: Record) {
    if |late| < QUEUE_LIMIT then Records(next) == Records(late) + {record} && |next| == |late| + 1 else next == late
  }

  lemma GainedIs(late: seq<Item<Record>>, next: seq<Item<Record>>, record: Record)
    requires Gained(late, next, record)
    ensures if |late| < QUEUE_LIMIT then Records(next) == Records(late) + {record} && |next| == |late| + 1
              else next == late
  {}

  /** The first records moved, one that cannot is dropped, and the others are left. */
  ghost predicate Moved(early: seq<Item<Record>>, late: seq<Item<Record>>, left: seq<Item<Record>>,
                        now: seq<Item<Record>>, rc: int, moved: nat, epoch: nat) {
    && moved <= |early| && (forall j :: 0 <= j < moved ==> early[j].data.Passes(epoch))
    && (if rc == 1 then moved == |early| && left == [] else moved < |early| && left == early[moved + 1..])
    && (rc == 0 ==> !early[moved].data.Passes(epoch))
    && (|early| + |late| <= QUEUE_LIMIT ==>
          |now| == |late| + moved && Records(now) == Records(late) + Records(early[..moved]))
  }

  lemma NoneMoved(left: seq<Item<Record>>, now: seq<Item<Record>>, rc: int, moved: nat, epoch: nat)
    requires Moved([], [], left, now, rc, moved, epoch)
    ensures left == [] && now == [] && rc == 1
  {}

  lemma OneMoved(early: seq<Item<Record>>, left: seq<Item<Record>>, now: seq<Item<Record>>, rc: int, moved: nat,
                 epoch: nat)
    requires |early| == 1 && Moved(early, [], left, now, rc, moved, epoch) && 0 <= rc <= 1
    ensures left == [] && (rc == 1 <==> early[0].data.Passes(epoch))
    ensures if rc == 1 then |now| == 1 && now[0].data == early[0].data else now == []
  {
    if rc == 1 {
      assert early[..moved] == early && now[0].data in Records(now);
    }
  }

  lemma OneIsNotMixed(q: seq<Item<Record>>)
    requires |q| <= 1
    ensures !Mixed(Records([]) + Records(q))
  {}

  lemma AllMovedIff(early: seq<Item<Record>>, late: seq<Item<Record>>, left: seq<Item<Record>>,
                    now: seq<Item<Record>>, rc: int, moved: nat, epoch: nat)
    requires Moved(early, late, left, now, rc, moved, epoch) && 0 <= rc <= 1
    ensures rc == 1 <==> forall x :: x in early ==> x.data.Passes(epoch)
  {}

  lemma RecordsNext(q: seq<Item<Record>>, i: nat)
    requires i < |q|
    ensures Records(q[..i + 1]) == Records(q[..i]) + {q[i].data} && q[i].data in Records(q)
  {
    assert q[..i + 1] == q[..i] + [q[i]];
    assert q[i] in q;
  }

  lemma ClashIsMixed(records: set<Record>, some: set<Record>, record: Record)
    requires Clashes(some, record) && some <= records && record in records
    ensures Mixed(records)
  {}

  lemma FirstIsUnlike(q: seq<Item<Record>>, taken: set<(nat, nat)>, delivered: set<(nat, nat)>)
    requires Ordered(q) && q != [] && forall x :: x in q ==> Waiting(x, taken, delivered)
    ensures forall x :: x in q[1..] ==> x.data.Id() != q[0].data.Id()
  {
    forall x | x in q[1..] ensures x.data.Id() != q[0].data.Id() {
      var i :| 1 <= i < |q| && q[i] == x;
      assert Waiting(q[0], taken, delivered) && Waiting(q[i], taken, delivered);
      assert q[0].Rank() < q[i].Rank();
    }
  }

  /** The first early record moves over, as an item of its own, or is dropped. */
  lemma KeptMoving(early: seq<Item<Record>>, late: seq<Item<Record>>, next: seq<Item<Record>>, added: Item?<Record>,
                   taken: set<(nat, nat)>, delivered: set<(nat, nat)>)
    requires Kept(early, late, taken, delivered) && Ordered(early) && early != []
    requires if added == null then next == late else
      && added !in early && added.data == early[0].data && added.priority == early[0].data.packet.number
      && added.data.packet.authentic
      && forall y :: y in next <==> y in late || y == added
    ensures Kept(early[1..], next, taken, delivered)
  {
    FirstIsUnlike(early, taken, delivered);
    assert early == [early[0]] + early[1..];
    assert Waiting(early[0], taken, delivered);
  }

  lemma ItemsApart(early: seq<Item<Record>>, late: seq<Item<Record>>,
                   taken: set<(nat, nat)>, delivered: set<(nat, nat)>)
    requires Kept(early, late, taken, delivered)
    ensures forall x, y :: x in early && y in late ==> x != y
  {}

  lemma FirstIsValid(early: seq<Item<Record>>, late: seq<Item<Record>>,
                     taken: set<(nat, nat)>, delivered: set<(nat, nat)>)
    requires Kept(early, late, taken, delivered) && early != []
    ensures early[0].data.Valid()
  {
    assert Waiting(early[0], taken, delivered);
  }

  lemma KeptFiling(early: seq<Item<Record>>, next: seq<Item<Record>>, late: seq<Item<Record>>, added: Item?<Record>,
                   record: Record, taken: set<(nat, nat)>, delivered: set<(nat, nat)>)
    requires Kept(early, late, taken, delivered) && record.Valid()
    requires record.Id() !in taken && delivered <= taken
    requires if added == null then next == early else
      && added !in late && added.data == record && added.priority == record.packet.number
      && forall y :: y in next <==> y in early || y == added
    ensures Kept(next, late, taken + {record.Id()}, delivered)
  {
    var more := taken + {record.Id()};
    forall x | x in next ensures Waiting(x, more, delivered) {
      if x in early { assert Waiting(x, taken, delivered); }
    }
    forall x | x in late ensures Waiting(x, more, delivered) && x.data.Id() in taken {
      assert Waiting(x, taken, delivered);
    }
  }

  lemma KeptAccepting(early: seq<Item<Record>>, late: seq<Item<Record>>, id: (nat, nat),
                      taken: set<(nat, nat)>, delivered: set<(nat, nat)>)
    requires Kept(early, late, taken, delivered) && id !in taken
    ensures Kept(early, late, taken + {id}, delivered + {id})
  {
    forall x | x in early || x in late ensures Waiting(x, taken + {id}, delivered + {id}) {
      assert Waiting(x, taken, delivered);
    }
  }

  lemma KeptTaking(early: seq<Item<Record>>, late: seq<Item<Record>>,
                   taken: set<(nat, nat)>, delivered: set<(nat, nat)>)
    requires Kept(early, late, taken, delivered) && Ordered(late) && late != []
    ensures late[0].data.Id() in taken && late[0].data.Id() !in delivered && late[0].data.packet.authentic
    ensures late[0].data.Valid()
    ensures Kept(early, late[1..], taken, delivered + {late[0].data.Id()})
  {
    FirstIsUnlike(late, taken, delivered);
    assert late == [late[0]] + late[1..];
    assert Waiting(late[0], taken, delivered);
    forall x | x in early || x in late[1..]
      ensures Waiting(x, taken, delivered + {late[0].data.Id()})
    {
      assert Waiting(x, taken, delivered);
    }
  }

  /** A record that may be handed up in this epoch. */
  ghost predicate Proper(record: Record, epoch: nat) {
    record.Valid() && record.packet.authentic && record.epoch <= epoch
  }

  /** No two records of the log are the same, and all were handed up by now. */
  ghost predicate Logged(log: seq<Record>, delivered: set<(nat, nat)>, epoch: nat) {
    && (forall i :: 0 <= i < |log| ==> log[i].Id() in delivered && Proper(log[i], epoch))
    && forall i, j :: 0 <= i < j < |log| ==> log[i].Id() != log[j].Id()
  }

  lemma LoggedMore(log: seq<Record>, record: Record, delivered: set<(nat, nat)>, epoch: nat)
    requires Logged(log, delivered, epoch) && record.Id() !in delivered && Proper(record, epoch)
    ensures Logged(log + [record], delivered + {record.Id()}, epoch)
  {}

  lemma LoggedLater(log: seq<Record>, delivered: set<(nat, nat)>, epoch: nat)
    requires Logged(log, delivered, epoch)
    ensures Logged(log, delivered, epoch + 1)
  {}

  lemma NextWireEpoch(epoch: nat)
    ensures (epoch % EPOCHS + 1) % EPOCHS == (epoch + 1) % EPOCHS
  {}

  class Reader {
    var rEpoch: nat
    const bitmap: Bitmap
    const nextBitmap: Bitmap
    const unprocessed: PQueue<Record>
    const processed: PQueue<Record>
    var unprocessedEpoch: nat
    var epoch: nat                            // rEpoch without wrap-around, to name records by
    ghost var taken: set<(nat, nat)>          // every record marked in a window, by epoch and number
    ghost var delivered: set<(nat, nat)>      // every record handed up

    ghost function Repr(): set<object>
      reads this, unprocessed, processed
    {
      {this, bitmap, nextBitmap, unprocessed, processed} + Nodes()
    }

    ghost function Nodes(): set<object>
      reads unprocessed, processed
    {
      (set x | x in unprocessed.list) + (set x | x in processed.list)
    }

    /** Each window holds what was taken of its epoch, and nothing was taken beyond the next epoch. */
    ghost predicate Windows()
      reads `epoch, `taken, bitmap, nextBitmap
    {
      && bitmap.Valid() && nextBitmap.Valid()
      && (forall n: nat :: n in bitmap.marked <==> (epoch, n) in taken)
      && (forall n: nat :: n in nextBitmap.marked <==> (epoch + 1, n) in taken)
      && (forall id :: id in taken ==> id.0 <= epoch + 1)
    }

    ghost predicate Queues()
      reads `taken, `delivered, unprocessed, processed, Nodes()
    {
      && unprocessed != processed && unprocessed.Valid() && processed.Valid()
      && Kept(unprocessed.list, processed.list, taken, delivered)
    }

    /** What was processed belongs to an epoch that has begun. */
    ghost predicate Arrived()
      reads `epoch, processed
    {
      forall x :: x in processed.list ==> x.data.epoch <= epoch
    }

    ghost predicate Valid()
      reads Repr()
    {
      && rEpoch == epoch % EPOCHS && bitmap != nextBitmap && bitmap.width == nextBitmap.width
      && Windows() && Queues() && Arrived() && delivered <= taken
    }

    lemma NothingYet()
      requires bitmap.Valid() && nextBitmap.Valid() && bitmap.marked == nextBitmap.marked == {} && taken == {}
      requires unprocessed != processed && unprocessed.Valid() && processed.Valid()
      requires unprocessed.list == [] && processed.list == []
      ensures Windows() && Queues() && Arrived() && Nodes() == {}
    {}

    constructor (width: nat)
      requires 1 <= width <= 128
      ensures Valid() && epoch == 0 && taken == {} && delivered == {} && fresh(Repr())
      ensures unprocessed.list == [] && processed.list == []
    {
      hide Bitmap.Valid, PQueue.Valid, Windows, Queues;
      bitmap := new Bitmap(width);
      nextBitmap := new Bitmap(width);
      unprocessed := new PQueue();
      processed := new PQueue();
      rEpoch, unprocessedEpoch, epoch, taken, delivered := 0, 0, 0, {}, {};
      new;
      NothingYet();
    }

    /**
     dtls1_buffer_record: 0 if the queue is full, -1 if the number is already queued, and the record
     otherwise added.
     */
    method BufferRecord(queue: PQueue<Record>, record: Record) returns (rc: int, ghost added: Item?<Record>)
      requires queue.Valid() && record.Valid()
      modifies queue, set x | x in queue.list
      ensures queue.Valid() && -1 <= rc <= 1
      ensures rc == 0 <==> |old(queue.list)| >= QUEUE_LIMIT
      ensures rc == -1 ==> exists x :: x in queue.list && x.priority == record.packet.number
      ensures rc != 1 ==> queue.list == old(queue.list)
      ensures rc == 1 ==> added != null && fresh(added) && added.data == record
      ensures rc == 1 ==> added.priority == record.packet.number
      ensures rc == 1 ==> forall y :: y in queue.list <==> y in old(queue.list) || y == added
      ensures rc == 1 ==> |queue.list| == |old(queue.list)| + 1
    {
      added := null;
      var size := queue.Size();
      if size >= QUEUE_LIMIT {
        return 0, null;
      }
      var item := new Item(record.packet.number, record);
      ghost var before := queue.list;
      var r := queue.Insert(item);
      if r == null {
        return -1, null;
      }
      InsertionMembers(before, item, queue.list);
      return 1, item;
    }

    /** Moves the first early record to the processed queue, if it is accepted under the present keys. */
    method ProcessFirst() returns (rc: int)
      requires Queues() && Arrived() && unprocessed.list != []
      modifies unprocessed, processed, Nodes()
      ensures Queues() && Arrived() && fresh(Nodes() - old(Nodes())) && -1 <= rc <= 1
      ensures unprocessed.list == old(unprocessed.list)[1..]
      ensures rc == 0 <==> !old(unprocessed.list)[0].data.Passes(epoch)
      ensures if rc == 1 then Gained(old(processed.list), processed.list, old(unprocessed.list)[0].data)
              else processed.list == old(processed.list)
      ensures rc == -1 ==> Clashes(old(Records(processed.list)), old(unprocessed.list)[0].data)
    {
      hide Kept, Records, Clashes, Gained, Ordered, Num;
      ghost var early, late := unprocessed.list, processed.list;
      FirstIsValid(early, late, taken, delivered);
      ItemsApart(early, late, taken, delivered);
      var x := unprocessed.Pop();
      if x.data.Passes(epoch) {
        rc := MoveOver(x, early);
      } else {
        KeptMoving(early, late, late, null, taken, delivered);
        rc := 0;
      }
    }

    /** Queues an authentic record among the processed ones; x was the first of the early ones. */
    method MoveOver(x: Item<Record>, ghost early: seq<Item<Record>>) returns (rc: int)
      requires unprocessed != processed && unprocessed.Valid() && processed.Valid()
      requires early != [] && x == early[0] && unprocessed.list == early[1..] && Ordered(early)
      requires Kept(early, processed.list, taken, delivered) && x.data.Valid() && x.data.Passes(epoch) && Arrived()
      requires forall y, z :: y in early && z in processed.list ==> y != z
      modifies processed, set y | y in processed.list
      ensures Queues() && Arrived() && fresh(Nodes() - old(Nodes())) && (rc == -1 || rc == 1)
      ensures if rc == 1 then Gained(old(processed.list), processed.list, x.data)
                else processed.list == old(processed.list)
      ensures rc == -1 ==> Clashes(old(Records(processed.list)), x.data)
    {
      hide Kept, Records, Clashes, Ordered, Num;
      ghost var late := processed.list;
      ghost var added;
      assert forall y :: y in unprocessed.list ==> y in early;
      rc, added := BufferRecord(processed, x.data);
      if rc < 0 {
        MovingClashes(early, late, taken, delivered);
      }
      KeptMoving(early, late, processed.list, if rc == 1 then added else null, taken, delivered);
      if rc == 1 {
        RecordsGrow(late, processed.list, added);
      }
      rc := if rc < 0 then -1 else 1;
    }

    /**
     Moves early records until one is not accepted or cannot be queued, which is dropped: `moved` of them were
     accepted and are among the processed ones now, and those after the one that was dropped are still queued.
     */
    method ProcessAll() returns (rc: int, ghost moved: nat)
      requires Queues() && Arrived()
      modifies unprocessed, processed, Nodes()
      ensures Queues() && Arrived() && fresh(Nodes() - old(Nodes())) && -1 <= rc <= 1
      ensures Moved(old(unprocessed.list), old(processed.list), unprocessed.list, processed.list, rc, moved, epoch)
      ensures rc == -1 ==> Mixed(old(Records(processed.list) + Records(unprocessed.list)))
    {
      hide Queues, Arrived, Records, Clashes, Mixed, Gained;
      ghost var early, late := unprocessed.list, processed.list;
      ghost var all := Records(late) + Records(early);
      moved := 0;
      NoRecords();
      var empty := NoneUnprocessed();
      while !empty
        invariant Queues() && Arrived() && fresh(Nodes() - old(Nodes()))
        invariant empty <==> unprocessed.list == []
        invariant moved <= |early| && unprocessed.list == early[moved..]
        invariant forall j :: 0 <= j < moved ==> early[j].data.Passes(epoch)
        invariant |early| + |late| <= QUEUE_LIMIT ==>
          |processed.list| == |late| + moved && Records(processed.list) == Records(late) + Records(early[..moved])
        invariant Records(processed.list) <= all
        decreases |unprocessed.list|
      {
        RecordsNext(early, moved);
        ghost var before := processed.list;
        rc := ProcessFirst();
        if rc == -1 {
          ClashIsMixed(all, Records(before), early[moved].data);
        }
        if rc <= 0 {
          return;
        }
        GainedIs(before, processed.list, early[moved].data);
        moved := moved + 1;
        empty := NoneUnprocessed();
      }
      assert early[..moved] == early;
      return 1, moved;
    }

    lemma NoRecords()
      ensures Records([]) == {}
    {}

    method NoneUnprocessed() returns (empty: bool)
      requires Queues()
      ensures empty <==> unprocessed.list == []
    {
      var next := unprocessed.Peek();
      empty := next == null;
    }

    /**
     dtls1_process_buffered_records: once the epoch that is awaited has come, the early records that the present keys
     accept move to the processed queue. If all did, or there were none, the next epoch is awaited from now on.
     */
    method ProcessBuffered() returns (rc: int, ghost moved: nat)
      requires Valid()
      modifies this`unprocessedEpoch, unprocessed, processed, Nodes()
      ensures Valid() && fresh(Nodes() - old(Nodes())) && -1 <= rc <= 1
      ensures old(unprocessedEpoch) == rEpoch ==>
        Moved(old(unprocessed.list), old(processed.list), unprocessed.list, processed.list, rc, moved, epoch)
      ensures old(unprocessedEpoch) != rEpoch ==>
        rc == 1 && unprocessed.list == old(unprocessed.list) && processed.list == old(processed.list)
      ensures rc == -1 ==> Mixed(old(Records(processed.list) + Records(unprocessed.list)))
      ensures unprocessedEpoch == if old(Overdue()) || rc <= 0 then old(unprocessedEpoch) else (rEpoch + 1) % 0x1_0000
    {
      hide Queues, Windows, Arrived, Records, Mixed;
      NoRecords();
      moved := 0;
      var empty := NoneUnprocessed();
      if !empty {
        if unprocessedEpoch != rEpoch {
          return 1, 0;
        }
        rc, moved := ProcessAll();
        if rc <= 0 {
          return;
        }
      }
      unprocessedEpoch := (rEpoch + 1) % EPOCHS;
      return 1, moved;
    }

    /** Early records are queued, and not for the present epoch. */
    ghost predicate Overdue()
      reads `rEpoch, `unprocessedEpoch, unprocessed
    {
      unprocessed.list != [] && unprocessedEpoch != rEpoch
    }

    /** dtls1_get_bitmap: whether the packet is of the next epoch, or null for other epochs. */
    method GetBitmap(p: Packet) returns (window: Bitmap?, isNextEpoch: bool)
      requires Valid() && p.Valid()
      ensures window == (if p.epoch == rEpoch then bitmap
                         else if p.epoch == rEpoch + 1 && p.handshakeOrAlert then nextBitmap else null)
      ensures isNextEpoch <==> window == nextBitmap
    {
      if p.epoch == rEpoch {
        return bitmap, false;
      }
      if p.epoch == rEpoch + 1 && p.handshakeOrAlert {
        return nextBitmap, true;
      }
      return null, false;
    }

    /** dtls1_record_bitmap_update on one of the two windows. */
    method Mark(window: Bitmap, record: Record)
      requires rEpoch == epoch % EPOCHS && bitmap != nextBitmap && Windows() && record.Valid()
      requires (window == bitmap && record.epoch == epoch) || (window == nextBitmap && record.epoch == epoch + 1)
      modifies window, this`taken
      ensures Windows() && taken == old(taken) + {record.Id()}
    {
      window.Update(record.packet.number);
      taken := taken + {record.Id()};
    }

    /** Queues an early record, ready to be marked. */
    method QueueEarly(record: Record) returns (rc: int)
      requires Queues() && record.Valid() && record.Id() !in taken && delivered <= taken
      modifies unprocessed, Nodes()
      ensures unprocessed.Valid() && processed.Valid() && fresh(Nodes() - old(Nodes()))
      ensures Kept(unprocessed.list, processed.list, if rc < 0 then taken else taken + {record.Id()}, delivered)
      ensures rc >= 0 && |old(unprocessed.list)| < QUEUE_LIMIT ==>
        Records(unprocessed.list) == old(Records(unprocessed.list)) + {record}
      ensures rc < 0 ==> Clashes(old(Records(unprocessed.list)), record)
      ensures |unprocessed.list| <= |old(unprocessed.list)| + 1
    {
      hide Kept, Records, Clashes;
      ghost var early, late := unprocessed.list, processed.list;
      ghost var added;
      ItemsApart(early, late, taken, delivered);
      rc, added := BufferRecord(unprocessed, record);
      if rc < 0 {
        RefusedClashes(early, late, taken, delivered, record);
      }
      if rc >= 0 {
        KeptFiling(early, unprocessed.list, late, if rc == 1 then added else null, record, taken, delivered);
      }
      if rc == 1 {
        RecordsGrow(early, unprocessed.list, added);
      }
    }

    /** Marks an early record of the next epoch and queues it, unless its number is already queued. */
    method File(record: Record) returns (r: Outcome)
      requires Valid() && record.Valid() && record.epoch == epoch + 1 && record.Id() !in taken
      modifies this`taken, nextBitmap, unprocessed, Nodes()
      ensures Valid() && fresh(Nodes() - old(Nodes())) && !r.Delivered?
      ensures taken == old(taken) + if r.Failed? then {} else {record.Id()}
      ensures !r.Failed? && |old(unprocessed.list)| < QUEUE_LIMIT ==>
        Records(unprocessed.list) == old(Records(unprocessed.list)) + {record}
      ensures r.Failed? ==> Clashes(old(Records(unprocessed.list)), record) && unchanged(nextBitmap)
      ensures |unprocessed.list| <= |old(unprocessed.list)| + 1
    {
      hide Records, Clashes, Kept, Windows, PQueue.Valid, Bitmap.Valid, Num, Record.Id, IsSequenceNumber;
      var rc := QueueEarly(record);
      if rc < 0 {
        return Failed;
      }
      Mark(nextBitmap, record);
      return Nothing;
    }

    /** Marks a record of the current epoch and hands it up. */
    method Accept(record: Record)
      requires Valid() && record.Valid() && record.epoch == epoch && record.Id() !in taken
      modifies this`taken, this`delivered, bitmap
      ensures Valid()
      ensures taken == old(taken) + {record.Id()} && delivered == old(delivered) + {record.Id()}
    {
      hide Kept;
      KeptAccepting(unprocessed.list, processed.list, record.Id(), taken, delivered);
      Mark(bitmap, record);
      delivered := delivered + {record.Id()};
    }

    /** A packet of the next epoch that is to be kept until the keys change. */
    ghost predicate IsEarly(p: Packet)
      reads this, nextBitmap
    {
      && p.epoch == rEpoch + 1 && p.handshakeOrAlert && p.length > 0
      && nextBitmap.InWindow(Num(p.number)) && (epoch + 1, Num(p.number)) !in taken
    }

    /** A packet that is to be handed up at once. */
    ghost predicate Deliverable(p: Packet)
      reads `rEpoch, `epoch, `taken, bitmap
    {
      && p.epoch == rEpoch && p.length > 0 && p.authentic
      && bitmap.InWindow(Num(p.number)) && (epoch, Num(p.number)) !in taken
    }

    /** The present keys accept all early records. */
    ghost predicate AllPass()
      reads `epoch, unprocessed
    {
      forall x :: x in unprocessed.list ==> x.data.Passes(epoch)
    }

    /** No early record is queued, or one that is about to be dropped. */
    ghost predicate Drains()
      reads `rEpoch, `epoch, `unprocessedEpoch, unprocessed
    {
      unprocessed.list == [] || (|unprocessed.list| == 1 && unprocessedEpoch == rEpoch && !AllPass())
    }

    /** An early packet, with no other queued. */
    ghost predicate FiledAlone(p: Packet)
      reads this, nextBitmap, unprocessed
    {
      IsEarly(p) && unprocessed.list == []
    }

    ghost predicate OnlyQueued(record: Record)
      reads unprocessed
    {
      |unprocessed.list| == 1 && unprocessed.list[0].data == record
    }

    /** Packet i is the first of them. */
    ghost predicate FirstAt(packets: seq<Packet>, i: nat)
      requires i < |packets|
      reads `rEpoch, `epoch, `taken, bitmap
    {
      Deliverable(packets[i]) && forall j :: 0 <= j < i ==> !Deliverable(packets[j])
    }

    lemma QueuesApart()
      requires Valid()
      ensures unprocessed != processed
    {}

    /**
     dtls1_get_record from the choice of the window on: a packet is handed up exactly when it is of the current
     epoch, passes the replay check, is not empty and is authentic; then it is new.
     */
    method Receive(p: Packet, inHandshake: bool) returns (r: Outcome)
      requires Valid() && p.Valid()
      modifies this`taken, this`delivered, bitmap, nextBitmap, unprocessed, Nodes()
      ensures Valid() && fresh(Nodes() - old(Nodes()))
      ensures r.Delivered? <==> old(Deliverable(p))
      ensures !r.Delivered? ==> forall q: Packet :: Deliverable(q) <==> old(Deliverable(q))
      ensures r.Delivered? ==>
                r.record == Record(epoch, p) && r.record.Id() !in old(delivered) && Proper(r.record, epoch)
      ensures delivered == old(delivered) + if r.Delivered? then {r.record.Id()} else {}
      ensures !r.Failed? && inHandshake && old(IsEarly(p)) && |old(unprocessed.list)| < QUEUE_LIMIT ==>
        Records(unprocessed.list) == old(Records(unprocessed.list)) + {Record(epoch + 1, p)}
      ensures r.Failed? ==> IsEarly(p)
      ensures inHandshake && old(IsEarly(p)) && !r.Failed? ==> (epoch + 1, Num(p.number)) in taken
      ensures r.Failed? ==>
                inHandshake && old(IsEarly(p)) && Clashes(old(Records(unprocessed.list)), Record(epoch + 1, p))
      ensures |unprocessed.list| <= |old(unprocessed.list)| + 1
    {
      hide Queues, Num, Records, Clashes, Arrived;
      var window, isNextEpoch := GetBitmap(p);
      r := Nothing;
      if window != null {
        var fits := window.ReplayCheck(p.number);
        if fits && p.length > 0 {
          if isNextEpoch {
            if inHandshake {
              r := File(Record(epoch + 1, p));
            }
          } else if p.authentic {
            Accept(Record(epoch, p));
            r := Delivered(Record(epoch, p));
          }
        }
      }
    }

    lemma EarlyComesLater(p: Packet)
      ensures IsEarly(p) ==> !Deliverable(p)
    {}

    lemma NothingClashes(record: Record)
      ensures !Clashes(Records([]), record)
    {}

    /** The only early record that is queued. */
    lemma OneQueued(record: Record)
      requires Records(unprocessed.list) == Records([]) + {record} && |unprocessed.list| <= 1
      ensures OnlyQueued(record)
    {
      assert record in Records(unprocessed.list);
    }

    lemma TakenIsNear(id: (nat, nat))
      requires Windows() && id in taken
      ensures id.0 <= epoch + 1
    {}

    /** dtls1_get_processed_record: the earliest processed record, if there is one. */
    method TakeProcessed() returns (r: Outcome)
      requires Valid()
      modifies this`delivered, processed
      ensures Valid() && Nodes() <= old(Nodes()) && !r.Failed?
      ensures r == if old(processed.list) == [] then Nothing else Delivered(old(processed.list)[0].data)
      ensures processed.list == if old(processed.list) == [] then [] else old(processed.list)[1..]
      ensures r.Delivered? ==> r.record.Id() !in old(delivered) && Proper(r.record, epoch)
      ensures delivered == old(delivered) + if r.Delivered? then {r.record.Id()} else {}
    {
      hide Kept, Windows, Num;
      ghost var early, late := unprocessed.list, processed.list;
      ItemsApart(early, late, taken, delivered);
      var item := processed.Pop();
      if item == null {
        return Nothing;
      }
      KeptTaking(early, late, taken, delivered);
      TakenIsNear(item.data.Id());
      delivered := delivered + {item.data.Id()};
      return Delivered(item.data);
    }

    /** ProcessBuffered at the start of a read, and what becomes of no record or a single one. */
    method ProcessEarly() returns (failed: bool)
      requires Valid()
      modifies this`unprocessedEpoch, unprocessed, processed, Nodes()
      ensures Valid() && fresh(Nodes() - old(Nodes()))
      ensures failed ==> Mixed(old(Records(processed.list) + Records(unprocessed.list)))
      ensures !failed ==>
                unprocessedEpoch == if old(Overdue() || !AllPass()) then old(unprocessedEpoch)
                                    else (rEpoch + 1) % 0x1_0000
      ensures old(Overdue()) ==>
                !failed && unprocessed.list == old(unprocessed.list) && processed.list == old(processed.list)
      ensures old(processed.list) == [] && old(Drains()) ==>
                !failed && unprocessed.list == [] && processed.list == []
      ensures |old(unprocessed.list)| == 1 && old(processed.list) == [] && old(unprocessedEpoch) == rEpoch ==>
                old(AllPass()) ==>
                  !failed && |processed.list| == 1 && processed.list[0].data == old(unprocessed.list)[0].data
    {
      hide Kept, Windows, Queues, Arrived, Num, Record.Id, Mixed, Moved, Records;
      ghost var early, late := unprocessed.list, processed.list;
      if |early| <= 1 {
        OneIsNotMixed(early);
      }
      ghost var moved;
      var rc;
      rc, moved := ProcessBuffered();
      if rc < 0 {
        return true;
      }
      if old(unprocessedEpoch) == rEpoch {
        AllMovedIff(early, late, unprocessed.list, processed.list, rc, moved, epoch);
        if early == [] && late == [] {
          NoneMoved(unprocessed.list, processed.list, rc, moved, epoch);
        }
        if |early| == 1 && late == [] {
          OneMoved(early, unprocessed.list, processed.list, rc, moved, epoch);
        }
      }
      return false;
    }

    /**
     dtls1_get_record, with the packets that the socket has ready: whatever it hands up is authentic and was
     never handed up before.
     */
    method GetRecord(packets: seq<Packet>, inHandshake: bool) returns (r: Outcome)
      requires Valid() && forall p :: p in packets ==> p.Valid()
      modifies this`unprocessedEpoch, this`taken, this`delivered, bitmap, nextBitmap, unprocessed, processed, Nodes()
      ensures Valid() && fresh(Nodes() - old(Nodes()))
      ensures r.Failed? ==> inHandshake || Mixed(old(Records(processed.list) + Records(unprocessed.list)))
      ensures r.Nothing? ==> processed.list == [] && forall p :: p in packets ==> !old(Deliverable(p))
      ensures r.Delivered? ==> r.record.Id() !in old(delivered) && Proper(r.record, epoch)
      ensures delivered == old(delivered) + if r.Delivered? then {r.record.Id()} else {}
      ensures !r.Failed? ==>
                unprocessedEpoch == if old(Overdue() || !AllPass()) then old(unprocessedEpoch)
                                    else (rEpoch + 1) % 0x1_0000
      ensures packets == [] && old(Overdue()) && old(processed.list) == [] ==>
                r.Nothing? && unprocessed.list == old(unprocessed.list) && taken == old(taken)
      ensures old(Drains()) && old(processed.list) == [] ==>
                if packets == [] then r.Nothing? && unprocessed.list == []
                else |packets| == 1 && inHandshake && old(IsEarly(packets[0])) ==>
                  r.Nothing? && OnlyQueued(Record(epoch + 1, packets[0]))
      ensures |old(unprocessed.list)| == 1 && old(processed.list) == [] && old(unprocessedEpoch) == rEpoch ==>
                old(AllPass()) ==> r == Delivered(old(unprocessed.list)[0].data) && processed.list == []
    {
      hide Kept, Windows, Queues, Arrived, Num, Record.Id, Proper, Deliverable, Mixed, OnlyQueued, Records, Drains;
      hide AllPass, FirstAt;
      var failed := ProcessEarly();
      if failed {
        return Failed;
      }
      r := TakeProcessed();
      if r.Nothing? {
        r := ReceiveAny(packets, inHandshake);
      }
    }

    /** The wire part of dtls1_get_record: packets are dropped until one is handed up. */
    method ReceiveAny(packets: seq<Packet>, inHandshake: bool) returns (r: Outcome)
      requires Valid() && forall p :: p in packets ==> p.Valid()
      modifies this`taken, this`delivered, bitmap, nextBitmap, unprocessed, Nodes()
      ensures Valid() && fresh(Nodes() - old(Nodes()))
      ensures r.Failed? ==> inHandshake
      ensures r.Nothing? ==> forall p :: p in packets ==> !old(Deliverable(p))
      ensures r.Delivered? ==>
                exists i :: 0 <= i < |packets| && old(FirstAt(packets, i)) && r.record.packet == packets[i]
      ensures processed.list == old(processed.list)
      ensures r.Delivered? ==> r.record.Id() !in old(delivered) && Proper(r.record, epoch)
      ensures delivered == old(delivered) + if r.Delivered? then {r.record.Id()} else {}
      ensures packets == [] ==> r.Nothing? && unprocessed.list == old(unprocessed.list) && taken == old(taken)
      ensures |packets| == 1 && inHandshake && old(FiledAlone(packets[0])) ==>
                r.Nothing? && OnlyQueued(Record(epoch + 1, packets[0]))
    {
      hide Kept, Windows, Queues, Arrived, Num, Record.Id, Proper, Deliverable, IsEarly, OnlyQueued, Clashes, Records;
      QueuesApart();
      r := Nothing;
      var i: nat := 0;
      while i < |packets| && r.Nothing?
        invariant 0 <= i <= |packets|
        invariant Valid() && fresh(Nodes() - old(Nodes()))
        invariant i == 0 ==> r.Nothing? && unprocessed.list == old(unprocessed.list) && taken == old(taken)
        invariant i == 0 && packets != [] ==> (FiledAlone(packets[0]) <==> old(FiledAlone(packets[0])))
        invariant i == 1 && inHandshake && old(FiledAlone(packets[0])) ==>
                    r.Nothing? && OnlyQueued(Record(epoch + 1, packets[0]))
        invariant !r.Delivered? ==> forall q: Packet :: Deliverable(q) <==> old(Deliverable(q))
        invariant r.Nothing? ==> forall j :: 0 <= j < i ==> !old(Deliverable(packets[j]))
        invariant r.Delivered? ==> 0 < i && old(FirstAt(packets, i - 1)) && r.record.packet == packets[i - 1]
        invariant processed.list == old(processed.list)
        invariant r.Failed? ==> inHandshake
        invariant r.Delivered? ==> r.record.Id() !in old(delivered) && Proper(r.record, epoch)
        invariant delivered == old(delivered) + if r.Delivered? then {r.record.Id()} else {}
      {
        ghost var alone := inHandshake && FiledAlone(packets[i]);
        NothingClashes(Record(epoch + 1, packets[i]));
        EarlyComesLater(packets[i]);
        r := Receive(packets[i], inHandshake);
        if alone {
          OneQueued(Record(epoch + 1, packets[i]));
        }
        i := i + 1;
      }
    }

    /** GetRecord, with the result added to a log. */
    method GetInto(log: seq<Record>, packets: seq<Packet>, inHandshake: bool) returns (more: seq<Record>)
      requires Valid() && forall p :: p in packets ==> p.Valid()
      requires Logged(log, delivered, epoch)
      modifies this`unprocessedEpoch, this`taken, this`delivered, bitmap, nextBitmap, unprocessed, processed, Nodes()
      ensures Valid() && fresh(Nodes() - old(Nodes())) && Logged(more, delivered, epoch)
    {
      hide Logged, Valid, Record.Id, Proper;
      ghost var before := delivered;
      var r := GetRecord(packets, inHandshake);
      if !r.Delivered? {
        assert delivered == before;
        return log;
      }
      LoggedMore(log, r.record, before, epoch);
      return log + [r.record];
    }

    /** dtls1_reset_seq_numbers for reading: the window of the next epoch becomes the current one. */
    method ChangeReadEpoch()
      requires Valid()
      modifies this`rEpoch, this`epoch, bitmap, nextBitmap
      ensures Valid() && epoch == old(epoch) + 1 && bitmap.marked == old(nextBitmap.marked)
      ensures rEpoch == (old(rEpoch) + 1) % EPOCHS && taken == old(taken)
      ensures forall n: nat :: bitmap.InWindow(n) <==> old(nextBitmap.InWindow(n))
      ensures forall n: nat :: nextBitmap.InWindow(n) && (epoch + 1, n) !in taken
    {
      hide Kept, PQueue.Valid, Bitmap.Valid;
      NextWireEpoch(epoch);
      rEpoch := (rEpoch + 1) % EPOCHS;
      epoch := epoch + 1;
      bitmap.CopyFrom(nextBitmap);
      nextBitmap.Clear();
    }

    /** One step of a run. */
    method Do(log: seq<Record>, step: Step) returns (more: seq<Record>)
      requires Valid() && step.Valid() && Logged(log, delivered, epoch)
      modifies Repr()
      ensures Valid() && fresh(Repr() - old(Repr())) && Logged(more, delivered, epoch)
      ensures epoch == old(epoch) + if step.NewKeys? then 1 else 0
    {
      hide Logged, Valid;
      match step {
        case Read(packets, inHandshake) =>
          more := GetInto(log, packets, inHandshake);
        case NewKeys =>
          LoggedLater(log, delivered, epoch);
          ChangeReadEpoch();
          more := log;
      }
    }
  }

  function KeyChanges(steps: seq<Step>): nat {
    if steps == [] then 0
    else KeyChanges(steps[..|steps| - 1]) + if steps[|steps| - 1].NewKeys? then 1 else 0
  }

  /** While epochs have not come round on the wire, different records look different there. */
  lemma DifferentOnTheWire(log: seq<Record>, delivered: set<(nat, nat)>, epoch: nat)
    requires Logged(log, delivered, epoch) && epoch < EPOCHS
    ensures forall i, j :: 0 <= i < j < |log| ==> log[i].WireId() != log[j].WireId()
  {
    forall i | 0 <= i < |log| ensures log[i].WireId() == log[i].Id() {
      assert Proper(log[i], epoch);
    }
  }

  lemma KeyChangesNext(steps: seq<Step>, k: nat)
    requires k < |steps|
    ensures KeyChanges(steps[..k + 1]) == KeyChanges(steps[..k]) + if steps[k].NewKeys? then 1 else 0
  {
    assert steps[..k + 1][..k] == steps[..k];
  }

  /**
   Any run of reads and key changes on any packets: no record of an epoch is handed up twice, and short of
   65536 key changes no pair of epoch and number on the wire is.
   */
  method Run(width: nat, steps: seq<Step>) returns (log: seq<Record>)
    requires 1 <= width <= 128
    requires forall s :: s in steps ==> s.Valid()
    ensures forall i, j :: 0 <= i < j < |log| ==> log[i].Id() != log[j].Id()
    ensures KeyChanges(steps) < EPOCHS ==> forall i, j :: 0 <= i < j < |log| ==> log[i].WireId() != log[j].WireId()
    ensures forall x :: x in log ==> x.packet.authentic
  {
    hide Logged, Reader.Valid, KeyChanges, Record.Id, Record.WireId, Proper;
    var reader := new Reader(width);
    log := [];
    EmptyLog(steps, reader.delivered, reader.epoch);
    var k := 0;
    while k < |steps|
      invariant 0 <= k <= |steps| && reader.Valid() && fresh(reader.Repr())
      invariant reader.epoch == KeyChanges(steps[..k])
      invariant Logged(log, reader.delivered, reader.epoch)
    {
      KeyChangesNext(steps, k);
      log := reader.Do(log, steps[k]);
      k := k + 1;
    }
    assert steps[..k] == steps;
    LogIsGood(log, reader.delivered, reader.epoch);
  }

  lemma EmptyLog(steps: seq<Step>, delivered: set<(nat, nat)>, epoch: nat)
    ensures Logged([], delivered, epoch) && KeyChanges(steps[..0]) == 0
  {}

  lemma LogIsGood(log: seq<Record>, delivered: set<(nat, nat)>, epoch: nat)
    requires Logged(log, delivered, epoch)
    ensures forall i, j :: 0 <= i < j < |log| ==> log[i].Id() != log[j].Id()
    ensures epoch < EPOCHS ==> forall i, j :: 0 <= i < j < |log| ==> log[i].WireId() != log[j].WireId()
    ensures forall x :: x in log ==> x.packet.authentic
  {
    if epoch < EPOCHS {
      DifferentOnTheWire(log, delivered, epoch);
    }
  }

  /**
   An early packet is marked before it is authenticated, which RFC 4347 section 4.1.2.5 rules out: a forgery of it that
   is filed makes the genuine one pass for a replay once the keys have changed. The genuine one is handed up if and only
   if none was filed.
   */
  method EarlyForgery(reader: Reader, genuine: Packet, forge: bool) returns (filed: bool, delivered: bool)
    requires reader.Valid() && genuine.Valid() && genuine.authentic && reader.IsEarly(genuine)
    modifies reader.Repr()
    ensures delivered <==> !filed
    ensures filed ==> forge
    ensures forge && !filed ==>
              Clashes(old(Records(reader.unprocessed.list)),
                      Record(old(reader.epoch) + 1, genuine.(authentic := false)))
  {
    hide Num, Records, Clashes, Reader.Valid, IsSequenceNumber;
    filed := false;
    if forge {
      var r := reader.Receive(genuine.(authentic := false), true);
      filed := !r.Failed?;
      assert filed ==> (reader.epoch + 1, Num(genuine.number)) in reader.taken;
    }
    assert filed || reader.IsEarly(genuine);
    reader.ChangeReadEpoch();
    assert filed || reader.Deliverable(genuine);
    var r := reader.Receive(genuine, true);
    delivered := r.Delivered?;
  }

  /** Reads without a packet: each of them finds nothing. */
  method Idle(reader: Reader, n: nat) returns (found: seq<Outcome>)
    requires reader.Valid() && reader.Overdue() && reader.processed.list == []
    modifies reader`unprocessedEpoch, reader`taken, reader`delivered, reader.bitmap, reader.nextBitmap
    modifies reader.unprocessed, reader.processed, reader.Nodes()
    ensures |found| == n && forall r :: r in found ==> r.Nothing?
    ensures reader.Valid() && fresh(reader.Nodes() - old(reader.Nodes())) && reader.processed.list == []
    ensures reader.unprocessed.list == old(reader.unprocessed.list) && reader.taken == old(reader.taken)
    ensures reader.unprocessedEpoch == old(reader.unprocessedEpoch)
  {
    hide Reader.Valid, Mixed, Records;
    found := [];
    for i := 0 to n
      invariant |found| == i && forall r :: r in found ==> r.Nothing?
      invariant reader.Valid() && fresh(reader.Nodes() - old(reader.Nodes())) && reader.processed.list == []
      invariant reader.unprocessed.list == old(reader.unprocessed.list) && reader.taken == old(reader.taken)
      invariant reader.unprocessedEpoch == old(reader.unprocessedEpoch)
    {
      var r := reader.GetRecord([], true);
      found := found + [r];
    }
  }

  /** Reads without a packet: a queued record that the present keys do not accept is dropped once it is tried. */
  method Drained(reader: Reader, n: nat)
    requires reader.Valid() && reader.Drains() && reader.processed.list == []
    requires reader.unprocessed.list != [] ==> reader.unprocessedEpoch == reader.rEpoch
    modifies reader`unprocessedEpoch, reader`taken, reader`delivered, reader.bitmap, reader.nextBitmap
    modifies reader.unprocessed, reader.processed, reader.Nodes()
    ensures reader.Valid() && fresh(reader.Nodes() - old(reader.Nodes()))
    ensures reader.processed.list == [] && reader.Drains()
    ensures reader.unprocessed.list != [] ==> reader.unprocessedEpoch == reader.rEpoch
  {
    hide Reader.Valid, Mixed, Records;
    for i := 0 to n
      invariant reader.Valid() && fresh(reader.Nodes() - old(reader.Nodes()))
      invariant reader.processed.list == [] && reader.Drains()
      invariant reader.unprocessed.list != [] ==> reader.unprocessedEpoch == reader.rEpoch
    {
      var r := reader.GetRecord([], true);
    }
  }

  /**
   An early packet that is authentic waits for its keys: however often one reads before they change nothing is handed
   up, and the first read after the change hands it up.
   */
  method EarlyWaits(reader: Reader, p: Packet, idle: nat) returns (before: seq<Outcome>, after: Outcome)
    requires reader.Valid() && reader.unprocessed.list == [] && reader.processed.list == []
    requires p.Valid() && p.authentic && reader.IsEarly(p)
    modifies reader.Repr()
    ensures |before| == idle + 1 && forall r :: r in before ==> r.Nothing?
    ensures after == Delivered(Record(old(reader.epoch) + 1, p))
  {
    hide Reader.Valid, Mixed, Records;
    var first := reader.GetRecord([p], true);
    var more := Idle(reader, idle);
    before := [first] + more;
    reader.ChangeReadEpoch();
    after := reader.GetRecord([], true);
  }

  /**
   An early packet is lost if an earlier one was a forgery: dropping that leaves the queue waiting for the epoch it
   was in, so that the next packet is tried under the old keys or not at all. It is handed up if and only if there was
   none.
   */
  method EarlyLost(reader: Reader, forged: Packet, p: Packet, forge: bool, idle: nat) returns (after: Outcome)
    requires reader.Valid() && reader.unprocessed.list == [] && reader.processed.list == []
    requires forged.Valid() && !forged.authentic && reader.IsEarly(forged)
    requires p.Valid() && p.authentic && p.handshakeOrAlert && p.length > 0 && p.epoch == reader.rEpoch + 2
    modifies reader.Repr()
    ensures after == if forge then Nothing else Delivered(Record(old(reader.epoch) + 2, p))
  {
    hide Reader.Valid, Mixed, Records;
    FiledAfter(reader, forged, p, forge);
    if forge {
      assert reader.unprocessed.list[0] in reader.unprocessed.list;
      Drained(reader, idle);
    } else {
      var found := Idle(reader, idle);
    }
    reader.ChangeReadEpoch();
    after := reader.GetRecord([], true);
  }

  /** The forgery comes, the keys change, and the packet comes while the forgery is dropped. */
  method FiledAfter(reader: Reader, forged: Packet, p: Packet, forge: bool)
    requires reader.Valid() && reader.unprocessed.list == [] && reader.processed.list == []
    requires forged.Valid() && !forged.authentic && reader.IsEarly(forged)
    requires p.Valid() && p.handshakeOrAlert && p.length > 0 && p.epoch == reader.rEpoch + 2
    modifies reader.Repr()
    ensures reader.Valid() && fresh(reader.Nodes() - old(reader.Nodes())) && reader.processed.list == []
    ensures reader.epoch == old(reader.epoch) + 1 && reader.rEpoch == old(reader.rEpoch) + 1
    ensures reader.OnlyQueued(Record(reader.epoch + 1, p))
    ensures reader.unprocessedEpoch == reader.rEpoch + if forge then 0 else 1
  {
    hide Reader.Valid, Mixed, Records;
    var first := reader.GetRecord(if forge then [forged] else [], true);
    reader.ChangeReadEpoch();
    if forge {
      assert reader.unprocessed.list[0] in reader.unprocessed.list;
      assert !reader.unprocessed.list[0].data.Passes(reader.epoch);
      assert !reader.AllPass();
    } else {
      assert reader.unprocessed.list == [];
      assert reader.AllPass();
    }
    assert reader.Drains() && reader.IsEarly(p);
    var second := reader.GetRecord([p], true);
  }
}
