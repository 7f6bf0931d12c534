/**
 Reading DTLS handshake messages (libressl ssl/d1_both.c): fragments arrive in any order and any number of times,
 are put together in a queue, and come out as the messages that were sent, in order.
 */
module HandshakeReader {
  import opened HandshakeMessages
  import opened Memory
  import opened Octets
  import opened PQueues
  import opened Reassembly

  function Range(lo: int, hi: int): (r: set<int>)
    ensures forall j :: j in r <==> lo <= j < hi
    decreases hi - lo
  {
    if lo >= hi then {} else Range(lo, hi - 1) + {hi - 1}
  }

  /** The bytes that came are those of the body, and the mask marks exactly them. */
  ghost predicate InProgress(body: seq<Octet>, fragment: seq<Octet>, mask: seq<bv8>, covered: set<int>) {
    && 0 < |body| == |fragment| && |mask| == MaskSize(|body|)
    && (forall j :: j in covered ==> 0 <= j < |body| && fragment[j] == body[j])
    && (forall j :: 0 <= j < 8 * |mask| ==> (Marked(mask, j) <==> j in covered))
  }

  lemma Progress(body: seq<Octet>, was: seq<Octet>, oldMask: seq<bv8>, covered: set<int>,
                 off: nat, end: nat, fragment: seq<Octet>, mask: seq<bv8>)
    requires InProgress(body, was, oldMask, covered) && off <= end <= |body| && |mask| == |oldMask|
    requires fragment == was[..off] + body[off..end] + was[end..]
    requires forall j :: 0 <= j < 8 * |mask| ==> (Marked(mask, j) <==> Marked(oldMask, j) || off <= j < end)
    ensures InProgress(body, fragment, mask, covered + Range(off, end))
  {
    hide Marked;
  }

  lemma AllCovered(body: seq<Octet>, fragment: seq<Octet>, mask: seq<bv8>, covered: set<int>)
    requires InProgress(body, fragment, mask, covered)
    ensures (forall j :: 0 <= j < 8 * |mask| ==> (Marked(mask, j) <==> j < |body|)) <==>
            (forall j :: 0 <= j < |body| ==> j in covered)
    ensures (forall j :: 0 <= j < |body| ==> j in covered) ==> fragment == body
  {
    hide Marked;
  }

  lemma NothingYet(body: seq<Octet>, fragment: seq<Octet>, mask: seq<bv8>)
    requires 0 < |body| == |fragment| && |mask| == MaskSize(|body|) && forall i :: 0 <= i < |mask| ==> mask[i] == 0
    ensures InProgress(body, fragment, mask, {})
  {
    forall j | 0 <= j < 8 * |mask| ensures !Marked(mask, j) {
      ZeroBit(One(j % 8));
    }
  }

  lemma ZeroBit(b: bv8)
    ensures 0 & b == 0
  {}

  /** hm_fragment: a buffered message; `reassembling` says that its reassembly mask is still there. */
  class HmFragment {
    const hdr: Header
    const fragment: array<Octet>
    const mask: array<bv8>
    var reassembling: bool
    ghost var covered: set<int>

    ghost function Repr(): set<object> {
      {this, fragment, mask}
    }

    /** The two buffers are different objects. */
    ghost predicate Apart() {
      fragment as object != mask as object
    }

    /** The bytes so far are those of the message, and the mask marks exactly the bytes that came. */
    ghost predicate Good(sent: seq<Message>)
      reads Repr()
    {
      && hdr.number < |sent| && hdr.number < 0x1_0000
      && hdr == FragmentHeader(sent[hdr.number], hdr.number, 0, fragment.Length)
      && fragment.Length == hdr.msgLen && Apart()
      && (if reassembling then InProgress(sent[hdr.number].body, fragment[..], mask[..], covered)
          else fragment[..] == sent[hdr.number].body)
      && (reassembling ==> exists j :: 0 <= j < hdr.msgLen && j !in covered)
    }

    /** dtls1_hm_fragment_new. */
    constructor (hdr: Header, reassembly: bool)
      ensures this.hdr == hdr && fragment.Length == hdr.msgLen && reassembling == reassembly && covered == {}
      ensures mask.Length == MaskSize(hdr.msgLen) && forall i :: 0 <= i < mask.Length ==> mask[i] == 0
      ensures fresh(Repr()) && Apart()
    {
      this.hdr := hdr;
      fragment := new Octet[hdr.msgLen](_ => 0);
      mask := new bv8[MaskSize(hdr.msgLen)](_ => 0);
      reassembling, covered := reassembly, {};
    }

    /** The body of a fragment arrives: it is copied in, marked, and the message checked for completeness. */
    method Add(ghost sent: seq<Message>, off: nat, bytes: seq<Octet>)
      requires Good(sent) && reassembling && bytes != []
      requires off + |bytes| <= hdr.msgLen && bytes == sent[hdr.number].body[off..off + |bytes|]
      modifies Repr()
      ensures Good(sent)
      ensures covered == old(covered) + Range(off, off + |bytes|)
      ensures reassembling <==> exists j :: 0 <= j < hdr.msgLen && j !in covered
    {
      hide InProgress, Marked;
      ghost var body, was, oldMask := sent[hdr.number].body, fragment[..], mask[..];
      Sizes(body, was, oldMask, covered);
      assert fragment[..off] == was[..off] && fragment[off + |bytes|..] == was[off + |bytes|..];
      MemCpy(fragment, off, bytes);
      ghost var now := fragment[..];
      assert mask[..] == oldMask;
      Mark(mask, off, off + |bytes|);
      assert fragment[..] == now;
      Progress(body, was, oldMask, covered, off, off + |bytes|, fragment[..], mask[..]);
      covered := covered + Range(off, off + |bytes|);
      var complete := IsComplete(mask, hdr.msgLen);
      AllCovered(body, fragment[..], mask[..], covered);
      if complete {
        reassembling := false;
      }
    }
  }

  lemma Sizes(body: seq<Octet>, fragment: seq<Octet>, mask: seq<bv8>, covered: set<int>)
    requires InProgress(body, fragment, mask, covered)
    ensures 0 < |body| == |fragment| && |mask| == MaskSize(|body|)
  {}

  ghost function Nodes(list: seq<Item<HmFragment>>): set<object> {
    set x | x in list
  }

  /** Everything the buffered messages consist of. */
  ghost function Data(list: seq<Item<HmFragment>>): set<object> {
    set x, o | x in list && o in x.data.Repr() :: o
  }

  /** Buffered messages are good, queued by number, and share no memory. */
  ghost predicate Stored(list: seq<Item<HmFragment>>, sent: seq<Message>)
    reads Data(list)
  {
    && (forall x :: x in list ==> x.data.Good(sent) && x.priority == PriorityBytes(x.data.hdr.number))
    && (forall x, y :: x in list && y in list && x != y ==> x.data.Repr() !! y.data.Repr())
  }

  /** The fragment is one of the message it names. */
  ghost predicate Carries(h: Header, bytes: seq<Octet>, sent: seq<Message>) {
    && h.number < |sent| && h.number < 0x1_0000
    && h == FragmentHeader(sent[h.number], h.number, h.fragOff, |bytes|)
    && h.fragOff + |bytes| <= h.msgLen && bytes == sent[h.number].body[h.fragOff..h.fragOff + |bytes|]
    && (bytes == [] ==> h.msgLen == 0)
  }

  /** Byte j of the message is among those of the fragment. */
  ghost predicate Brings(h: Header, len: nat, number: nat, j: nat) {
    h.number == number && h.fragOff <= j < h.fragOff + len
  }

  /** What the Finished hash has taken after these messages. */
  function Transcript(ms: seq<Message>): seq<Octet> {
    if ms == [] then [] else Transcript(ms[..|ms| - 1]) + Unfragmented(ms[|ms| - 1], |ms| - 1)
  }

  /** Messages that fit their headers. */
  ghost predicate Sendable(sent: seq<Message>) {
    |sent| <= 0x1_0000 && forall m :: m in sent ==> m.Valid()
  }

  const FINISHED: Octet := 20
  const AHEAD: nat := 10        // how far ahead messages are buffered

  datatype Status = Complete | Retry | Missing | Failed

  class Receiver {
    const buffered: PQueue<HmFragment>
    const maxHandshake: nat             // dtls1_max_handshake_message_len
    var initBuf: array<Octet>
    var rHdr: Header                    // r_msg_hdr, all zero between messages
    var readSeq: nat
    var finished: seq<Octet>            // fed to the Finished hash
    var delivered: seq<Message>         // handed up

    ghost function Parts(): set<object>
      reads buffered
    {
      {buffered} + Nodes(buffered.list) + Data(buffered.list)
    }

    ghost predicate Store(sent: seq<Message>)
      reads Parts()
    {
      && buffered.Valid() && Stored(buffered.list, sent)
      && {buffered} !! Data(buffered.list) && Nodes(buffered.list) !! Data(buffered.list)
    }

    /** So far exactly the first messages came out, in order, and the hash agrees with them. */
    ghost predicate Valid(sent: seq<Message>)
      reads this, Parts()
    {
      && Store(sent) && Sendable(sent) && {this, initBuf} !! Parts()
      && readSeq <= |sent| && delivered == sent[..readSeq] && finished == Transcript(delivered)
    }

    lemma SentFits(sent: seq<Message>)
      requires Valid(sent)
      ensures Sendable(sent)
    {}

    lemma ValidLater(sent: seq<Message>, m: Message)
      requires Valid(sent) && |sent| < 0x1_0000 && m.Valid()
      ensures Valid(sent + [m])
    {
      StoredLater(buffered.list, sent, m);
      assert (sent + [m])[..readSeq] == sent[..readSeq];
    }

    /** The next message is complete in init_buf. */
    ghost predicate Ready(sent: seq<Message>)
      reads this, initBuf
    {
      && readSeq < |sent| && rHdr == FragmentHeader(sent[readSeq], readSeq, 0, 0)
      && HEADER + rHdr.msgLen <= initBuf.Length && initBuf[HEADER..HEADER + rHdr.msgLen] == sent[readSeq].body
    }

    /** The queue has these bytes of the message, or all of it. */
    ghost predicate Has(number: nat, off: nat, end: nat)
      reads buffered, set x | x in buffered.list :: x.data
    {
      exists x :: x in buffered.list && x.data.hdr.number == number
        && (x.data.reassembling ==> Range(off, end) <= x.data.covered)
    }

    /** The queue has at least a part of the message. */
    ghost predicate Queued(number: nat)
      reads buffered, set x | x in buffered.list :: x.data
    {
      exists x :: x in buffered.list && x.data.hdr.number == number
    }

    /** What the queue has of the message lacks byte j. */
    ghost predicate Lacks(number: nat, j: nat)
      reads buffered, set x | x in buffered.list :: x.data
    {
      forall x :: x in buffered.list && x.data.hdr.number == number ==>
        x.data.reassembling && j < x.data.hdr.msgLen && j !in x.data.covered
    }

    /** Nothing comes into the queue but these bytes of a fragment. */
    twostate predicate OnlyAdds(h: Header, len: nat, sent: seq<Message>)
      reads buffered, set x | x in buffered.list :: x.data
    {
      && (forall n: nat :: Queued(n) ==> old(Queued(n)) || n == h.number)
      && (forall n: nat, j: nat :: n < |sent| && j < |sent[n].body| && old(Lacks(n, j)) ==>
            Lacks(n, j) || Brings(h, len, n, j))
    }

    /** Nothing comes into the queue but this entry, of a message that was not there. */
    twostate predicate Joins(new frag: HmFragment)
      reads frag, buffered, set x | x in buffered.list :: x.data
    {
      && (forall n: nat :: Queued(n) ==> old(Queued(n)) || n == frag.hdr.number)
      && (forall n: nat, j: nat :: n != frag.hdr.number && old(Lacks(n, j)) ==> Lacks(n, j))
      && (forall j: nat :: frag.reassembling && j < frag.hdr.msgLen && j !in frag.covered ==> Lacks(frag.hdr.number, j))
    }

    /** An entry is left behind: its message has been handed up. */
    ghost predicate Stale()
      reads `readSeq, buffered, set x | x in buffered.list :: x.data
    {
      exists x :: x in buffered.list && x.data.hdr.number < readSeq
    }

    /** The next message is whole in the queue. */
    ghost predicate NextIsWhole()
      reads `readSeq, buffered, set x | x in buffered.list :: x.data
    {
      exists x :: x in buffered.list && x.data.hdr.number == readSeq && !x.data.reassembling
    }

    /** What the queue has of the next message lacks these bytes. */
    ghost predicate AllLacking(bytes: set<nat>)
      reads `readSeq, buffered, set x | x in buffered.list :: x.data
    {
      forall j :: j in bytes ==> Lacks(readSeq, j)
    }

    /** The record brings a part of the next message. */
    predicate IsPieceOfNext(record: seq<Octet>)
      reads `readSeq
    {
      IsPart(record) && ParseHeader(record).number == readSeq
    }

    /** One of the first k records does. */
    ghost predicate AnyPiece(records: seq<seq<Octet>>, k: nat)
      requires k <= |records|
      reads `readSeq
    {
      exists i :: 0 <= i < k && IsPieceOfNext(records[i])
    }

    lemma NoPieceYet(records: seq<seq<Octet>>)
      ensures !AnyPiece(records, 0)
    {}

    lemma AnyPieceNext(records: seq<seq<Octet>>, k: nat)
      requires k < |records|
      ensures AnyPiece(records, k + 1) <==> AnyPiece(records, k) || IsPieceOfNext(records[k])
      ensures IsNext(records[k]) ==> !IsPieceOfNext(records[k])
    {
      hide ParseHeader;
    }

    /** The record brings a part of the next message, and this byte with it. */
    ghost predicate PieceWith(record: seq<Octet>, j: nat)
      reads `readSeq
    {
      IsPieceOfNext(record) && Brings(ParseHeader(record), |record| - HEADER, readSeq, j)
    }

    /** Bytes of the next message that the queue lacks and no piece among the records brings. */
    ghost function Outstanding(records: seq<seq<Octet>>, sent: seq<Message>): (s: set<nat>)
      reads `readSeq, buffered, set x | x in buffered.list :: x.data
    {
      set j: nat | readSeq < |sent| && j < |sent[readSeq].body| && Lacks(readSeq, j)
                   && forall x :: x in records ==> !PieceWith(x, j)
    }

    lemma OutstandingLacks(records: seq<seq<Octet>>, sent: seq<Message>)
      ensures AllLacking(Outstanding(records, sent))
      ensures forall j :: j in Outstanding(records, sent) ==> readSeq < |sent| && j < |sent[readSeq].body|
      ensures forall j, x :: j in Outstanding(records, sent) && x in records ==> !PieceWith(x, j)
      ensures readSeq < |sent| ==> forall j: nat :: j < |sent[readSeq].body| && Lacks(readSeq, j) ==>
                j in Outstanding(records, sent) || exists x :: x in records && PieceWith(x, j)
    {
      hide Lacks, PieceWith;
    }

    /** A fragment of a later message that is worth keeping. */
    predicate Wanted(h: Header)
      reads `readSeq
    {
      readSeq < h.number <= readSeq + AHEAD && !(readSeq == 0 && h.kind == FINISHED)
    }

    /** The record brings the whole next message. */
    predicate IsNext(record: seq<Octet>)
      reads `readSeq
    {
      |record| >= HEADER && var h := ParseHeader(record); h.number == readSeq && h.fragLen == h.msgLen
    }

    /** The record brings a part of the next message, or of a later one that is worth keeping. */
    predicate IsPart(record: seq<Octet>)
      reads `readSeq
    {
      |record| >= HEADER && var h := ParseHeader(record); (h.number == readSeq || Wanted(h)) && h.fragLen < h.msgLen
    }

    /** The record brings a whole later message that is worth keeping. */
    predicate IsLater(record: seq<Octet>)
      reads `readSeq
    {
      |record| >= HEADER && var h := ParseHeader(record); Wanted(h) && h.fragLen == h.msgLen
    }

    /** The record is of a message that has come out, or too far ahead. */
    predicate IsStale(record: seq<Octet>)
      reads `readSeq
    {
      |record| >= HEADER && var h := ParseHeader(record); h.number != readSeq && !Wanted(h)
    }

    /** The bytes of the fragment are in the queue. */
    ghost predicate HasBytes(record: seq<Octet>)
      requires |record| >= HEADER
      reads buffered, set x | x in buffered.list :: x.data
    {
      var h := ParseHeader(record);
      Has(h.number, h.fragOff, h.fragOff + |record| - HEADER)
    }

    /**
     Nothing of the record is lost: it is of no use, its bytes are in the queue, or a part of the message was before.
     */
    ghost predicate Accounted(record: seq<Octet>)
      reads `readSeq, buffered, set x | x in buffered.list :: x.data
    {
      && |record| >= HEADER
      && (IsStale(record) || (IsPart(record) && HasBytes(record))
          || (IsLater(record) && Has(ParseHeader(record).number, 0, 0)))
    }

    /** What was accounted for stays so as long as the queue loses nothing. */
    twostate lemma StillAccounted()
      requires readSeq == old(readSeq) && forall n: nat, a: nat, b: nat :: old(Has(n, a, b)) ==> Has(n, a, b)
      ensures forall x: seq<Octet> :: old(Accounted(x)) ==> Accounted(x)
    {
      hide Has, IsStale, IsPart, IsLater;
    }

    /** Some message exceeds a limit. */
    ghost predicate TooLong(sent: seq<Message>, max: nat) {
      exists m :: m in sent && (|m.body| > max || |m.body| > maxHandshake)
    }

    /** Messages beyond the limit are not kept. */
    function Limit(h: Header): Status {
      if h.msgLen > maxHandshake then Failed else Retry
    }

    /** The message at the head of the queue is whole and the next one. */
    ghost predicate HeadReady()
      reads `readSeq, buffered, set x | x in buffered.list :: x.data
    {
      buffered.list != [] && !buffered.list[0].data.reassembling && buffered.list[0].data.hdr.number == readSeq
    }

    /** Entries are queued by number. */
    lemma NumbersIncrease(sent: seq<Message>)
      requires Store(sent)
      ensures forall i, j :: 0 <= i < j < |buffered.list| ==>
                buffered.list[i].data.hdr.number < buffered.list[j].data.hdr.number
    {
      hide HmFragment.Repr, PriorityBytes, Num;
      ghost var l := buffered.list;
      forall i | 0 <= i < |l| ensures l[i].Rank() == l[i].data.hdr.number {
        assert l[i] in l && l[i].data.Good(sent);
        PriorityRank(l[i].data.hdr.number);
      }
    }

    /**
     The exact condition for the queue to give out the next message: it is there as a whole, and no entry of an
     earlier message was left behind.
     */
    lemma ReadyIff(sent: seq<Message>)
      requires Store(sent)
      ensures HeadReady() <==> NextIsWhole() && !Stale()
    {
      NumbersIncrease(sent);
      hide Store;
      ghost var l := buffered.list;
      if HeadReady() {
        assert l[0] in l;
      }
      if NextIsWhole() && !Stale() {
        var x :| x in l && x.data.hdr.number == readSeq && !x.data.reassembling;
        assert l[0] in l;
      }
    }

    lemma CoveredIsWhole(frag: HmFragment, sent: seq<Message>, k: nat)
      requires frag.Good(sent) && k <= frag.hdr.msgLen
      requires frag.reassembling ==> Range(0, k) <= frag.covered && Range(k, frag.hdr.msgLen) <= frag.covered
      ensures !frag.reassembling
    {
      hide InProgress;
      assert forall j :: 0 <= j < frag.hdr.msgLen ==> j in Range(0, k) || j in Range(k, frag.hdr.msgLen);
    }

    /** An entry that has all bytes is whole. */
    lemma AllThere(sent: seq<Message>, k: nat)
      requires Store(sent) && readSeq < |sent| && k <= |sent[readSeq].body|
      requires Has(readSeq, 0, k) && Has(readSeq, k, |sent[readSeq].body|)
      ensures NextIsWhole()
    {
      NumbersIncrease(sent);
      hide InProgress, PQueue.Valid, PriorityBytes;
      var l := buffered.list;
      var x :| x in l && x.data.hdr.number == readSeq && (x.data.reassembling ==> Range(0, k) <= x.data.covered);
      var y :| y in l && y.data.hdr.number == readSeq
               && (y.data.reassembling ==> Range(k, |sent[readSeq].body|) <= y.data.covered);
      assert x == y;
      CoveredIsWhole(x.data, sent, k);
    }

    constructor (maxHandshake: nat)
      ensures Store([]) && fresh(Parts()) && fresh(initBuf) && buffered.list == []
      ensures readSeq == 0 && finished == [] && delivered == [] && this.maxHandshake == maxHandshake
    {
      this.maxHandshake := maxHandshake;
      buffered := new PQueue();
      initBuf := new Octet[0];
      rHdr, readSeq, finished, delivered := Header(0, 0, 0, 0, 0), 0, [], [];
    }

    /** The bytes of a fragment go to the message already in the queue. */
    method AddTo(item: Item<HmFragment>, h: Header, bytes: seq<Octet>, ghost sent: seq<Message>)
      requires Store(sent) && item in buffered.list && item.data.reassembling && bytes != []
      requires Carries(h, bytes, sent) && item.priority == PriorityBytes(h.number)
      modifies item.data.Repr()
      ensures Store(sent) && item.data.covered == old(item.data.covered) + Range(h.fragOff, h.fragOff + |bytes|)
      ensures forall n: nat, a: nat, b: nat :: old(Has(n, a, b)) ==> Has(n, a, b)
      ensures OnlyAdds(h, |bytes|, sent)
    {
      hide HmFragment.Good, PQueue.Valid, PriorityBytes, Has, Store;
      Known(item, h.number, sent);
      AddBytes(item, h, bytes, sent);
      forall n: nat, j: nat | n < |sent| && j < |sent[n].body| && old(Lacks(n, j)) && !Brings(h, |bytes|, n, j)
        ensures Lacks(n, j)
      {
        assert item.data.hdr.number == n ==> j !in item.data.covered;
      }
    }

    method AddBytes(item: Item<HmFragment>, h: Header, bytes: seq<Octet>, ghost sent: seq<Message>)
      requires Store(sent) && item in buffered.list && item.data.reassembling && bytes != []
      requires Carries(h, bytes, sent) && item.priority == PriorityBytes(h.number)
      modifies item.data.Repr()
      ensures Store(sent) && item.data.covered == old(item.data.covered) + Range(h.fragOff, h.fragOff + |bytes|)
      ensures forall n: nat, a: nat, b: nat :: old(Has(n, a, b)) ==> Has(n, a, b)
      ensures item.data.reassembling <==> exists j :: 0 <= j < item.data.hdr.msgLen && j !in item.data.covered
      ensures forall x :: x in buffered.list && x.data != item.data ==>
                x.data.reassembling == old(x.data.reassembling) && x.data.covered == old(x.data.covered)
    {
      hide HmFragment.Good, PQueue.Valid;
      NumberOf(item, h.number, sent);
      ghost var list := buffered.list;
      assert item.data.Repr() <= Data(list);
      item.data.Add(sent, h.fragOff, bytes);
      assert buffered.Valid();
      forall y | y in list ensures y.data.Good(sent) {
        if y != item {
          assert y.data.Repr() !! item.data.Repr();
        }
      }
    }

    /** With the entries as they were nothing is lost. */
    twostate lemma KeptAll(list: seq<Item<HmFragment>>)
      requires list == old(buffered.list) && forall x :: x in list ==> x in buffered.list
      requires forall x :: x in list ==>
        x.data.reassembling == old(x.data.reassembling) && x.data.covered == old(x.data.covered)
      ensures forall n: nat, a: nat, b: nat :: old(Has(n, a, b)) ==> Has(n, a, b)
    {}

    twostate lemma JoinedBy(list: seq<Item<HmFragment>>, new item: Item<HmFragment>)
      requires list == old(buffered.list) && forall x :: x in buffered.list <==> x in list || x == item
      requires forall x :: x in list ==> x.data.reassembling == old(x.data.reassembling)
      requires forall x :: x in list ==> x.data.covered == old(x.data.covered)
      requires forall x :: x in list ==> x.data.hdr.number != item.data.hdr.number
      ensures Joins(item.data)
    {}

    lemma NoneOfNumber(list: seq<Item<HmFragment>>, number: nat, sent: seq<Message>)
      requires Stored(list, sent) && forall x :: x in list ==> x.priority != PriorityBytes(number)
      ensures forall x :: x in list ==> x.data.hdr.number != number
    {
      hide PriorityBytes, HmFragment.Good;
    }

    lemma NumberOf(item: Item<HmFragment>, number: nat, sent: seq<Message>)
      requires item.data.Good(sent) && item.priority == PriorityBytes(item.data.hdr.number)
      requires number < 0x1_0000 && item.priority == PriorityBytes(number)
      ensures item.data.hdr.number == number && item.data.hdr.msgLen == |sent[number].body|
    {
      PriorityRank(number);
      PriorityRank(item.data.hdr.number);
    }

    /** A message that is not in the queue goes there. */
    method Enqueue(frag: HmFragment, ghost sent: seq<Message>)
      requires Store(sent) && frag.Good(sent) && frag.hdr.number < 0x1_0000
      requires frag.Repr() !! Parts()
      requires forall x :: x in buffered.list ==> x.priority != PriorityBytes(frag.hdr.number)
      modifies buffered, Nodes(buffered.list)
      ensures Store(sent) && fresh(Parts() - old(Parts()) - frag.Repr())
      ensures forall n: nat, a: nat, b: nat :: old(Has(n, a, b)) ==> Has(n, a, b)
      ensures Joins(frag)
      ensures forall x :: x in old(buffered.list) ==> x in buffered.list
      ensures exists x :: x in buffered.list && x.data == frag
    {
      hide HmFragment.Good, PQueue.Valid, IsInsertion, PriorityBytes, Stored, Joins;
      ghost var list := buffered.list;
      NoneOfNumber(list, frag.hdr.number, sent);
      var item := new Item(PriorityBytes(frag.hdr.number), frag);
      var inserted := buffered.Insert(item);
      InsertionMembers(list, item, buffered.list);
      assert frag.Good(sent);
      assert Stored(list, sent);
      DataGrows(list, item, buffered.list);
      StoredGrows(list, item, buffered.list, sent);
      assert item in buffered.list && item.data == frag;
      KeptAll(list);
      JoinedBy(list, item);
    }

    /** dtls1_reassemble_fragment: never hands up a message itself. */
    method Reassemble(h: Header, bytes: seq<Octet>, ghost sent: seq<Message>) returns (r: Status)
      requires Store(sent) && Carries(h, bytes, sent)
      modifies Parts()
      ensures Store(sent) && fresh(Parts() - old(Parts()))
      ensures forall n: nat, a: nat, b: nat :: old(Has(n, a, b)) ==> Has(n, a, b)
      ensures OnlyAdds(h, |bytes|, sent)
      ensures r == Limit(h)
      ensures r == Retry && bytes != [] ==> Has(h.number, h.fragOff, h.fragOff + |bytes|)
    {
      if h.msgLen > maxHandshake {
        return Failed;
      }
      if h.fragLen == 0 {
        return Retry;
      }
      r := Gather(h, bytes, sent);
    }

    /** A fragment goes to its message, which is put in the queue unless it is there. */
    method Gather(h: Header, bytes: seq<Octet>, ghost sent: seq<Message>) returns (r: Status)
      requires Store(sent) && Carries(h, bytes, sent) && bytes != []
      modifies Parts()
      ensures Store(sent) && fresh(Parts() - old(Parts()))
      ensures forall n: nat, a: nat, b: nat :: old(Has(n, a, b)) ==> Has(n, a, b)
      ensures OnlyAdds(h, |bytes|, sent)
      ensures r == Retry && Has(h.number, h.fragOff, h.fragOff + |bytes|)
    {
      hide HmFragment.Good, PQueue.Valid, PriorityBytes, Stored, Has;
      var item := buffered.Find(PriorityBytes(h.number));
      assert Store(sent);
      hide Store;
      if item != null {
        assert item.data.Repr() <= Parts();
        r := AddKnown(item, h, bytes, sent);
      } else {
        StartReassembly(h, bytes, sent);
        r := Retry;
      }
    }

    /** A fragment of a message in the queue: dropped if the message is whole by now. */
    method AddKnown(item: Item<HmFragment>, h: Header, bytes: seq<Octet>, ghost sent: seq<Message>) returns (r: Status)
      requires Store(sent) && item in buffered.list && bytes != []
      requires Carries(h, bytes, sent) && item.priority == PriorityBytes(h.number)
      modifies item.data.Repr()
      ensures Store(sent) && r == Retry && Has(h.number, h.fragOff, h.fragOff + |bytes|)
      ensures forall n: nat, a: nat, b: nat :: old(Has(n, a, b)) ==> Has(n, a, b)
      ensures OnlyAdds(h, |bytes|, sent)
    {
      hide HmFragment.Good, PQueue.Valid, PriorityBytes, Stored;
      Known(item, h.number, sent);
      if item.data.hdr.msgLen != h.msgLen {
        return Failed;
      }
      if item.data.reassembling {
        AddTo(item, h, bytes, sent);
      }
      return Retry;
    }

    lemma Known(item: Item<HmFragment>, number: nat, sent: seq<Message>)
      requires Store(sent) && item in buffered.list && number < |sent| && number < 0x1_0000
      requires item.priority == PriorityBytes(number)
      ensures item.data.Good(sent) && item.data.hdr.msgLen == |sent[number].body| && item.data.Repr() <= Parts()
      ensures item.data.hdr.number == number
    {
      NumberOf(item, number, sent);
    }

    /** The first fragment of a message that is not in the queue. */
    method StartReassembly(h: Header, bytes: seq<Octet>, ghost sent: seq<Message>)
      requires Store(sent) && Carries(h, bytes, sent) && bytes != []
      requires forall x :: x in buffered.list ==> x.priority != PriorityBytes(h.number)
      modifies buffered, Nodes(buffered.list)
      ensures Store(sent) && fresh(Parts() - old(Parts()))
      ensures forall n: nat, a: nat, b: nat :: old(Has(n, a, b)) ==> Has(n, a, b)
      ensures OnlyAdds(h, |bytes|, sent)
      ensures Has(h.number, h.fragOff, h.fragOff + |bytes|)
    {
      hide HmFragment.Good, PQueue.Valid, PriorityBytes, Stored;
      var frag := FirstPart(h, bytes, sent);
      assert Store(sent) && frag.Repr() !! Parts() && frag.hdr.number < 0x1_0000;
      hide Carries, Brings, Store;
      Enqueue(frag, sent);
      assert forall n: nat :: Queued(n) ==> old(Queued(n)) || n == h.number;
      assert forall n: nat, j: nat :: n != h.number && old(Lacks(n, j)) ==> Lacks(n, j);
    }

    /** An entry with the bytes of one fragment. */
    method FirstPart(h: Header, bytes: seq<Octet>, ghost sent: seq<Message>) returns (frag: HmFragment)
      requires Carries(h, bytes, sent) && bytes != []
      ensures fresh(frag) && fresh(frag.Repr()) && frag.Good(sent)
      ensures frag.hdr.number == h.number && frag.hdr.msgLen == |sent[h.number].body|
      ensures Range(h.fragOff, h.fragOff + |bytes|) <= frag.covered
      ensures forall j: nat :: j < frag.hdr.msgLen && !Brings(h, |bytes|, h.number, j) ==>
                frag.reassembling && j !in frag.covered
    {
      hide HmFragment.Good;
      frag := NewFragment(h, sent);
      frag.Add(sent, h.fragOff, bytes);
      forall j: nat | j < frag.hdr.msgLen && !Brings(h, |bytes|, h.number, j)
        ensures frag.reassembling && j !in frag.covered
      {
        assert j !in frag.covered;
      }
    }

    /** pqueue_find for a message. */
    method IsQueued(h: Header, bytes: seq<Octet>, ghost sent: seq<Message>) returns (r: bool)
      requires Store(sent) && Carries(h, bytes, sent)
      ensures r <==> Queued(h.number)
      ensures !r ==> forall x :: x in buffered.list ==> x.priority != PriorityBytes(h.number)
    {
      hide HmFragment.Good, PQueue.Valid, PriorityBytes;
      var item := buffered.Find(PriorityBytes(h.number));
      if item != null {
        Known(item, h.number, sent);
      }
      return item != null;
    }

    /** dtls1_process_out_of_seq_message: stale and far messages are dropped, others kept; none is handed up. */
    method OutOfSeq(h: Header, bytes: seq<Octet>, ghost sent: seq<Message>) returns (r: Status)
      requires Store(sent) && Carries(h, bytes, sent)
      modifies Parts()
      ensures Store(sent) && fresh(Parts() - old(Parts()))
      ensures forall n: nat, a: nat, b: nat :: old(Has(n, a, b)) ==> Has(n, a, b)
      ensures OnlyAdds(h, |bytes|, sent)
      ensures h.number <= readSeq || h.number > readSeq + 10 || (readSeq == 0 && h.kind == 20) ==>
                r == Retry && buffered.list == old(buffered.list)
      ensures readSeq < h.number <= readSeq + 10 && (readSeq > 0 || h.kind != 20) && !old(Queued(h.number)) ==>
                r == if h.msgLen > maxHandshake then Failed else Retry
      ensures !Wanted(h) ==> r == Retry && buffered.list == old(buffered.list)
      ensures Wanted(h) && (h.fragLen < h.msgLen || !old(Queued(h.number))) ==> r == Limit(h)
      ensures r == Retry && Wanted(h) && h.fragLen < h.msgLen ==> Has(h.number, h.fragOff, h.fragOff + |bytes|)
      ensures r == Retry && Wanted(h) && h.fragLen == h.msgLen && !old(Queued(h.number)) ==> Has(h.number, 0, h.msgLen)
      ensures r == Retry || (r == Failed && h.msgLen > maxHandshake)
    {
      hide HmFragment.Good, PQueue.Valid, PriorityBytes, Stored, Has, Queued, Lacks, Brings;
      var queued := IsQueued(h, bytes, sent);
      var present := queued && !(h.fragLen < h.msgLen);
      if h.number <= readSeq || h.number > readSeq + AHEAD || present || (readSeq == 0 && h.kind == FINISHED) {
        r := Retry;
      } else {
        r := Keep(h, bytes, sent);
      }
    }

    /** A fragment that is worth keeping, and not a whole message of which something is queued. */
    method Keep(h: Header, bytes: seq<Octet>, ghost sent: seq<Message>) returns (r: Status)
      requires Store(sent) && Carries(h, bytes, sent) && (h.fragLen < h.msgLen || !Queued(h.number))
      modifies Parts()
      ensures Store(sent) && fresh(Parts() - old(Parts()))
      ensures forall n: nat, a: nat, b: nat :: old(Has(n, a, b)) ==> Has(n, a, b)
      ensures OnlyAdds(h, |bytes|, sent)
      ensures r == Limit(h)
      ensures r == Retry ==> Has(h.number, h.fragOff, h.fragOff + |bytes|)
    {
      hide HmFragment.Good, PQueue.Valid, PriorityBytes, Stored, Has, Lacks, Brings;
      if h.fragLen < h.msgLen {
        r := Reassemble(h, bytes, sent);
      } else {
        NotQueued(h.number, sent);
        r := KeepWhole(h, bytes, sent);
      }
    }

    lemma NotQueued(number: nat, sent: seq<Message>)
      requires Store(sent) && !Queued(number) && number < 0x1_0000
      ensures forall x :: x in buffered.list ==> x.priority != PriorityBytes(number)
    {
      forall x | x in buffered.list ensures x.priority != PriorityBytes(number) {
        PriorityRank(number);
        PriorityRank(x.data.hdr.number);
      }
    }

    /** A message that came in one piece and is not in the queue. */
    method KeepWhole(h: Header, bytes: seq<Octet>, ghost sent: seq<Message>) returns (r: Status)
      requires Store(sent) && Carries(h, bytes, sent) && h.fragLen == h.msgLen
      requires forall x :: x in buffered.list ==> x.priority != PriorityBytes(h.number)
      modifies buffered, Nodes(buffered.list)
      ensures Store(sent) && fresh(Parts() - old(Parts()))
      ensures forall n: nat, a: nat, b: nat :: old(Has(n, a, b)) ==> Has(n, a, b)
      ensures OnlyAdds(h, |bytes|, sent)
      ensures r == Limit(h)
      ensures r == Retry ==> Has(h.number, 0, h.msgLen)
    {
      hide HmFragment.Good, PQueue.Valid, PriorityBytes, Stored;
      if h.fragLen > maxHandshake {
        return Failed;
      }
      var frag := WholeFragment(h, bytes, sent);
      assert forall j: nat :: j < |sent[h.number].body| ==> Brings(h, |bytes|, h.number, j);
      hide Carries, Brings;
      Enqueue(frag, sent);
      assert forall n: nat :: Queued(n) ==> old(Queued(n)) || n == h.number;
      assert forall n: nat, j: nat :: n != h.number && old(Lacks(n, j)) ==> Lacks(n, j);
      return Retry;
    }

    /** A message that came in one piece, to be kept. */
    method WholeFragment(h: Header, bytes: seq<Octet>, ghost sent: seq<Message>) returns (frag: HmFragment)
      requires Carries(h, bytes, sent) && h.fragLen == h.msgLen
      ensures fresh(frag) && fresh(frag.Repr()) && frag.Good(sent)
      ensures frag.hdr.number == h.number && !frag.reassembling
    {
      frag := new HmFragment(h, false);
      MemCpy(frag.fragment, 0, bytes);
      assert sent[h.number].body[..|bytes|] == sent[h.number].body;
    }

    /** dtls1_preprocess_fragment; the header read so far never has an offset, so this is a first fragment. */
    method Preprocess(h: Header, max: nat) returns (ok: bool)
      requires initBuf.Length >= 0
      modifies this`initBuf, this`rHdr
      ensures ok <==> h.fragOff + h.fragLen <= h.msgLen && h.fragOff + h.fragLen <= max
      ensures initBuf == old(initBuf) || fresh(initBuf)
      ensures ok ==> rHdr == h.(fragOff := 0, fragLen := 0) && HEADER + h.msgLen <= initBuf.Length
    {
      if h.fragOff + h.fragLen > h.msgLen {
        return false;
      }
      if h.fragOff + h.fragLen > max {
        return false;
      }
      if initBuf.Length < HEADER + h.msgLen {
        var grown := new Octet[HEADER + h.msgLen](_ => 0);
        MemCpy(grown, 0, initBuf[..]);
        initBuf := grown;
      }
      rHdr := h.(fragOff := 0, fragLen := 0);
      return true;
    }

    /** A whole message goes to init_buf. */
    method TakeWhole(h: Header, bytes: seq<Octet>, max: nat, ghost sent: seq<Message>) returns (r: Status)
      requires Valid(sent) && Carries(h, bytes, sent) && h.fragLen == h.msgLen && h.number == readSeq
      modifies this`initBuf, this`rHdr, initBuf
      ensures Valid(sent) && (initBuf == old(initBuf) || fresh(initBuf))
      ensures r == if h.msgLen <= max then Complete else Failed
      ensures r == Complete ==> Ready(sent)
    {
      hide PQueue.Valid, HmFragment.Good, PriorityBytes, Transcript, Sendable;
      var ok := Preprocess(h, max);
      if !ok {
        return Failed;
      }
      MemCpy(initBuf, HEADER + h.fragOff, bytes);
      assert sent[h.number].body[..|bytes|] == sent[h.number].body;
      return Complete;
    }

    lemma WholeCarries(frag: HmFragment, sent: seq<Message>)
      requires frag.Good(sent) && !frag.reassembling
      ensures Carries(frag.hdr, frag.fragment[..], sent) && frag.hdr.fragLen == frag.hdr.msgLen
      ensures frag.hdr.msgLen == |sent[frag.hdr.number].body|
    {
      assert sent[frag.hdr.number].body[..frag.hdr.msgLen] == sent[frag.hdr.number].body;
    }

    /** dtls1_retrieve_buffered_fragment: the next message, if it is whole at the head of the queue. */
    method Retrieve(max: nat, ghost sent: seq<Message>) returns (r: Status)
      requires Valid(sent)
      modifies this`initBuf, this`rHdr, initBuf, buffered
      ensures Valid(sent) && (initBuf == old(initBuf) || fresh(initBuf)) && Parts() <= old(Parts())
      ensures r != Retry && (r == Complete ==> Ready(sent))
      ensures r == Missing <==> !old(HeadReady())
      ensures r == Missing ==> buffered.list == old(buffered.list)
      ensures r == Missing ==> forall n: nat, a: nat, b: nat :: old(Has(n, a, b)) ==> Has(n, a, b)
      ensures r == Failed ==> TooLong(sent, max)
      ensures r != Missing ==> readSeq < |sent| && r == if |sent[readSeq].body| <= max then Complete else Failed
      ensures r != Missing ==> buffered.list == old(buffered.list[1..]) && !Stale() && !Queued(readSeq)
    {
      hide PQueue.Valid, Transcript, Sendable, PriorityBytes, Ready, Stored, HmFragment.Good;
      var item := buffered.Peek();
      if item == null {
        return Missing;
      }
      var frag := item.data;
      if frag.reassembling || readSeq != frag.hdr.number {
        return Missing;
      }
      NumbersIncrease(sent);
      ghost var list := buffered.list;
      r := TakeHead(frag, max, sent);
      assert forall x :: x in list[1..] ==> x.data.hdr.number > readSeq;
    }

    /** The message at the head of the queue comes out of it. */
    method TakeHead(frag: HmFragment, max: nat, ghost sent: seq<Message>) returns (r: Status)
      requires Valid(sent) && buffered.list != [] && frag == buffered.list[0].data
      requires !frag.reassembling && frag.hdr.number == readSeq
      modifies this`initBuf, this`rHdr, initBuf, buffered
      ensures Valid(sent) && (initBuf == old(initBuf) || fresh(initBuf)) && Parts() <= old(Parts())
      ensures r == Complete ==> Ready(sent)
      ensures readSeq < |sent| && r == if |sent[readSeq].body| <= max then Complete else Failed
      ensures buffered.list == old(buffered.list[1..])
    {
      hide PQueue.Valid, Transcript, Sendable, PriorityBytes, Ready;
      WholeCarries(frag, sent);
      ghost var list := buffered.list;
      var popped := buffered.Pop();
      assert Stored(buffered.list, sent);
      hide Stored, HmFragment.Good;
      r := TakeWhole(frag.hdr, frag.fragment[..], max, sent);
    }

    /** dtls1_get_message_fragment for a record that came. */
    method ProcessRecord(record: seq<Octet>, max: nat, ghost sent: seq<Message>) returns (r: Status)
      requires Valid(sent) && Honest(record, sent)
      modifies this`initBuf, this`rHdr, initBuf, Parts()
      ensures Valid(sent) && (initBuf == old(initBuf) || fresh(initBuf)) && fresh(Parts() - old(Parts()))
      ensures forall n: nat, a: nat, b: nat :: old(Has(n, a, b)) ==> Has(n, a, b)
      ensures r != Missing && (r == Complete ==> Ready(sent) && IsNext(record) && buffered.list == old(buffered.list))
      ensures |record| >= HEADER && OnlyAdds(ParseHeader(record), |record| - HEADER, sent)
      ensures ParseHeader(record).fragLen <= ParseHeader(record).msgLen
      ensures IsNext(record) ==> r == if |record| - HEADER <= max then Complete else Failed
      ensures IsPart(record) ==> r == if ParseHeader(record).msgLen <= maxHandshake then Retry else Failed
      ensures r == Retry && IsPart(record) ==> HasBytes(record)
      ensures r == Retry && IsLater(record) && !old(Queued(ParseHeader(record).number)) ==> HasBytes(record)
      ensures IsStale(record) ==> r == Retry && buffered.list == old(buffered.list)
      ensures r == Failed ==> TooLong(sent, max)
      ensures r == Retry ==> Accounted(record)
      ensures readSeq == old(readSeq)
    {
      hide PQueue.Valid, Transcript, PriorityBytes, Stored, Data;
      HonestCarries(record, sent);
      if |record| < HEADER {
        return Failed;
      }
      var h, bytes := ParseHeader(record), record[HEADER..];
      if h.number != readSeq {
        r := OutOfSeq(h, bytes, sent);
        return;
      }
      if h.fragLen != 0 && h.fragLen < h.msgLen {
        r := Reassemble(h, bytes, sent);
        return;
      }
      r := TakeWhole(h, bytes, max, sent);
    }

    /** The queue first; these records are accounted for, and these bytes lacking, before and after. */
    method Look(ghost seen: seq<seq<Octet>>, ghost lacking: set<nat>, max: nat, ghost sent: seq<Message>)
      returns (r: Status)
      requires Valid(sent) && AllLacking(lacking) && forall x :: x in seen ==> Accounted(x)
      modifies this`initBuf, this`rHdr, initBuf, buffered
      ensures Valid(sent) && (initBuf == old(initBuf) || fresh(initBuf)) && Parts() <= old(Parts())
      ensures r != Retry && (r == Complete ==> Ready(sent))
      ensures r == Missing <==> !old(HeadReady())
      ensures r == Missing ==> !HeadReady() && forall x :: x in seen ==> Accounted(x)
      ensures r == Missing ==>
                AllLacking(lacking) && (Stale() <==> old(Stale())) && (Queued(readSeq) <==> old(Queued(readSeq)))
      ensures r == Complete ==> lacking == {} && !old(Stale()) && !Stale() && !Queued(readSeq)
      ensures r == Failed ==> TooLong(sent, max)
      ensures old(Stale()) ==> Stale()
    {
      StoreOf(sent);
      ReadyIff(sent);
      WholeLacksNothing(lacking);
      hide Valid, Ready, Accounted, TooLong, Has, Stored, Store, Data, Nodes;
      r := Retrieve(max, sent);
      if r == Missing {
        StillAccounted();
      }
    }

    lemma StoreOf(sent: seq<Message>)
      requires Valid(sent)
      ensures Store(sent)
    {}

    lemma WholeLacksNothing(lacking: set<nat>)
      requires AllLacking(lacking)
      ensures HeadReady() ==> lacking == {}
    {
      hide Lacks;
      if HeadReady() && lacking != {} {
        var j :| j in lacking;
        HeadLacksNothing(j);
      }
    }

    lemma HeadLacksNothing(j: nat)
      requires HeadReady()
      ensures !Lacks(readSeq, j)
    {
      assert buffered.list[0] in buffered.list;
    }

    /** Then one record from the network. */
    method ReadOne(ghost seen: seq<seq<Octet>>, ghost lacking: set<nat>, record: seq<Octet>, max: nat,
                   ghost sent: seq<Message>) returns (r: Status)
      requires Valid(sent) && Honest(record, sent) && AllLacking(lacking) && forall x :: x in seen ==> Accounted(x)
      requires forall j :: j in lacking ==> readSeq < |sent| && j < |sent[readSeq].body| && !PieceWith(record, j)
      modifies this`initBuf, this`rHdr, initBuf, Parts()
      ensures Valid(sent) && (initBuf == old(initBuf) || fresh(initBuf)) && fresh(Parts() - old(Parts()))
      ensures r != Missing && (r == Complete ==> Ready(sent) && IsNext(record))
      ensures r == Complete ==> (Stale() <==> old(Stale())) && (Queued(readSeq) <==> old(Queued(readSeq)))
      ensures r == Retry ==> AllLacking(lacking) && forall x :: x in seen || x == record ==> Accounted(x)
      ensures r == Retry ==> (Stale() <==> old(Stale()))
      ensures r == Retry ==> (Queued(readSeq) <==> old(Queued(readSeq)) || IsPieceOfNext(record))
      ensures r == Failed ==> TooLong(sent, max)
      ensures old(Stale()) ==> Stale()
    {
      hide Valid, Ready, Accounted, TooLong, Has, Stored, Store, Data, Nodes, Honest, OnlyAdds, Lacks, AllLacking,
        PieceWith, Brings, IsPieceOfNext;
      r := ProcessRecord(record, max, sent);
      if r == Retry {
        StillAccounted();
        Afterwards(lacking, record, sent);
      } else if r == Complete {
        SameEntries();
      } else {
        StaleAfterwards(record, sent);
      }
    }

    twostate lemma SameEntries()
      requires buffered.list == old(buffered.list) && readSeq == old(readSeq)
      ensures (Stale() <==> old(Stale())) && (Queued(readSeq) <==> old(Queued(readSeq)))
    {}

    /** What a record that was read leaves in the queue. */
    twostate lemma Afterwards(new lacking: set<nat>, new record: seq<Octet>, new sent: seq<Message>)
      requires readSeq == old(readSeq) && |record| >= HEADER
      requires forall n: nat, a: nat, b: nat :: old(Has(n, a, b)) ==> Has(n, a, b)
      requires OnlyAdds(ParseHeader(record), |record| - HEADER, sent)
      requires !IsNext(record) && (IsPart(record) ==> HasBytes(record))
      requires IsStale(record) ==> buffered.list == old(buffered.list)
      requires old(AllLacking(lacking))
      requires forall j :: j in lacking ==> readSeq < |sent| && j < |sent[readSeq].body| && !PieceWith(record, j)
      requires ParseHeader(record).fragLen <= ParseHeader(record).msgLen
      ensures AllLacking(lacking) && (Stale() <==> old(Stale()))
      ensures Queued(readSeq) <==> old(Queued(readSeq)) || IsPieceOfNext(record)
    {
      forall j | j in lacking ensures Lacks(readSeq, j) {
        assert old(Lacks(readSeq, j));
      }
      StaleAfterwards(record, sent);
      assert old(Queued(readSeq)) ==> old(Has(readSeq, 0, 0));
      assert IsPieceOfNext(record) ==> HasBytes(record);
    }

    twostate lemma StaleAfterwards(new record: seq<Octet>, new sent: seq<Message>)
      requires readSeq == old(readSeq) && |record| >= HEADER
      requires forall n: nat, a: nat, b: nat :: old(Has(n, a, b)) ==> Has(n, a, b)
      requires OnlyAdds(ParseHeader(record), |record| - HEADER, sent)
      requires IsStale(record) ==> buffered.list == old(buffered.list)
      ensures Stale() <==> old(Stale())
    {
      hide Lacks, Brings;
      if old(Stale()) {
        var x :| x in old(buffered.list) && x.data.hdr.number < readSeq;
        assert old(Has(x.data.hdr.number, 0, 0));
        assert Has(x.data.hdr.number, 0, 0);
      }
      if Stale() && !IsStale(record) {
        var x :| x in buffered.list && x.data.hdr.number < readSeq;
        assert Queued(x.data.hdr.number);
      }
    }

    /** The end of dtls1_get_message: the message with an unfragmented header goes to the hash and is handed up. */
    method HandUp(ghost sent: seq<Message>)
      requires Valid(sent) && Ready(sent)
      modifies this`rHdr, this`readSeq, this`finished, this`delivered, initBuf
      ensures Valid(sent) && |delivered| == |old(delivered)| + 1 && readSeq == old(readSeq) + 1
      ensures Parts() == old(Parts())
      ensures Stale() <==> old(Stale()) || old(Queued(readSeq))
    {
      hide PQueue.Valid, PriorityBytes, HmFragment.Good, Transcript, Sendable;
      ghost var m := sent[readSeq];
      var n := HEADER + rHdr.msgLen;
      var body := initBuf[HEADER..n];
      ghost var was := initBuf[..];
      assert was[HEADER..n] == m.body;
      assert rHdr.(fragOff := 0, fragLen := rHdr.msgLen) == FragmentHeader(m, readSeq, 0, |m.body|);
      hide Header.Bytes;
      MemCpy(initBuf, 0, rHdr.(fragOff := 0, fragLen := rHdr.msgLen).Bytes());
      HeaderBeforeBody(m, readSeq, was, initBuf[..]);
      assert initBuf[..n] == initBuf[..][..n] == Unfragmented(m, readSeq);
      assert sent[..readSeq + 1] == sent[..readSeq] + [m];
      TranscriptNext(sent[..readSeq], m);
      finished := finished + initBuf[..n];
      delivered := delivered + [Message(rHdr.kind, body)];
      rHdr := Header(0, 0, 0, 0, 0);
      readSeq := readSeq + 1;
    }

    /** Where the loop is: these bytes lacking, so many records read, entries left behind or queued as before. */
    ghost predicate Going(records: seq<seq<Octet>>, used: nat, lacking: set<nat>, stale: bool, queued: bool)
      requires used <= |records|
      reads `readSeq, buffered, set x | x in buffered.list :: x.data
    {
      && AllLacking(lacking) && (Stale() <==> stale) && (Queued(readSeq) <==> queued || AnyPiece(records, used))
      && forall x :: x in records[..used] ==> Accounted(x)
    }

    /** The last record read is the whole next message. */
    ghost predicate Came(records: seq<seq<Octet>>, used: nat, stale: bool, queued: bool)
      requires used <= |records|
      reads `readSeq, buffered, set x | x in buffered.list :: x.data
    {
      && used > 0 && IsNext(records[used - 1]) && (Stale() <==> stale)
      && (Queued(readSeq) <==> queued || AnyPiece(records, used))
    }

    /** The next message came out of the queue. */
    ghost predicate GivenOut(lacking: set<nat>, stale: bool)
      reads `readSeq, buffered, set x | x in buffered.list :: x.data
    {
      lacking == {} && !stale && !Stale() && !Queued(readSeq)
    }

    lemma GoingOn(records: seq<seq<Octet>>, used: nat)
      requires used < |records|
      ensures forall x :: x in records[..used + 1] <==> x in records[..used] || x == records[used]
    {
      assert records[..used + 1] == records[..used] + [records[used]];
    }

    /** One turn of the loop: the queue first, then one record. */
    method Turn(records: seq<seq<Octet>>, used0: nat, ghost lacking: set<nat>, ghost stale: bool, ghost was: bool,
                max: nat, ghost sent: seq<Message>) returns (r: Status, used: nat, ghost queued: bool)
      requires Valid(sent) && (forall x :: x in records ==> Honest(x, sent)) && used0 <= |records|
      requires Going(records, used0, lacking, stale, was)
      requires forall j :: j in lacking ==> readSeq < |sent| && j < |sent[readSeq].body|
      requires forall j, x :: j in lacking && x in records ==> !PieceWith(x, j)
      modifies this`initBuf, this`rHdr, initBuf, Parts()
      ensures Valid(sent) && (initBuf == old(initBuf) || fresh(initBuf)) && readSeq == old(readSeq)
      ensures forall o :: o in Parts() ==> o in old(Parts()) || fresh(o)
      ensures used0 <= used <= |records| && (r == Retry ==> used > used0)
      ensures r == Retry ==> Going(records, used, lacking, stale, was)
      ensures r == Missing ==> used == |records| && !HeadReady() && Going(records, used, lacking, stale, was)
      ensures r == Complete ==>
                Ready(sent) && if queued then GivenOut(lacking, stale) else Came(records, used, stale, was)
      ensures r == Failed ==> TooLong(sent, max)
      ensures old(Stale()) ==> Stale()
      ensures old(HeadReady()) ==> used == used0 && r != Missing && r != Retry && (r == Complete ==> queued)
    {
      hide Store, Stored, Transcript, Sendable, Ready, Honest, Accounted, HeadReady, TooLong, AllLacking, Stale, Queued,
        Lacks, IsNext, IsPieceOfNext, PieceWith, AnyPiece;
      used := used0;
      r := Look(records[..used], lacking, max, sent);
      queued := r == Complete;
      if r == Missing && used < |records| {
        AnyPieceNext(records, used);
        GoingOn(records, used);
        r := ReadOne(records[..used], lacking, records[used], max, sent);
        used := used + 1;
      }
    }

    /** The loop of dtls1_get_message: the queue and the records in turn, until the next message is in init_buf. */
    method Collect(records: seq<seq<Octet>>, max: nat, ghost sent: seq<Message>)
      returns (r: Status, used: nat, ghost queued: bool)
      requires Valid(sent) && forall x :: x in records ==> Honest(x, sent)
      modifies this`initBuf, this`rHdr, initBuf, Parts()
      ensures Valid(sent) && (initBuf == old(initBuf) || fresh(initBuf))
      ensures forall o :: o in Parts() ==> o in old(Parts()) || fresh(o)
      ensures used <= |records| && r != Retry && readSeq == old(readSeq)
      ensures r == Missing ==> used == |records| && !HeadReady()
      ensures r == Missing ==> Going(records, used, old(Outstanding(records, sent)), old(Stale()), old(Queued(readSeq)))
      ensures r == Complete ==> Ready(sent) && if queued then GivenOut(old(Outstanding(records, sent)), old(Stale()))
                                               else Came(records, used, old(Stale()), old(Queued(readSeq)))
      ensures r == Failed ==> TooLong(sent, max)
      ensures old(Stale()) ==> Stale()
      ensures old(HeadReady()) ==> used == 0 && r != Missing && (r == Complete ==> queued)
    {
      hide Store, Stored, Transcript, Sendable, Ready, Honest, Accounted, HeadReady, TooLong, AllLacking, Lacks,
        IsNext, IsPieceOfNext, PieceWith, Outstanding, Data, Nodes, Valid, Parts, Came, GivenOut;
      ghost var lacking, stale, was := Outstanding(records, sent), Stale(), Queued(readSeq);
      OutstandingLacks(records, sent);
      NoPieceYet(records);
      r, used, queued := Retry, 0, false;
      hide Stale, Queued, AnyPiece;
      assert Going(records, 0, lacking, stale, was);
      hide Going;
      while r == Retry
        invariant used <= |records| && Valid(sent) && (initBuf == old(initBuf) || fresh(initBuf))
                    && readSeq == old(readSeq)
        invariant forall o :: o in Parts() ==> o in old(Parts()) || fresh(o)
        invariant r == Retry ==> Going(records, used, lacking, stale, was)
        invariant r == Missing ==> used == |records| && !HeadReady() && Going(records, used, lacking, stale, was)
        invariant r == Complete ==>
                    Ready(sent) && if queued then GivenOut(lacking, stale) else Came(records, used, stale, was)
        invariant r == Failed ==> TooLong(sent, max)
        invariant old(Stale()) ==> Stale()
        invariant old(HeadReady()) ==>
                    used == 0 && r != Missing && (r == Retry ==> HeadReady()) && (r == Complete ==> queued)
        decreases |records| - used, if r == Retry then 1 else 0
      {
        r, used, queued := Turn(records, used, lacking, stale, was, max, sent);
      }
    }

    /**
     dtls1_get_message, with the records that the network has ready: the next message is handed up, or records
     are missing, or the handshake fails because a message is too long. From the queue (`queued`) a message comes
     only if none was left behind there and all of its bytes came; otherwise it came in one piece, and is left
     behind exactly if a part of it is in the queue.
     */
    method GetMessage(records: seq<seq<Octet>>, max: nat, ghost sent: seq<Message>)
      returns (r: Status, used: nat, ghost queued: bool)
      requires Valid(sent) && forall x :: x in records ==> Honest(x, sent)
      modifies this`initBuf, this`rHdr, this`readSeq, this`finished, this`delivered, initBuf, Parts()
      ensures Valid(sent) && (initBuf == old(initBuf) || fresh(initBuf))
      ensures forall o :: o in Parts() ==> o in old(Parts()) || fresh(o)
      ensures used <= |records| && r != Retry && (r == Missing ==> used == |records|)
      ensures |delivered| == |old(delivered)| + if r == Complete then 1 else 0
      ensures readSeq == old(readSeq) + if r == Complete then 1 else 0
      ensures r == Missing ==> !HeadReady() && forall x :: x in records ==> Accounted(x)
      ensures r == Missing ==> (Stale() <==> old(Stale()))
      ensures r == Failed ==> TooLong(sent, max)
      ensures old(HeadReady()) ==> used == 0 && r != Missing && (r == Complete ==> queued)
      ensures r == Complete && queued ==> !old(Stale()) && !Stale() && old(Outstanding(records, sent)) == {}
      ensures r == Complete && !queued ==> used > 0 && old(IsNext(records[used - 1]))
      ensures r == Complete && !queued ==>
                (Stale() <==> old(Stale()) || old(Queued(readSeq)) || old(AnyPiece(records, used)))
      ensures old(Stale()) ==> Stale()
      ensures r == Missing ==> AllLacking(old(Outstanding(records, sent)))
    {
      hide Store, Stored, Transcript, Sendable, Ready, Honest, Accounted, HeadReady, TooLong, AllLacking, Stale, Queued,
        Lacks, IsNext, IsPieceOfNext, PieceWith, AnyPiece, Outstanding, Data, Nodes;
      rHdr := Header(0, 0, 0, 0, 0);
      assert Valid(sent) && Parts() == old(Parts()) && this !in Parts();
      hide Valid, Parts;
      r, used, queued := Collect(records, max, sent);
      if r == Complete {
        HandUp(sent);
      }
    }

    /** An empty message to be reassembled. */
    method NewFragment(h: Header, ghost sent: seq<Message>) returns (frag: HmFragment)
      requires h.number < |sent| && h.number < 0x1_0000 && 0 < h.msgLen
      requires h == FragmentHeader(sent[h.number], h.number, h.fragOff, h.fragLen)
      ensures fresh(frag) && fresh(frag.Repr()) && frag.Good(sent) && frag.reassembling
      ensures frag.hdr.number == h.number && frag.hdr.msgLen == h.msgLen && frag.covered == {}
    {
      frag := new HmFragment(h.(fragOff := 0, fragLen := h.msgLen), true);
      NothingYet(sent[h.number].body, frag.fragment[..], frag.mask[..]);
      assert 0 !in frag.covered;
    }
  }

  lemma HeaderBeforeBody(m: Message, number: nat, was: seq<Octet>, now: seq<Octet>)
    requires HEADER + |m.body| <= |was| && was[HEADER..HEADER + |m.body|] == m.body
    requires now == FragmentHeader(m, number, 0, |m.body|).Bytes() + was[HEADER..]
    ensures now[..HEADER + |m.body|] == Unfragmented(m, number)
  {
    hide Header.Bytes;
  }

  lemma DataGrows(list: seq<Item<HmFragment>>, item: Item<HmFragment>, next: seq<Item<HmFragment>>)
    requires forall x :: x in next <==> x in list || x == item
    ensures Data(next) == Data(list) + item.data.Repr()
  {}

  lemma StoredGrows(list: seq<Item<HmFragment>>, item: Item<HmFragment>, next: seq<Item<HmFragment>>,
                    sent: seq<Message>)
    requires Stored(list, sent) && forall x :: x in next <==> x in list || x == item
    requires item.data.Good(sent) && item.priority == PriorityBytes(item.data.hdr.number)
    requires item.data.Repr() !! Data(list)
    ensures Stored(next, sent)
  {
    hide HmFragment.Good, PriorityBytes, HmFragment.Repr;
    forall x | x in list ensures x.data.Repr() <= Data(list) {
    }
  }

  lemma HonestCarries(record: seq<Octet>, sent: seq<Message>)
    requires Honest(record, sent) && Sendable(sent)
    ensures |record| >= HEADER && Carries(ParseHeader(record), record[HEADER..], sent)
  {
    var number: nat, start: nat, end: nat :| number < |sent| && IsPiece(record, sent[number], number, start, end);
    var m := sent[number];
    assert m in sent && m.Valid();
    HeaderRoundTrip(FragmentHeader(m, number, start, end - start), m.body[start..end]);
    assert record[HEADER..] == m.body[start..end];
  }

  lemma TranscriptNext(ms: seq<Message>, m: Message)
    ensures Transcript(ms + [m]) == Transcript(ms) + Unfragmented(m, |ms|)
  {
    hide Unfragmented;
    assert (ms + [m])[..|ms|] == ms;
  }

  /** What was buffered stays good when more messages are sent. */
  lemma StoredLater(list: seq<Item<HmFragment>>, sent: seq<Message>, m: Message)
    requires Stored(list, sent)
    ensures Stored(list, sent + [m])
  {}
}
