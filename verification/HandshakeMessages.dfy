/**
 DTLS handshake messages and their fragments on the wire (libressl ssl/d1_both.c; RFC 4347 sections 4.2.2 and
 4.2.3), and the sender's fragmentation, which writes each fragment header over bytes already sent.
 */
module HandshakeMessages {
  import opened Arithmetic
  import opened Memory
  import opened Octets

  const HEADER: nat := 12

  datatype Message = Message(kind: Octet, body: seq<Octet>) {
    predicate Valid() {
      |body| < 0x100_0000
    }
  }

  /** hm_header_st. */
  datatype Header = Header(kind: Octet, msgLen: nat, number: nat, fragOff: nat, fragLen: nat) {
    predicate Fits() {
      msgLen < 0x100_0000 && number < 0x1_0000 && fragOff < 0x100_0000 && fragLen < 0x100_0000
    }

    /** dtls1_write_message_header. */
    function Bytes(): (b: seq<Octet>)
      ensures |b| == HEADER
    {
      [kind] + Digits(msgLen, 3) + Digits(number, 2) + Digits(fragOff, 3) + Digits(fragLen, 3)
    }
  }

  /** dtls1_get_message_header. */
  function ParseHeader(b: seq<Octet>): Header
    requires |b| >= HEADER
  {
    Header(b[0], Num(b[1..4]), Num(b[4..6]), Num(b[6..9]), Num(b[9..12]))
  }

  lemma HeaderRoundTrip(h: Header, rest: seq<Octet>)
    requires h.Fits()
    ensures ParseHeader(h.Bytes() + rest) == h
  {
    var b := h.Bytes() + rest;
    assert Pow(256, 3) == 0x100_0000 && Pow(256, 2) == 0x1_0000;
    assert b[1..4] == Digits(h.msgLen, 3);
    assert b[4..6] == Digits(h.number, 2);
    assert b[6..9] == Digits(h.fragOff, 3);
    assert b[9..12] == Digits(h.fragLen, 3);
    NumOfDigits(h.msgLen, 3);
    NumOfDigits(h.number, 2);
    NumOfDigits(h.fragOff, 3);
    NumOfDigits(h.fragLen, 3);
  }

  /** The header of bytes off to off + len of a message. */
  function FragmentHeader(m: Message, number: nat, off: nat, len: nat): Header {
    Header(m.kind, |m.body|, number, off, len)
  }

  /**
   The layout of RFC 4347 section 4.2.2, byte by byte: type, length, sequence number, fragment offset and fragment
   length, the more significant bytes first.
   */
  lemma HeaderIs(h: Header)
    requires h.Fits()
    ensures h.Bytes() == [h.kind, h.msgLen / 0x1_0000, h.msgLen / 0x100 % 0x100, h.msgLen % 0x100,
                          h.number / 0x100, h.number % 0x100,
                          h.fragOff / 0x1_0000, h.fragOff / 0x100 % 0x100, h.fragOff % 0x100,
                          h.fragLen / 0x1_0000, h.fragLen / 0x100 % 0x100, h.fragLen % 0x100]
  {
    ThreeDigits(h.msgLen);
    TwoDigits(h.number);
    ThreeDigits(h.fragOff);
    ThreeDigits(h.fragLen);
    hide Digits;
  }

  /** A message as it enters the Finished hash: in one fragment, however it travelled (RFC 4347 section 4.2.6). */
  function Unfragmented(m: Message, number: nat): seq<Octet> {
    FragmentHeader(m, number, 0, |m.body|).Bytes() + m.body
  }

  /** The record that carries bytes off to off + len of a message. */
  function FragmentRecord(m: Message, number: nat, off: nat, len: nat): seq<Octet>
    requires off + len <= |m.body|
  {
    FragmentHeader(m, number, off, len).Bytes() + m.body[off..off + len]
  }

  /** Bytes off to off + len of a message on the wire, as RFC 4347 section 4.2.2 lays them out. */
  lemma RecordIs(m: Message, number: nat, off: nat, len: nat)
    requires m.Valid() && number < 0x1_0000 && off + len <= |m.body|
    ensures FragmentRecord(m, number, off, len)
         == [m.kind, |m.body| / 0x1_0000, |m.body| / 0x100 % 0x100, |m.body| % 0x100, number / 0x100, number % 0x100,
             off / 0x1_0000, off / 0x100 % 0x100, off % 0x100, len / 0x1_0000, len / 0x100 % 0x100, len % 0x100]
            + m.body[off..off + len]
  {
    HeaderIs(FragmentHeader(m, number, off, len));
  }

  /** What the Finished hash takes of a message: a header as of one fragment, and the body. */
  lemma HashedIs(m: Message, number: nat)
    requires m.Valid() && number < 0x1_0000
    ensures var n := |m.body|;
      Unfragmented(m, number)
      == [m.kind, n / 0x1_0000, n / 0x100 % 0x100, n % 0x100, number / 0x100, number % 0x100,
          0, 0, 0, n / 0x1_0000, n / 0x100 % 0x100, n % 0x100] + m.body
  {
    HeaderIs(FragmentHeader(m, number, 0, |m.body|));
  }

  /** The fields are those of a piece of the message, and its bytes follow them. */
  predicate Says(r: seq<Octet>, m: Message, number: nat) {
    && |r| >= 12 && r[0] == m.kind && Num(r[1..4]) == |m.body| && Num(r[4..6]) == number
    && Num(r[6..9]) + Num(r[9..12]) <= |m.body| && r[12..] == m.body[Num(r[6..9])..Num(r[6..9]) + Num(r[9..12])]
  }

  lemma RecordFields(m: Message, number: nat, off: nat, len: nat)
    requires m.Valid() && number < 0x1_0000 && off + len <= |m.body|
    ensures Says(FragmentRecord(m, number, off, len), m, number)
  {
    HeaderRoundTrip(FragmentHeader(m, number, off, len), m.body[off..off + len]);
  }

  lemma {:induction false} PiecesSay(records: seq<seq<Octet>>, m: Message, number: nat, off: nat)
    requires m.Valid() && number < 0x1_0000 && Pieces(records, m, number, off)
    ensures forall r :: r in records ==> Says(r, m, number)
    decreases |records|
  {
    hide Says, FragmentRecord;
    if records != [] {
      var last := |records| - 1;
      var start: nat :| IsPiece(records[last], m, number, start, off) && Pieces(records[..last], m, number, start);
      PiecesSay(records[..last], m, number, start);
      RecordFields(m, number, start, off - start);
      assert records == records[..last] + [records[last]];
    }
  }

  /** The records carry the first `off` bytes of the message, piece after piece; none is empty unless all is. */
  ghost predicate Pieces(records: seq<seq<Octet>>, m: Message, number: nat, off: nat)
    decreases |records|, 1
  {
    if records == [] then off == 0
    else LastPiece(records[..|records| - 1], records[|records| - 1], m, number, off)
  }

  ghost predicate LastPiece(before: seq<seq<Octet>>, record: seq<Octet>, m: Message, number: nat, off: nat)
    decreases |before| + 1, 0
  {
    exists start: nat :: IsPiece(record, m, number, start, off) && Pieces(before, m, number, start)
  }

  /** The record carries the bytes from start to end, which are some unless the message is empty. */
  predicate IsPiece(record: seq<Octet>, m: Message, number: nat, start: nat, end: nat) {
    && start <= end <= |m.body| && (start == end ==> |m.body| == 0)
    && record == FragmentRecord(m, number, start, end - start)
  }

  /** A record that an honest sender of these messages may have put on the wire. */
  ghost predicate Honest(record: seq<Octet>, sent: seq<Message>) {
    exists number: nat, start: nat, end: nat :: number < |sent| && IsPiece(record, sent[number], number, start, end)
  }

  lemma {:induction false} PiecesAreHonest(records: seq<seq<Octet>>, sent: seq<Message>, number: nat, off: nat)
    requires number < |sent| && Pieces(records, sent[number], number, off)
    ensures forall r :: r in records ==> Honest(r, sent)
    decreases |records|
  {
    if records != [] {
      var last := |records| - 1;
      var start: nat :| IsPiece(records[last], sent[number], number, start, off)
                        && Pieces(records[..last], sent[number], number, start);
      PiecesAreHonest(records[..last], sent, number, start);
      assert records == records[..last] + [records[last]];
    }
  }

  lemma HonestLater(record: seq<Octet>, sent: seq<Message>, m: Message)
    requires Honest(record, sent)
    ensures Honest(record, sent + [m])
  {
    var number: nat, start: nat, end: nat :| number < |sent| && IsPiece(record, sent[number], number, start, end);
    assert IsPiece(record, (sent + [m])[number], number, start, end);
  }

  lemma OnePieceMore(records: seq<seq<Octet>>, m: Message, number: nat, off: nat, len: nat)
    requires Pieces(records, m, number, off) && off + len <= |m.body| && (len == 0 ==> |m.body| == 0)
    ensures Pieces(records + [FragmentRecord(m, number, off, len)], m, number, off + len)
  {
    var more := records + [FragmentRecord(m, number, off, len)];
    assert more[..|more| - 1] == records;
    assert IsPiece(more[|more| - 1], m, number, off, off + len);
  }

  /**
   The records for the message from byte `off` on, the first of them with number i: each as full as its MTU allows.
   */
  function Fragments(m: Message, number: nat, mtu: nat -> nat, i: nat, off: nat): (records: seq<seq<Octet>>)
    requires off <= |m.body| && forall k :: mtu(k) > HEADER
    ensures records != []
    decreases |m.body| - off
  {
    var n := if |m.body| - off > mtu(i) - HEADER then mtu(i) - HEADER else |m.body| - off;
    [FragmentRecord(m, number, off, n)] + if off + n == |m.body| then [] else Fragments(m, number, mtu, i + 1, off + n)
  }

  lemma OneFragmentMore(records: seq<seq<Octet>>, m: Message, number: nat, mtu: nat -> nat, off: nat, n: nat)
    requires off + n <= |m.body| && forall k :: mtu(k) > HEADER
    requires n == if |m.body| - off > mtu(|records|) - HEADER then mtu(|records|) - HEADER else |m.body| - off
    ensures records + Fragments(m, number, mtu, |records|, off)
         == records + [FragmentRecord(m, number, off, n)]
            + if off + n == |m.body| then [] else Fragments(m, number, mtu, |records| + 1, off + n)
  {
    var rest := if off + n == |m.body| then [] else Fragments(m, number, mtu, |records| + 1, off + n);
    hide FragmentRecord, Header.Bytes;
    assert Fragments(m, number, mtu, |records|, off) == [FragmentRecord(m, number, off, n)] + rest;
    Associate(records, [FragmentRecord(m, number, off, n)], rest);
  }

  lemma Associate(a: seq<seq<Octet>>, b: seq<seq<Octet>>, c: seq<seq<Octet>>)
    ensures a + (b + c) == a + b + c
  {}

  /** What the Finished hash has taken once the first `off` bytes are sent. */
  function HashedSoFar(m: Message, number: nat, off: nat): seq<Octet>
    requires off <= |m.body|
  {
    FragmentHeader(m, number, 0, |m.body|).Bytes() + m.body[..off]
  }

  /** No record is longer than the MTU at its time. */
  ghost predicate Within(records: seq<seq<Octet>>, mtu: nat -> nat) {
    forall i: nat :: i < |records| ==> |records[i]| <= mtu(i)
  }

  lemma NoneTooLong(mtu: nat -> nat)
    ensures Within([], mtu)
  {}

  lemma OneMoreWithin(records: seq<seq<Octet>>, record: seq<Octet>, mtu: nat -> nat)
    requires Within(records, mtu) && |record| <= mtu(|records|)
    ensures Within(records + [record], mtu)
  {}

  /** The sender's init_buf, with what it has fed to the Finished hash. */
  class Sender {
    const initBuf: array<Octet>
    var initOff: nat
    var initNum: nat
    var finished: seq<Octet>

    constructor (size: nat)
      ensures initBuf.Length == size && initOff == 0 && initNum == 0 && finished == [] && fresh(initBuf)
    {
      initBuf := new Octet[size](_ => 0);
      initOff, initNum, finished := 0, 0, [];
    }

    /** The message goes to init_buf, behind room for its header. */
    method Load(m: Message)
      requires HEADER + |m.body| <= initBuf.Length
      modifies this`initOff, this`initNum, initBuf
      ensures initOff == 0 && initNum == HEADER + |m.body| && BodyFrom(m, 0)
    {
      MemCpy(initBuf, HEADER, m.body);
      initOff, initNum := 0, HEADER + |m.body|;
    }

    /** The body is in place from byte `off` on. */
    ghost predicate BodyFrom(m: Message, off: nat)
      reads initBuf
    {
      && HEADER + |m.body| <= initBuf.Length && off <= |m.body|
      && initBuf[HEADER + off..HEADER + |m.body|] == m.body[off..]
    }

    /** One round: a header over the bytes before the piece, the record, and the piece into the Finished hash. */
    method SendPiece(ghost m: Message, hdr: Header, fragOff: nat, len: nat, retransmitting: bool)
        returns (record: seq<Octet>)
      requires hdr == FragmentHeader(m, hdr.number, 0, |m.body|) && BodyFrom(m, fragOff) && initOff == fragOff
      requires HEADER <= len && fragOff + (len - HEADER) <= |m.body|
      modifies this`finished, initBuf
      ensures record == FragmentRecord(m, hdr.number, fragOff, len - HEADER) && BodyFrom(m, fragOff) && |record| == len
      ensures finished == old(finished) + if retransmitting then [] else
        if fragOff == 0 then HashedSoFar(m, hdr.number, len - HEADER) else m.body[fragOff..fragOff + (len - HEADER)]
    {
      hide Header.Bytes;
      WriteHeader(m, hdr.(fragOff := fragOff, fragLen := len - HEADER), fragOff, len);
      record := initBuf[initOff..initOff + len];
      if !retransmitting {
        if fragOff == 0 {
          WriteHeader(m, hdr.(fragOff := 0, fragLen := hdr.msgLen), fragOff, len);
          finished := finished + initBuf[initOff..initOff + len];
        } else {
          ghost var all := initBuf[initOff..initOff + len];
          assert initBuf[initOff + HEADER..initOff + len] == all[HEADER..];
          finished := finished + initBuf[initOff + HEADER..initOff + len];
        }
      }
    }

    /** dtls1_write_message_header before the bytes of a piece. */
    method WriteHeader(ghost m: Message, hdr: Header, fragOff: nat, ghost len: nat)
      requires BodyFrom(m, fragOff) && initOff == fragOff
      requires HEADER <= len && fragOff + (len - HEADER) <= |m.body|
      modifies initBuf
      ensures BodyFrom(m, fragOff)
      ensures initBuf[fragOff..fragOff + len] == hdr.Bytes() + m.body[fragOff..fragOff + (len - HEADER)]
    {
      hide Header.Bytes;
      ghost var was, off, n := initBuf[..], fragOff, len - HEADER;
      assert was[HEADER + off..HEADER + |m.body|] == m.body[off..];
      MemCpy(initBuf, initOff, hdr.Bytes());
      Overlaid(was, hdr.Bytes(), off, m.body, n);
      assert initBuf[off..off + len] == initBuf[..][off..off + len];
      assert initBuf[HEADER + off..HEADER + |m.body|] == initBuf[..][HEADER + off..HEADER + |m.body|];
    }

    /**
     dtls1_do_write for a handshake message whose body lies after the header space of init_buf; mtu gives the room
     for one record in each round. The records carry the message piece by piece, and the Finished hash of a first
     transmission takes the unfragmented message.
     */
    method DoWrite(ghost m: Message, hdr: Header, mtu: nat -> nat, retransmitting: bool)
        returns (records: seq<seq<Octet>>)
      requires hdr == FragmentHeader(m, hdr.number, 0, |m.body|)
      requires forall i :: mtu(i) > HEADER
      requires initOff == 0 && initNum == HEADER + |m.body| && BodyFrom(m, 0)
      modifies this, initBuf
      ensures initOff == 0 && initNum == 0
      ensures records == Fragments(m, hdr.number, mtu, 0, 0)
      ensures Pieces(records, m, hdr.number, |m.body|) && records != [] && Within(records, mtu)
      ensures finished == old(finished) + if retransmitting then [] else Unfragmented(m, hdr.number)
    {
      hide Pieces, Header.Bytes, FragmentRecord, BodyFrom, Within, Fragments, HashedSoFar, Unfragmented;
      records := [];
      ghost var all := Fragments(m, hdr.number, mtu, 0, 0);
      var fragOff: nat := 0;
      NoPieces(m, hdr.number);
      NoneTooLong(mtu);
      while initNum > 0
        invariant Within(records, mtu) && fragOff <= |m.body|
        invariant all == records + Fragments(m, hdr.number, mtu, |records|, fragOff)
        invariant BodyFrom(m, fragOff) && Pieces(records, m, hdr.number, fragOff)
        invariant fragOff == 0 ==> records == [] && initOff == 0 && initNum == HEADER + |m.body|
        invariant fragOff > 0 ==> initOff == HEADER + fragOff && initNum == |m.body| - fragOff > 0
        invariant finished == old(finished) + if retransmitting || fragOff == 0 then []
                    else HashedSoFar(m, hdr.number, fragOff)
        decreases |m.body| - fragOff
      {
        var currMtu := mtu(|records|);
        var len := if initNum > currMtu then currMtu else initNum;
        if initOff != 0 {
          initOff := initOff - HEADER;
          initNum := initNum + HEADER;
          len := if initNum > currMtu then currMtu else initNum;
        }
        ghost var n := len - HEADER;
        assert n == if |m.body| - fragOff > currMtu - HEADER then currMtu - HEADER else |m.body| - fragOff;
        var record := SendPiece(m, hdr, fragOff, len, retransmitting);
        HashGrows(m, hdr.number, fragOff, len - HEADER);
        OnePieceMore(records, m, hdr.number, fragOff, len - HEADER);
        OneMoreWithin(records, record, mtu);
        OneFragmentMore(records, m, hdr.number, mtu, fragOff, len - HEADER);
        records := records + [record];
        if len == initNum {
          initOff, initNum := 0, 0;
          return;
        }
        BodyLater(m, fragOff, fragOff + (len - HEADER));
        initOff := initOff + len;
        initNum := initNum - len;
        fragOff := fragOff + (len - HEADER);
      }
    }

    lemma BodyLater(m: Message, off: nat, next: nat)
      requires BodyFrom(m, off) && off <= next <= |m.body|
      ensures BodyFrom(m, next)
    {
      assert initBuf[HEADER + next..HEADER + |m.body|] == initBuf[HEADER + off..HEADER + |m.body|][next - off..];
    }
  }

  lemma NoPieces(m: Message, number: nat)
    ensures Pieces([], m, number, 0)
  {}

  lemma HashGrows(m: Message, number: nat, off: nat, n: nat)
    requires off + n <= |m.body|
    ensures HashedSoFar(m, number, off) + m.body[off..off + n] == HashedSoFar(m, number, off + n)
    ensures HashedSoFar(m, number, |m.body|) == Unfragmented(m, number)
  {
    assert m.body[..off] + m.body[off..off + n] == m.body[..off + n];
    assert m.body[..|m.body|] == m.body;
  }

  /** Writing 12 bytes before byte `off` of the body leaves the body from there on. */
  lemma Overlaid(was: seq<Octet>, h: seq<Octet>, off: nat, body: seq<Octet>, n: nat)
    requires |h| == HEADER && HEADER + |body| <= |was| && off + n <= |body|
    requires was[HEADER + off..HEADER + |body|] == body[off..]
    ensures var now := was[..off] + h + was[off + HEADER..];
      now[HEADER + off..HEADER + |body|] == body[off..] && now[off..off + (n + HEADER)] == h + body[off..off + n]
  {
    var now := was[..off] + h + was[off + HEADER..];
    assert now[HEADER + off..HEADER + |body|] == was[HEADER + off..HEADER + |body|];
    assert now[off + HEADER..off + HEADER + n] == body[off..][..n] == body[off..off + n];
    assert now[off..off + (n + HEADER)] == now[off..off + HEADER] + now[off + HEADER..off + HEADER + n];
    assert now[off..off + HEADER] == h;
  }
}
