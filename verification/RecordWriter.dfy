/**
 Numbering of written DTLS records (libressl ssl/d1_pkt.c, ssl/t1_enc.c, ssl/d1_both.c): fresh records, changes of
 the epoch, and retransmissions of messages from an earlier epoch, which borrow that epoch's last counter.
 */
module RecordWriter {
  import opened Arithmetic
  import opened Octets

  const EPOCHS: nat := 0x1_0000                             // epochs have 16 bits on the wire
  const NUMBERS: nat := 0x1_0000_0000_0000                  // record numbers have 48

  /** tls1_record_sequence_increment: adds one, modulo 2 to the power 64. */
  method Increment(s: seq<Octet>) returns (r: seq<Octet>)
    requires |s| == 8
    ensures |r| == 8 && Num(r) == (Num(s) + 1) % 0x1_0000_0000_0000_0000
  {
    hide Num, Pow;
    r := s;
    var i := 7;
    EmptyTail(s);
    while i >= 0
      invariant -1 <= i <= 7 && |r| == 8
      invariant r[..i + 1] == s[..i + 1]
      invariant Num(r[i + 1..]) == 0
      invariant Num(s[i + 1..]) + 1 == Pow(256, 7 - i)
    {
      ghost var was := r;
      assert r[i] == r[..i + 1][i] == s[..i + 1][i] == s[i];
      assert r[..i] == r[..i + 1][..i] == s[..i + 1][..i] == s[..i];
      var byte: int := r[i];
      byte := (byte + 1) % 256;
      r := r[i := byte];
      if byte != 0 {
        LastCarry(s, was, i, byte);
        return;
      }
      CarryByte(s, was, i);
      i := i - 1;
    }
    assert r[0..] == r && s[0..] == s;
    WholeRange();
    assert Num(s) + 1 == 0x1_0000_0000_0000_0000;
  }

  lemma EmptyTail(s: seq<Octet>)
    requires |s| == 8
    ensures Num(s[8..]) == 0 && Pow(256, 0) == 1
  {}

  lemma WholeRange()
    ensures Pow(256, 8) == 0x1_0000_0000_0000_0000
  {
    assert Pow(256, 4) == 0x1_0000_0000;
    PowAdd(256, 4, 4);
  }

  /** The number in bytes i on, from byte i and the rest. */
  lemma FromByte(s: seq<Octet>, i: nat)
    requires |s| == 8 && i < 8
    ensures Num(s[i..]) == s[i] * Pow(256, 7 - i) + Num(s[i + 1..])
  {
    NumSplitsFirst(s[i..]);
    assert s[i..][1..] == s[i + 1..];
  }

  lemma SplitAt(s: seq<Octet>, i: nat)
    requires |s| == 8 && i < 8
    ensures Num(s) == Num(s[..i]) * Pow(256, 8 - i) + Num(s[i..])
  {
    NumConcat(s[..i], s[i..]);
    assert s == s[..i] + s[i..];
  }

  lemma CarryByte(s: seq<Octet>, r: seq<Octet>, i: nat)
    requires |s| == |r| == 8 && i < 8 && s[i] == 255
    requires Num(r[i + 1..]) == 0 && Num(s[i + 1..]) + 1 == Pow(256, 7 - i)
    ensures Num(r[i := 0][i..]) == 0 && Num(s[i..]) + 1 == Pow(256, 8 - i)
  {
    FromByte(s, i);
    FromByte(r[i := 0], i);
    assert r[i := 0][i + 1..] == r[i + 1..];
    assert Pow(256, 8 - i) == 256 * Pow(256, 7 - i);
  }

  lemma LastCarry(s: seq<Octet>, r: seq<Octet>, i: nat, y: Octet)
    requires |s| == |r| == 8 && i < 8 && r[..i] == s[..i] && s[i] < 255 && y == s[i] as int + 1
    requires Num(r[i + 1..]) == 0 && Num(s[i + 1..]) + 1 == Pow(256, 7 - i)
    ensures Num(r[i := y]) == (Num(s) + 1) % 0x1_0000_0000_0000_0000
  {
    hide Num, Pow;
    var t := r[i := y];
    assert t[i + 1..] == r[i + 1..] && t[..i] == s[..i];
    SplitAt(s, i);
    SplitAt(t, i);
    FromByte(s, i);
    FromByte(t, i);
    var low: nat := s[i];
    assert (low + 1) * Pow(256, 7 - i) == low * Pow(256, 7 - i) + Pow(256, 7 - i);
    DigitsOfNum(t);
    WholeRange();
  }

  /** Where a written record says it belongs. */
  datatype Header = Header(epoch: nat, number: nat)

  /** The headers of k records written one after the other under a counter that starts at n. */
  function Numbered(epoch: nat, n: nat, k: nat): (r: seq<Header>)
    ensures |r| == k
  {
    seq(k, i requires 0 <= i => Header(epoch, (n + i) % NUMBERS))
  }

  /** The log holds the numbers below counts[e] of each epoch e, each once exactly while the numbers suffice. */
  ghost predicate Covers(log: seq<Header>, counts: seq<nat>) {
    && (forall h :: h in log ==> h.epoch < |counts| && h.number < counts[h.epoch] && h.number < NUMBERS)
    && (forall e, n :: 0 <= e < |counts| && 0 <= n < counts[e] && n < NUMBERS ==> Header(e, n) in log)
    && ((forall e :: 0 <= e < |counts| ==> counts[e] <= NUMBERS) <==> Distinct(log))
  }

  ghost predicate Distinct(log: seq<Header>) {
    forall i, j :: 0 <= i < j < |log| ==> log[i] != log[j]
  }

  lemma RepeatIsNotDistinct(log: seq<Header>, h: Header)
    requires h in log || !Distinct(log)
    ensures !Distinct(log + [h])
  {
    var more := log + [h];
    if h in log {
      var i :| 0 <= i < |log| && log[i] == h;
      assert more[i] == more[|log|];
    } else {
      var i, j :| 0 <= i < j < |log| && log[i] == log[j];
      assert more[i] == more[j];
    }
  }

  lemma CoversOne(log: seq<Header>, counts: seq<nat>, e: nat)
    requires Covers(log, counts) && e < |counts|
    ensures Covers(log + [Header(e, counts[e] % NUMBERS)], counts[e := counts[e] + 1])
  {
    var h := Header(e, counts[e] % NUMBERS);
    var more := counts[e := counts[e] + 1];
    forall f, n | 0 <= f < |more| && 0 <= n < more[f] && n < NUMBERS
      ensures Header(f, n) in log + [h]
    {
      if f == e && n == counts[e] {
        assert h == Header(f, n);
      } else {
        assert Header(f, n) in log;
      }
    }
    if Distinct(log) && counts[e] < NUMBERS {
      assert h !in log;
      assert forall f :: 0 <= f < |more| ==> more[f] <= NUMBERS;
    } else {
      assert h in log || !Distinct(log);
      RepeatIsNotDistinct(log, h);
      assert more[e] > NUMBERS || exists f :: 0 <= f < |counts| && counts[f] > NUMBERS && more[f] > NUMBERS;
    }
  }

  lemma {:induction false} CoversMore(log: seq<Header>, counts: seq<nat>, e: nat, k: nat)
    requires Covers(log, counts) && e < |counts|
    ensures Covers(log + Numbered(e, counts[e], k), counts[e := counts[e] + k])
  {
    hide Covers;
    var n, r := counts[e], Numbered(e, counts[e], k);
    if k == 0 {
      assert log + r == log && counts[e := n + k] == counts;
    } else {
      CoversMore(log, counts, e, k - 1);
      var before, later := log + Numbered(e, n, k - 1), counts[e := n + (k - 1)];
      CoversOne(before, later, e);
      assert r == Numbered(e, n, k - 1) + [Header(e, later[e] % NUMBERS)];
      assert log + r == before + [Header(e, later[e] % NUMBERS)];
      assert later[e := later[e] + 1] == counts[e := n + k];
    }
  }

  /** A record written under a foreign counter repeats a header exactly if that counter is behind. */
  lemma RepeatsIffBehind(log: seq<Header>, counts: seq<nat>, e: nat, n: nat)
    requires Covers(log, counts) && e < |counts|
    ensures Header(e, n % NUMBERS) in log <==> n % NUMBERS < counts[e]
  {}

  lemma WireNumber(s: seq<Octet>)
    requires |s| == 8
    ensures Num(s[2..]) == Num(s) % NUMBERS
  {
    NumConcat(s[..2], s[2..]);
    assert s == s[..2] + s[2..];
    DigitsOfNum(s[2..]);
    assert Pow(256, 3) == 0x100_0000;
    PowAdd(256, 3, 3);
  }

  lemma ZeroCounter()
    ensures Num(seq(8, _ => 0)) == 0
  {
    assert seq(8, _ => 0) == Digits(0, 8);
    NumOfDigits(0, 8);
  }

  lemma NextCounter(n: nat, k: nat)
    ensures (n % 0x1_0000_0000_0000_0000 + k) % NUMBERS == (n + k) % NUMBERS
    ensures (n % 0x1_0000_0000_0000_0000 + k) % 0x1_0000_0000_0000_0000 == (n + k) % 0x1_0000_0000_0000_0000
  {
    var q := n / 0x1_0000_0000_0000_0000;
    assert n + k == n % 0x1_0000_0000_0000_0000 + k + q * 0x1_0000 * NUMBERS;
  }

  datatype Step = Send(k: nat) | NewKeys | Resend(epoch: nat, k: nat)

  function CountsAfter(c: seq<nat>, step: Step): (r: seq<nat>)
    requires |c| > 0
    ensures |r| >= |c|
  {
    match step
    case Send(k) => c[|c| - 1 := c[|c| - 1] + k]
    case NewKeys => c + [0]
    case Resend(epoch, k) => if epoch < |c| then c[epoch := c[epoch] + k] else c
  }

  class Writer {
    var wEpoch: nat
    var writeSequence: seq<Octet>
    var lastWriteSequence: seq<Octet>
    var log: seq<Header>                // headers of all records written
    ghost var counts: seq<nat>          // how many records each epoch has had

    ghost predicate Valid()
      reads this
    {
      && |counts| == wEpoch + 1 <= EPOCHS && |writeSequence| == |lastWriteSequence| == 8
      && Num(writeSequence) == counts[wEpoch] % 0x1_0000_0000_0000_0000
      && (wEpoch > 0 ==> Num(lastWriteSequence) == counts[wEpoch - 1] % 0x1_0000_0000_0000_0000)
      && Covers(log, counts)
    }

    lemma ValidCovers()
      requires Valid()
      ensures Covers(log, counts)
    {}

    constructor ()
      ensures Valid() && wEpoch == 0 && log == [] && counts == [0]
    {
      wEpoch, writeSequence, lastWriteSequence, log, counts := 0, seq(8, _ => 0), seq(8, _ => 0), [], [0];
      new;
      ZeroCounter();
    }

    /** The numbering in do_dtls1_write: epoch and low 48 bits of the counter go out, and the counter advances. */
    method WriteRecord()
      requires |writeSequence| == 8
      modifies this`writeSequence, this`log
      ensures |writeSequence| == 8 && Num(writeSequence) == (Num(old(writeSequence)) + 1) % 0x1_0000_0000_0000_0000
      ensures log == old(log) + [Header(wEpoch, Num(old(writeSequence)) % NUMBERS)]
    {
      WireNumber(writeSequence);
      log := log + [Header(wEpoch, Num(writeSequence[2..]))];
      writeSequence := Increment(writeSequence);
    }

    /** The records of one message or of application data. */
    method WriteRecords(k: nat)
      requires |writeSequence| == 8
      modifies this`writeSequence, this`log
      ensures |writeSequence| == 8 && Num(writeSequence) == (Num(old(writeSequence)) + k) % 0x1_0000_0000_0000_0000
      ensures log == old(log) + Numbered(wEpoch, Num(old(writeSequence)), k)
    {
      ghost var n := Num(writeSequence);
      DigitsOfNum(writeSequence);
      WholeRange();
      var i := 0;
      while i < k
        invariant 0 <= i <= k && |writeSequence| == 8
        invariant Num(writeSequence) == (n + i) % 0x1_0000_0000_0000_0000
        invariant log == old(log) + Numbered(wEpoch, n, i)
      {
        NextCounter(n + i, 0);
        NextCounter(n + i, 1);
        assert Numbered(wEpoch, n, i + 1) == Numbered(wEpoch, n, i) + [Header(wEpoch, (n + i) % NUMBERS)];
        WriteRecord();
        i := i + 1;
      }
    }

    /** Fresh records of the current epoch: a header repeats an earlier one exactly when the numbers ran out. */
    method Write(k: nat)
      requires Valid()
      modifies this`writeSequence, this`log, this`counts
      ensures Valid() && counts == old(counts)[wEpoch := old(counts)[wEpoch] + k]
      ensures log == old(log) + Numbered(wEpoch, old(counts)[wEpoch], k)
      ensures k > 0 ==> (log[|old(log)|] in old(log) <==> old(counts)[wEpoch] >= 0x1_0000_0000_0000)
    {
      hide Covers;
      var n := counts[wEpoch];
      NextCounter(n, k);
      SameNumbers(wEpoch, n, k);
      RepeatsIffBehind(log, counts, wEpoch, n);
      CoversMore(log, counts, wEpoch, k);
      WriteRecords(k);
      counts := counts[wEpoch := n + k];
    }

    /** dtls1_reset_seq_numbers for writing; epochs come round after 65535 changes. */
    method ChangeWriteEpoch()
      requires Valid()
      modifies this
      ensures old(wEpoch) + 1 < EPOCHS ==> Valid()
      ensures wEpoch == (old(wEpoch) + 1) % EPOCHS && log == old(log) && counts == old(counts) + [0]
    {
      hide Covers, Num;
      lastWriteSequence := writeSequence;
      wEpoch := (wEpoch + 1) % EPOCHS;
      writeSequence := seq(8, _ => 0);
      ZeroCounter();
      counts := counts + [0];
      NothingInNewEpoch(log, old(counts));
    }

    /**
     dtls1_retransmit_message around its k records. For a message of the current or the previous epoch the
     records take the next numbers of that epoch, and the current epoch and its counter are as before. A message
     of an older epoch goes out under the counter of the current one.
     */
    method Retransmit(fragEpoch: nat, k: nat)
      requires Valid() && fragEpoch <= wEpoch
      modifies this
      ensures wEpoch == old(wEpoch)
      ensures wEpoch <= fragEpoch + 1 ==> Valid() && counts == old(counts)[fragEpoch := old(counts)[fragEpoch] + k]
      ensures fragEpoch + 1 == wEpoch ==> writeSequence == old(writeSequence)
      ensures log == old(log)
                + Numbered(fragEpoch, old(counts)[if fragEpoch + 1 == wEpoch then fragEpoch else wEpoch], k)
      ensures k > 0 ==> (log[|old(log)|] in old(log) <==>
        if wEpoch <= fragEpoch + 1 then old(counts)[fragEpoch] >= NUMBERS
        else old(counts)[wEpoch] % NUMBERS < old(counts)[fragEpoch])
    {
      hide Covers, Num;
      var savedEpoch: int, savedSequence := wEpoch, writeSequence;
      ghost var source := if fragEpoch + 1 == wEpoch then fragEpoch else wEpoch;
      ghost var n := counts[source];
      NextCounter(n, k);
      SameNumbers(fragEpoch, n, k);
      RepeatsIffBehind(log, counts, fragEpoch, n);
      CoversMore(log, counts, fragEpoch, k);
      wEpoch := fragEpoch;
      if fragEpoch == savedEpoch - 1 {
        writeSequence := lastWriteSequence;
      }
      WriteRecords(k);
      wEpoch := savedEpoch;
      if fragEpoch == savedEpoch - 1 {
        lastWriteSequence := writeSequence;
        writeSequence := savedSequence;
      }
      counts := counts[fragEpoch := counts[fragEpoch] + k];
      assert k > 0 ==> log[|old(log)|] == Numbered(fragEpoch, n, k)[0];
    }

    /** One step of a run. */
    method Do(step: Step)
      requires Valid() && |CountsAfter(counts, step)| <= EPOCHS
      requires step.Resend? ==> step.epoch < |counts| <= step.epoch + 2
      modifies this
      ensures Valid() && counts == CountsAfter(old(counts), step)
    {
      hide Covers, Num, Numbered;
      match step {
        case Send(k) => Write(k);
        case NewKeys => ChangeWriteEpoch();
        case Resend(epoch, k) => Retransmit(epoch, k);
      }
    }
  }

  /** The counter holds the count modulo 2 to the power 64, which the wire numbers do not notice. */
  lemma SameNumbers(e: nat, n: nat, k: nat)
    ensures Numbered(e, n % 0x1_0000_0000_0000_0000, k) == Numbered(e, n, k)
  {
    forall i | 0 <= i < k
      ensures Numbered(e, n % 0x1_0000_0000_0000_0000, k)[i] == Numbered(e, n, k)[i]
    {
      NextCounter(n, i);
    }
  }

  lemma NothingInNewEpoch(log: seq<Header>, counts: seq<nat>)
    requires Covers(log, counts)
    ensures Covers(log, counts + [0])
  {
    var more := counts + [0];
    forall h | h in log ensures h.epoch < |more| && h.number < more[h.epoch] && h.number < NUMBERS {
      assert more[h.epoch] == counts[h.epoch];
    }
    assert forall e :: 0 <= e < |counts| ==> more[e] == counts[e];
  }

  /** How many records each epoch has had after these steps. */
  function Counts(steps: seq<Step>): (c: seq<nat>)
    ensures |c| > 0
  {
    if steps == [] then [0] else CountsAfter(Counts(steps[..|steps| - 1]), steps[|steps| - 1])
  }

  /** Messages are retransmitted only while their epoch is the current or the previous one. */
  ghost predicate FlightsAreRecent(steps: seq<Step>) {
    forall i :: 0 <= i < |steps| && steps[i].Resend? ==>
      steps[i].epoch < |Counts(steps[..i])| <= steps[i].epoch + 2
  }

  /**
   Any run of writes, key changes and retransmissions of recent flights: no pair of epoch and number is on two
   records exactly as long as no epoch has more records than there are numbers.
   */
  method Run(steps: seq<Step>) returns (log: seq<Header>)
    requires FlightsAreRecent(steps) && |Counts(steps)| <= EPOCHS
    ensures (forall c :: c in Counts(steps) ==> c <= 0x1_0000_0000_0000) <==>
            forall i, j :: 0 <= i < j < |log| ==> log[i] != log[j]
  {
    hide Covers, CountsAfter, Writer.Valid;
    var w := new Writer();
    var i := 0;
    assert steps[..0] == [];
    while i < |steps|
      invariant 0 <= i <= |steps| && w.Valid() && fresh(w)
      invariant w.counts == Counts(steps[..i])
    {
      assert steps[..i + 1][..i] == steps[..i];
      FewerEpochs(steps, i + 1);
      w.Do(steps[i]);
      i := i + 1;
    }
    assert steps[..i] == steps;
    log := w.log;
    assert Covers(log, w.counts) by { w.ValidCovers(); }
    CountsDecide(log, w.counts);
  }

  lemma CountsDecide(log: seq<Header>, counts: seq<nat>)
    requires Covers(log, counts)
    ensures (forall c :: c in counts ==> c <= NUMBERS) <==> Distinct(log)
  {
    if !Distinct(log) {
      var e :| 0 <= e < |counts| && counts[e] > NUMBERS;
      assert counts[e] in counts;
    }
  }

  lemma {:induction false} FewerEpochs(steps: seq<Step>, i: nat)
    requires i <= |steps|
    ensures |Counts(steps[..i])| <= |Counts(steps)|
    decreases |steps| - i
  {
    if i == |steps| {
      assert steps[..i] == steps;
    } else {
      FewerEpochs(steps, i + 1);
      assert steps[..i + 1][..i] == steps[..i];
    }
  }

  /** A flight of two epochs ago is retransmitted under numbers already used. */
  method OldFlightRepeats() returns (log: seq<Header>)
    ensures |log| == 2 && log[0] == log[1]
  {
    var w := new Writer();
    w.Write(1);
    w.ChangeWriteEpoch();
    w.ChangeWriteEpoch();
    w.Retransmit(0, 1);
    log := w.log;
  }
}
