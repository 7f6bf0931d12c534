/**
 The Redis protocol as lua-redis-parser speaks it (redis-parser.c): a query is built in two passes, one for its size
 and one that writes it, and the reply parser reads the same format back.
 */
module RedisProtocol {
  import opened Decimals
  import opened Memory

  const CRLF: string := "\r\n"
  const UINT64_LEN: nat := 20

  datatype Param = Str(s: string) | Bool(b: bool) | Null | Other

  /** A value inside a multi-bulk reply. */
  datatype Value = Bytes(s: string) | Nil

  function NumText(n: nat): (t: string)
    ensures IsDigits(t) && t != "" && Dec(t) == n
  {
    if n < 10 then
      assert [Digit(n)][..0] == "";
      [Digit(n)]
    else
      var front := NumText(n / 10);
      DecAppend(front, Digit(n % 10));
      front + [Digit(n % 10)]
  }

  function Bulk(s: string): string {
    "$" + NumText(|s|) + CRLF + s + CRLF
  }

  /** How a parameter travels: strings and truth values as bulks, null as the null bulk. */
  function Sent(p: Param): string {
    match p
    case Str(s) => Bulk(s)
    case Bool(b) => Bulk(if b then "1" else "0")
    case Null => "$-1\r\n"
    case Other => ""
  }

  function SentAll(ps: seq<Param>): string {
    if ps == [] then "" else SentAll(ps[..|ps| - 1]) + Sent(ps[|ps| - 1])
  }

  function Query(ps: seq<Param>): string {
    "*" + NumText(|ps|) + CRLF + SentAll(ps)
  }

  /** What the receiver of a parameter finds. */
  function Meaning(p: Param): Value {
    match p
    case Str(s) => Bytes(s)
    case Bool(b) => Bytes(if b then "1" else "0")
    case Null => Nil
    case Other => Nil
  }

  function Meanings(ps: seq<Param>): seq<Value> {
    seq(|ps|, i requires 0 <= i < |ps| => Meaning(ps[i]))
  }

  /** The decimal text of a number: its digits, the first of which is zero in "0" only. */
  predicate IsDecimal(t: string, n: nat) {
    t != "" && IsDigits(t) && Dec(t) == n && (t[0] == '0' ==> t == "0")
  }

  lemma {:induction false} DecimalIsUnique(t: string, n: nat)
    ensures IsDecimal(t, n) <==> t == NumText(n)
    decreases n
  {
    if IsDecimal(t, n) {
      var front := t[..|t| - 1];
      DigitIs(t[|t| - 1]);
      if front == "" {
        NoTens(t);
      } else {
        assert front[0] == t[0];
        TensAreNotZero(front);
        DecimalIsUnique(front, n / 10);
      }
    }
    if n >= 10 {
      DecimalIsUnique(NumText(n / 10), n / 10);
    }
  }

  lemma DigitIs(c: char)
    requires IsDigit(c)
    ensures Digit(DigitValue(c)) == c
  {}

  lemma NoTens(t: string)
    requires |t| == 1 && IsDigits(t)
    ensures Dec(t) == DigitValue(t[0])
  {
    assert Dec(t[..0]) == 0;
  }

  lemma {:induction false} TensAreNotZero(t: string)
    requires t != "" && IsDigits(t) && t[0] != '0'
    ensures Dec(t) > 0
  {
    if |t| > 1 {
      TensAreNotZero(t[..|t| - 1]);
    } else {
      NoTens(t);
    }
  }

  /** What goes out for each kind of parameter. */
  lemma OnTheWire(s: string, n: string)
    requires IsDecimal(n, |s|)
    ensures Sent(Str(s)) == "$" + n + "\r\n" + s + "\r\n" && Sent(Null) == "$-1\r\n"
    ensures Sent(Bool(true)) == "$1\r\n1\r\n" && Sent(Bool(false)) == "$1\r\n0\r\n"
    ensures Meaning(Str(s)) == Bytes(s) && Meaning(Null) == Nil
    ensures Meaning(Bool(true)) == Bytes("1") && Meaning(Bool(false)) == Bytes("0")
  {
    DecimalIsUnique(n, |s|);
    assert NumText(1) == "1" by { OneByte(); }
    assert Sent(Bool(true)) == Bulk("1") && Sent(Bool(false)) == Bulk("0");
  }

  /** A query is an asterisk and the number of parameters on a line, and the parameters in their order. */
  lemma QueryIs(ps: seq<Param>, p: Param, n: string, n1: string)
    requires IsDecimal(n, |ps|) && IsDecimal(n1, |ps| + 1)
    ensures Query([]) == "*0\r\n" && "*" + n + "\r\n" <= Query(ps)
    ensures Query(ps + [p]) == "*" + n1 + "\r\n" + Query(ps)[|n| + 3..] + Sent(p)
  {
    hide NumText, Sent;
    DecimalIsUnique(n, |ps|);
    DecimalIsUnique(n1, |ps| + 1);
    DecimalIsUnique("0", 0);
    assert (ps + [p])[..|ps|] == ps;
    assert Query(ps)[|n| + 3..] == SentAll(ps);
    assert "*" + n1 + "\r\n" + (SentAll(ps) + Sent(p)) == "*" + n1 + "\r\n" + SentAll(ps) + Sent(p);
  }

  /** get_num_size: the number of digits. */
  method GetNumSize(v: nat) returns (n: nat)
    ensures n == |NumText(v)|
  {
    var i := v / 10;
    n := 1;
    while i > 0
      invariant |NumText(v)| == n + if i > 0 then |NumText(i)| else 0
    {
      i := i / 10;
      n := n + 1;
    }
  }

  lemma {:induction false} NumSize(v: nat, k: nat)
    requires v < Pow10(k) && k > 0
    ensures |NumText(v)| <= k
  {
    Pow10Next(0);
    Pow10Next(k - 1);
    if v >= 10 {
      NumSize(v / 10, k - 1);
    }
  }

  /** The digits still to be written: none of zero. */
  function Front(u: nat): (t: string)
    ensures u > 0 ==> t != ""
  {
    if u > 0 then NumText(u) else ""
  }

  lemma NumTextSplits(v: nat, tail: string)
    ensures NumText(v) == Front(v / 10) + [Digit(v % 10)]
    ensures v > 0 ==> Front(v) + tail == Front(v / 10) + ([Digit(v % 10)] + tail)
  {}

  /** The digits of v, written backwards from the end of a small buffer. */
  method DigitsBackwards(temp: array<char>, v: nat) returns (p: nat)
    requires temp.Length == UINT64_LEN + 1 && |NumText(v)| <= UINT64_LEN
    modifies temp
    ensures p == UINT64_LEN - |NumText(v)| && temp[p..UINT64_LEN] == NumText(v)
  {
    hide NumText, Digit, Front;
    p := UINT64_LEN - 1;
    var ui := v;
    NumTextSplits(v, "");
    temp[p] := Digit(ui % 10);
    ui := ui / 10;
    assert temp[p..UINT64_LEN] == [Digit(v % 10)];
    while ui > 0
      invariant 0 <= p < UINT64_LEN
      invariant NumText(v) == Front(ui) + temp[p..UINT64_LEN]
      decreases ui
    {
      ghost var tail := temp[p..UINT64_LEN];
      NumTextSplits(ui, tail);
      p := p - 1;
      temp[p] := Digit(ui % 10);
      assert temp[p..UINT64_LEN] == [Digit(ui % 10)] + tail;
      ui := ui / 10;
    }
    assert Front(0) == "" by { FrontOfZero(); }
  }

  lemma FrontOfZero()
    ensures Front(0) == ""
  {}

  /** sprintf_num. */
  method SprintfNum(dst: array<char>, at: nat, v: nat) returns (end: nat)
    requires |NumText(v)| <= UINT64_LEN && at + |NumText(v)| <= dst.Length
    modifies dst
    ensures end == at + |NumText(v)|
    ensures dst[..] == old(dst[..at]) + NumText(v) + old(dst[end..])
  {
    hide NumText;
    var temp := new char[UINT64_LEN + 1](_ => '0');
    var p := DigitsBackwards(temp, v);
    MemCpy(dst, at, temp[p..UINT64_LEN]);
    end := at + (UINT64_LEN - p);
  }

  /** memcpy to a moving end. */
  method Put(buf: array<char>, last: nat, s: string) returns (end: nat)
    requires last + |s| <= buf.Length
    modifies buf
    ensures end == last + |s| && buf[..end] == old(buf[..last]) + s
  {
    ghost var before := buf[..last];
    MemCpy(buf, last, s);
    end := last + |s|;
    assert buf[..end] == buf[..][..end];
  }

  method PutNum(buf: array<char>, last: nat, v: nat) returns (end: nat)
    requires |NumText(v)| <= UINT64_LEN && last + |NumText(v)| <= buf.Length
    modifies buf
    ensures end == last + |NumText(v)| && buf[..end] == old(buf[..last]) + NumText(v)
  {
    end := SprintfNum(buf, last, v);
    assert buf[..end] == buf[..][..end];
  }

  lemma SentNext(ps: seq<Param>, i: nat)
    requires i < |ps|
    ensures SentAll(ps[..i + 1]) == SentAll(ps[..i]) + Sent(ps[i])
  {
    assert ps[..i + 1][..i] == ps[..i];
  }

  lemma {:induction false} SentGrows(ps: seq<Param>, i: nat)
    requires i <= |ps|
    ensures |SentAll(ps[..i])| <= |SentAll(ps)|
    decreases |ps| - i
  {
    if i == |ps| {
      assert ps[..i] == ps;
    } else {
      SentNext(ps, i);
      SentGrows(ps, i + 1);
    }
  }

  /** Sizes are 64-bit numbers. */
  ghost predicate SizesFit(ps: seq<Param>) {
    |ps| < Pow10(UINT64_LEN) && forall p :: p in ps && p.Str? ==> |p.s| < Pow10(UINT64_LEN)
  }

  /** The first pass of redis_build_query: the size of the query, unless a parameter has no encoding. */
  method TotalSize(ps: seq<Param>) returns (ok: bool, total: nat)
    ensures ok <==> forall p :: p in ps ==> p != Other
    ensures ok ==> total == |Query(ps)|
  {
    hide Sent;
    var size := GetNumSize(|ps|);
    total := 1 + size + 2;
    var i := 0;
    assert ps[..0] == [];
    while i < |ps|
      invariant 0 <= i <= |ps| && total == 1 + |NumText(|ps|)| + 2 + |SentAll(ps[..i])|
      invariant forall p :: p in ps[..i] ==> p != Other
    {
      SentNext(ps, i);
      assert ps[i] in ps && ps[..i + 1] == ps[..i] + [ps[i]];
      var n;
      ok, n := SizeOf(ps[i]);
      if !ok {
        return;
      }
      total := total + n;
      i := i + 1;
    }
    assert ps[..i] == ps;
    ok := true;
  }

  method SizeOf(p: Param) returns (ok: bool, n: nat)
    ensures ok <==> p != Other
    ensures n == |Sent(p)|
  {
    match p {
      case Str(s) =>
        var size := GetNumSize(|s|);
        return true, 1 + size + 2 + |s| + 2;
      case Bool(_) =>
        return true, |"$1\r\n1\r\n"|;
      case Null =>
        return true, |"$-1\r\n"|;
      case Other =>
        return false, 0;
    }
  }

  /** The second pass for one parameter. */
  method Write(buf: array<char>, at: nat, p: Param) returns (last: nat)
    requires at + |Sent(p)| <= buf.Length && (p.Str? ==> |p.s| < Pow10(UINT64_LEN))
    modifies buf
    ensures last == at + |Sent(p)| && buf[..last] == old(buf[..at]) + Sent(p)
  {
    match p {
      case Str(s) =>
        last := WriteBulk(buf, at, s);
      case Bool(b) =>
        OneByte();
        last := Put(buf, at, "$1\r\n");
        last := Put(buf, last, if b then "1" else "0");
        last := Put(buf, last, CRLF);
        assert Sent(p) == "$1\r\n" + (if b then "1" else "0") + CRLF;
      case Null =>
        last := Put(buf, at, "$-1\r\n");
      case Other =>
        last := at;
    }
  }

  lemma OneByte()
    ensures NumText(1) == "1"
  {}

  method WriteBulk(buf: array<char>, at: nat, s: string) returns (last: nat)
    requires at + |Bulk(s)| <= buf.Length && |s| < Pow10(UINT64_LEN)
    modifies buf
    ensures last == at + |Bulk(s)| && buf[..last] == old(buf[..at]) + Bulk(s)
  {
    hide NumText;
    ghost var base := buf[..at];
    NumSize(|s|, UINT64_LEN);
    last := Put(buf, at, "$");
    last := PutNum(buf, last, |s|);
    last := Put(buf, last, CRLF);
    assert buf[..last] == base + ("$" + NumText(|s|) + CRLF);
    last := Put(buf, last, s);
    last := Put(buf, last, CRLF);
    assert buf[..last] == base + ("$" + NumText(|s|) + CRLF) + s + CRLF;
    assert buf[..last] == base + Bulk(s);
  }

  /** redis_build_query: both passes agree on the size, and the buffer holds the query. */
  method BuildQuery(ps: seq<Param>) returns (ok: bool, query: string)
    requires SizesFit(ps)
    ensures ok <==> ps != [] && forall p :: p in ps ==> p != Other
    ensures ok ==> query == Query(ps)
  {
    hide Sent, SentAll, NumText;
    if |ps| == 0 {
      return false, "";
    }
    var total;
    ok, total := TotalSize(ps);
    if !ok {
      return false, "";
    }
    NumSize(|ps|, UINT64_LEN);
    var buf := new char[total](_ => '0');
    var last := Put(buf, 0, "*");
    last := PutNum(buf, last, |ps|);
    last := Put(buf, last, CRLF);
    ghost var head := "*" + NumText(|ps|) + CRLF;
    NothingSent(ps);
    var i := 0;
    while i < |ps|
      invariant 0 <= i <= |ps| && last == |head| + |SentAll(ps[..i])| <= buf.Length
      invariant buf[..last] == head + SentAll(ps[..i])
    {
      SentNext(ps, i);
      SentGrows(ps, i + 1);
      assert ps[i] in ps;
      last := Write(buf, last, ps[i]);
      i := i + 1;
    }
    assert ps[..i] == ps;
    if last != total {
      return false, "";      // "buffer error"
    }
    return true, buf[..];
  }

  lemma NothingSent(ps: seq<Param>)
    ensures SentAll(ps[..0]) == ""
  {}

  predicate CrLfAt(src: string, i: nat) {
    i + 1 < |src| && src[i] == '\r' && src[i + 1] == '\n'
  }

  /** parse_single_line_reply: the text before the first line end. */
  method ParseSingleLine(src: string, start: nat) returns (ok: bool, dstLen: nat)
    requires start <= |src|
    ensures ok ==> IsLine(src, start, dstLen)
    ensures !ok ==> forall n: nat :: !IsLine(src, start, n)
  {
    var p := start;
    var seenCr := false;
    while p != |src|
      invariant start <= p <= |src| && (seenCr <==> p > start && src[p - 1] == '\r')
      invariant forall i :: start <= i < p - 1 ==> !CrLfAt(src, i)
      decreases |src| - p
    {
      if src[p] == '\r' {
        seenCr := true;
      } else if seenCr {
        if src[p] == '\n' {
          assert CrLfAt(src, p - 1);
          return true, p - start - 1;
        }
        seenCr := false;
      }
      p := p + 1;
    }
    return false, 0;
  }

  /** A line of n characters is at p. */
  predicate IsLine(src: string, p: nat, n: nat) {
    CrLfAt(src, p + n) && forall i :: p <= i < p + n ==> !CrLfAt(src, i)
  }

  /** k digits and a line end are at p. */
  predicate IsNumber(src: string, p: nat, k: nat) {
    CrLfAt(src, p + k) && IsDigits(src[p..p + k])
  }

  /** A bulk of `size` characters is at p, after a number of k digits. */
  predicate IsBulk(src: string, p: nat, k: nat, size: nat) {
    IsNumber(src, p, k) && Dec(src[p..p + k]) == size && CrLfAt(src, p + k + 2 + size)
  }

  /** A null bulk is at p: a minus, digits and a line end. */
  predicate IsNil(src: string, p: nat, k: nat) {
    p < |src| && src[p] == '-' && IsNumber(src, p + 1, k)
  }

  datatype BulkResult = Data(dst: nat, size: nat) | NilData(end: nat) | Invalid

  /** The digits up to a carriage return, and their number; or something else comes first. */
  method ScanNumber(src: string, start: nat) returns (ok: bool, size: nat, p: nat)
    requires start < |src|
    ensures ok ==> start <= p < |src| && src[p] == '\r' && IsDigits(src[start..p]) && size == Dec(src[start..p])
    ensures !ok ==> forall k: nat :: !IsNumber(src, start, k)
  {
    hide IsDigits, Dec;
    p, size := start, 0;
    NoDigits(src, start);
    while src[p] != '\r'
      invariant start <= p < |src| && IsDigits(src[start..p]) && size == Dec(src[start..p])
      decreases |src| - p
    {
      if src[p] < '0' || src[p] > '9' {
        OtherCharacter(src, start, p);
        return false, 0, p;
      }
      NextDigit(src, start, p);
      size := size * 10;
      size := size + (src[p] as int - '0' as int);
      p := p + 1;
      if p >= |src| {
        assert src[start..p] == src[start..];
        NoEnd(src, start);
        return false, 0, p;
      }
    }
    ok := true;
  }

  lemma OtherCharacter(src: string, start: nat, p: nat)
    requires start <= p < |src| && IsDigits(src[start..p]) && src[p] != '\r' && !IsDigit(src[p])
    ensures forall k: nat :: !IsNumber(src, start, k)
  {
    forall k: nat ensures !IsNumber(src, start, k) {
      if start + k < p {
        DigitAt(src, start, p - start, k);
      } else if p < start + k <= |src| && IsDigits(src[start..start + k]) {
        DigitAt(src, start, k, p - start);
      }
    }
  }

  lemma DigitAt(src: string, p: nat, n: nat, i: nat)
    requires p + n <= |src| && IsDigits(src[p..p + n]) && i < n
    ensures IsDigit(src[p + i])
  {
    assert src[p..p + n][i] == src[p + i];
  }

  lemma NoEnd(src: string, start: nat)
    requires start <= |src| && IsDigits(src[start..])
    ensures forall k: nat :: !IsNumber(src, start, k)
  {
    forall i | start <= i < |src| ensures src[i] != '\r' {
      assert IsDigit(src[start..][i - start]);
    }
  }

  /** A number has one length: it ends at the first carriage return. */
  lemma NumberIsUnique(src: string, p: nat, j: nat, k: nat)
    requires p + k < |src| && src[p + k] == '\r' && IsDigits(src[p..p + k]) && IsNumber(src, p, j)
    ensures j == k
  {
    if j < k {
      DigitAt(src, p, k, j);
    } else if k < j {
      DigitAt(src, p, j, k);
    }
  }

  /** parse_bulk_reply, after the dollar sign: a bulk, a null bulk, or neither. */
  method ParseBulk(src: string, start: nat) returns (r: BulkResult, ghost k: nat)
    requires start <= |src|
    ensures r.Data? ==> IsBulk(src, start, k, r.size) && r.dst == start + k + 2
    ensures r.NilData? ==> IsNil(src, start, k) && r.end == start + 1 + k
    ensures r.Invalid? ==> forall j: nat, n: nat :: !IsBulk(src, start, j, n)
    ensures r.Invalid? ==> forall j: nat :: !IsNil(src, start, j)
  {
    if start >= |src| {
      return Invalid, 0;
    }
    if src[start] == '-' {
      MinusIsNoNumber(src, start);
      r, k := ParseNil(src, start + 1);
    } else {
      r, k := ParseData(src, start);
    }
  }

  /** A null bulk after its minus. */
  method ParseNil(src: string, start: nat) returns (r: BulkResult, ghost k: nat)
    requires start <= |src|
    ensures !r.Data?
    ensures r.NilData? ==> IsNumber(src, start, k) && r.end == start + k
    ensures r.Invalid? ==> forall j: nat :: !IsNumber(src, start, j)
  {
    hide IsDigits, Dec;
    var ok, size, p;
    k := 0;
    if start >= |src| {
      return Invalid, 0;
    }
    ok, size, p := ScanNumber(src, start);
    if !ok {
      return Invalid, 0;
    }
    k := p - start;
    Unique(src, start, k);
    if |src| - p < 2 {
      return Invalid, 0;
    }
    p := p + 1;
    if src[p] != '\n' {
      return Invalid, 0;
    }
    p := p + 1;
    return NilData(p - 2), k;
  }

  /** A bulk with its size. */
  method ParseData(src: string, start: nat) returns (r: BulkResult, ghost k: nat)
    requires start < |src|
    ensures !r.NilData?
    ensures r.Data? ==> IsBulk(src, start, k, r.size) && r.dst == start + k + 2
    ensures r.Invalid? ==> forall j: nat, n: nat :: !IsBulk(src, start, j, n)
  {
    hide IsDigits, Dec;
    var ok, size, p;
    k := 0;
    ok, size, p := ScanNumber(src, start);
    if !ok {
      return Invalid, 0;
    }
    k := p - start;
    Unique(src, start, k);
    OneBulk(src, start, k, size);
    p := p + 1;
    if p >= |src| {
      return Invalid, 0;
    }
    if src[p] != '\n' {
      return Invalid, 0;
    }
    p := p + 1;
    if |src| - p < size + 2 {
      return Invalid, 0;
    }
    var dst := p;
    p := p + size;
    if src[p] != '\r' {
      return Invalid, 0;
    }
    p := p + 1;
    if src[p] != '\n' {
      return Invalid, 0;
    }
    return Data(dst, size), k;
  }

  /** With one number possible, there is one bulk possible. */
  lemma OneBulk(src: string, p: nat, k: nat, size: nat)
    requires p + k <= |src| && IsDigits(src[p..p + k]) && Dec(src[p..p + k]) == size
    requires forall j: nat :: IsNumber(src, p, j) ==> j == k
    ensures !(CrLfAt(src, p + k) && CrLfAt(src, p + k + 2 + size)) ==> forall j: nat, n: nat :: !IsBulk(src, p, j, n)
  {}

  lemma MinusIsNoNumber(src: string, start: nat)
    requires start < |src| && src[start] == '-'
    ensures forall j: nat :: !IsNumber(src, start, j)
  {
    forall j: nat ensures !IsNumber(src, start, j) {
      if 0 < j && start + j <= |src| {
        assert src[start..start + j][0] == '-';
      }
    }
  }

  lemma Unique(src: string, p: nat, k: nat)
    requires p + k < |src| && src[p + k] == '\r' && IsDigits(src[p..p + k])
    ensures forall j: nat :: IsNumber(src, p, j) ==> j == k
  {
    forall j: nat | IsNumber(src, p, j) ensures j == k {
      NumberIsUnique(src, p, j, k);
    }
  }

  /** A value is at p, and q is behind it. */
  ghost predicate ValueAt(src: string, p: nat, v: Value, q: nat) {
    && p < |src|
    && if src[p] == '+' || src[p] == '-' || src[p] == ':' then
         v.Bytes? && q == p + 1 + |v.s| + 2 && IsLine(src, p + 1, |v.s|) && src[p + 1..p + 1 + |v.s|] == v.s
       else
         src[p] == '$' && if v.Bytes? then BulkAt(src, p + 1, v.s, q) else NilAt(src, p + 1, q)
  }

  ghost predicate BulkAt(src: string, p: nat, s: string, q: nat) {
    exists k: nat :: IsBulk(src, p, k, |s|) && q == p + k + 2 + |s| + 2 && src[p + k + 2..p + k + 2 + |s|] == s
  }

  ghost predicate NilAt(src: string, p: nat, q: nat) {
    exists k: nat :: IsNil(src, p, k) && q == p + 1 + k + 2
  }

  /** These values are at p, one after the other, up to end. */
  ghost predicate Listed(src: string, p: nat, vs: seq<Value>, end: nat)
    decreases |vs|, 1
  {
    if vs == [] then p == end
    else FirstAndRest(src, p, vs[0], vs[1..], end)
  }

  ghost predicate FirstAndRest(src: string, p: nat, v: Value, vs: seq<Value>, end: nat)
    decreases |vs| + 1, 0
  {
    exists q: nat :: ValueAt(src, p, v, q) && Listed(src, q, vs, end)
  }

  /** At most one value is at a place. */
  lemma ValueIsUnique(src: string, p: nat, v: Value, q: nat, w: Value, r: nat)
    requires ValueAt(src, p, v, q) && ValueAt(src, p, w, r)
    ensures v == w && q == r
  {
    hide IsLine, BulkAt, NilAt;
    if src[p] == '$' {
      if v.Bytes? && w.Bytes? {
        BulkIsUnique(src, p + 1, v.s, q, w.s, r);
      } else if v.Bytes? {
        NilIsNoBulk(src, p + 1, v.s, q, r);
      } else if w.Bytes? {
        NilIsNoBulk(src, p + 1, w.s, r, q);
      } else {
        NilIsUnique(src, p + 1, q, r);
      }
    } else {
      LineIsUnique(src, p + 1, |v.s|, |w.s|);
    }
  }

  lemma LineIsUnique(src: string, p: nat, m: nat, n: nat)
    requires IsLine(src, p, m) && IsLine(src, p, n)
    ensures m == n
  {
    NoLineBefore(src, p, n, m);
    NoLineBefore(src, p, m, n);
  }

  lemma NoLineBefore(src: string, p: nat, n: nat, m: nat)
    requires IsLine(src, p, n)
    ensures m < n ==> !IsLine(src, p, m)
  {
    assert m < n ==> !CrLfAt(src, p + m);
  }

  lemma BulkIsUnique(src: string, p: nat, s: string, q: nat, t: string, r: nat)
    requires BulkAt(src, p, s, q) && BulkAt(src, p, t, r)
    ensures s == t && q == r
  {
    hide IsDigits, Dec;
    var j: nat :| IsBulk(src, p, j, |s|) && q == p + j + 2 + |s| + 2 && src[p + j + 2..p + j + 2 + |s|] == s;
    var k: nat :| IsBulk(src, p, k, |t|) && r == p + k + 2 + |t| + 2 && src[p + k + 2..p + k + 2 + |t|] == t;
    NumberIsUnique(src, p, j, k);
  }

  lemma NilIsUnique(src: string, p: nat, q: nat, r: nat)
    requires NilAt(src, p, q) && NilAt(src, p, r)
    ensures q == r
  {
    hide IsDigits, Dec;
    var j: nat :| IsNil(src, p, j) && q == p + 1 + j + 2;
    var k: nat :| IsNil(src, p, k) && r == p + 1 + k + 2;
    NumberIsUnique(src, p + 1, j, k);
  }

  lemma NilIsNoBulk(src: string, p: nat, s: string, q: nat, r: nat)
    ensures !(BulkAt(src, p, s, q) && NilAt(src, p, r))
  {
    if NilAt(src, p, r) {
      MinusIsNoNumber(src, p);
    }
  }

  /** A multi-bulk reply: null, or a list of values. */
  datatype Multi = NullReply | Values(values: seq<Value>)

  /** This list of values is at p, after the asterisk. */
  ghost predicate ListAt(src: string, p: nat, k: nat, vs: seq<Value>, end: nat) {
    IsNumber(src, p, k) && Dec(src[p..p + k]) == |vs| && Listed(src, p + k + 2, vs, end)
  }

  /**
   The header of the null reply: a minus and a digit, after any digits, and whatever follows them up to the first
   carriage return, at c.
   */
  predicate NullHeader(src: string, p: nat, d: nat, c: nat) {
    && p + d + 2 <= c && c + 1 < |src| && IsDigits(src[p..p + d]) && src[p + d] == '-' && IsDigit(src[p + d + 1])
    && (forall i :: p + d < i < c ==> src[i] != '\r') && src[c] == '\r' && src[c + 1] == '\n'
  }

  /** The minus is the first character that is no digit. */
  lemma NullPlace(src: string, start: nat, p: nat)
    requires start <= p < |src| && IsDigits(src[start..p]) && !IsDigit(src[p])
    ensures forall d: nat, c: nat :: NullHeader(src, start, d, c) ==> start + d == p
  {
    forall d: nat, c: nat | start + d != p && start + d < |src| ensures !NullHeader(src, start, d, c) {
      if start + d < p {
        DigitInside(src, start, p, start + d);
      } else {
        NotAllDigits(src, start, start + d, p);
      }
    }
  }

  lemma DigitInside(src: string, a: nat, b: nat, i: nat)
    requires a <= i < b <= |src| && IsDigits(src[a..b])
    ensures IsDigit(src[i])
  {
    assert src[a..b][i - a] == src[i];
  }

  lemma NotAllDigits(src: string, a: nat, b: nat, i: nat)
    requires a <= i < b <= |src| && !IsDigit(src[i])
    ensures !IsDigits(src[a..b])
  {
    assert src[a..b][i - a] == src[i];
  }

  /** A null reply is there, and e is behind it. */
  ghost predicate IsNull(src: string, start: nat, e: int) {
    exists d: nat, c: nat :: NullHeader(src, start, d, c) && e == c + 2
  }

  lemma NullFrom(src: string, start: nat, p: nat)
    requires start <= p < |src| && IsDigits(src[start..p]) && src[p] == '-'
    ensures forall c: nat :: EndsNull(src, p, c) <==> NullHeader(src, start, p - start, c)
    ensures forall d: nat, c: nat :: NullHeader(src, start, d, c) ==> EndsNull(src, p, c)
  {
    NullPlace(src, start, p);
  }

  lemma NullNotCut(src: string, start: nat, p: nat)
    requires start <= p == |src| && IsDigits(src[start..p])
    ensures forall d: nat, c: nat :: !NullHeader(src, start, d, c)
  {
    forall d: nat, c: nat ensures !NullHeader(src, start, d, c) {
      if start + d < p {
        assert IsDigit(src[start..p][d]);
      }
    }
  }

  /** From the minus of a null reply to its end. */
  method ScanNull(src: string, m: nat) returns (ok: bool, q: nat)
    requires m < |src| && src[m] == '-'
    ensures ok ==> 2 <= q <= |src| && EndsNull(src, m, q - 2)
    ensures !ok ==> forall c: nat :: !EndsNull(src, m, c)
  {
    var p := m + 1;
    if p >= |src| {
      return false, p;
    }
    if src[p] < '0' || src[p] > '9' {
      return false, p;
    }
    while src[p] != '\r'
      invariant m < p < |src| && IsDigit(src[m + 1]) && forall i :: m < i < p ==> src[i] != '\r'
      decreases |src| - p
    {
      p := p + 1;
      if p >= |src| {
        return false, p;
      }
    }
    p := p + 1;
    if p >= |src| {
      return false, p;
    }
    if src[p] != '\n' {
      return false, p;
    }
    return true, p + 1;
  }

  /** The part of the header from the minus on. */
  predicate EndsNull(src: string, m: nat, c: nat) {
    && m + 2 <= c && c + 1 < |src| && IsDigit(src[m + 1])
    && (forall i :: m < i < c ==> src[i] != '\r') && src[c] == '\r' && src[c + 1] == '\n'
  }

  /** The header: a count, or a minus somewhere, which makes the reply null. */
  method ParseCount(src: string, start: nat) returns (ok: bool, count: int, q: nat, ghost k: nat)
    requires start <= |src|
    ensures ok ==> q <= |src|
    ensures ok && count >= 0 ==> IsNumber(src, start, k) && count == Dec(src[start..start + k]) && q == start + k + 2
    ensures !ok || count < 0 ==> forall j: nat :: !IsNumber(src, start, j)
    ensures ok && count < 0 ==> q >= 2 && NullHeader(src, start, k, q - 2)
    ensures !ok || count >= 0 ==> forall d: nat, c: nat :: !NullHeader(src, start, d, c)
  {
    hide IsDigits, Dec;
    k := 0;
    if start >= |src| {
      NullNotCut(src, start, start);
      return false, 0, start, 0;
    }
    var p := start;
    count := 0;
    NoDigits(src, start);
    while src[p] != '\r'
      invariant start <= p < |src| && IsDigits(src[start..p]) && count == Dec(src[start..p])
      decreases |src| - p
    {
      if src[p] == '-' {
        OtherCharacter(src, start, p);
        NullPlace(src, start, p);
        ok, q := ScanNull(src, p);
        NullFrom(src, start, p);
        return ok, -1, q, p - start;
      }
      if src[p] < '0' || src[p] > '9' {
        OtherCharacter(src, start, p);
        NullPlace(src, start, p);
        return false, 0, p, 0;
      }
      NextDigit(src, start, p);
      count := count * 10;
      count := count + (src[p] as int - '0' as int);
      p := p + 1;
      if p >= |src| {
        assert src[start..p] == src[start..];
        NoEnd(src, start);
        NullNotCut(src, start, p);
        return false, 0, p, 0;
      }
    }
    k := p - start;
    NullPlace(src, start, p);
    Unique(src, start, k);
    p := p + 1;
    if p >= |src| {
      return false, count, p, k;
    }
    if src[p] != '\n' {
      return false, count, p, k;
    }
    p := p + 1;
    return true, count, p, k;
  }

  lemma NoDigits(src: string, p: nat)
    requires p <= |src|
    ensures IsDigits(src[p..p]) && Dec(src[p..p]) == 0
  {
    assert src[p..p] == "";
  }

  lemma NextDigit(src: string, start: nat, p: nat)
    requires start <= p < |src| && IsDigits(src[start..p]) && IsDigit(src[p])
    ensures IsDigits(src[start..p + 1]) && Dec(src[start..p + 1]) == 10 * Dec(src[start..p]) + DigitValue(src[p])
  {
    DecAppend(src[start..p], src[p]);
    assert src[start..p + 1] == src[start..p] + [src[p]];
  }

  /** One value of the list. */
  method ParseValue(src: string, p: nat) returns (ok: bool, v: Value, q: nat)
    requires p <= |src|
    ensures ok ==> ValueAt(src, p, v, q) && q <= |src|
    ensures !ok ==> forall w, r :: !ValueAt(src, p, w, r)
  {
    v, q := Nil, p;
    if p >= |src| {
      return false, v, q;
    }
    if src[p] == '+' || src[p] == '-' || src[p] == ':' {
      var n;
      ok, n := ParseSingleLine(src, p + 1);
      if ok {
        v, q := Bytes(src[p + 1..p + 1 + n]), p + 1 + n + 2;
      }
      return;
    }
    if src[p] != '$' {
      return false, v, q;
    }
    var r;
    ghost var k;
    r, k := ParseBulk(src, p + 1);
    match r {
      case Data(dst, size) =>
        v, q := Bytes(src[dst..dst + size]), dst + size + 2;
      case NilData(end) =>
        q := end + 2;
      case Invalid =>
        return false, v, q;
    }
    ok := true;
  }

  /**
   parse_multi_bulk_reply, after the asterisk: it finds the list of values that is there, and an error or the null
   reply means that there is none.
   */
  method ParseMultiBulk(src: string, start: nat) returns (ok: bool, r: Multi, end: nat)
    requires start <= |src|
    ensures ok && r.Values? ==> exists k: nat :: ListAt(src, start, k, r.values, end)
    ensures !(ok && r.Values?) ==> forall k: nat, vs, e :: !ListAt(src, start, k, vs, e)
    ensures ok && r.NullReply? ==> IsNull(src, start, end)
    ensures !(ok && r.NullReply?) ==> forall e :: !IsNull(src, start, e)
  {
    hide ValueAt, IsDigits, Dec;
    r, end := NullReply, start;
    var count;
    ghost var k;
    ok, count, end, k := ParseCount(src, start);
    hide NullHeader;
    if !ok || count < 0 {
      return;
    }
    ghost var first := end;
    Unique(src, start, k);
    hide Listed, Prefixes;
    NothingListed(src, first, count);
    var values := [];
    var i := 0;
    while i < count
      invariant 0 <= i <= count && |values| == i && end <= |src|
      invariant Listed(src, first, values, end) && Prefixes(src, first, count, values, end)
    {
      ghost var p := end;
      var v;
      ok, v, end := ParseValue(src, end);
      if !ok {
        NotListed(src, first, count, values, p);
        NoList(src, start, k, first, count);
        return;
      }
      ListGrows(src, first, values, p, v, end);
      PrefixGrows(src, first, count, values, p, v, end);
      values := values + [v];
      i := i + 1;
    }
    assert ListAt(src, start, k, values, end);
    r := Values(values);
    ok := true;
  }

  /** Every list of `count` values from `first` on begins with these values, up to p. */
  ghost predicate Prefixes(src: string, first: nat, count: nat, values: seq<Value>, p: nat) {
    && |values| <= count
    && forall vs, e :: |vs| == count && Listed(src, first, vs, e) ==>
         vs[..|values|] == values && Listed(src, p, vs[|values|..], e)
  }

  lemma NothingListed(src: string, first: nat, count: nat)
    ensures Listed(src, first, [], first) && Prefixes(src, first, count, [], first)
  {
    forall vs, e | |vs| == count && Listed(src, first, vs, e) ensures Listed(src, first, vs[0..], e) {
      assert vs[0..] == vs;
    }
  }

  lemma {:induction false} ListGrows(src: string, first: nat, vs: seq<Value>, p: nat, v: Value, q: nat)
    requires Listed(src, first, vs, p) && ValueAt(src, p, v, q)
    ensures Listed(src, first, vs + [v], q)
    decreases |vs|
  {
    hide ValueAt;
    if vs == [] {
      assert [v][1..] == [];
      assert Listed(src, q, [], q);
      assert FirstAndRest(src, first, v, [], q);
    } else {
      var r: nat :| ValueAt(src, first, vs[0], r) && Listed(src, r, vs[1..], p);
      ListGrows(src, r, vs[1..], p, v, q);
      assert (vs + [v])[1..] == vs[1..] + [v];
    }
  }

  lemma FirstIs(src: string, p: nat, vs: seq<Value>, e: nat, v: Value, q: nat)
    requires vs != [] && Listed(src, p, vs, e) && ValueAt(src, p, v, q)
    ensures vs[0] == v && Listed(src, q, vs[1..], e)
  {
    hide ValueAt;
    var r: nat :| ValueAt(src, p, vs[0], r) && Listed(src, r, vs[1..], e);
    ValueIsUnique(src, p, vs[0], r, v, q);
  }

  lemma PrefixGrows(src: string, first: nat, count: nat, values: seq<Value>, p: nat, v: Value, q: nat)
    requires Prefixes(src, first, count, values, p) && |values| < count && ValueAt(src, p, v, q)
    ensures Prefixes(src, first, count, values + [v], q)
  {
    hide ValueAt, Listed;
    var i := |values|;
    forall vs, e | |vs| == count && Listed(src, first, vs, e)
      ensures vs[..i + 1] == values + [v] && Listed(src, q, vs[i + 1..], e)
    {
      FirstIs(src, p, vs[i..], e, v, q);
      assert vs[i..][1..] == vs[i + 1..];
      assert vs[..i + 1] == vs[..i] + [vs[i]];
    }
  }

  lemma NotListed(src: string, first: nat, count: nat, values: seq<Value>, p: nat)
    requires Prefixes(src, first, count, values, p) && |values| < count && forall w, r :: !ValueAt(src, p, w, r)
    ensures forall vs, e :: |vs| == count ==> !Listed(src, first, vs, e)
  {
    hide ValueAt;
    var i := |values|;
    forall vs, e | |vs| == count ensures !Listed(src, first, vs, e) {
      if Listed(src, first, vs, e) {
        FirstExists(src, p, vs[i..], e);
      }
    }
  }

  lemma FirstExists(src: string, p: nat, vs: seq<Value>, e: nat)
    requires vs != [] && Listed(src, p, vs, e)
    ensures exists q: nat :: ValueAt(src, p, vs[0], q)
  {}

  lemma NoList(src: string, start: nat, k: nat, first: nat, count: nat)
    requires IsNumber(src, start, k) && count == Dec(src[start..start + k]) && first == start + k + 2
    requires forall vs, e :: |vs| == count ==> !Listed(src, first, vs, e)
    ensures forall j: nat, vs, e :: !ListAt(src, start, j, vs, e)
  {
    Unique(src, start, k);
  }

  /** A status, an error or an integer is its line, and the null list a count of -1. */
  lemma LinesAndNull(kind: char, s: string, rest: string)
    requires kind in "+-:" && forall i :: 0 <= i < |s| ==> s[i] != '\r'
    ensures ValueAt([kind] + s + "\r\n" + rest, 0, Bytes(s), |s| + 3)
    ensures IsNull("-1\r\n" + rest, 0, 4)
  {
    var src := [kind] + s + "\r\n" + rest;
    assert src[1..1 + |s|] == s && src[1 + |s|] == '\r' && src[2 + |s|] == '\n';
    forall i | 1 <= i < 1 + |s| ensures !CrLfAt(src, i) {
      assert src[i] == s[i - 1];
    }
    var nothing := "-1\r\n" + rest;
    assert nothing[0] == '-' && nothing[1] == '1' && nothing[2] == '\r' && nothing[3] == '\n' && nothing[0..0] == "";
    assert NullHeader(nothing, 0, 0, 2);
  }

  /** What a query holds is what a reply parser finds there. */
  lemma SentIsValue(src: string, p: nat, x: Param)
    requires x != Other && p + |Sent(x)| <= |src| && src[p..p + |Sent(x)|] == Sent(x)
    ensures ValueAt(src, p, Meaning(x), p + |Sent(x)|)
  {
    match x
    case Str(t) => BulkIsValue(src, p, t);
    case Bool(b) => BulkIsValue(src, p, if b then "1" else "0");
    case Null =>
      var t := src[p..p + 5];
      assert t[0] == '$' && t[1] == '-' && t[2] == '1' && t[3] == '\r' && t[4] == '\n';
      assert src[p + 2..p + 3] == "1";
      assert IsNil(src, p + 1, 1);
  }

  lemma Slice(src: string, p: nat, len: nat, i: nat, j: nat)
    requires p + len <= |src| && i <= j <= len
    ensures src[p..p + len][i..j] == src[p + i..p + j]
  {
    var a, b := src[p..p + len][i..j], src[p + i..p + j];
    assert |a| == |b|;
    forall k | 0 <= k < |a| ensures a[k] == b[k] {
      assert a[k] == src[p..p + len][i + k] == src[p + (i + k)];
    }
  }

  lemma BulkIsValue(src: string, p: nat, t: string)
    requires p + |Bulk(t)| <= |src| && src[p..p + |Bulk(t)|] == Bulk(t)
    ensures ValueAt(src, p, Bytes(t), p + |Bulk(t)|)
  {
    hide NumText;
    hide IsDigits, Dec;
    var b, k := src[p..p + |Bulk(t)|], |NumText(|t|)|;
    BulkParts(t, k);
    Slice(src, p, |b|, 1, 1 + k);
    Slice(src, p, |b|, 3 + k, 3 + k + |t|);
    assert src[p] == b[0] && src[p + (1 + k)] == b[1 + k] && src[p + (2 + k)] == b[2 + k];
    assert src[p + (3 + k + |t|)] == b[3 + k + |t|] && src[p + (4 + k + |t|)] == b[4 + k + |t|];
    assert CrLfAt(src, p + 1 + k) && CrLfAt(src, p + 1 + k + 2 + |t|);
    assert IsBulk(src, p + 1, k, |t|);
  }

  lemma BulkParts(t: string, k: nat)
    requires k == |NumText(|t|)|
    ensures var b := Bulk(t);
      && |b| == k + |t| + 5 && b[0] == '$' && b[1..1 + k] == NumText(|t|) && b[3 + k..3 + k + |t|] == t
      && b[1 + k] == '\r' && b[2 + k] == '\n' && b[3 + k + |t|] == '\r' && b[4 + k + |t|] == '\n'
  {
    hide NumText;
  }

  lemma {:induction false} SentIsListed(src: string, p: nat, ps: seq<Param>)
    requires (forall x :: x in ps ==> x != Other) && p + |SentAll(ps)| <= |src|
    requires src[p..p + |SentAll(ps)|] == SentAll(ps)
    ensures Listed(src, p, Meanings(ps), p + |SentAll(ps)|)
    decreases |ps|
  {
    hide ValueAt, Sent;
    if ps != [] {
      var n := |ps| - 1;
      var front := ps[..n];
      var q := p + |SentAll(front)|;
      var text := src[p..p + |SentAll(ps)|];
      assert src[p..q] == text[..|SentAll(front)|];
      assert src[q..q + |Sent(ps[n])|] == text[|SentAll(front)|..];
      assert ps[n] in ps && forall x :: x in front ==> x in ps;
      SentIsListed(src, p, front);
      SentIsValue(src, q, ps[n]);
      ListGrows(src, p, Meanings(front), q, Meaning(ps[n]), q + |Sent(ps[n])|);
      assert Meanings(ps) == Meanings(front) + [Meaning(ps[n])];
    } else {
      assert Meanings(ps) == [];
    }
  }

  /** The text of a query is a list of the parameters' meanings. */
  lemma QueryIsList(ps: seq<Param>, rest: string)
    requires forall x :: x in ps ==> x != Other
    ensures ListAt(Query(ps) + rest, 1, |NumText(|ps|)|, Meanings(ps), |Query(ps)|)
  {
    hide NumText, SentAll, Listed;
    var src, n := Query(ps) + rest, NumText(|ps|);
    var first := 1 + |n| + 2;
    assert src[1..1 + |n|] == n;
    assert src[1 + |n|] == CRLF[0] && src[2 + |n|] == CRLF[1];
    assert src[first..first + |SentAll(ps)|] == SentAll(ps);
    SentIsListed(src, first, ps);
  }

  /** A built query, parsed as a multi-bulk reply, gives the parameters, and nothing of what follows it is read. */
  method BuildAndParse(ps: seq<Param>, rest: string) returns (built: bool, ok: bool, r: Multi, end: nat)
    requires SizesFit(ps)
    ensures built <==> ps != [] && forall p :: p in ps ==> p != Other
    ensures built ==> ok && r == Values(Meanings(ps)) && end == |Query(ps)|
  {
    hide Query, ListAt;
    var query;
    built, query := BuildQuery(ps);
    ok, r, end := false, NullReply, 0;
    if built {
      QueryIsList(ps, rest);
      QueryNotEmpty(ps);
      ok, r, end := ParseMultiBulk(query + rest, 1);
      if ok && r.Values? {
        ghost var k: nat :| ListAt(query + rest, 1, k, r.values, end);
        OneList(query + rest, 1, k, r.values, end, |NumText(|ps|)|, Meanings(ps), |Query(ps)|);
      }
    }
  }

  lemma QueryNotEmpty(ps: seq<Param>)
    ensures |Query(ps)| >= 1
  {}

  /** One list at most is at a place. */
  lemma OneList(src: string, p: nat, j: nat, vs: seq<Value>, e: nat, k: nat, ws: seq<Value>, f: nat)
    requires ListAt(src, p, j, vs, e) && ListAt(src, p, k, ws, f)
    ensures vs == ws && e == f
  {
    hide Listed, IsDigits, Dec;
    NumberIsUnique(src, p, j, k);
    SameList(src, p + j + 2, vs, e, ws, f);
  }

  lemma {:induction false} SameList(src: string, p: nat, vs: seq<Value>, e: nat, ws: seq<Value>, f: nat)
    requires Listed(src, p, vs, e) && Listed(src, p, ws, f) && |vs| == |ws|
    ensures vs == ws && e == f
    decreases |vs|
  {
    hide ValueAt;
    if vs != [] {
      var q: nat :| ValueAt(src, p, vs[0], q) && Listed(src, q, vs[1..], e);
      FirstIs(src, p, ws, f, vs[0], q);
      SameList(src, q, vs[1..], e, ws[1..], f);
      assert vs == [vs[0]] + vs[1..] && ws == [ws[0]] + ws[1..];
    }
  }
}
