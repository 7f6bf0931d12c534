/**
 The priority queue of libressl ssl/pqueue.c: a singly linked list kept in increasing order of 8-byte
 big-endian priorities, with no priority twice.
 */
module PQueues {
  import opened Arithmetic
  import opened Octets

  type Priority = p: seq<Octet> | |p| == 8 witness [0, 0, 0, 0, 0, 0, 0, 0]

  /** Eight bytes of which only the last two are used. */
  function PriorityBytes(p: int): (b: Priority) {
    seq(6, _ => 0) + [p / 256 % 256, p % 256]
  }

  lemma PriorityRank(p: nat)
    requires p < 0x1_0000
    ensures Num(PriorityBytes(p)) == p
  {
    assert Digits(0, 6) == seq(6, _ => 0);
    assert Digits(p / 256, 7) == Digits(p / 256 / 256, 6) + [p / 256 % 256];
    assert PriorityBytes(p) == Digits(p, 8);
    assert Pow(256, 2) == 0x1_0000;
    PowAdd(256, 2, 6);
    MulAtLeast(Pow(256, 6), 0x1_0000);
    NumOfDigits(p, 8);
  }

  /** Ascending numbers are ascending priorities. */
  lemma PriorityOrder(p: nat, q: nat)
    requires p < 0x1_0000 && q < 0x1_0000
    ensures PriorityBytes(p) == [0, 0, 0, 0, 0, 0, p / 0x100, p % 0x100]
    ensures p < q <==> Num(PriorityBytes(p)) < Num(PriorityBytes(q))
  {
    PriorityRank(p);
    PriorityRank(q);
    assert seq(6, _ => 0 as Octet) == [0, 0, 0, 0, 0, 0];
  }

  class Item<T> {
    const priority: Priority
    const data: T
    var next: Item?<T>

    constructor (priority: Priority, data: T)
      ensures this.priority == priority && this.data == data && next == null
    {
      this.priority, this.data, next := priority, data, null;
    }

    function Rank(): nat {
      Num(priority)
    }
  }

  /** Strictly increasing, so no rank occurs twice. */
  ghost predicate Ordered<T>(l: seq<Item<T>>) {
    forall i, j :: 0 <= i < j < |l| ==> l[i].Rank() < l[j].Rank()
  }

  ghost function Successor<T>(l: seq<Item<T>>, i: int): Item?<T>
    requires -1 <= i < |l|
  {
    if i + 1 < |l| then l[i + 1] else null
  }

  ghost predicate Linked<T>(l: seq<Item<T>>)
    reads set x | x in l
  {
    forall i :: 0 <= i < |l| ==> l[i].next == Successor(l, i)
  }

  /** The list with item at its place; equal ranks are not allowed. */
  ghost predicate IsInsertion<T>(l: seq<Item<T>>, item: Item<T>, r: seq<Item<T>>) {
    && Ordered(r)
    && exists k :: 0 <= k <= |l| && r == l[..k] + [item] + l[k..]
  }

  lemma InsertionMembers<T>(l: seq<Item<T>>, item: Item<T>, r: seq<Item<T>>)
    requires IsInsertion(l, item, r)
    ensures forall y :: y in r <==> y in l || y == item
  {
    var k :| 0 <= k <= |l| && r == l[..k] + [item] + l[k..];
    assert l == l[..k] + l[k..];
  }

  /** Ordered lists of the same items are the same list, so an insertion has one result. */
  lemma {:induction false} OrderIsUnique<T>(a: seq<Item<T>>, b: seq<Item<T>>)
    requires Ordered(a) && Ordered(b)
    requires forall x :: x in a <==> x in b
    ensures a == b
  {
    if a == [] {
      HasMember(b);
    } else {
      assert a[0] in b;
      assert b[0] in a;
      var i :| 0 <= i < |a| && a[i] == b[0];
      var j :| 0 <= j < |b| && b[j] == a[0];
      assert a[0] == b[0];
      forall x ensures x in a[1..] <==> x in b[1..] {
        SkipFirst(a, x);
        SkipFirst(b, x);
      }
      OrderIsUnique(a[1..], b[1..]);
      assert a == [a[0]] + a[1..] && b == [b[0]] + b[1..];
    }
  }

  lemma HasMember<T>(b: seq<Item<T>>)
    ensures b != [] ==> exists x :: x in b
  {
    assert b != [] ==> b[0] in b;
  }

  lemma SkipFirst<T>(a: seq<Item<T>>, x: Item<T>)
    requires a != [] && Ordered(a)
    ensures x in a[1..] <==> x in a && x != a[0]
  {
    assert a == [a[0]] + a[1..];
  }

  function Inserted<T>(l: seq<Item<T>>, k: nat, item: Item<T>): seq<Item<T>>
    requires k <= |l|
  {
    l[..k] + [item] + l[k..]
  }

  lemma InsertionKeepsOrder<T>(l: seq<Item<T>>, k: nat, item: Item<T>)
    requires Ordered(l) && k <= |l|
    requires forall i :: 0 <= i < k ==> l[i].Rank() < item.Rank()
    requires k < |l| ==> item.Rank() < l[k].Rank()
    ensures Ordered(Inserted(l, k, item)) && IsInsertion(l, item, Inserted(l, k, item))
  {}

  /** Linking one item in at k needs one new pointer to it and its own. */
  lemma InsertionKeepsLinks<T>(l: seq<Item<T>>, k: nat, item: Item<T>)
    requires k <= |l|
    requires forall i :: 0 <= i < |l| && i + 1 != k ==> l[i].next == Successor(l, i)
    requires k > 0 ==> l[k - 1].next == item
    requires item.next == if k < |l| then l[k] else null
    ensures Linked(Inserted(l, k, item))
  {
    var r := Inserted(l, k, item);
    forall i | 0 <= i < |r| ensures r[i].next == Successor(r, i) {
      if i > k {
        assert r[i] == l[i - 1] && Successor(r, i) == Successor(l, i - 1);
      }
    }
  }

  lemma DistinctItems<T>(l: seq<Item<T>>, k: nat)
    requires Ordered(l) && k < |l|
    ensures forall i :: 0 <= i < |l| && i != k ==> l[i] != l[k]
  {
    forall i | 0 <= i < |l| && i != k ensures l[i] != l[k] {
      if i < k {
        assert l[i].Rank() < l[k].Rank();
      } else {
        assert l[k].Rank() < l[i].Rank();
      }
    }
  }

  lemma InsertedHead<T>(l: seq<Item<T>>, k: nat, item: Item<T>)
    requires k <= |l|
    ensures Successor(Inserted(l, k, item), -1) == if k == 0 then item else l[0]
  {}

  lemma NextOf<T>(l: seq<Item<T>>, i: int)
    requires -1 <= i < |l|
    ensures Successor(l, i) == if i + 1 < |l| then l[i + 1] else null
  {}

  lemma LinkedAt<T>(l: seq<Item<T>>, k: nat)
    requires Linked(l) && k < |l|
    ensures l[k].next == Successor(l, k)
  {}

  /** Distinct ranks mean distinct priorities. */
  lemma NewPriority<T>(l: seq<Item<T>>, k: nat, item: Item<T>)
    requires Ordered(l) && k <= |l|
    requires forall i :: 0 <= i < k ==> l[i].Rank() < item.Rank()
    requires k < |l| ==> item.Rank() < l[k].Rank()
    ensures forall i :: 0 <= i < |l| ==> l[i].priority != item.priority
  {
    forall i | 0 <= i < |l| ensures l[i].Rank() != item.Rank() {
      if i > k {
        assert l[k].Rank() < l[i].Rank();
      }
    }
  }

  class PQueue<T> {
    var items: Item?<T>
    ghost var list: seq<Item<T>>

    ghost predicate Valid()
      reads this, set x | x in list
    {
      Ordered(list) && Linked(list) && items == Successor(list, -1)
    }

    constructor ()
      ensures Valid() && list == []
    {
      items, list := null, [];
    }

    /** pqueue_insert: null, and nothing changed, exactly when the priority is already there. */
    method Insert(item: Item<T>) returns (r: Item?<T>)
      requires Valid() && item !in list && item.next == null
      modifies this, item, set x | x in list
      ensures Valid()
      ensures r == null <==> exists i :: 0 <= i < |old(list)| && old(list)[i].priority == item.priority
      ensures r == null ==> list == old(list)
      ensures r != null ==> r == item && IsInsertion(old(list), item, list)
    {
      hide Ordered, Linked, Inserted, IsInsertion;
      ghost var l := list;
      if items == null {
        items, list := item, Inserted(l, 0, item);
        InsertionKeepsOrder(l, 0, item);
        InsertionKeepsLinks(l, 0, item);
        return item;
      }
      var curr: Item?<T>, next: Item?<T> := null, items;
      ghost var k := 0;
      while next != null
        invariant list == l && Valid() && 0 <= k <= |l| && next == Successor(l, k - 1)
        invariant curr == if k == 0 then null else l[k - 1]
        invariant forall i :: 0 <= i < k ==> l[i].Rank() < item.Rank()
        decreases |l| - k
      {
        var cmp := MemCmp(next.priority, item.priority);
        if cmp > 0 {
          NewPriority(l, k, item);
          LinkIn(item, curr, next, k);
          return item;
        } else if cmp == 0 {
          return null;
        }
        LinkedAt(l, k);
        curr, next, k := next, next.next, k + 1;
      }
      NewPriority(l, k, item);
      LinkIn(item, curr, null, k);
      return item;
    }

    /** Puts item between its neighbours. */
    method LinkIn(item: Item<T>, curr: Item?<T>, next: Item?<T>, ghost k: nat)
      requires Valid() && item !in list && list != [] && k <= |list|
      requires curr == if k == 0 then null else list[k - 1]
      requires next == Successor(list, k - 1)
      requires forall i :: 0 <= i < k ==> list[i].Rank() < item.Rank()
      requires k < |list| ==> item.Rank() < list[k].Rank()
      modifies this, item, set x | x in list
      ensures Valid() && IsInsertion(old(list), item, list)
    {
      hide Ordered, Inserted, IsInsertion, Successor;
      ghost var l := list;
      InsertionKeepsOrder(l, k, item);
      NextOf(l, k - 1);
      NextOf(l, -1);
      assert forall i :: 0 <= i < |l| ==> l[i] != item;
      if k > 0 { DistinctItems(l, k - 1); }
      item.next := next;
      assert forall i :: 0 <= i < |l| ==> l[i].next == Successor(l, i);
      if curr == null {
        items := item;
      } else {
        curr.next := item;
      }
      assert forall i :: 0 <= i < |l| && i + 1 != k ==> l[i].next == Successor(l, i);
      InsertionKeepsLinks(l, k, item);
      list := Inserted(l, k, item);
      InsertedHead(l, k, item);
    }

    /** pqueue_peek. */
    method Peek() returns (r: Item?<T>)
      requires Valid()
      ensures r == if list == [] then null else list[0]
    {
      r := items;
    }

    /** pqueue_pop: the item of least priority. */
    method Pop() returns (r: Item?<T>)
      requires Valid()
      modifies this
      ensures Valid()
      ensures old(list) == [] ==> r == null && list == []
      ensures old(list) != [] ==> r == old(list)[0] && list == old(list)[1..]
    {
      r := items;
      if items != null {
        items := items.next;
        list := list[1..];
      }
    }

    /** pqueue_find: the one item of this priority, if there is one. */
    method Find(priority: Priority) returns (r: Item?<T>)
      requires Valid()
      ensures r != null ==> r in list && r.priority == priority
      ensures r == null ==> forall x :: x in list ==> x.priority != priority
    {
      hide Num;
      var next := items;
      ghost var k := 0;
      while next != null
        invariant 0 <= k <= |list| && next == Successor(list, k - 1)
        invariant forall i :: 0 <= i < k ==> list[i].priority != priority
        decreases |list| - k
      {
        var cmp := MemCmp(next.priority, priority);
        if cmp == 0 {
          return next;
        }
        next, k := next.next, k + 1;
      }
      return null;
    }

    /** An ordered list holds an item of given priority once. */
    lemma FoundIsTheItem(x: Item<T>, y: Item<T>)
      requires Valid() && x in list && y in list && x.priority == y.priority
      ensures x == y
    {
      var i :| 0 <= i < |list| && list[i] == x;
      var j :| 0 <= j < |list| && list[j] == y;
    }

    /** pqueue_size. */
    method Size() returns (count: nat)
      requires Valid()
      ensures count == |list|
    {
      var item := items;
      count := 0;
      while item != null
        invariant 0 <= count <= |list| && item == Successor(list, count - 1)
        decreases |list| - count
      {
        count := count + 1;
        item := item.next;
      }
    }

    /** pqueue_next over the whole queue: every item, in increasing order of priority. */
    method Iterate() returns (seen: seq<Item<T>>)
      requires Valid()
      ensures seen == list
    {
      var iter := items;
      seen := [];
      while iter != null
        invariant |seen| <= |list| && seen == list[..|seen|] && iter == Successor(list, |seen| - 1)
        decreases |list| - |seen|
      {
        var ret := iter;
        iter := iter.next;
        seen := seen + [ret];
      }
    }
  }
}
