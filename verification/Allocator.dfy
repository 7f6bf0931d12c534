/** The block allocator of dtoa.c (lines 542-607): one free list for each of the size classes 0 to Kmax. */
module Allocator {

  const KMAX: nat := 7

  class Block {
    const k: nat
    var next: Block?

    constructor (k: nat)
      ensures this.k == k
    {
      this.k := k;
      next := null;
    }
  }

  /** `lists[k]` is the chain hanging off `freelist[k]`, `live` are the blocks handed out and not given back. */
  class Pool {
    const freelist: array<Block?>
    ghost var lists: seq<seq<Block>>
    ghost var live: set<Block>

    constructor ()
      ensures Valid() && live == {} && lists == seq(KMAX + 1, _ => [])
      ensures fresh(freelist)
    {
      freelist := new Block?[KMAX + 1](_ => null);
      lists := seq(KMAX + 1, _ => []);
      live := {};
    }

    /** The blocks of every list. */
    ghost function Free(): set<Block>
      reads this
    {
      Members(lists)
    }

    static ghost function Members(lists: seq<seq<Block>>): set<Block> {
      set k, i | 0 <= k < |lists| && 0 <= i < |lists[k]| :: lists[k][i]
    }

    /**
     Every list is the finite chain from its head to null, of blocks of its own class; no block is on two
     places, and none of them is live.
     */
    ghost predicate Valid()
      reads this, freelist, Free()
    {
      && freelist.Length == KMAX + 1 == |lists|
      && (forall k :: 0 <= k <= KMAX ==> Chain(lists[k], k, freelist[k]))
      && (forall k, i :: 0 <= k <= KMAX && 0 <= i < |lists[k]| ==> lists[k][i] !in live)
    }

    static ghost predicate Chain(l: seq<Block>, k: nat, head: Block?)
      reads l
    {
      && head == (if l == [] then null else l[0])
      && (forall i :: 0 <= i < |l| ==> l[i].k == k)
      && (forall i :: 0 <= i < |l| ==> l[i].next == After(l, i))
      && (forall i, j :: 0 <= i < j < |l| ==> l[i] != l[j])
    }

    static ghost function After(l: seq<Block>, i: nat): Block? {
      if i + 1 < |l| then l[i + 1] else null
    }

    static lemma ChainTail(l: seq<Block>, k: nat, head: Block?)
      requires Chain(l, k, head) && l != []
      ensures Chain(l[1..], k, l[0].next) && l[0] !in l[1..]
    {
      var t := l[1..];
      forall i | 0 <= i < |t|
        ensures t[i].next == After(t, i)
      {
        assert t[i] == l[i + 1];
      }
    }

    static lemma ChainCons(v: Block, l: seq<Block>, k: nat, head: Block?)
      requires Chain(l, k, head) && v.next == head && v.k == k && v !in l
      ensures Chain([v] + l, k, v)
    {
      var t := [v] + l;
      forall i | 0 <= i < |t|
        ensures t[i].k == k && t[i].next == After(t, i)
      {
        if i > 0 {
          assert t[i] == l[i - 1];
        }
      }
    }

    /** Balloc: the head of the list of its class, or a new block; never one that is live. */
    method Balloc(k: nat) returns (rv: Block)
      requires Valid()
      modifies this, freelist
      ensures Valid() && rv.k == k
      ensures rv !in old(live) && live == old(live) + {rv}
      ensures if k <= KMAX && old(lists[k]) != [] then rv == old(lists[k])[0] && lists == old(lists[k := lists[k][1..]])
              else fresh(rv) && lists == old(lists)
      ensures Free() == old(Free()) - {rv}
    {
      if k <= KMAX && freelist[k] != null {
        ghost var l := lists[k];
        rv := freelist[k];
        freelist[k] := rv.next;
        lists := lists[k := l[1..]];
        ChainTail(l, k, rv);
        TakenOff(old(lists), k, lists);
      } else {
        rv := new Block(k);
        assert forall b :: b in live ==> b != rv;
        assert forall b :: b in Free() ==> b != rv;
      }
      live := live + {rv};
    }

    static lemma TakenOff(before: seq<seq<Block>>, k: nat, after: seq<seq<Block>>)
      requires k < |before| && before[k] != [] && after == before[k := before[k][1..]]
      requires forall j, i :: 0 <= j < |before| && 0 <= i < |before[j]| ==> before[j][i].k == j
      requires forall i, j :: 0 <= i < j < |before[k]| ==> before[k][i] != before[k][j]
      ensures Members(after) == Members(before) - {before[k][0]}
    {
      forall b | b in Members(before) && b != before[k][0]
        ensures b in Members(after)
      {
        var j, i :| 0 <= j < |before| && 0 <= i < |before[j]| && before[j][i] == b;
        if j == k {
          assert after[k][i - 1] == b;
        } else {
          assert after[j][i] == b;
        }
      }
      forall b | b in Members(after)
        ensures b in Members(before) && b != before[k][0]
      {
        var j, i :| 0 <= j < |after| && 0 <= i < |after[j]| && after[j][i] == b;
        if j == k {
          assert before[k][i + 1] == b;
        } else {
          assert before[j][i] == b;
        }
      }
    }

    static lemma PutOn(before: seq<seq<Block>>, k: nat, v: Block, after: seq<seq<Block>>)
      requires k < |before| && after == before[k := [v] + before[k]]
      ensures Members(after) == Members(before) + {v}
    {
      forall b | b in Members(before)
        ensures b in Members(after)
      {
        var j, i :| 0 <= j < |before| && 0 <= i < |before[j]| && before[j][i] == b;
        assert after[j][if j == k then i + 1 else i] == b;
      }
      assert after[k][0] == v;
      forall b | b in Members(after) && b != v
        ensures b in Members(before)
      {
        var j, i :| 0 <= j < |after| && 0 <= i < |after[j]| && after[j][i] == b;
        assert before[j][if j == k then i - 1 else i] == b;
      }
    }

    /** Bfree: to the front of the list of its class, or back to the system. */
    method Bfree(v: Block?)
      requires Valid() && (v != null ==> v in live)
      modifies this, freelist, v
      ensures Valid()
      ensures v == null ==> live == old(live) && lists == old(lists)
      ensures v != null ==> lists == if v.k <= KMAX then old(lists[v.k := [v] + lists[v.k]]) else old(lists)
      ensures v != null ==> live == old(live) - {v} && Free() == old(Free()) + if v.k <= KMAX then {v} else {}
    {
      if v != null {
        live := live - {v};
        if v.k <= KMAX {
          ghost var l := lists[v.k];
          v.next := freelist[v.k];
          ChainCons(v, l, v.k, freelist[v.k]);
          freelist[v.k] := v;
          lists := lists[v.k := [v] + l];
          PutOn(old(lists), v.k, v, lists);
        }
      }
    }
  }
}
