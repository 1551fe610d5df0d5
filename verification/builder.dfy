/**
  The greedy merge loop shared by huffman.build_huffman_tree,
  adaptive_demo.build_tree_from_freq and app.build_huffman_tree.

  Python's `heapq` orders nodes by weight only and breaks ties by heap
  layout. This model fixes a deterministic policy instead: the priority
  structure is a list sorted by weight, a node entering it is placed behind
  every node of weight not greater than its own, and the initial leaves
  enter in dict insertion order. Every property proved here and elsewhere
  holds whichever way ties are broken.
 */
module Builder {
  import opened HuffmanTree
  import opened Frequency

  /** Weights never decrease along the list, so the front holds the lightest nodes. */
  predicate Sorted(q: seq<Tree>) {
    forall i, j :: 0 <= i < j < |q| ==> q[i].w <= q[j].w
  }

  function SumW(q: seq<Tree>): nat {
    if |q| == 0 then 0 else q[0].w + SumW(q[1..])
  }

  function Bag(q: seq<Tree>): multiset<(char, nat)> {
    if |q| == 0 then multiset{} else LeafBag(q[0]) + Bag(q[1..])
  }

  predicate AllWellFormed(q: seq<Tree>) {
    forall x :: x in q ==> WellFormed(x)
  }

  /**
    `heappush`: `t` enters behind every node no heavier than itself. The
    lemmas below state that it adds exactly `t`, keeps the order, and adds
    `t`'s weight and leaves.
   */
  function Enqueue(q: seq<Tree>, t: Tree): (r: seq<Tree>)
    ensures |r| == |q| + 1
  {
    if |q| == 0 then [t]
    else if q[0].w <= t.w then [q[0]] + Enqueue(q[1..], t)
    else [t] + q
  }

  /** `heappush` adds exactly `t`: the queue after is the queue before plus one copy of `t`. */
  lemma {:induction false} EnqueueAddsOne(q: seq<Tree>, t: Tree)
    ensures multiset(Enqueue(q, t)) == multiset(q) + multiset{t}
    ensures forall x :: x in Enqueue(q, t) ==> x == t || x in q
    decreases |q|
  {
    var r := Enqueue(q, t);
    if |q| == 0 {
      assert r == [t];
    } else if q[0].w <= t.w {
      var rest := Enqueue(q[1..], t);
      assert r == [q[0]] + rest;
      EnqueueAddsOne(q[1..], t);
      assert multiset(r) == multiset{q[0]} + multiset(rest);
      assert q == [q[0]] + q[1..];
      assert multiset(q) == multiset{q[0]} + multiset(q[1..]);
    } else {
      assert r == [t] + q;
    }
    forall x | x in r ensures x == t || x in q {
      assert x in multiset(r);
    }
  }

  /** `heappush` adds `t`'s weight to the total and `t`'s leaves to the queue's leaves. */
  lemma {:induction false} EnqueueSums(q: seq<Tree>, t: Tree)
    ensures SumW(Enqueue(q, t)) == SumW(q) + t.w
    ensures Bag(Enqueue(q, t)) == Bag(q) + LeafBag(t)
    decreases |q|
  {
    var r := Enqueue(q, t);
    if |q| == 0 {
      assert r == [t];
      assert r[1..] == [];
    } else if q[0].w <= t.w {
      var rest := Enqueue(q[1..], t);
      assert r == [q[0]] + rest;
      assert r[0] == q[0] && r[1..] == rest;
      EnqueueSums(q[1..], t);
    } else {
      assert r == [t] + q;
      assert r[0] == t && r[1..] == q;
    }
  }

  /** `heappush` keeps the queue ordered by weight. */
  lemma {:induction false} EnqueueSorted(q: seq<Tree>, t: Tree)
    requires Sorted(q)
    ensures Sorted(Enqueue(q, t))
    decreases |q|
  {
    if |q| == 0 {
      assert Enqueue(q, t) == [t];
    } else if q[0].w <= t.w {
      var rest := Enqueue(q[1..], t);
      assert Enqueue(q, t) == [q[0]] + rest;
      SortedTail(q);
      EnqueueSorted(q[1..], t);
      EnqueueAddsOne(q[1..], t);
      assert rest[0] in rest;
      SortedCons(q[0], rest);
    } else {
      assert Enqueue(q, t) == [t] + q;
      SortedCons(t, q);
    }
  }

  /** Everything `heappush` returns is well-formed when the queue and `t` are. */
  lemma EnqueueWellFormed(q: seq<Tree>, t: Tree)
    requires AllWellFormed(q) && WellFormed(t)
    ensures AllWellFormed(Enqueue(q, t))
  {
    EnqueueAddsOne(q, t);
  }

  /** Everything `heappush` keeps, in one statement for its callers. */
  lemma EnqueueKeeps(q: seq<Tree>, t: Tree)
    ensures SumW(Enqueue(q, t)) == SumW(q) + t.w
    ensures Bag(Enqueue(q, t)) == Bag(q) + LeafBag(t)
    ensures Sorted(q) ==> Sorted(Enqueue(q, t))
    ensures AllWellFormed(q) && WellFormed(t) ==> AllWellFormed(Enqueue(q, t))
  {
    EnqueueSums(q, t);
    if Sorted(q) {
      EnqueueSorted(q, t);
    }
    if AllWellFormed(q) && WellFormed(t) {
      EnqueueWellFormed(q, t);
    }
  }

  /** The lightest node of a sorted queue is no heavier than any other. */
  lemma SortedTail(q: seq<Tree>)
    requires Sorted(q) && |q| > 0
    ensures Sorted(q[1..])
    ensures forall x :: x in q[1..] ==> q[0].w <= x.w
  {
  }

  /** A node no heavier than the front of a sorted queue can go in front of it. */
  lemma SortedCons(x: Tree, q: seq<Tree>)
    requires Sorted(q)
    requires |q| == 0 || x.w <= q[0].w
    ensures Sorted([x] + q)
  {
    var r := [x] + q;
    forall i, j | 0 <= i < j < |r| ensures r[i].w <= r[j].w {
      assert r[j] == q[j - 1];
      if i > 0 {
        assert r[i] == q[i - 1];
      }
    }
  }

  /** Heapify: the leaves of `items`, entered one by one into `q`. */
  function EnqueueLeaves(q: seq<Tree>, items: Freq): (r: seq<Tree>)
    ensures |r| == |q| + |items|
    ensures SumW(r) == SumW(q) + Total(items)
    ensures Bag(r) == Bag(q) + multiset(items)
    ensures Sorted(q) ==> Sorted(r)
    ensures AllWellFormed(q) ==> AllWellFormed(r)
    decreases |items|
  {
    if |items| == 0 then q
    else
      var leaf := Leaf(items[0].0, items[0].1);
      assert items == [items[0]] + items[1..];
      EnqueueKeeps(q, leaf);
      EnqueueLeaves(Enqueue(q, leaf), items[1..])
  }

  /** One iteration: pop the two lightest nodes, push their merge. */
  function MergeStep(q: seq<Tree>): (next: seq<Tree>)
    requires |q| >= 2
    requires Sorted(q)
    requires AllWellFormed(q)
    ensures |next| == |q| - 1
    ensures Sorted(next) && AllWellFormed(next)
    ensures SumW(next) == SumW(q)
    ensures Bag(next) == Bag(q)
  {
    var merged := Node(q[0].w + q[1].w, q[0], q[1]);
    assert q[1..][0] == q[1] && q[1..][1..] == q[2..];
    assert q[0] in q && q[1] in q;
    assert WellFormed(merged);
    assert forall x :: x in q[2..] ==> x in q;
    EnqueueKeeps(q[2..], merged);
    Enqueue(q[2..], merged)
  }

  /** The `while len(heap) > 1` loop: merge the two lightest nodes until one remains. */
  function MergeAll(q: seq<Tree>): (t: Tree)
    requires |q| >= 1
    requires Sorted(q)
    requires AllWellFormed(q)
    ensures WellFormed(t)
    ensures t.w == SumW(q)
    ensures LeafBag(t) == Bag(q)
    decreases |q|
  {
    if |q| == 1 then
      assert q[0] in q;
      q[0]
    else
      MergeAll(MergeStep(q))
  }

  /**
    The tree builder on a non-empty dict: one leaf per item, merged greedily.
    Its leaves are exactly the items (symbol and count), every merged node
    weighs the sum of its children with the lighter one on the left, and the
    root weighs the sum of all counts.
   */
  function Build(items: Freq): (t: Tree)
    requires |items| >= 1
    ensures WellFormed(t)
    ensures LeafBag(t) == multiset(items)
    ensures t.w == Total(items)
  {
    MergeAll(EnqueueLeaves([], items))
  }

  /** Built from a dict, the tree has one leaf per key and no symbol in two leaves. */
  lemma BuildLeaves(items: Freq)
    requires |items| >= 1
    requires KeysDistinct(items)
    ensures UniqueLeaves(Build(items))
    ensures Syms(Build(items)) == Keys(items)
  {
    var t := Build(items);
    ItemsBagDistinct(items);
    UniqueFromBag(t);
    forall c | c in Syms(t) ensures c in Keys(items) {
      var w := SymWeight(t, c);
      ItemIsGet(items, c, w);
    }
    forall c | c in Keys(items) ensures c in Syms(t) {
      GetIsItem(items, c);
      BagSym(t, c, Get(items, c));
    }
  }

  /** Each leaf of a tree built from a dict weighs its key's count. */
  lemma BuildCounts(items: Freq)
    requires |items| >= 1
    requires KeysDistinct(items)
    ensures forall c :: c in Keys(items) ==> (c, Get(items, c)) in LeafBag(Build(items))
    ensures forall c, n :: (c, n) in LeafBag(Build(items)) ==> n == Get(items, c)
  {
    var t := Build(items);
    forall c | c in Keys(items) ensures (c, Get(items, c)) in LeafBag(t) {
      GetIsItem(items, c);
    }
    forall c, n | (c, n) in LeafBag(t) ensures n == Get(items, c) {
      ItemIsGet(items, c, n);
    }
  }

  /** The root is a merged node exactly when the dict has at least two items. */
  lemma BuildShape(items: Freq)
    requires |items| >= 1
    ensures Build(items).Node? <==> |items| >= 2
  {
    var t := Build(items);
    assert |LeafBag(t)| == |items|;
    if t.Node? {
      BagNonEmpty(t.left);
      BagNonEmpty(t.right);
    }
  }
}
