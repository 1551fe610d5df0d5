/**
  The Huffman tree of huffman.py and app.py (class `Node`): a leaf holds a
  symbol and its weight; a merged node holds no symbol (`char = None`), a
  weight and two children. The tagged variant replaces the one class with
  optional fields; a Python leaf's `left` and `right` are `None`.
 */
module HuffmanTree {
  import opened Outcome

  datatype Tree = Leaf(sym: char, w: nat) | Node(w: nat, left: Tree, right: Tree)

  /** The symbols held by the leaves. */
  function Syms(t: Tree): set<char> {
    match t
    case Leaf(c, _) => {c}
    case Node(_, l, r) => Syms(l) + Syms(r)
  }

  /** The (symbol, weight) pairs of the leaves, with multiplicity. */
  function LeafBag(t: Tree): multiset<(char, nat)> {
    match t
    case Leaf(c, w) => multiset{(c, w)}
    case Node(_, l, r) => LeafBag(l) + LeafBag(r)
  }

  /**
    Every merged node weighs the sum of its children, and the first node
    popped (the left child) is no heavier than the second.
   */
  predicate WellFormed(t: Tree) {
    match t
    case Leaf(_, _) => true
    case Node(w, l, r) => w == l.w + r.w && l.w <= r.w && WellFormed(l) && WellFormed(r)
  }

  /** No symbol is held by two leaves. */
  predicate UniqueLeaves(t: Tree) {
    match t
    case Leaf(_, _) => true
    case Node(_, l, r) => Syms(l) !! Syms(r) && UniqueLeaves(l) && UniqueLeaves(r)
  }

  /**
    The subtree reached from `t` along `bits`, moving left on '0' and right
    on any other bit; `None` when the walk must leave a leaf.
   */
  function Follow(t: Tree, bits: string): Option<Tree>
    decreases |bits|
  {
    if |bits| == 0 then Some(t)
    else match t
      case Leaf(_, _) => None
      case Node(_, l, r) => Follow(if bits[0] == '0' then l else r, bits[1..])
  }

  /** Walking `bits` from `t` ends at a leaf holding `c`. */
  predicate LeafOf(t: Tree, bits: string, c: char) {
    Follow(t, bits).Some? && Follow(t, bits).value.Leaf? && Follow(t, bits).value.sym == c
  }

  predicate IsPrefix(p: string, q: string) {
    |p| <= |q| && q[..|p|] == p
  }

  /** Every character is a bit '0' or '1'. */
  predicate IsBits(s: string) {
    forall i :: 0 <= i < |s| ==> s[i] == '0' || s[i] == '1'
  }

  /** A walk along `a + b` is the walk along `a` continued along `b`. */
  lemma {:induction false} FollowAppend(t: Tree, a: string, b: string)
    ensures Follow(t, a + b) == (if Follow(t, a).Some? then Follow(Follow(t, a).value, b) else None)
  {
    if |a| > 0 {
      match t
      case Leaf(_, _) =>
      case Node(_, l, r) =>
        assert (a + b)[0] == a[0];
        assert (a + b)[1..] == a[1..] + b;
        FollowAppend(if a[0] == '0' then l else r, a[1..], b);
    } else {
      assert a + b == b;
    }
  }

  /** Every tree has a leaf. */
  lemma BagNonEmpty(t: Tree)
    ensures |LeafBag(t)| >= 1
  {
  }

  /** A symbol held by a leaf comes with that leaf's weight. */
  lemma SymWeight(t: Tree, c: char) returns (w: nat)
    requires c in Syms(t)
    ensures (c, w) in LeafBag(t)
  {
    match t
    case Leaf(_, w') => w := w';
    case Node(_, l, r) =>
      if c in Syms(l) {
        w := SymWeight(l, c);
      } else {
        w := SymWeight(r, c);
      }
  }

  /** Every leaf pair names a symbol of the tree. */
  lemma {:induction false} BagSym(t: Tree, c: char, w: nat)
    requires (c, w) in LeafBag(t)
    ensures c in Syms(t)
  {
    match t
    case Leaf(_, _) =>
    case Node(_, l, r) =>
      if (c, w) in LeafBag(l) {
        BagSym(l, c, w);
      } else {
        BagSym(r, c, w);
      }
  }

  /** Each symbol occurs once in the bag, and never with two weights. */
  ghost predicate BagKeysDistinct(b: multiset<(char, nat)>) {
    && (forall p :: p in b ==> b[p] == 1)
    && (forall p, q :: p in b && q in b && p.0 == q.0 ==> p == q)
  }

  /** A bag whose symbols are distinct is built by a tree with unique leaves. */
  lemma {:induction false} UniqueFromBag(t: Tree)
    requires BagKeysDistinct(LeafBag(t))
    ensures UniqueLeaves(t)
  {
    match t
    case Leaf(_, _) =>
    case Node(_, l, r) =>
      var b := LeafBag(t);
      assert LeafBag(t) == LeafBag(l) + LeafBag(r);
      forall p | p in LeafBag(l) ensures LeafBag(l)[p] == 1 {
        assert b[p] == LeafBag(l)[p] + LeafBag(r)[p];
      }
      forall p | p in LeafBag(r) ensures LeafBag(r)[p] == 1 {
        assert b[p] == LeafBag(l)[p] + LeafBag(r)[p];
      }
      UniqueFromBag(l);
      UniqueFromBag(r);
      forall c | c in Syms(l) ensures c !in Syms(r) {
        var wl := SymWeight(l, c);
        if c in Syms(r) {
          var wr := SymWeight(r, c);
          assert false;
        }
      }
  }

  /** A dict's items, as a bag, have distinct symbols. */
  lemma {:induction false} ItemsBagDistinct(f: seq<(char, nat)>)
    requires forall i, j :: 0 <= i < j < |f| ==> f[i].0 != f[j].0
    ensures BagKeysDistinct(multiset(f))
  {
    if |f| > 0 {
      assert f == [f[0]] + f[1..];
      ItemsBagDistinct(f[1..]);
      assert f[0] !in f[1..];
      forall p, q | p in multiset(f) && q in multiset(f) && p.0 == q.0 ensures p == q {
        var i :| 0 <= i < |f| && f[i] == p;
        var j :| 0 <= j < |f| && f[j] == q;
      }
    }
  }
}
