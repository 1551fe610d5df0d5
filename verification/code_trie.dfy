/**
  The decode tree that app.py rebuilds from an imported code table. Every
  node is an `app.Node`: an optional symbol (`char`, a string, `None` until
  a code ends there) and optional children. The rebuild starts from a bare
  root and, for each imported `(symbol, code)` entry in order, walks the
  code's bits from the root, creating a missing child on the way ('0' goes
  left, every other character right), and stores the symbol where the walk
  ends. A later entry whose code leads to the same node overwrites it.
 */
module CodeTrie {
  import opened Outcome

  datatype Trie = Trie(sym: Option<string>, left: Option<Trie>, right: Option<Trie>)

  /** `Node(None, 0)`: no symbol, no children. */
  const Bare: Trie := Trie(None, None, None)

  /** Both characters send the walk the same way ('0' left, anything else right). */
  predicate SameDir(a: char, b: char) {
    (a == '0') == (b == '0')
  }

  /** `p` and `q` describe the same walk. */
  predicate SamePath(p: string, q: string) {
    |p| == |q| && forall i :: 0 <= i < |p| ==> SameDir(p[i], q[i])
  }

  /** The walk along `p` is an initial part of the walk along `q`. */
  predicate PathPrefix(p: string, q: string) {
    |p| <= |q| && SamePath(p, q[..|p|])
  }

  /** `node.left if bit == '0' else node.right` */
  function Child(t: Trie, bit: char): Option<Trie> {
    if bit == '0' then t.left else t.right
  }

  /** The node reached from `t` along `bits`; `None` once a child is missing. */
  function Walk(t: Trie, bits: string): Option<Trie>
    decreases |bits|
  {
    if |bits| == 0 then Some(t)
    else
      var c := Child(t, bits[0]);
      if c.None? then None else Walk(c.value, bits[1..])
  }

  /** The symbol stored at the end of the walk along `q`, if the walk and a symbol exist. */
  function SymAt(t: Trie, q: string): Option<string> {
    if Walk(t, q).Some? then Walk(t, q).value.sym else None
  }

  /** The inner loop of the rebuild: walk `code`, creating missing children, then set the symbol. */
  function Insert(t: Trie, code: string, s: string): Trie
    decreases |code|
  {
    if |code| == 0 then t.(sym := Some(s))
    else
      var child := Child(t, code[0]);
      var sub := Insert(if child.Some? then child.value else Bare, code[1..], s);
      if code[0] == '0' then t.(left := Some(sub)) else t.(right := Some(sub))
  }

  /** The rebuild loop over the imported entries `(symbol, code)`, in order. */
  function Rebuild(entries: seq<(string, string)>): Trie
    decreases |entries|
  {
    if |entries| == 0 then Bare
    else
      var last := entries[|entries| - 1];
      Insert(Rebuild(entries[..|entries| - 1]), last.1, last.0)
  }

  /** Reference definition: the symbol of the last entry whose code walks like `q`. */
  function LastSym(entries: seq<(string, string)>, q: string): Option<string>
    decreases |entries|
  {
    if |entries| == 0 then None
    else if SamePath(q, entries[|entries| - 1].1) then Some(entries[|entries| - 1].0)
    else LastSym(entries[..|entries| - 1], q)
  }

  /** The only walk that exists in a bare node is the empty one. */
  lemma WalkBare(q: string)
    ensures Walk(Bare, q).Some? <==> |q| == 0
    ensures SymAt(Bare, q) == None
  {
  }

  /** Two walks that start in the same direction agree exactly when their tails do. */
  lemma SamePathCons(p: string, q: string)
    requires |p| > 0 && |q| > 0
    ensures SamePath(p, q) <==> SameDir(p[0], q[0]) && SamePath(p[1..], q[1..])
    ensures PathPrefix(p, q) <==> SameDir(p[0], q[0]) && PathPrefix(p[1..], q[1..])
  {
    if SameDir(p[0], q[0]) && SamePath(p[1..], q[1..]) {
      forall i | 0 <= i < |p| ensures SameDir(p[i], q[i]) {
        if i > 0 {
          assert p[1..][i - 1] == p[i] && q[1..][i - 1] == q[i];
        }
      }
    }
    if |p| <= |q| {
      assert q[..|p|][1..] == q[1..][..|p| - 1];
    }
  }

  /**
    Inserting `s` along `p` adds exactly the walks that are initial parts of
    `p`, stores `s` at the end of `p`, and leaves every other stored symbol
    where it was.
   */
  lemma {:induction false} InsertWalk(t: Trie, p: string, s: string, q: string)
    ensures Walk(Insert(t, p, s), q).Some? <==> Walk(t, q).Some? || PathPrefix(q, p)
    ensures SymAt(Insert(t, p, s), q) == if SamePath(q, p) then Some(s) else SymAt(t, q)
    decreases |q|
  {
    var r := Insert(t, p, s);
    if |q| == 0 {
    } else if |p| == 0 {
      assert Child(r, q[0]) == Child(t, q[0]);
    } else {
      SamePathCons(q, p);
      if !SameDir(q[0], p[0]) {
        assert Child(r, q[0]) == Child(t, q[0]);
      } else {
        var child := Child(t, p[0]);
        var base := if child.Some? then child.value else Bare;
        var sub := Insert(base, p[1..], s);
        assert Child(r, q[0]) == Some(sub);
        assert Child(t, q[0]) == child;
        InsertWalk(base, p[1..], s, q[1..]);
        if child.None? {
          WalkBare(q[1..]);
        }
      }
    }
  }

  /**
    After the rebuild, the walk along `q` exists exactly when `q` is empty or
    an initial part of some imported code, and the symbol found at its end
    is that of the last entry whose code walks like `q`.
   */
  lemma {:induction false} RebuildWalk(entries: seq<(string, string)>, q: string)
    ensures Walk(Rebuild(entries), q).Some? <==>
      |q| == 0 || exists i :: 0 <= i < |entries| && PathPrefix(q, entries[i].1)
    ensures SymAt(Rebuild(entries), q) == LastSym(entries, q)
    decreases |entries|
  {
    if |entries| == 0 {
      WalkBare(q);
    } else {
      var init := entries[..|entries| - 1];
      var last := entries[|entries| - 1];
      RebuildWalk(init, q);
      InsertWalk(Rebuild(init), last.1, last.0, q);
      if exists i :: 0 <= i < |entries| && PathPrefix(q, entries[i].1) {
        var i :| 0 <= i < |entries| && PathPrefix(q, entries[i].1);
        if i < |entries| - 1 {
          assert init[i] == entries[i];
        }
      }
      if exists i :: 0 <= i < |init| && PathPrefix(q, init[i].1) {
        var i :| 0 <= i < |init| && PathPrefix(q, init[i].1);
        assert entries[i] == init[i];
      }
    }
  }

  /** No imported code is empty, and no code's walk is an initial part of another's. */
  predicate PrefixFree(entries: seq<(string, string)>) {
    && (forall i :: 0 <= i < |entries| ==> |entries[i].1| > 0)
    && (forall i, j :: 0 <= i < |entries| && 0 <= j < |entries| && i != j ==>
          !PathPrefix(entries[i].1, entries[j].1))
  }

  /**
    Walking `code` from `node` passes only symbol-less nodes and ends at a
    node holding `s`: the decoder emits `s` exactly when the code ends.
   */
  predicate Decodes(node: Trie, code: string, s: string) {
    && |code| > 0
    && SymAt(node, code) == Some(s)
    && forall k :: 0 < k < |code| ==> Walk(node, code[..k]).Some? && SymAt(node, code[..k]).None?
  }

  /** When exactly one entry's code walks like `q`, that entry's symbol is found there. */
  lemma {:induction false} LastSymOnly(entries: seq<(string, string)>, q: string, i: nat)
    requires i < |entries| && SamePath(q, entries[i].1)
    requires forall j :: 0 <= j < |entries| && j != i ==> !SamePath(q, entries[j].1)
    ensures LastSym(entries, q) == Some(entries[i].0)
    decreases |entries|
  {
    var init := entries[..|entries| - 1];
    if i < |entries| - 1 {
      assert init[i] == entries[i];
      forall j | 0 <= j < |init| && j != i ensures !SamePath(q, init[j].1) {
        assert init[j] == entries[j];
      }
      LastSymOnly(init, q, i);
    }
  }

  /** When no entry's code walks like `q`, no symbol is found there. */
  lemma {:induction false} LastSymNone(entries: seq<(string, string)>, q: string)
    requires forall j :: 0 <= j < |entries| ==> !SamePath(q, entries[j].1)
    ensures LastSym(entries, q) == None
    decreases |entries|
  {
    if |entries| > 0 {
      var init := entries[..|entries| - 1];
      forall j | 0 <= j < |init| ensures !SamePath(q, init[j].1) {
        assert init[j] == entries[j];
      }
      LastSymNone(init, q);
    }
  }

  /**
    With prefix-free codes, walking any imported code through the rebuilt
    tree reaches that entry's symbol and no symbol before it.
   */
  lemma RebuildDecodes(entries: seq<(string, string)>, i: nat)
    requires PrefixFree(entries)
    requires i < |entries|
    ensures Decodes(Rebuild(entries), entries[i].1, entries[i].0)
  {
    var t := Rebuild(entries);
    var code := entries[i].1;
    assert code[..|code|] == code;
    RebuildWalk(entries, code);
    forall j | 0 <= j < |entries| && j != i ensures !SamePath(code, entries[j].1) {
      assert !PathPrefix(entries[j].1, code);
    }
    LastSymOnly(entries, code, i);
    forall k | 0 < k < |code| ensures Walk(t, code[..k]).Some? && SymAt(t, code[..k]).None? {
      var q := code[..k];
      assert code[..k][..k] == q;
      assert PathPrefix(q, code);
      RebuildWalk(entries, q);
      forall j | 0 <= j < |entries| ensures !SamePath(q, entries[j].1) {
      }
      LastSymNone(entries, q);
    }
  }
}
