/**
  Symbol counts. A Python dict from symbol to count is modelled by its items
  in insertion order, so that the order in which the tree builder first sees
  the symbols (and hence its tie-breaking) is part of the model.
 */
module Frequency {

  /** The items of a `{symbol: count}` dict, in insertion order. */
  type Freq = seq<(char, nat)>

  /** No symbol occurs in two items, as in any dict. */
  predicate KeysDistinct(f: Freq) {
    forall i, j :: 0 <= i < j < |f| ==> f[i].0 != f[j].0
  }

  /** The symbols that have an entry. */
  function Keys(f: Freq): set<char> {
    set i | 0 <= i < |f| :: f[i].0
  }

  /** `freq.get(c, 0)`: the count of `c`, zero when it has no entry. */
  function Get(f: Freq, c: char): nat {
    if |f| == 0 then 0
    else if f[0].0 == c then f[0].1
    else Get(f[1..], c)
  }

  /** The sum of all counts. */
  function Total(f: Freq): nat {
    if |f| == 0 then 0 else f[0].1 + Total(f[1..])
  }

  /** Reference definition: the number of occurrences of `c` in `text`. */
  function Count(text: string, c: char): nat {
    if |text| == 0 then 0
    else Count(text[..|text| - 1], c) + (if text[|text| - 1] == c then 1 else 0)
  }

  /** The set of distinct symbols of `text`. */
  function Alphabet(text: string): set<char> {
    set c | c in text
  }

  lemma AlphabetSnoc(text: string)
    requires |text| > 0
    ensures Alphabet(text) == Alphabet(text[..|text| - 1]) + {text[|text| - 1]}
  {
    assert text == text[..|text| - 1] + [text[|text| - 1]];
  }

  /** `text` holds at least two different symbols. */
  predicate HasTwoSymbols(text: string) {
    exists i, j :: 0 <= i < |text| && 0 <= j < |text| && text[i] != text[j]
  }

  lemma KeysCons(x: (char, nat), f: Freq)
    ensures Keys([x] + f) == {x.0} + Keys(f)
  {
    var g := [x] + f;
    forall c | c in Keys(g) ensures c in {x.0} + Keys(f) {
      var i :| 0 <= i < |g| && g[i].0 == c;
      if i > 0 {
        assert f[i - 1].0 == c;
      }
    }
    forall c | c in Keys(f) ensures c in Keys(g) {
      var i :| 0 <= i < |f| && f[i].0 == c;
      assert g[i + 1].0 == c;
    }
    assert g[0].0 == x.0;
  }

  lemma GetAbsent(f: Freq, c: char)
    requires c !in Keys(f)
    ensures Get(f, c) == 0
  {
    if |f| > 0 {
      assert f == [f[0]] + f[1..];
      KeysCons(f[0], f[1..]);
      GetAbsent(f[1..], c);
    }
  }

  /**
    `freq[c] = freq.get(c, 0) + 1` (and `freq[c] += 1` on a defaultdict):
    an existing entry keeps its position and gains one; a new symbol is
    appended with count one. The lemmas below state what it does to the
    counts, the keys, the total and the length.
   */
  function Bump(f: Freq, c: char): (g: Freq)
    ensures |g| > 0
  {
    if |f| == 0 then [(c, 1)]
    else if f[0].0 == c then [(c, f[0].1 + 1)] + f[1..]
    else [f[0]] + Bump(f[1..], c)
  }

  /** Bumping the symbol of the front item adds one to that item. */
  lemma BumpFront(f: Freq, c: char)
    requires |f| > 0 && f[0].0 == c
    ensures Bump(f, c) == [(c, f[0].1 + 1)] + f[1..]
  {
  }

  /** Bumping another symbol than the front item's leaves that item in front. */
  lemma BumpPast(f: Freq, c: char)
    requires |f| > 0 && f[0].0 != c
    ensures Bump(f, c) == [f[0]] + Bump(f[1..], c)
  {
  }

  /** The count, the total and the length of a dict with one more item in front. */
  lemma ConsFacts(x: (char, nat), f: Freq)
    ensures forall d :: Get([x] + f, d) == if x.0 == d then x.1 else Get(f, d)
    ensures Total([x] + f) == x.1 + Total(f)
    ensures ([x] + f)[0] == x && ([x] + f)[1..] == f
  {
    assert ([x] + f)[1..] == f;
  }

  /** Bumping `c` adds one to the count of `c` and changes no other count. */
  lemma {:induction false} BumpCounts(f: Freq, c: char)
    ensures forall d :: Get(Bump(f, c), d) == Get(f, d) + (if d == c then 1 else 0)
    decreases |f|
  {
    if |f| == 0 {
      ConsFacts((c, 1), []);
    } else {
      var x, tail := f[0], f[1..];
      ConsFacts(x, tail);
      assert f == [x] + tail;
      if x.0 == c {
        BumpFront(f, c);
        ConsFacts((c, x.1 + 1), tail);
      } else {
        BumpPast(f, c);
        BumpCounts(tail, c);
        ConsFacts(x, Bump(tail, c));
      }
    }
  }

  /** Bumping `c` adds `c` to the keys. */
  lemma {:induction false} BumpKeys(f: Freq, c: char)
    ensures Keys(Bump(f, c)) == Keys(f) + {c}
    decreases |f|
  {
    if |f| == 0 {
      KeysCons((c, 1), []);
    } else {
      var x, tail := f[0], f[1..];
      assert f == [x] + tail;
      KeysCons(x, tail);
      if x.0 == c {
        BumpFront(f, c);
        KeysCons((c, x.1 + 1), tail);
      } else {
        BumpPast(f, c);
        BumpKeys(tail, c);
        KeysCons(x, Bump(tail, c));
      }
    }
  }

  /** Bumping adds one to the total. */
  lemma {:induction false} BumpTotal(f: Freq, c: char)
    ensures Total(Bump(f, c)) == Total(f) + 1
    decreases |f|
  {
    if |f| == 0 {
      ConsFacts((c, 1), []);
    } else {
      var x, tail := f[0], f[1..];
      ConsFacts(x, tail);
      assert f == [x] + tail;
      if x.0 == c {
        BumpFront(f, c);
        ConsFacts((c, x.1 + 1), tail);
      } else {
        BumpPast(f, c);
        BumpTotal(tail, c);
        ConsFacts(x, Bump(tail, c));
      }
    }
  }

  /**
    Bumping keeps the keys distinct; it keeps the length when `c` has an
    entry and adds one item otherwise.
   */
  lemma {:induction false} BumpDistinct(f: Freq, c: char)
    requires KeysDistinct(f)
    ensures KeysDistinct(Bump(f, c))
    ensures |Bump(f, c)| == if c in Keys(f) then |f| else |f| + 1
    decreases |f|
  {
    if |f| == 0 {
      DistinctCons((c, 1), []);
    } else {
      var x, tail := f[0], f[1..];
      assert f == [x] + tail;
      KeysCons(x, tail);
      DistinctCons(x, tail);
      if x.0 == c {
        BumpFront(f, c);
        DistinctCons((c, x.1 + 1), tail);
      } else {
        BumpPast(f, c);
        BumpDistinct(tail, c);
        BumpKeys(tail, c);
        DistinctCons(x, Bump(tail, c));
      }
    }
  }

  /** A dict with one more item in front has distinct keys exactly when the rest has and lacks its key. */
  lemma DistinctCons(x: (char, nat), f: Freq)
    ensures KeysDistinct([x] + f) <==> KeysDistinct(f) && x.0 !in Keys(f)
  {
    var g := [x] + f;
    if KeysDistinct(g) {
      forall j, k | 0 <= j < k < |f| ensures f[j].0 != f[k].0 {
        assert g[j + 1] == f[j] && g[k + 1] == f[k];
      }
      forall j | 0 <= j < |f| ensures f[j].0 != x.0 {
        assert g[0] == x && g[j + 1] == f[j];
      }
    }
    if KeysDistinct(f) && x.0 !in Keys(f) {
      forall j, k | 0 <= j < k < |g| ensures g[j].0 != g[k].0 {
        assert g[k] == f[k - 1];
        if j > 0 {
          assert g[j] == f[j - 1];
        }
      }
    }
  }

  /**
    The frequency loop of build_huffman_tree and `Counter(text)`: counts of
    the symbols of `text`, keyed in order of first occurrence.
   */
  function Tally(text: string): (f: Freq)
    ensures KeysDistinct(f)
    ensures Keys(f) == Alphabet(text)
    ensures forall c :: Get(f, c) == Count(text, c)
    ensures Total(f) == |text|
    ensures |f| == 0 <==> |text| == 0
  {
    if |text| == 0 then []
    else
      var prefix := text[..|text| - 1];
      var last := text[|text| - 1];
      var g := Tally(prefix);
      AlphabetSnoc(text);
      BumpCounts(g, last);
      BumpKeys(g, last);
      BumpTotal(g, last);
      BumpDistinct(g, last);
      Bump(g, last)
  }

  /** The tally of a text is the tally of all but its last symbol, bumped by that symbol. */
  lemma TallySnoc(text: string)
    requires |text| > 0
    ensures Tally(text) == Bump(Tally(text[..|text| - 1]), text[|text| - 1])
  {
  }

  /** A counted symbol's item is in the dict, with its count. */
  lemma GetIsItem(f: Freq, c: char)
    requires c in Keys(f)
    ensures (c, Get(f, c)) in f
  {
    assert f == [f[0]] + f[1..];
    KeysCons(f[0], f[1..]);
    if f[0].0 != c {
      GetIsItem(f[1..], c);
    }
  }

  /** In a dict every item carries its key's count. */
  lemma ItemIsGet(f: Freq, c: char, n: nat)
    requires KeysDistinct(f)
    requires (c, n) in f
    ensures c in Keys(f) && n == Get(f, c)
  {
    var i :| 0 <= i < |f| && f[i] == (c, n);
    if i > 0 {
      assert f[1..][i - 1] == (c, n);
      ItemIsGet(f[1..], c, n);
    }
  }

  /** A text has two different symbols exactly when its tally has two items. */
  lemma TwoSymbolsIffTwoKeys(text: string)
    ensures HasTwoSymbols(text) <==> |Tally(text)| >= 2
  {
    var f := Tally(text);
    if |f| >= 2 {
      assert f[0].0 in Keys(f) && f[1].0 in Keys(f);
      var i :| 0 <= i < |text| && text[i] == f[0].0;
      var j :| 0 <= j < |text| && text[j] == f[1].0;
    }
  }
}
