/**
  adaptive_demo.py: the simulated adaptive encoder. For every symbol it
  first bumps the symbol's count, then rebuilds the tree and the code table
  from the updated counts, then emits the symbol's current code, and records
  a snapshot of the counts and of the code table.

  adaptive_encode calls `generate_codes(root, "")`, so every step writes into
  the one default dict of generate_codes (`shared`), and each step's
  snapshot is a copy of that dict, stale entries included. The unused
  `update_interval` parameter and the timing are not modelled.
 */
module AdaptiveDemo {
  import opened Outcome
  import opened Frequency
  import opened HuffmanTree
  import opened Builder
  import opened Huffman

  /**
    build_tree_from_freq: the greedy merge over the dict's items. Its leaves
    are exactly the keys with their counts; an empty dict raises at `heap[0]`.
   */
  function BuildTreeFromFreq(freq: Freq): (r: Result<Tree>)
    requires KeysDistinct(freq)
    ensures r.Err? <==> |freq| == 0
    ensures r.Err? ==> r.error == EmptyHeap
    ensures r.Ok? ==> WellFormed(r.value) && UniqueLeaves(r.value)
    ensures r.Ok? ==> LeafBag(r.value) == multiset(freq) && Syms(r.value) == Keys(freq)
    ensures r.Ok? ==> r.value.w == Total(freq)
  {
    if |freq| == 0 then Err(EmptyHeap)
    else
      BuildLeaves(freq);
      Ok(Build(freq))
  }

  /** One entry of `step_results`: `(i, dict(freq), codes.copy())`. */
  datatype Step = Step(index: nat, freq: Freq, codes: map<char, string>)

  /** The state after a prefix of the text: stream so far, counts, shared code dict, trace. */
  datatype Run = Run(stream: string, freq: Freq, mapping: map<char, string>, steps: seq<Step>)

  /**
    One iteration of adaptive_encode's loop, for symbol `ch` at position `i`:
    bump the count first, rebuild the tree and walk it into the shared code
    dict, then emit `ch`'s code and record the snapshot. Because the count is
    bumped before the rebuild, `ch` is a leaf of the tree that encodes it and
    its code exists.
   */
  function Advance(prev: Run, ch: char, i: nat): (r: Run)
    requires KeysDistinct(prev.freq)
    ensures r.freq == Bump(prev.freq, ch)
    ensures ch in r.mapping
    ensures r.mapping.Keys == prev.mapping.Keys + Keys(r.freq)
    ensures r.stream == prev.stream + r.mapping[ch]
    ensures r.steps == prev.steps + [Step(i, r.freq, r.mapping)]
  {
    var freq := Bump(prev.freq, ch);
    BumpKeys(prev.freq, ch);
    BumpDistinct(prev.freq, ch);
    var root := BuildTreeFromFreq(freq).value;
    var codes := GenerateCodes(root, "", prev.mapping);
    BuildLeaves(freq);
    Run(prev.stream + codes[ch], freq, codes, prev.steps + [Step(i, freq, codes)])
  }

  /** The step's table is the rebuilt tree's codes written over the shared dict, and `ch` is a leaf of that tree. */
  lemma AdvanceRebuilds(prev: Run, ch: char, i: nat)
    requires KeysDistinct(prev.freq)
    ensures ch in Syms(Build(Bump(prev.freq, ch)))
    ensures Advance(prev, ch, i).mapping == GenerateCodes(Build(Bump(prev.freq, ch)), "", prev.mapping)
  {
    BumpKeys(prev.freq, ch);
    BumpDistinct(prev.freq, ch);
    BuildLeaves(Bump(prev.freq, ch));
  }

  /**
    adaptive_encode over `text`, with `shared` the contents of the default
    code dict when the call starts: one Advance per symbol, numbered from 1.
   */
  function AdaptiveEncode(text: string, shared: map<char, string>): (r: Run)
    ensures r.freq == Tally(text)
    ensures |r.steps| == |text|
    decreases |text|
  {
    if |text| == 0 then Run("", [], shared, [])
    else
      var prefix := text[..|text| - 1];
      var prev := AdaptiveEncode(prefix, shared);
      var r := Advance(prev, text[|text| - 1], |text|);
      TallySnoc(text);
      r
  }

  /** After the loop the shared code dict holds its old keys and every symbol of the text. */
  lemma {:induction false} EncodeKeys(text: string, shared: map<char, string>)
    ensures AdaptiveEncode(text, shared).mapping.Keys == shared.Keys + Alphabet(text)
    decreases |text|
  {
    if |text| > 0 {
      var prefix := text[..|text| - 1];
      EncodeKeys(prefix, shared);
      var prev := AdaptiveEncode(prefix, shared);
      var r := AdaptiveEncode(text, shared);
      assert r.mapping.Keys == prev.mapping.Keys + Keys(Tally(text));
      AlphabetSnoc(text);
    }
  }

  /**
    Reference definition of one step's output: the code of the last symbol
    of `prefix` in the code table built afresh from the counts of `prefix`.
   */
  function StepCode(prefix: string): string
    requires |prefix| > 0
  {
    var freq := Tally(prefix);
    var root := Build(freq);
    BuildLeaves(freq);
    assert prefix[|prefix| - 1] in Alphabet(prefix);
    GenerateCodes(root, "", map[])[prefix[|prefix| - 1]]
  }

  /** Reference definition of the stream: the step codes of every prefix, in order. */
  function AdaptiveReference(text: string): string
    decreases |text|
  {
    if |text| == 0 then "" else AdaptiveReference(text[..|text| - 1]) + StepCode(text)
  }

  /**
    `encoded_stream` is the concatenation, over the steps, of each symbol's
    code in that step's freshly built table: stale entries of the shared
    dict never reach it.
   */
  lemma {:induction false} AdaptiveStream(text: string, shared: map<char, string>)
    ensures AdaptiveEncode(text, shared).stream == AdaptiveReference(text)
    decreases |text|
  {
    if |text| > 0 {
      var prefix := text[..|text| - 1];
      var ch := text[|text| - 1];
      AdaptiveStream(prefix, shared);
      var prev := AdaptiveEncode(prefix, shared);
      var freq := Tally(text);
      var root := Build(freq);
      BuildLeaves(freq);
      assert ch in Alphabet(text);
      GenerateCodesOverrides(root, "", prev.mapping);
    }
  }

  /** A run extends the run over the text without its last symbol by one step. */
  lemma RunSnoc(text: string, shared: map<char, string>)
    requires |text| > 0
    ensures AdaptiveEncode(text, shared).steps[..|text| - 1] == AdaptiveEncode(text[..|text| - 1], shared).steps
  {
  }

  /** Step `i` of a run is the last step of the run over the first `i + 1` symbols. */
  lemma {:induction false} StepIsPrefixRun(text: string, shared: map<char, string>, i: nat)
    requires i < |text|
    ensures AdaptiveEncode(text, shared).steps[i] == AdaptiveEncode(text[..i + 1], shared).steps[i]
    decreases |text|
  {
    if i < |text| - 1 {
      var prefix := text[..|text| - 1];
      var q := text[..i + 1];
      assert prefix[..i + 1] == q;
      var r := AdaptiveEncode(text, shared);
      var rp := AdaptiveEncode(prefix, shared);
      RunSnoc(text, shared);
      assert r.steps[i] == rp.steps[i];
      StepIsPrefixRun(prefix, shared, i);
      assert rp.steps[i] == AdaptiveEncode(q, shared).steps[i];
    } else {
      assert text[..i + 1] == text;
    }
  }

  /**
    The trace: `step_results` has one entry per symbol, with indices 1..n in
    order. The counts of entry `i` are those of the first `i` symbols, and
    sum to `i`; the current symbol's count is its previous count plus one,
    every other count is unchanged; and the current symbol's entry in the
    snapshot is its code in the table built afresh for that step.
   */
  lemma AdaptiveTrace(text: string, shared: map<char, string>, i: nat)
    requires i < |text|
    ensures var s := AdaptiveEncode(text, shared).steps[i];
      && s.index == i + 1
      && s.freq == Tally(text[..i + 1])
      && Total(s.freq) == i + 1
      && Get(s.freq, text[i]) == Count(text[..i], text[i]) + 1
      && (forall d :: d != text[i] ==> Get(s.freq, d) == Count(text[..i], d))
      && text[i] in Syms(Build(s.freq))
      && text[i] in s.codes && s.codes[text[i]] == StepCode(text[..i + 1])
  {
    var p := text[..i + 1];
    StepIsPrefixRun(text, shared, i);
    assert p[|p| - 1] == text[i];
    LastStep(p, shared);
    TallyStep(text, i);
    BumpCounts(Tally(text[..i]), text[i]);
  }

  /** The counts after `i + 1` symbols are those after `i` symbols with the `i`-th bumped. */
  lemma TallyStep(text: string, i: nat)
    requires i < |text|
    ensures Tally(text[..i + 1]) == Bump(Tally(text[..i]), text[i])
  {
    var p := text[..i + 1];
    assert p[..|p| - 1] == text[..i];
    assert p[|p| - 1] == text[i];
  }

  /** The last step of a run: numbered `|text|`, with the counts of the whole text and a fresh code. */
  lemma LastStep(text: string, shared: map<char, string>)
    requires |text| > 0
    ensures var s := AdaptiveEncode(text, shared).steps[|text| - 1];
      var ch := text[|text| - 1];
      && s.index == |text|
      && s.freq == Tally(text)
      && ch in Syms(Build(s.freq))
      && ch in s.codes && s.codes[ch] == StepCode(text)
  {
    var prefix := text[..|text| - 1];
    var ch := text[|text| - 1];
    var prev := AdaptiveEncode(prefix, shared);
    var r := AdaptiveEncode(text, shared);
    assert r == Advance(prev, ch, |text|);
    var s := r.steps[|text| - 1];
    assert s == Step(|text|, r.freq, r.mapping);
    BuildLeaves(r.freq);
    GenerateCodesOverrides(Build(r.freq), "", prev.mapping);
  }

  /**
    While only one distinct symbol has been seen its code is empty and the
    step adds no bits; once two have been seen every step adds at least one.
   */
  lemma StepCodeEmpty(prefix: string)
    requires |prefix| > 0
    ensures StepCode(prefix) == "" <==> !HasTwoSymbols(prefix)
  {
    var freq := Tally(prefix);
    var root := Build(freq);
    BuildLeaves(freq);
    BuildShape(freq);
    TwoSymbolsIffTwoKeys(prefix);
    CodeLengths(root, map[]);
    assert prefix[|prefix| - 1] in Alphabet(prefix);
  }

  /** In particular the first step always adds nothing. */
  lemma FirstStepSilent(text: string, shared: map<char, string>)
    requires |text| > 0
    ensures |AdaptiveEncode(text[..1], shared).stream| == 0
  {
    var p := text[..1];
    AdaptiveStream(p, shared);
    assert p[..0] == [];
    StepCodeEmpty(p);
  }
}
