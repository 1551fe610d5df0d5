/**
  huffman.py: the static codec. The frequency pass and tree builder, the
  code-table walk with its accumulator map, the encoder, the decoder and
  the size and round-trip logic of compress_text.

  `generate_codes` declares its accumulator as a mutable default argument
  (`mapping={}`), so every call that omits it (compress_text, and
  adaptive_encode, which passes only the code) writes into one dict shared
  by all such calls in the process. The model makes that dict an explicit
  parameter, `shared`, and proves that the stale entries it may hold never
  change what is encoded.
 */
module Huffman {
  import opened Outcome
  import opened Frequency
  import opened HuffmanTree
  import opened Builder

  /**
    build_huffman_tree: count the symbols of `text`, then merge greedily.
    An empty text leaves the heap empty and `heap[0]` raises.
   */
  function BuildHuffmanTree(text: string): (r: Result<Tree>)
    ensures r.Err? <==> |text| == 0
    ensures r.Err? ==> r.error == EmptyHeap
    ensures r.Ok? ==> WellFormed(r.value) && UniqueLeaves(r.value) && r.value.w == |text|
    ensures r.Ok? ==> Syms(r.value) == Alphabet(text)
    ensures r.Ok? ==> forall c :: c in text ==> (c, Count(text, c)) in LeafBag(r.value)
    ensures r.Ok? ==> forall c, n :: (c, n) in LeafBag(r.value) ==> n == Count(text, c)
    ensures r.Ok? ==> (r.value.Node? <==> HasTwoSymbols(text))
  {
    if |text| == 0 then Err(EmptyHeap)
    else
      var f := Tally(text);
      BuildLeaves(f);
      BuildCounts(f);
      BuildShape(f);
      TwoSymbolsIffTwoKeys(text);
      Ok(Build(f))
  }

  /**
    generate_codes(node, code, mapping): a pre-order walk that records an
    entry for every leaf of `node`. Entries of `mapping` for symbols without
    a leaf are kept; where the recorded codes lead is stated by
    GenerateCodesPaths.
   */
  function GenerateCodes(node: Tree, code: string, mapping: map<char, string>): (m: map<char, string>)
    ensures m.Keys == mapping.Keys + Syms(node)
    ensures forall c :: c in mapping && c !in Syms(node) ==> m[c] == mapping[c]
  {
    match node
    case Leaf(c, _) => mapping[c := code]
    case Node(_, l, r) => GenerateCodes(r, code + "1", GenerateCodes(l, code + "0", mapping))
  }

  /** `code` followed by a path from `node` to a leaf holding `c`, all bits. */
  predicate PathCode(node: Tree, code: string, s: string, c: char) {
    IsPrefix(code, s) && LeafOf(node, s[|code|..], c) && IsBits(s[|code|..])
  }

  /**
    Each symbol of `node` is recorded with its root-to-leaf path behind
    `code`: '0' for a left edge, '1' for a right edge.
   */
  lemma {:induction false} GenerateCodesPaths(node: Tree, code: string, mapping: map<char, string>)
    ensures forall c :: c in Syms(node) ==> PathCode(node, code, GenerateCodes(node, code, mapping)[c], c)
  {
    match node
    case Leaf(c, _) =>
      assert code[|code|..] == [];
    case Node(_, l, r) =>
      var m1 := GenerateCodes(l, code + "0", mapping);
      var m := GenerateCodes(r, code + "1", m1);
      GenerateCodesPaths(l, code + "0", mapping);
      GenerateCodesPaths(r, code + "1", m1);
      forall c | c in Syms(node) ensures PathCode(node, code, m[c], c) {
        if c in Syms(r) {
          PathCodeChild(node, code, m[c], c, '1');
        } else {
          PathCodeChild(node, code, m[c], c, '0');
        }
      }
  }

  /** A path code in a child of `node` is a path code in `node`, one edge longer. */
  lemma PathCodeChild(node: Tree, code: string, s: string, c: char, bit: char)
    requires node.Node? && (bit == '0' || bit == '1')
    requires PathCode(if bit == '0' then node.left else node.right, code + [bit], s, c)
    ensures PathCode(node, code, s, c)
  {
    var sub := if bit == '0' then node.left else node.right;
    var p := code + [bit];
    assert s[..|p|] == p;
    assert s[..|code|] == p[..|code|] == code;
    assert s[|code|..] == [bit] + s[|p|..];
    assert Follow(node, s[|code|..]) == Follow(sub, s[|p|..]);
  }

  /** Two leaf paths, one a prefix of the other, are the same path to the same leaf. */
  lemma LeafPathsPrefix(t: Tree, p: string, c: char, q: string, d: char)
    requires LeafOf(t, p, c) && LeafOf(t, q, d)
    requires IsPrefix(p, q)
    ensures p == q && c == d
  {
    assert q == p + q[|p|..];
    FollowAppend(t, p, q[|p|..]);
  }

  /**
    The code table of a tree is prefix-free: only leaves carry a symbol, so
    no symbol's code is a prefix of another symbol's code.
   */
  lemma CodesPrefixFree(t: Tree, shared: map<char, string>)
    ensures forall c, d :: c in Syms(t) && d in Syms(t) && c != d ==>
      !IsPrefix(GenerateCodes(t, "", shared)[c], GenerateCodes(t, "", shared)[d])
  {
    var m := GenerateCodes(t, "", shared);
    GenerateCodesPaths(t, "", shared);
    forall c, d | c in Syms(t) && d in Syms(t) && c != d
      ensures !IsPrefix(m[c], m[d])
    {
      assert m[c][0..] == m[c] && m[d][0..] == m[d];
      if IsPrefix(m[c], m[d]) {
        LeafPathsPrefix(t, m[c], c, m[d], d);
      }
    }
  }

  /**
    With a merged root every code is non-empty; a lone leaf (one distinct
    symbol) gets the empty code.
   */
  lemma CodeLengths(t: Tree, shared: map<char, string>)
    ensures t.Node? ==> forall c :: c in Syms(t) ==> |GenerateCodes(t, "", shared)[c]| > 0
    ensures t.Leaf? ==> GenerateCodes(t, "", shared)[t.sym] == ""
  {
    var m := GenerateCodes(t, "", shared);
    GenerateCodesPaths(t, "", shared);
    forall c | c in Syms(t) && t.Node? ensures |m[c]| > 0 {
      assert m[c][0..] == m[c];
    }
  }

  /** The walk overrides the accumulator with the table it would build from scratch. */
  lemma {:induction false} GenerateCodesOverrides(t: Tree, code: string, mapping: map<char, string>)
    ensures GenerateCodes(t, code, mapping) == mapping + GenerateCodes(t, code, map[])
  {
    match t
    case Leaf(_, _) =>
    case Node(_, l, r) =>
      GenerateCodesOverrides(l, code + "0", mapping);
      GenerateCodesOverrides(l, code + "0", map[]);
      var fl := GenerateCodes(l, code + "0", map[]);
      GenerateCodesOverrides(r, code + "1", mapping + fl);
      GenerateCodesOverrides(r, code + "1", fl);
  }

  /** Walking the same tree twice into one map changes nothing the second time. */
  lemma GenerateCodesIdempotent(t: Tree, mapping: map<char, string>)
    ensures GenerateCodes(t, "", GenerateCodes(t, "", mapping)) == GenerateCodes(t, "", mapping)
  {
    var table := GenerateCodes(t, "", map[]);
    GenerateCodesOverrides(t, "", mapping);
    GenerateCodesOverrides(t, "", GenerateCodes(t, "", mapping));
    assert mapping + table + table == mapping + table;
  }

  /** `text[k]` is the first symbol of `text` without a code. */
  predicate FirstMissing(text: string, codes: map<char, string>, k: int) {
    0 <= k < |text| && text[k] !in codes && forall i :: 0 <= i < k ==> text[i] in codes
  }

  /**
    huffman_encode: `''.join(codes[ch] for ch in text)`. A symbol without a
    code raises KeyError, reported for its first occurrence.
   */
  function HuffmanEncode(text: string, codes: map<char, string>): (r: Result<string>)
    ensures r.Ok? <==> forall c :: c in text ==> c in codes
    ensures r.Err? ==> exists k :: FirstMissing(text, codes, k) && r.error == MissingCode(text[k])
  {
    if |text| == 0 then Ok("")
    else if text[0] !in codes then Err(MissingCode(text[0]))
    else
      var rest := HuffmanEncode(text[1..], codes);
      assert forall c :: c in text ==> c == text[0] || c in text[1..];
      if rest.Err? then
        var k :| FirstMissing(text[1..], codes, k) && rest.error == MissingCode(text[1..][k]);
        assert text[k + 1] == text[1..][k];
        assert forall i :: 1 <= i < k + 1 ==> text[i] == text[1..][i - 1];
        assert FirstMissing(text, codes, k + 1);
        Err(rest.error)
      else Ok(codes[text[0]] + rest.value)
  }

  /** Encoding distributes over appending one more symbol. */
  lemma {:induction false} EncodeSnoc(text: string, c: char, codes: map<char, string>)
    requires forall d :: d in text ==> d in codes
    requires c in codes
    ensures HuffmanEncode(text + [c], codes).Ok?
    ensures HuffmanEncode(text + [c], codes).value == HuffmanEncode(text, codes).value + codes[c]
  {
    if |text| == 0 {
      assert text + [c] == [c];
    } else {
      assert (text + [c])[1..] == text[1..] + [c];
      assert (text + [c])[0] == text[0];
      EncodeSnoc(text[1..], c, codes);
    }
  }

  /**
    Bits spent on the symbols of a tally: each count times its code length.
    A symbol without a code adds nothing; the lemmas use it only on tallies
    whose every symbol has a code.
   */
  function Cost(f: Freq, codes: map<char, string>): nat {
    if |f| == 0 then 0
    else f[0].1 * (if f[0].0 in codes then |codes[f[0].0]| else 0) + Cost(f[1..], codes)
  }

  /** The cost of a dict with one more item in front. */
  lemma CostCons(x: (char, nat), f: Freq, codes: map<char, string>)
    requires x.0 in codes
    ensures Cost([x] + f, codes) == x.1 * |codes[x.0]| + Cost(f, codes)
  {
    assert ([x] + f)[1..] == f;
  }

  /** One more occurrence of `c` costs the length of its code. */
  lemma {:induction false} CostBump(f: Freq, c: char, codes: map<char, string>)
    requires c in codes
    ensures Cost(Bump(f, c), codes) == Cost(f, codes) + |codes[c]|
  {
    if |f| == 0 {
      CostCons((c, 1), [], codes);
    } else if f[0].0 == c {
      BumpFront(f, c);
      CostBumpFront(f[0].1, f[1..], c, codes);
      assert f == [f[0]] + f[1..];
    } else {
      BumpPast(f, c);
      CostBump(f[1..], c, codes);
      assert Cost(f, codes) == Cost([f[0]] + f[1..], codes);
    }
  }

  /** Bumping the count of the front item. */
  lemma CostBumpFront(n: nat, tail: Freq, c: char, codes: map<char, string>)
    requires c in codes
    ensures Cost([(c, n + 1)] + tail, codes) == Cost([(c, n)] + tail, codes) + |codes[c]|
  {
    var m := |codes[c]|;
    CostCons((c, n + 1), tail, codes);
    CostCons((c, n), tail, codes);
    assert (n + 1) * m == n * m + m;
  }

  /**
    The encoded length (compress_text's `compressed_size`) is the weighted
    code length: the sum over symbols of count times code length.
   */
  lemma {:induction false} EncodedLengthIsCost(text: string, codes: map<char, string>)
    requires forall c :: c in text ==> c in codes
    ensures Keys(Tally(text)) <= codes.Keys
    ensures |HuffmanEncode(text, codes).value| == Cost(Tally(text), codes)
  {
    if |text| > 0 {
      var prefix := text[..|text| - 1];
      var last := text[|text| - 1];
      assert text == prefix + [last];
      assert forall c :: c in prefix ==> c in text;
      EncodedLengthIsCost(prefix, codes);
      EncodeSnoc(prefix, last, codes);
      CostBump(Tally(prefix), last, codes);
    }
  }

  /**
    The decoding automaton from cursor `node`: move left on '0' and right on
    anything else; on arriving at a leaf emit its symbol and return to
    `root`. Stepping out of a leaf reads `.char` of `None` and raises.
   */
  function DecodeFrom(root: Tree, node: Tree, bits: string): (r: Result<string>)
    ensures root.Node? && node.Node? ==> r.Ok? && |r.value| <= |bits|
    decreases |bits|
  {
    if |bits| == 0 then Ok("")
    else match node
      case Leaf(_, _) => Err(MissingChild)
      case Node(_, l, r) =>
        var next := if bits[0] == '0' then l else r;
        if next.Leaf? then Prepend([next.sym], DecodeFrom(root, root, bits[1..]))
        else DecodeFrom(root, next, bits[1..])
  }

  /**
    huffman_decode. An empty stream decodes to the empty text; a tree with a
    merged root never makes decoding raise, whatever the bits; a lone-leaf
    tree raises on the first bit.
   */
  function HuffmanDecode(encoded: string, root: Tree): (r: Result<string>)
    ensures |encoded| == 0 ==> r == Ok("")
    ensures root.Node? ==> r.Ok? && |r.value| <= |encoded|
    ensures root.Leaf? && |encoded| > 0 ==> r == Err(MissingChild)
  {
    DecodeFrom(root, root, encoded)
  }

  /** Decoding one code from a merged cursor emits its leaf's symbol and resets to the root. */
  lemma {:induction false} DecodeOneCode(root: Tree, node: Tree, p: string, c: char, rest: string)
    requires node.Node?
    requires |p| > 0 && LeafOf(node, p, c)
    ensures DecodeFrom(root, node, p + rest) == Prepend([c], DecodeFrom(root, root, rest))
    decreases |p|
  {
    var next := if p[0] == '0' then node.left else node.right;
    assert (p + rest)[0] == p[0];
    assert (p + rest)[1..] == p[1..] + rest;
    assert Follow(node, p) == Follow(next, p[1..]);
    if |p| > 1 {
      DecodeOneCode(root, next, p[1..], c, rest);
    }
  }

  /** Every symbol of `text` has a non-empty code leading from `root` to its leaf. */
  predicate CodesLeadToLeaves(root: Tree, codes: map<char, string>, text: string) {
    forall c :: c in text ==> c in codes && |codes[c]| > 0 && LeafOf(root, codes[c], c)
  }

  /** Decoding the encoding of `text`, followed by anything, yields `text` first. */
  lemma {:induction false} DecodeEncoded(root: Tree, codes: map<char, string>, text: string, tail: string)
    requires root.Node?
    requires CodesLeadToLeaves(root, codes, text)
    ensures HuffmanEncode(text, codes).Ok?
    ensures DecodeFrom(root, root, HuffmanEncode(text, codes).value + tail)
      == Prepend(text, DecodeFrom(root, root, tail))
  {
    if |text| > 0 {
      var c, more := text[0], text[1..];
      var code := codes[c];
      assert text == [c] + more;
      assert CodesLeadToLeaves(root, codes, more) by {
        assert forall d :: d in more ==> d in text;
      }
      var rest := HuffmanEncode(more, codes);
      DecodeEncoded(root, codes, more, tail);
      assert HuffmanEncode(text, codes) == Ok(code + rest.value);
      assert code + rest.value + tail == code + (rest.value + tail);
      DecodeOneCode(root, root, code, c, rest.value + tail);
      PrependTwice([c], more, DecodeFrom(root, root, tail));
    } else {
      assert HuffmanEncode(text, codes).value + tail == tail;
      var d := DecodeFrom(root, root, tail);
      if d.Ok? {
        assert text + d.value == d.value;
      }
    }
  }

  /** Prepending twice is prepending the concatenation. */
  lemma PrependTwice(a: string, b: string, r: Result<string>)
    ensures Prepend(a, Prepend(b, r)) == Prepend(a + b, r)
  {
    if r.Ok? {
      assert a + (b + r.value) == (a + b) + r.value;
    }
  }

  /** A cursor walking into the middle of a code emits nothing. */
  lemma {:induction false} DecodeInteriorPath(root: Tree, node: Tree, p: string)
    requires Follow(node, p).Some? && Follow(node, p).value.Node?
    ensures DecodeFrom(root, node, p) == Ok("")
    decreases |p|
  {
    if |p| > 0 {
      var next := if p[0] == '0' then node.left else node.right;
      DecodeInteriorPath(root, next, p[1..]);
    }
  }

  /** The code table compress_text encodes with: the walk of `root` into the shared map. */
  lemma TreeCodes(text: string, shared: map<char, string>)
    requires HasTwoSymbols(text)
    ensures BuildHuffmanTree(text).Ok?
    ensures var root := BuildHuffmanTree(text).value;
      root.Node? && CodesLeadToLeaves(root, GenerateCodes(root, "", shared), text)
  {
    var root := BuildHuffmanTree(text).value;
    var codes := GenerateCodes(root, "", shared);
    CodeLengths(root, shared);
    GenerateCodesPaths(root, "", shared);
    forall c | c in text ensures c in codes && |codes[c]| > 0 && LeafOf(root, codes[c], c) {
      assert c in Alphabet(text);
      assert codes[c][0..] == codes[c];
    }
  }

  /**
    Round trip, for a text with at least two distinct symbols: decoding the
    encoding with the tree built from the text gives the text back, whatever
    stale entries the shared code map held.
   */
  lemma RoundTrip(text: string, shared: map<char, string>)
    requires HasTwoSymbols(text)
    ensures BuildHuffmanTree(text).Ok?
    ensures var root := BuildHuffmanTree(text).value;
      var encoded := HuffmanEncode(text, GenerateCodes(root, "", shared));
      encoded.Ok? && HuffmanDecode(encoded.value, root) == Ok(text)
  {
    var root := BuildHuffmanTree(text).value;
    var codes := GenerateCodes(root, "", shared);
    TreeCodes(text, shared);
    DecodeEncoded(root, codes, text, "");
    var e := HuffmanEncode(text, codes).value;
    assert e + "" == e;
    assert DecodeFrom(root, root, "") == Ok("");
    assert text + "" == text;
  }

  /** A stream that stops inside the code of a symbol of `text` loses only that code. */
  lemma DecodeDropsPartialCode(root: Tree, codes: map<char, string>, text: string, c: char, k: nat)
    requires root.Node?
    requires CodesLeadToLeaves(root, codes, text)
    requires c in text && k < |codes[c]|
    ensures HuffmanEncode(text, codes).Ok?
    ensures HuffmanDecode(HuffmanEncode(text, codes).value + codes[c][..k], root) == Ok(text)
  {
    var tail := codes[c][..k];
    assert LeafOf(root, codes[c], c);
    assert codes[c] == tail + codes[c][k..];
    FollowAppend(root, tail, codes[c][k..]);
    DecodeInteriorPath(root, root, tail);
    DecodeEncoded(root, codes, text, tail);
    assert text + "" == text;
  }

  /**
    A stream cut off inside a code (here after the first `k` bits of the
    code of `c`) decodes to the same text: the incomplete tail is dropped
    silently.
   */
  lemma TruncatedTailDropped(text: string, shared: map<char, string>, c: char, k: nat)
    requires HasTwoSymbols(text)
    requires c in text
    requires k < |GenerateCodes(BuildHuffmanTree(text).value, "", shared)[c]|
    ensures var root := BuildHuffmanTree(text).value;
      var codes := GenerateCodes(root, "", shared);
      var encoded := HuffmanEncode(text, codes);
      encoded.Ok? && HuffmanDecode(encoded.value + codes[c][..k], root) == Ok(text)
  {
    var root := BuildHuffmanTree(text).value;
    TreeCodes(text, shared);
    DecodeDropsPartialCode(root, GenerateCodes(root, "", shared), text, c, k);
  }

  /** Encoding reads only the codes of the symbols it meets. */
  lemma {:induction false} EncodeAgrees(text: string, m1: map<char, string>, m2: map<char, string>)
    requires forall c :: c in text ==> c in m1 && c in m2 && m1[c] == m2[c]
    ensures HuffmanEncode(text, m1) == HuffmanEncode(text, m2)
  {
    if |text| > 0 {
      assert forall c :: c in text[1..] ==> c in text;
      assert text[0] in text;
      EncodeAgrees(text[1..], m1, m2);
    }
  }

  /** Stale entries of the shared map never reach the encoded stream. */
  lemma EncodeIgnoresStale(text: string, root: Tree, shared: map<char, string>)
    requires Alphabet(text) <= Syms(root)
    ensures HuffmanEncode(text, GenerateCodes(root, "", shared)) == HuffmanEncode(text, GenerateCodes(root, "", map[]))
  {
    GenerateCodesOverrides(root, "", shared);
    forall c | c in text ensures c in Syms(root) {
      assert c in Alphabet(text);
    }
    EncodeAgrees(text, GenerateCodes(root, "", shared), GenerateCodes(root, "", map[]));
  }

  /** A symbol whose code is empty adds no bits. */
  lemma {:induction false} EncodeEmptyCodes(text: string, codes: map<char, string>)
    requires forall c :: c in text ==> c in codes && codes[c] == ""
    ensures HuffmanEncode(text, codes) == Ok("")
  {
    if |text| > 0 {
      assert forall c :: c in text[1..] ==> c in text;
      assert text[0] in text;
      EncodeEmptyCodes(text[1..], codes);
      assert codes[text[0]] == "";
      assert HuffmanEncode(text, codes) == Ok(codes[text[0]] + HuffmanEncode(text[1..], codes).value);
      assert "" + "" == "";
    }
  }

  /** Length in bytes of the UTF-8 encoding of `text`: one to four per symbol. */
  function Utf8Length(text: string): (n: nat)
    ensures |text| <= n <= 4 * |text|
  {
    if |text| == 0 then 0
    else
      var c := text[0] as int;
      (if c < 0x80 then 1 else if c < 0x800 then 2 else if c < 0x1_0000 then 3 else 4) + Utf8Length(text[1..])
  }

  /** The fields of compress_text's result that the model keeps (not the ratio or the timing). */
  datatype Compressed = Compressed(originalSize: nat, compressedSize: nat, encoded: string, root: Tree)

  /**
    compress_text: build the tree, walk it into the shared code map, encode,
    then decode again and assert the round trip. It succeeds exactly when the
    text has two distinct symbols: an empty text has no tree, and a text of
    one repeated symbol gets the empty code, encodes to no bits, decodes to
    the empty text and fails the assertion. On success the compressed size
    is the stream length, which is the weighted code length, and the stream
    is the one a fresh code map gives.
   */
  function CompressText(text: string, shared: map<char, string>): (r: Result<Compressed>)
    ensures (r.Err? && r.error == EmptyHeap) <==> |text| == 0
    ensures (r.Err? && r.error == RoundTripMismatch) <==> |text| > 0 && !HasTwoSymbols(text)
    ensures r.Ok? <==> HasTwoSymbols(text)
    ensures r.Ok? ==> HuffmanDecode(r.value.encoded, r.value.root) == Ok(text)
    ensures r.Ok? ==> r.value.compressedSize == |r.value.encoded|
    ensures r.Ok? ==> r.value.originalSize == 8 * Utf8Length(text)
    ensures r.Ok? ==> Ok(r.value.encoded) == HuffmanEncode(text, GenerateCodes(r.value.root, "", map[]))
    ensures r.Ok? ==> (Keys(Tally(text)) <= Syms(r.value.root)
      && r.value.compressedSize == Cost(Tally(text), GenerateCodes(r.value.root, "", map[])))
  {
    var root :- BuildHuffmanTree(text);
    CompressOkCase(text, shared);
    // Neither encoding nor decoding can raise here (CompressOkCase).
    var encoded := HuffmanEncode(text, GenerateCodes(root, "", shared)).value;
    var decoded := HuffmanDecode(encoded, root).value;
    if decoded != text then Err(RoundTripMismatch)
    else Ok(Compressed(8 * Utf8Length(text), |encoded|, encoded, root))
  }

  /**
    The default code dict of generate_codes after a compress_text call that
    found it holding `shared`. An empty text raises in the builder before the
    walk and leaves it as it was; otherwise the walk has written the tree's
    codes into it, whether the round-trip assertion then holds or not. A later
    call in the same process (another compress_text, or adaptive_encode)
    starts from this dict.
   */
  function CompressTextShared(text: string, shared: map<char, string>): (after: map<char, string>)
    ensures after.Keys == shared.Keys + Alphabet(text)
    ensures forall c :: c in shared && c !in text ==> after[c] == shared[c]
    ensures |text| > 0 ==> after == shared + GenerateCodes(BuildHuffmanTree(text).value, "", map[])
  {
    if |text| == 0 then shared
    else
      var root := BuildHuffmanTree(text).value;
      GenerateCodesOverrides(root, "", shared);
      GenerateCodes(root, "", shared)
  }

  /** Compressing the same text twice leaves the shared dict as the first call left it. */
  lemma CompressTextSharedTwice(text: string, shared: map<char, string>)
    ensures CompressTextShared(text, CompressTextShared(text, shared)) == CompressTextShared(text, shared)
  {
    if |text| > 0 {
      var table := GenerateCodes(BuildHuffmanTree(text).value, "", map[]);
      assert shared + table + table == shared + table;
    }
  }

  /** The facts CompressText states of a successful run. */
  lemma CompressOkCase(text: string, shared: map<char, string>)
    requires |text| > 0
    ensures BuildHuffmanTree(text).Ok?
    ensures var root := BuildHuffmanTree(text).value;
      var encoded := HuffmanEncode(text, GenerateCodes(root, "", shared));
      && encoded.Ok?
      && encoded == HuffmanEncode(text, GenerateCodes(root, "", map[]))
      && Keys(Tally(text)) <= Syms(root)
      && |encoded.value| == Cost(Tally(text), GenerateCodes(root, "", map[]))
      && HuffmanDecode(encoded.value, root).Ok?
      && (HuffmanDecode(encoded.value, root) == Ok(text) <==> HasTwoSymbols(text))
  {
    var root := BuildHuffmanTree(text).value;
    var table := GenerateCodes(root, "", map[]);
    EncodeIgnoresStale(text, root, shared);
    forall c | c in text ensures c in table {
      assert c in Alphabet(text);
    }
    EncodedLengthIsCost(text, table);
    if HasTwoSymbols(text) {
      RoundTrip(text, shared);
    } else {
      CompressMismatchCase(text, shared);
    }
  }

  /** With one distinct symbol the stream is empty and decodes to nothing. */
  lemma CompressMismatchCase(text: string, shared: map<char, string>)
    requires |text| > 0 && !HasTwoSymbols(text)
    ensures BuildHuffmanTree(text).Ok?
    ensures var root := BuildHuffmanTree(text).value;
      && root.Leaf?
      && HuffmanEncode(text, GenerateCodes(root, "", shared)) == Ok("")
      && HuffmanDecode("", root) == Ok("") != Ok(text)
  {
    var root := BuildHuffmanTree(text).value;
    var codes := GenerateCodes(root, "", shared);
    CodeLengths(root, shared);
    forall c | c in text ensures c in codes && codes[c] == "" {
      assert c in Alphabet(text);
    }
    EncodeEmptyCodes(text, codes);
  }
}
