/**
  The codec of app.py: its own tree builder (on a `Counter`), code walk,
  encoder and decoder, the simulated adaptive encoder, and the path from an
  exported `codes.txt` back to decoded text.

  Its `Node` is the optional-symbol node of CodeTrie, so that one decoder
  serves both the trees built here (converted by ToTrie) and the decode tree
  rebuilt from a code file. `build_codes` has the same shared default dict
  as huffman.generate_codes; app.huffman_encode relies on it, so it is the
  parameter `shared` again.
 */
module App {
  import opened Outcome
  import opened Frequency
  import opened HuffmanTree
  import opened Builder
  import opened CodeTrie
  import opened CodeFile
  import H = Huffman
  import AD = AdaptiveDemo

  /**
    build_huffman_tree(freq_map): one leaf per key, merged greedily. Unlike
    huffman.py it returns `None` on an empty map instead of raising.
   */
  function BuildHuffmanTree(freq: Freq): (r: Option<Tree>)
    requires KeysDistinct(freq)
    ensures r.None? <==> |freq| == 0
    ensures r.Some? ==> WellFormed(r.value) && UniqueLeaves(r.value)
    ensures r.Some? ==> LeafBag(r.value) == multiset(freq) && Syms(r.value) == Keys(freq)
    ensures r.Some? ==> r.value.w == Total(freq)
  {
    if |freq| == 0 then None
    else
      BuildLeaves(freq);
      Some(Build(freq))
  }

  /**
    build_codes(node, prefix, code_map): `None` for no tree. On a tree built
    above only leaves have `char is not None` and a leaf's children are
    `None`, so the walk is generate_codes's: one entry per leaf, the other
    entries of `code_map` kept. Where each entry leads is BuildCodesPaths.
   */
  function BuildCodes(node: Option<Tree>, prefix: string, codeMap: map<char, string>): (r: Option<map<char, string>>)
    ensures r.None? <==> node.None?
    ensures r.Some? ==> r.value.Keys == codeMap.Keys + Syms(node.value)
    ensures r.Some? ==> forall c :: c in codeMap && c !in Syms(node.value) ==> r.value[c] == codeMap[c]
  {
    if node.None? then None else Some(H.GenerateCodes(node.value, prefix, codeMap))
  }

  /** Every symbol's code is `prefix` followed by its root-to-leaf path, in bits. */
  lemma BuildCodesPaths(t: Tree, prefix: string, codeMap: map<char, string>)
    ensures var m := BuildCodes(Some(t), prefix, codeMap).value;
      forall c :: c in Syms(t) ==> H.PathCode(t, prefix, m[c], c)
  {
    H.GenerateCodesPaths(t, prefix, codeMap);
  }

  /** The result of app.huffman_encode: `(encoded_text, codes, root)`. */
  datatype Encoded = Encoded(encoded: string, codes: Option<map<char, string>>, root: Option<Tree>)

  /**
    huffman_encode(text): count with `Counter`, build, walk into the shared
    dict, concatenate. An empty text has no tree and no table, and its
    (empty) join never looks a code up. Otherwise every symbol has a code and
    the stream is the one a fresh table gives.
   */
  function HuffmanEncode(text: string, shared: map<char, string>): (r: Encoded)
    ensures r.root.None? <==> |text| == 0
    ensures r.codes.None? <==> |text| == 0
    ensures |text| == 0 ==> r.encoded == ""
    ensures r.root.Some? ==> WellFormed(r.root.value) && UniqueLeaves(r.root.value)
    ensures r.root.Some? ==> Syms(r.root.value) == Alphabet(text) && r.root.value.w == |text|
    ensures r.root.Some? ==> forall c :: c in text ==> (c, Count(text, c)) in LeafBag(r.root.value)
    ensures r.codes.Some? ==> r.codes.value.Keys == shared.Keys + Alphabet(text)
    ensures r.root.Some? ==> H.HuffmanEncode(text, H.GenerateCodes(r.root.value, "", map[])) == Ok(r.encoded)
  {
    if |text| == 0 then Encoded("", None, None)
    else
      var freq := Tally(text);
      var root := BuildHuffmanTree(freq);
      var codes := BuildCodes(root, "", shared);
      BuildCounts(freq);
      forall c | c in text ensures c in codes.value {
        assert c in Alphabet(text);
      }
      H.EncodeIgnoresStale(text, root.value, shared);
      Encoded(H.HuffmanEncode(text, codes.value).value, codes, root)
  }

  /** app.Node for a tree of the builder: leaves carry their symbol, merged nodes `None`. */
  function ToTrie(t: Tree): (r: Trie)
    ensures t.Leaf? ==> r == Trie(Some([t.sym]), None, None)
    ensures t.Node? ==> r.sym.None? && r.left.Some? && r.right.Some?
  {
    match t
    case Leaf(c, _) => Trie(Some([c]), None, None)
    case Node(_, l, r) => Trie(None, Some(ToTrie(l)), Some(ToTrie(r)))
  }

  /**
    Walking the converted tree is walking the built tree: a path exists in
    one exactly when it exists in the other, and it reaches the conversion
    of the node it reaches there.
   */
  lemma {:induction false} ToTrieWalk(t: Tree, p: string)
    ensures Walk(ToTrie(t), p) == if Follow(t, p).Some? then Some(ToTrie(Follow(t, p).value)) else None
    decreases |p|
  {
    if |p| > 0 && t.Node? {
      ToTrieWalk(if p[0] == '0' then t.left else t.right, p[1..]);
    }
  }

  /**
    The loop of huffman_decode from cursor `node`: step left on '0', right
    on anything else; stepping to a missing child is the AttributeError of
    `None.char`; a node whose `char is not None` emits it and resets the
    cursor to the root. Nothing else can fail.
   */
  function DecodeFrom(root: Trie, node: Trie, bits: string): (r: Result<string>)
    ensures r.Err? ==> r.error == MissingChild
    decreases |bits|
  {
    if |bits| == 0 then Ok("")
    else
      var next := Child(node, bits[0]);
      if next.None? then Err(MissingChild)
      else if next.value.sym.Some? then Prepend(next.value.sym.value, DecodeFrom(root, root, bits[1..]))
      else DecodeFrom(root, next.value, bits[1..])
  }

  /**
    huffman_decode(encoded_text, root). A `None` root (the empty text's)
    decodes the empty stream and fails, on `None.left`, on any other.
   */
  function HuffmanDecode(encoded: string, root: Option<Trie>): (r: Result<string>)
    ensures |encoded| == 0 ==> r == Ok("")
    ensures root.None? && |encoded| > 0 ==> r == Err(MissingChild)
    ensures r.Err? ==> r.error == MissingChild
  {
    if root.None? then (if |encoded| == 0 then Ok("") else Err(MissingChild))
    else DecodeFrom(root.value, root.value, encoded)
  }

  /**
    On a built tree the decoder is huffman.py's: testing `char is not None`
    instead of the truthiness of `char` makes no difference, since every
    leaf's symbol is a non-empty string.
   */
  lemma {:induction false} DecodeTreeAgrees(root: Tree, node: Tree, bits: string)
    ensures DecodeFrom(ToTrie(root), ToTrie(node), bits) == H.DecodeFrom(root, node, bits)
    decreases |bits|
  {
    if |bits| > 0 {
      match node
      case Leaf(_, _) =>
      case Node(_, l, r) =>
        var next := if bits[0] == '0' then l else r;
        assert Child(ToTrie(node), bits[0]) == Some(ToTrie(next));
        if next.Leaf? {
          DecodeTreeAgrees(root, root, bits[1..]);
        } else {
          DecodeTreeAgrees(root, next, bits[1..]);
        }
    }
  }

  /** The two decoders agree on every built tree and every stream. */
  lemma HuffmanDecodeAgrees(encoded: string, t: Tree)
    ensures HuffmanDecode(encoded, Some(ToTrie(t))) == H.HuffmanDecode(encoded, t)
  {
    DecodeTreeAgrees(t, t, encoded);
  }

  /** Round trip: with two distinct symbols, decoding the stream through its own tree gives the text back. */
  lemma RoundTrip(text: string, shared: map<char, string>)
    requires HasTwoSymbols(text)
    ensures var e := HuffmanEncode(text, shared);
      e.root.Some? && HuffmanDecode(e.encoded, Some(ToTrie(e.root.value))) == Ok(text)
  {
    var e := HuffmanEncode(text, shared);
    var root := e.root.value;
    assert root == H.BuildHuffmanTree(text).value;
    H.RoundTrip(text, shared);
    HuffmanDecodeAgrees(e.encoded, root);
  }

  /** A text of one repeated symbol gets the empty code and encodes to nothing. */
  lemma SingleSymbolSilent(text: string, shared: map<char, string>)
    requires |text| > 0 && !HasTwoSymbols(text)
    ensures HuffmanEncode(text, shared).encoded == ""
  {
    H.CompressMismatchCase(text, shared);
  }

  /** Decoding one code from `node` emits its symbol and continues from the root. */
  lemma {:induction false} DecodeOne(root: Trie, node: Trie, code: string, s: string, rest: string)
    requires Decodes(node, code, s)
    ensures DecodeFrom(root, node, code + rest) == Prepend(s, DecodeFrom(root, root, rest))
    decreases |code|
  {
    var bits := code + rest;
    assert bits[0] == code[0] && bits[1..] == code[1..] + rest;
    var next := Child(node, code[0]);
    if |code| == 1 {
      assert code[..1] == code;
      assert Walk(node, code).Some?;
      assert next.Some?;
      assert code[1..] == [];
      assert Walk(node, code) == Some(next.value);
    } else {
      assert code[..1] == [code[0]];
      assert Walk(node, code[..1]) == next;
      assert SymAt(node, code[..1]).None?;
      forall k | 0 < k < |code| - 1
        ensures Walk(next.value, code[1..][..k]).Some? && SymAt(next.value, code[1..][..k]).None?
      {
        assert code[..k + 1][1..] == code[1..][..k];
        assert Walk(node, code[..k + 1]) == Walk(next.value, code[1..][..k]);
      }
      assert Walk(node, code) == Walk(next.value, code[1..]);
      DecodeOne(root, next.value, code[1..], s, rest);
    }
  }

  /** Every symbol of `text` has a code that walks, through `root`, to its exported key. */
  predicate CodesReachKeys(root: Trie, codes: map<char, string>, text: string) {
    forall c :: c in text ==> c in codes && Decodes(root, codes[c], Escape(c))
  }

  /** Decoding an encoding through such a tree gives the text with every symbol escaped. */
  lemma {:induction false} DecodeEscaped(root: Trie, codes: map<char, string>, text: string, tail: string)
    requires CodesReachKeys(root, codes, text)
    ensures H.HuffmanEncode(text, codes).Ok?
    ensures DecodeFrom(root, root, H.HuffmanEncode(text, codes).value + tail)
      == Prepend(EscapeText(text), DecodeFrom(root, root, tail))
    decreases |text|
  {
    if |text| > 0 {
      var c := text[0];
      assert c in text;
      assert forall d :: d in text[1..] ==> d in text;
      DecodeEscaped(root, codes, text[1..], tail);
      var rest := H.HuffmanEncode(text[1..], codes).value;
      assert H.HuffmanEncode(text, codes) == Ok(codes[c] + rest);
      assert codes[c] + rest + tail == codes[c] + (rest + tail);
      DecodeOne(root, root, codes[c], Escape(c), rest + tail);
      var d := DecodeFrom(root, root, tail);
      if d.Ok? {
        assert Escape(c) + (EscapeText(text[1..]) + d.value) == EscapeText(text) + d.value;
      }
    } else {
      assert H.HuffmanEncode(text, codes).value + tail == tail;
      var d := DecodeFrom(root, root, tail);
      if d.Ok? {
        assert EscapeText(text) + d.value == d.value;
      }
    }
  }

  /** For bit strings, walking the same way is being equal, and walking a prefix is being a prefix. */
  lemma BitsPaths(p: string, q: string)
    requires IsBits(p) && IsBits(q)
    ensures SamePath(p, q) <==> p == q
    ensures PathPrefix(p, q) <==> IsPrefix(p, q)
  {
    if SamePath(p, q) {
      forall i | 0 <= i < |p| ensures p[i] == q[i] {
        assert SameDir(p[i], q[i]);
      }
    }
    if |p| <= |q| && SamePath(p, q[..|p|]) {
      forall i | 0 <= i < |p| ensures p[i] == q[..|p|][i] {
        assert SameDir(p[i], q[..|p|][i]);
      }
    }
  }

  /** `order` lists the symbols of `text`, each once: a listing of a fresh table's keys. */
  predicate ListsAlphabet(order: seq<char>, text: string) {
    && (forall i :: 0 <= i < |order| ==> order[i] in text)
    && (forall c :: c in text ==> c in order)
    && (forall i, j :: 0 <= i < j < |order| ==> order[i] != order[j])
  }

  /**
    The codes of a fresh table for a text of two or more symbols are
    non-empty bit strings, none a prefix of another.
   */
  lemma FreshCodes(text: string)
    requires HasTwoSymbols(text)
    ensures H.BuildHuffmanTree(text).Ok?
    ensures var root := H.BuildHuffmanTree(text).value;
      var codes := H.GenerateCodes(root, "", map[]);
      && (forall c :: c in Syms(root) ==> c in codes && |codes[c]| > 0 && IsBits(codes[c]))
      && (forall c, d :: c in Syms(root) && d in Syms(root) && c != d ==> !IsPrefix(codes[c], codes[d]))
  {
    var root := H.BuildHuffmanTree(text).value;
    var codes := H.GenerateCodes(root, "", map[]);
    H.CodeLengths(root, map[]);
    H.CodesPrefixFree(root, map[]);
    H.GenerateCodesPaths(root, "", map[]);
    forall c | c in Syms(root) ensures IsBits(codes[c]) {
      assert H.PathCode(root, "", codes[c], c);
      assert codes[c][0..] == codes[c];
    }
  }

  /**
    A table whose codes for `syms` are non-empty bit strings, none a prefix
    of another, can be written for any listing of exportable symbols of
    `syms`, and the entries read back are prefix-free.
   */
  lemma TableWritable(order: seq<char>, codes: map<char, string>, syms: set<char>)
    requires forall c :: c in syms ==> c in codes && |codes[c]| > 0 && IsBits(codes[c])
    requires forall c, d :: c in syms && d in syms && c != d ==> !IsPrefix(codes[c], codes[d])
    requires forall i :: 0 <= i < |order| ==> order[i] in syms && Exportable(order[i])
    requires forall i, j :: 0 <= i < j < |order| ==> order[i] != order[j]
    ensures Writable(order, codes) && PrefixFree(Escaped(order, codes))
  {
    var entries := Escaped(order, codes);
    forall i, j | 0 <= i < |entries| && 0 <= j < |entries| && i != j
      ensures !PathPrefix(entries[i].1, entries[j].1)
    {
      assert order[i] != order[j] by {
        if i > j { assert order[j] != order[i]; }
      }
      BitsPaths(codes[order[i]], codes[order[j]]);
    }
  }

  /** The fresh code table of a text is writable to `codes.txt` when its symbols are exportable. */
  lemma FreshTableWritable(text: string, order: seq<char>)
    requires HasTwoSymbols(text)
    requires ListsAlphabet(order, text)
    requires forall c :: c in text ==> Exportable(c)
    ensures H.BuildHuffmanTree(text).Ok?
    ensures var codes := H.GenerateCodes(H.BuildHuffmanTree(text).value, "", map[]);
      Writable(order, codes) && PrefixFree(Escaped(order, codes))
  {
    var root := H.BuildHuffmanTree(text).value;
    FreshCodes(text);
    forall i | 0 <= i < |order| ensures order[i] in Syms(root) && Exportable(order[i]) {
      assert order[i] in text;
    }
    TableWritable(order, H.GenerateCodes(root, "", map[]), Syms(root));
  }

  /**
    The file path of app.py end to end: encode a text with a fresh table,
    export the table in any listing order, import the file, rebuild the
    decode tree and decode the stream. The result is the text with every
    newline replaced by the two characters `\n` and every space by `SPACE`,
    because import never un-escapes.
   */
  lemma CodesFileRoundTrip(text: string, order: seq<char>)
    requires HasTwoSymbols(text)
    requires ListsAlphabet(order, text)
    requires forall c :: c in text ==> Exportable(c)
    ensures var e := HuffmanEncode(text, map[]);
      && e.codes.Some?
      && (forall i :: 0 <= i < |order| ==> order[i] in e.codes.value)
      && HuffmanDecode(e.encoded, Some(Rebuild(ImportCodes(ExportCodes(order, e.codes.value))))) == Ok(EscapeText(text))
  {
    var e := HuffmanEncode(text, map[]);
    assert e.root.value == H.BuildHuffmanTree(text).value;
    var codes := e.codes.value;
    FreshTableWritable(text, order);
    ImportExport(order, codes);
    var entries := Escaped(order, codes);
    var root := Rebuild(entries);
    forall c | c in text ensures c in codes && Decodes(root, codes[c], Escape(c)) {
      var i :| 0 <= i < |order| && order[i] == c;
      RebuildDecodes(entries, i);
    }
    H.EncodeIgnoresStale(text, e.root.value, map[]);
    DecodeEscaped(root, codes, text, "");
    assert e.encoded + "" == e.encoded;
    assert EscapeText(text) + "" == EscapeText(text);
  }

  /** The loop state of adaptive_huffman_demo: stream so far, counts, `evolution`. */
  datatype Demo = Demo(stream: string, freq: Freq, evolution: seq<(nat, Freq)>)

  /**
    One iteration of adaptive_huffman_demo's loop, for symbol `ch` at
    position `i`: bump its count, rebuild the tree, walk it into a fresh
    `{}`, emit `ch`'s code and record `(i, dict(freq))`. The count is bumped
    first, so `ch` has a leaf and a code.
   */
  function DemoStep(prev: Demo, ch: char, i: nat): (r: Demo)
    requires KeysDistinct(prev.freq)
    ensures r.freq == Bump(prev.freq, ch)
    ensures KeysDistinct(r.freq) && ch in Keys(r.freq)
    ensures r.stream == prev.stream + DemoCode(r.freq, ch)
    ensures r.evolution == prev.evolution + [(i, r.freq)]
  {
    var freq := Bump(prev.freq, ch);
    BumpKeys(prev.freq, ch);
    BumpDistinct(prev.freq, ch);
    Demo(prev.stream + DemoCode(freq, ch), freq, prev.evolution + [(i, freq)])
  }

  /**
    The code the demo emits for `ch`: build the tree of `freq` with
    build_huffman_tree, walk it with build_codes into a fresh `{}`, look
    `ch` up. It is `ch`'s code in huffman.py's table for the same counts.
   */
  function DemoCode(freq: Freq, ch: char): (code: string)
    requires KeysDistinct(freq) && ch in Keys(freq)
    ensures ch in Syms(Build(freq)) && ch in H.GenerateCodes(Build(freq), "", map[])
    ensures code == H.GenerateCodes(Build(freq), "", map[])[ch]
  {
    var root := BuildHuffmanTree(freq).value;
    BuildCodes(Some(root), "", map[]).value[ch]
  }

  /**
    Reference definition of the evolution: entry `i` is `(i + 1, counts)`,
    the counts being those of the first `i + 1` symbols.
   */
  function Evolution(text: string): (e: seq<(nat, Freq)>)
    ensures |e| == |text|
    decreases |text|
  {
    if |text| == 0 then [] else Evolution(text[..|text| - 1]) + [(|text|, Tally(text))]
  }

  /**
    adaptive_huffman_demo(text): one DemoStep per symbol, numbered from 1.
    The counts are those of the text, the evolution is the reference one, and
    the stream is the adaptive reference stream: each symbol's code in the
    table built afresh from the counts of the text up to it.
   */
  function AdaptiveHuffmanDemo(text: string): (r: Demo)
    ensures r.freq == Tally(text)
    ensures r.evolution == Evolution(text)
    ensures r.stream == AD.AdaptiveReference(text)
    decreases |text|
  {
    if |text| == 0 then Demo("", [], [])
    else DemoStep(AdaptiveHuffmanDemo(text[..|text| - 1]), text[|text| - 1], |text|)
  }

  /** The evolution of a prefix of the text is the same prefix of the evolution. */
  lemma {:induction false} EvolutionPrefix(text: string, m: nat)
    requires m <= |text|
    ensures Evolution(text[..m]) == Evolution(text)[..m]
    decreases |text|
  {
    if m < |text| {
      var n := |text| - 1;
      EvolutionPrefix(text[..n], m);
      assert text[..n][..m] == text[..m];
      assert Evolution(text)[..n] == Evolution(text[..n]);
      assert Evolution(text)[..n][..m] == Evolution(text)[..m];
    } else {
      assert text[..m] == text;
    }
  }

  /** Entry `i` of the evolution holds `i + 1` and the counts of the first `i + 1` symbols, summing to `i + 1`. */
  lemma EvolutionEntry(text: string, i: nat)
    requires i < |text|
    ensures Evolution(text)[i] == (i + 1, Tally(text[..i + 1]))
    ensures Total(Evolution(text)[i].1) == i + 1
  {
    var p := text[..i + 1];
    EvolutionPrefix(text, i + 1);
    assert Evolution(text)[..i + 1][i] == Evolution(text)[i];
    assert Evolution(p)[|p| - 1] == (|p|, Tally(p));
  }

  /**
    The two adaptive encoders emit the same stream: the fresh `{}` of app.py
    and the shared default dict of adaptive_demo.py give every symbol the
    same code, the one in the table built afresh for its step.
   */
  lemma DemoMatchesAdaptive(text: string, shared: map<char, string>)
    ensures AdaptiveHuffmanDemo(text).stream == AD.AdaptiveEncode(text, shared).stream
  {
    AD.AdaptiveStream(text, shared);
  }
}
