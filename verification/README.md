# Huffman text compressor: a verified model of its codec

This project models the codec at the heart of a small Huffman text compressor,
written in Dafny. It covers three Python files:

- **huffman.py** holds the static codec:
  - `build_huffman_tree` counts the characters of a text and merges the two
    lightest nodes until one tree remains.
  - `generate_codes` walks the tree into a code table, '0' for a left edge and
    '1' for a right edge.
  - `huffman_encode` concatenates the codes of the characters.
  - `huffman_decode` walks the tree bit by bit and emits a character at every
    leaf.
  - `compress_text` encodes, computes the sizes and asserts that decoding gives
    the text back.
- **adaptive_demo.py** holds the simulated adaptive encoder. Before each
  character it bumps that character's count, rebuilds the tree, rebuilds the
  code table and emits the character's current code.
- **app.py** holds the web application's copy of the codec:
  - its own builder working on a `Counter`, and its own code walk, encoder and
    decoder;
  - its own adaptive demo;
  - the `codes.txt` file: writing the code table, reading it back, and
    rebuilding a decode tree from the table read back.

## How it is modelled

- Errors the Python code raises become values of `Outcome.Result`:
  - `EmptyHeap`: `heap[0]` on an empty heap.
  - `MissingCode`: `codes[ch]` for a character without a code.
  - `MissingChild`: `None.char` or `None.left` when a walk leaves the tree.
  - `RoundTripMismatch`: the failed assert of `compress_text`.
- A frequency dict is the sequence of its items in insertion order
  (`Frequency.Freq`).
- `heapq` is modelled as a list kept sorted by weight. A node enters behind
  every node of weight no greater than its own. How the code breaks ties is
  fixed by this choice. None of the properties below depends on it.
- `generate_codes` and `build_codes` have a mutable default argument: one dict
  shared by every call that does not pass its own. That dict is an explicit
  parameter `shared`, holding whatever earlier calls left in it.
- app.py's `Node` can carry a symbol on any node and may lack either child. It
  is `CodeTrie.Trie`. A built tree is converted to it by `App.ToTrie`.

Module layout:

| module | covers |
|---|---|
| `Outcome` | results, errors, options |
| `Frequency` | counting |
| `HuffmanTree` | trees, walks, prefixes |
| `Builder` | the greedy merge shared by the three builders |
| `Huffman` | huffman.py |
| `AdaptiveDemo` | adaptive_demo.py |
| `CodeTrie` | app.py's decode-tree rebuild |
| `CodeFile` | writing and reading `codes.txt`, including Python's `str.strip` and `str.split(':', 1)` |
| `App` | the rest of app.py |

## Model

| member | source | states |
|---|---|---|
| Frequency.BumpCounts | huffman.py:17-18 | `Frequency.Bump`, the update `freq[c] = freq.get(c, 0) + 1`, raises c's count by one and leaves every other count alone. |
| Frequency.BumpKeys | huffman.py:17-18 | The update adds c to the dict's keys and no other key. |
| Frequency.BumpTotal | huffman.py:17-18 | The update adds one to the sum of the counts. |
| Frequency.BumpDistinct | huffman.py:17-18 | The update keeps keys distinct. It keeps the dict's size when c was present and adds one entry otherwise. |
| Frequency.Tally | huffman.py:16-18 | The counting loop gives one entry per distinct character, with that character's number of occurrences. The counts sum to the text's length. The result is empty exactly when the text is. |
| Frequency.TwoSymbolsIffTwoKeys | huffman.py:16-18 | A text has two distinct characters exactly when its count dict has at least two entries. |
| Builder.EnqueueAddsOne | huffman.py:29 | `heappush` (`Builder.Enqueue`) adds exactly the pushed node: the queue after is the queue before plus one copy of it. |
| Builder.EnqueueSums | huffman.py:29 | `heappush` adds the pushed node's weight to the total and its leaves to the queue's leaves. |
| Builder.EnqueueSorted | huffman.py:29 | `heappush` keeps the queue ordered by weight. |
| Builder.EnqueueLeaves | huffman.py:20-21 | Heapify: the queue holds one leaf per dict item, carrying that item's symbol and count, in weight order. |
| Builder.MergeStep | huffman.py:23-29 | One loop iteration removes one node. It keeps the queue ordered and well-formed, and keeps the total weight and the multiset of leaves. |
| Builder.MergeAll | huffman.py:23-31 | The loop ends with one well-formed tree. Its weight is the queue's total, and its leaves are the queue's leaves. |
| Builder.Build | huffman.py:20-31 | The tree built from a non-empty dict is well-formed. Its leaves are exactly the dict's items, and its weight is the sum of the counts. |
| Builder.BuildLeaves | huffman.py:20-31 | A dict with distinct keys gives a tree with one leaf per key and no symbol in two leaves. |
| Builder.BuildCounts | huffman.py:20-31 | Each key's leaf carries that key's count, and every leaf's count is its key's count. |
| Builder.BuildShape | huffman.py:23-31 | The tree is a merged node exactly when the dict has two or more keys. Otherwise it is a single leaf. |
| Huffman.BuildHuffmanTree | huffman.py:15-31 | The builder fails with EmptyHeap exactly on the empty text. Otherwise it gives a well-formed tree of weight \|text\|, with one leaf per distinct character carrying its count. The root is a merged node exactly when the text has two distinct characters. |
| Huffman.GenerateCodes | huffman.py:33-40 | The table gets a key for every leaf symbol. Entries already in the dict for other symbols are kept unchanged. |
| Huffman.GenerateCodesPaths | huffman.py:33-40 | Every symbol's code is the starting prefix followed by the bits of the root-to-leaf path to that symbol's leaf. |
| Huffman.CodesPrefixFree | huffman.py:33-40 | For distinct symbols of a tree, no code is a prefix of another, whatever the shared dict held. |
| Huffman.CodeLengths | huffman.py:33-40 | On a merged root every code is non-empty. On a one-leaf tree the only code is the empty string. |
| Huffman.GenerateCodesOverrides | huffman.py:33-40 | Walking into a non-empty dict gives the old dict overridden by the table a fresh dict would get. |
| Huffman.GenerateCodesIdempotent | huffman.py:33-40 | Walking the same tree twice into the shared dict changes nothing the second time. |
| Huffman.HuffmanEncode | huffman.py:42-43 | Encoding succeeds exactly when every character of the text has a code. Otherwise it fails with MissingCode at the first character that has none. |
| Huffman.EncodeSnoc | huffman.py:42-43 | Encoding a text with one character appended adds exactly that character's code. |
| Huffman.EncodedLengthIsCost | huffman.py:42-43 | The encoding's length is the sum, over the counts, of count times code length. |
| Huffman.CostBump | huffman.py:42-43 | One more occurrence of c adds exactly the length of c's code to the cost. |
| Huffman.EncodeAgrees | huffman.py:42-43 | Two tables that agree on the text's characters give the same encoding. |
| Huffman.EncodeIgnoresStale | huffman.py:58-59 | Encoding with the shared-dict table gives what a fresh table gives: stale entries never reach the output. |
| Huffman.EncodeEmptyCodes | huffman.py:42-43 | When every character's code is empty, the encoding is empty. |
| Huffman.DecodeFrom | huffman.py:48-53 | Starting from a merged node, the decoder never fails. It emits at most one character per bit. |
| Huffman.HuffmanDecode | huffman.py:45-53 | The empty stream decodes to the empty text. On a merged root decoding succeeds. On a one-leaf root any bit fails with MissingChild. |
| Huffman.DecodeOneCode | huffman.py:48-52 | Walking a leaf's path emits that leaf's symbol and restarts at the root. |
| Huffman.DecodeEncoded | huffman.py:42-53 | When every code leads to its own leaf, decoding the encoding of a text followed by any tail gives the text followed by the tail's decoding. |
| Huffman.DecodeInteriorPath | huffman.py:48-52 | A path ending inside the tree emits nothing. |
| Huffman.TreeCodes | huffman.py:57-58 | For a text of two or more distinct characters, every character's code leads to its own leaf. |
| Huffman.RoundTrip | huffman.py:57-67 | For a text of two or more distinct characters, decoding its encoding with its tree gives the text back, whatever the shared dict held. |
| Huffman.DecodeDropsPartialCode | huffman.py:48-53 | An unfinished code at the end of the stream is dropped silently. |
| Huffman.TruncatedTailDropped | huffman.py:48-53 | Decoding an encoding with a proper prefix of a code appended still gives the text. |
| Huffman.Utf8Length | huffman.py:62 | The UTF-8 length of a text lies between one and four bytes per character. |
| Huffman.CompressText | huffman.py:55-76 | Failure modes: EmptyHeap exactly on the empty text; RoundTripMismatch exactly on a text with one distinct character. It succeeds exactly on texts with two distinct characters. On success: the stream decodes back to the text; the compressed size is the stream's length; the original size is eight times the UTF-8 length; and the stream is what a fresh table gives. |
| Huffman.CompressTextShared | huffman.py:55-58 | The default code dict after compress_text: unchanged on an empty text, which raises in the builder first. Otherwise it has gained every character of the text, keeps its entries for other characters, and is the old dict overridden by the fresh table. The failed assert comes after the walk, so this holds on that path too. |
| Huffman.CompressTextSharedTwice | huffman.py:55-58 | Compressing the same text again leaves the default dict as the first call left it. |
| Huffman.CompressOkCase | huffman.py:57-63 | For a non-empty text, encoding succeeds, matches the fresh-table encoding, and has the count-weighted length of the codes. |
| Huffman.CompressMismatchCase | huffman.py:57-67 | For a text of one repeated character the tree is a leaf and the encoding is empty. Decoding gives the empty text, so the assert fails. |
| AdaptiveDemo.BuildTreeFromFreq | adaptive_demo.py:5-14 | Fails with EmptyHeap exactly on an empty dict. Otherwise the tree is well-formed, has one leaf per key with its count, and weighs the total count. |
| AdaptiveDemo.Advance | adaptive_demo.py:22-27 | One step bumps the symbol's count before rebuilding, so the symbol gets a code. The step adds the new tree's symbols to the shared dict, appends the symbol's code to the stream and records a snapshot. |
| AdaptiveDemo.AdvanceRebuilds | adaptive_demo.py:22-27 | The step's table is the new tree's codes written over the shared dict, and the symbol is a leaf of that tree. |
| AdaptiveDemo.AdaptiveEncode | adaptive_demo.py:16-30 | After the loop the counts are those of the text and there is one step per character. |
| AdaptiveDemo.EncodeKeys | adaptive_demo.py:16-30 | After the loop the code dict has the shared dict's keys plus the text's characters. |
| AdaptiveDemo.AdaptiveStream | adaptive_demo.py:22-30 | The stream is, for each prefix of the text, the last character's code in the table built afresh from that prefix's counts. The shared dict's stale entries never reach it. |
| AdaptiveDemo.AdaptiveTrace | adaptive_demo.py:22-27 | Step i is numbered i+1 and records the counts of the first i+1 characters, which sum to i+1. The current character's count rises by one and every other count is unchanged. The snapshot holds that step's fresh code for the character. |
| AdaptiveDemo.StepIsPrefixRun | adaptive_demo.py:22-27 | Step i of a run equals step i of the run over the first i+1 characters. |
| AdaptiveDemo.RunSnoc | adaptive_demo.py:22-27 | Running over one more character appends exactly one step. |
| AdaptiveDemo.TallyStep | adaptive_demo.py:23 | The counts of a prefix one character longer are the earlier counts with that character bumped. |
| AdaptiveDemo.LastStep | adaptive_demo.py:22-27 | The last step is numbered \|text\|, records the counts of the whole text, and holds the last character's fresh code. |
| AdaptiveDemo.StepCodeEmpty | adaptive_demo.py:24-26 | A step emits no bits exactly while only one distinct character has been seen. |
| AdaptiveDemo.FirstStepSilent | adaptive_demo.py:22-26 | The first character never adds bits to the stream. |
| CodeTrie.InsertWalk | app.py:218-228 | `CodeTrie.Insert`, one iteration of the rebuild loop, creates exactly the nodes along the code's walk. It stores the symbol at the walk's end and leaves every other stored symbol in place. |
| CodeTrie.RebuildWalk | app.py:216-228 | After `CodeTrie.Rebuild`, a walk exists exactly when it is empty or an initial part of some imported code. The symbol found there is that of the last entry whose code walks the same way. |
| CodeTrie.LastSymOnly | app.py:216-228 | When only one entry's code walks the same way as a path, that entry's symbol is found there. |
| CodeTrie.LastSymNone | app.py:216-228 | When no entry's code walks the same way as a path, no symbol is found there. |
| CodeTrie.RebuildDecodes | app.py:216-228 | With non-empty, prefix-free codes, walking any imported code reaches that entry's symbol, and no symbol before it. |
| CodeFile.ExportLine | app.py:151-157 | An exported line ends in its only newline when the code holds none. |
| CodeFile.LineEnd | app.py:209 | The first line of a file reaches its first newline, or the end. |
| CodeFile.StripLeft | app.py:210 | Stripping the front leaves a suffix that is empty or starts with non-whitespace. |
| CodeFile.StripLeftRemoves | app.py:210 | Only whitespace is removed from the front. |
| CodeFile.StripRight | app.py:210 | Stripping the back leaves a prefix that is empty or ends with non-whitespace. |
| CodeFile.StripRightRemoves | app.py:210 | Only whitespace is removed from the back. |
| CodeFile.SplitAtColon | app.py:211-212 | There is no split exactly when there is no ':'. Otherwise the line is key + ':' + code, and the key holds no ':'. |
| CodeFile.ParseLine | app.py:210-212 | A stripped line without ':' is skipped. Otherwise it splits at its first ':'. |
| CodeFile.Put | app.py:213 | Assigning into the dict overwrites an existing key in its position or appends a new one. Keys stay distinct. |
| CodeFile.ImportParsed | app.py:209-213 | The imported dict has distinct keys. |
| CodeFile.ImportDistinct | app.py:209-213 | Importing entries with distinct keys, in order, gives back exactly those entries. |
| CodeFile.SplitExport | app.py:151-157 | The file `CodeFile.ExportCodes` writes, read back line by line, is the exported lines, one per listed symbol. |
| CodeFile.SplitExportLine | app.py:209 | `CodeFile.SplitLines`, iterating over the uploaded file, takes a line through its newline as the first line and continues after it. |
| CodeFile.StripLine | app.py:210 | `CodeFile.Strip` (`line.strip()`) removes exactly the trailing newline from a line whose first and last characters are not whitespace. |
| CodeFile.ParseExportLine | app.py:151-157 | A line of an exportable symbol with a bit code parses back to its escaped key and its code. |
| CodeFile.ParseExportSpace | app.py:151-157 | A whitespace symbol other than newline and space comes back under the empty key: the strip eats it. |
| CodeFile.ParseExportColon | app.py:151-157 | The symbol ':' comes back under the empty key, with ':' glued to the front of its code. |
| CodeFile.EscapeInjective | app.py:151-157 | Different exportable symbols get different keys. |
| CodeFile.EscapedDistinct | app.py:151-157 | A writable listing exports distinct keys. |
| CodeFile.EscapeTextPlain | app.py:151-157 | For a text without newlines and spaces, escaping changes nothing. |
| CodeFile.ImportExport | app.py:151-213 | Writing a table of exportable symbols with bit codes and reading it back with `CodeFile.ImportCodes` gives exactly the escaped entries, in the listing's order. |
| App.BuildHuffmanTree | app.py:19-27 | Gives None exactly on an empty map. Otherwise the tree is well-formed, has one leaf per key with its count, and weighs the total. |
| App.BuildCodes | app.py:29-36 | Gives None exactly for no tree. Otherwise the table has a key for each leaf and keeps the dict's other entries. |
| App.BuildCodesPaths | app.py:29-36 | Every symbol's code is the prefix followed by its root-to-leaf path in bits. |
| App.HuffmanEncode | app.py:38-43 | The empty text gives an empty stream and neither table nor tree. Otherwise: the tree has one leaf per character with its count and weighs \|text\|; the table covers the shared dict and the text; and the stream is what a fresh table gives. |
| App.ToTrieWalk | app.py:10-17 | `App.ToTrie` converts a built tree to app.py's nodes. A bit path exists in the converted tree exactly when it exists in the built tree, and it reaches the conversion of the node it reaches there. |
| App.DecodeFrom | app.py:45-53 | The only way decoding fails is stepping to a missing child. |
| App.HuffmanDecode | app.py:45-53 | The empty stream gives the empty text. A None root fails on any bit. Nothing but a missing child fails. |
| App.DecodeTreeAgrees | app.py:45-53 | On a built tree the app decoder, which tests `is not None`, agrees with huffman.py's, which tests truthiness, from any node and on any stream. |
| App.HuffmanDecodeAgrees | app.py:45-53 | The two decoders agree on every built tree and every stream. |
| App.RoundTrip | app.py:38-53 | For a text of two or more distinct characters, decoding its encoding through its own tree gives the text back. |
| App.SingleSymbolSilent | app.py:38-43 | A text of one repeated character encodes to the empty stream. |
| App.DecodeOne | app.py:48-52 | When a code leads through symbol-less nodes to a node holding s, decoding it emits s and restarts at the root. |
| App.DecodeEscaped | app.py:45-53 | When every character's code leads to its exported key, decoding the encoding gives the text with every character escaped. |
| App.BitsPaths | app.py:219-227 | For bit strings, walking the same way means being equal, and walking a prefix means being a prefix. |
| App.FreshCodes | app.py:29-36 | For a text of two or more distinct characters, the fresh table's codes are non-empty bit strings, none a prefix of another. |
| App.FreshTableWritable | app.py:151-157 | That table, for exportable characters, can be written and read back, and its entries are prefix-free. |
| App.CodesFileRoundTrip | app.py:151-231 | Encode with a fresh table, export in any order, import, rebuild, decode: the result is the text with newlines as the two characters `\n` and spaces as `SPACE`. |
| App.DemoStep | app.py:64-68 | One demo step bumps the count, emits the character's code and records `(i, counts)`. |
| App.DemoCode | app.py:65-67 | The character just counted has a leaf in the tree rebuilt from the counts, and so a code in the table walked into a fresh `{}`. |
| App.AdaptiveHuffmanDemo | app.py:58-69 | The final counts are those of the text. The evolution is the reference evolution. The stream is the adaptive reference stream. |
| App.EvolutionPrefix | app.py:64-68 | The evolution of a prefix is the same prefix of the evolution. |
| App.EvolutionEntry | app.py:64-68 | Evolution entry i is `(i+1, counts of the first i+1 characters)`, and those counts sum to i+1. |
| App.DemoMatchesAdaptive | app.py:58-69 | app.py's demo and adaptive_demo.py's encoder emit the same stream, whatever the shared dict held. |

## Left out

- gui_app.py, the Streamlit page layout, the matplotlib chart, file uploads and
  downloads, and the summary report: user interface and I/O.
- Timing (`time.time()`) and the compression ratio: clocks and floating point.
  `compress_text`'s `ratio` and `time` fields are not modelled. Its sizes are.
- `save_compressed` and `load_and_decompress`: pickle serialisation is file I/O.
  Decoding a loaded stream and tree is `Huffman.HuffmanDecode`.
- adaptive_demo.py's `__main__` demo run and the unused `update_interval`
  parameter.
- The exact layout of `heapq`. The priority queue is a list sorted by weight,
  which fixes one tie-break. Trees, and so the codes, may differ from CPython's
  on equal weights. Every property stated here holds for any tie-break of this
  kind.
- Bytes: text is a sequence of characters. The UTF-8 decoding of uploads is not
  modelled. Only the UTF-8 length used for `original_size` is.
- App.CodesFileRoundTrip: stated for a table built into a fresh dict. app.py's
  default dict can also hold entries left by earlier runs in the same process,
  and these would also be exported. The order of `codes.items()` is a parameter
  listing the text's characters once each.
- App.CodesFileRoundTrip: requires every character of the text to be
  exportable, that is newline, space, or a non-whitespace character other than
  ':'. For the other characters, CodeFile.ParseExportSpace and
  CodeFile.ParseExportColon state what the import does instead.
- A one-leaf tree gets the empty code `""`, so a single-symbol text encodes to
  nothing and `compress_text` fails its assert. See
  Huffman.CompressMismatchCase and App.SingleSymbolSilent.

