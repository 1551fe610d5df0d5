/**
  The `codes.txt` format of app.py. Export writes one line per code-table
  entry, `key:code`, with the newline symbol written as the two characters
  `\n` and the space as `SPACE`. Import reads the file line by line (split
  at '\n'), strips each line of Python whitespace, keeps the lines holding a
  ':' and splits them at the first one into key and code, assigning
  `code_map[key] = code`. Import never turns `\n` or `SPACE` back into the
  symbol they stand for.
 */
module CodeFile {
  import opened Outcome
  import opened HuffmanTree

  /** The characters Python's `str.strip()` removes (those for which `str.isspace` holds). */
  const Whitespace: set<char> := {
    '\t', '\n', '\U{0B}', '\U{0C}', '\r', '\U{1C}', '\U{1D}', '\U{1E}', '\U{1F}', ' ',
    '\U{85}', '\U{A0}', '\U{1680}', '\U{2000}', '\U{2001}', '\U{2002}', '\U{2003}', '\U{2004}',
    '\U{2005}', '\U{2006}', '\U{2007}', '\U{2008}', '\U{2009}', '\U{200A}', '\U{2028}', '\U{2029}',
    '\U{202F}', '\U{205F}', '\U{3000}'
  }

  predicate IsSpace(c: char) {
    c in Whitespace
  }

  /** The key text export writes for a symbol. */
  function Escape(k: char): string {
    if k == '\n' then "\\n" else if k == ' ' then "SPACE" else [k]
  }

  /** One exported line: `"\\n:" + v`, `"SPACE:" + v` or `f"{k}:{v}"`, then a newline. */
  function ExportLine(k: char, code: string): (line: string)
    ensures |line| > 0 && line[|line| - 1] == '\n'
    ensures '\n' !in code ==> '\n' !in line[..|line| - 1]
  {
    if k == '\n' then "\\n:" + code + "\n"
    else if k == ' ' then "SPACE:" + code + "\n"
    else [k] + ":" + code + "\n"
  }

  /** The export loop over `codes.items()`, listed in the order `order`. */
  function ExportCodes(order: seq<char>, codes: map<char, string>): string
    requires forall i :: 0 <= i < |order| ==> order[i] in codes
    decreases |order|
  {
    if |order| == 0 then ""
    else ExportLine(order[0], codes[order[0]]) + ExportCodes(order[1..], codes)
  }

  /** The length of the first line of `s`: up to and including its first '\n', or all of `s`. */
  function LineEnd(s: string): (n: nat)
    requires |s| > 0
    ensures 0 < n <= |s|
    ensures forall i :: 0 <= i < n - 1 ==> s[i] != '\n'
    ensures n < |s| ==> s[n - 1] == '\n'
  {
    if s[0] == '\n' || |s| == 1 then 1 else 1 + LineEnd(s[1..])
  }

  /** Iterating over a file: pieces each ending at a '\n', the last one possibly without. */
  function SplitLines(s: string): (lines: seq<string>)
    ensures forall i :: 0 <= i < |lines| ==> |lines[i]| > 0
    decreases |s|
  {
    if |s| == 0 then [] else [s[..LineEnd(s)]] + SplitLines(s[LineEnd(s)..])
  }

  /** Leading whitespace removed: a suffix that is empty or starts with non-whitespace. */
  function StripLeft(s: string): (r: string)
    ensures |r| <= |s| && r == s[|s| - |r|..]
    ensures |r| == 0 || !IsSpace(r[0])
    decreases |s|
  {
    if |s| > 0 && IsSpace(s[0]) then StripLeft(s[1..]) else s
  }

  /** Only whitespace is removed from the front. */
  lemma {:induction false} StripLeftRemoves(s: string)
    ensures forall k :: 0 <= k < |s| - |StripLeft(s)| ==> IsSpace(s[k])
    decreases |s|
  {
    if |s| > 0 && IsSpace(s[0]) {
      StripLeftRemoves(s[1..]);
      assert forall k :: 1 <= k < |s| ==> s[k] == s[1..][k - 1];
    }
  }

  /** Trailing whitespace removed: a prefix that is empty or ends with non-whitespace. */
  function StripRight(s: string): (r: string)
    ensures |r| <= |s| && r == s[..|r|]
    ensures |r| == 0 || !IsSpace(r[|r| - 1])
    decreases |s|
  {
    if |s| > 0 && IsSpace(s[|s| - 1]) then StripRight(s[..|s| - 1]) else s
  }

  /** Only whitespace is removed from the back. */
  lemma {:induction false} StripRightRemoves(s: string)
    ensures forall k :: |StripRight(s)| <= k < |s| ==> IsSpace(s[k])
    decreases |s|
  {
    if |s| > 0 && IsSpace(s[|s| - 1]) {
      StripRightRemoves(s[..|s| - 1]);
      assert forall k :: 0 <= k < |s| - 1 ==> s[k] == s[..|s| - 1][k];
    }
  }

  /** `str.strip()`. */
  function Strip(s: string): string {
    StripRight(StripLeft(s))
  }

  /** The index of the first ':' of `s`, or `|s|` when there is none. */
  function FindColon(s: string): (n: nat)
    ensures n <= |s|
    ensures forall i :: 0 <= i < n ==> s[i] != ':'
    ensures n < |s| ==> s[n] == ':'
  {
    if |s| == 0 || s[0] == ':' then 0 else 1 + FindColon(s[1..])
  }

  /** `s.split(':', 1)` when `s` holds a ':'; `None` when it does not. */
  function SplitAtColon(s: string): (r: Option<(string, string)>)
    ensures r.None? <==> ':' !in s
    ensures r.Some? ==> s == r.value.0 + ":" + r.value.1 && ':' !in r.value.0
  {
    var n := FindColon(s);
    if n == |s| then None
    else
      assert s == s[..n] + ":" + s[n + 1..];
      Some((s[..n], s[n + 1..]))
  }

  /**
    One line of the import loop: strip it; a line without ':' is skipped,
    any other is split at its first ':' into key and code.
   */
  function ParseLine(line: string): (r: Option<(string, string)>)
    ensures r.None? <==> ':' !in Strip(line)
    ensures r.Some? ==> Strip(line) == r.value.0 + ":" + r.value.1 && ':' !in r.value.0
  {
    SplitAtColon(Strip(line))
  }

  /** Whether a key is one of the entries. */
  predicate HasKey(entries: seq<(string, string)>, k: string) {
    exists i :: 0 <= i < |entries| && entries[i].0 == k
  }

  /** No key occurs in two entries, as in any dict. */
  predicate DistinctKeys(entries: seq<(string, string)>) {
    forall i, j :: 0 <= i < j < |entries| ==> entries[i].0 != entries[j].0
  }

  /** The position of the entry with key `k`, or `|entries|` when there is none. */
  function FindKey(entries: seq<(string, string)>, k: string): (n: nat)
    ensures n <= |entries|
    ensures forall i :: 0 <= i < n ==> entries[i].0 != k
    ensures n < |entries| ==> entries[n].0 == k
    decreases |entries|
  {
    if |entries| == 0 || entries[0].0 == k then 0 else 1 + FindKey(entries[1..], k)
  }

  /**
    `code_map[k] = v` on a dict kept as its items in insertion order: an
    existing key keeps its position and takes the new code; a new key is
    appended.
   */
  function Put(entries: seq<(string, string)>, k: string, v: string): (r: seq<(string, string)>)
    requires DistinctKeys(entries)
    ensures DistinctKeys(r)
    ensures HasKey(entries, k) ==> (|r| == |entries|
      && forall i :: 0 <= i < |r| ==> r[i] == (if entries[i].0 == k then (k, v) else entries[i]))
    ensures !HasKey(entries, k) ==> r == entries + [(k, v)]
  {
    var n := FindKey(entries, k);
    if n < |entries| then
      entries[n := (k, v)]
    else
      var r := entries + [(k, v)];
      assert forall i :: 0 <= i < |entries| ==> r[i] == entries[i];
      r
  }

  /** Each line of the file, parsed. */
  function ParseLines(lines: seq<string>): (parsed: seq<Option<(string, string)>>)
    ensures |parsed| == |lines|
  {
    seq(|lines|, i requires 0 <= i < |lines| => ParseLine(lines[i]))
  }

  /** The import loop: every parsed line, in order, assigned into the dict. */
  function ImportParsed(parsed: seq<Option<(string, string)>>): (r: seq<(string, string)>)
    ensures DistinctKeys(r)
    decreases |parsed|
  {
    if |parsed| == 0 then []
    else
      var acc := ImportParsed(parsed[..|parsed| - 1]);
      match parsed[|parsed| - 1]
      case None => acc
      case Some((k, v)) => Put(acc, k, v)
  }

  /** Reading `codes.txt`: the entries of `code_map`, in insertion order. */
  function ImportCodes(file: string): seq<(string, string)> {
    ImportParsed(ParseLines(SplitLines(file)))
  }

  /**
    The symbols whose key survives the import: the two escaped ones, and any
    symbol that is neither whitespace (stripped away) nor ':' (taken for the
    separator).
   */
  predicate Exportable(k: char) {
    k == '\n' || k == ' ' || (!IsSpace(k) && k != ':')
  }

  /** The entries import should produce from an export in the order `order`. */
  function Escaped(order: seq<char>, codes: map<char, string>): (r: seq<(string, string)>)
    requires forall i :: 0 <= i < |order| ==> order[i] in codes
    ensures |r| == |order|
    ensures forall i :: 0 <= i < |order| ==> r[i] == (Escape(order[i]), codes[order[i]])
    decreases |order|
  {
    if |order| == 0 then []
    else Escaped(order[..|order| - 1], codes) + [(Escape(order[|order| - 1]), codes[order[|order| - 1]])]
  }

  /** The text the rebuilt decode tree gives back: each symbol as its exported key. */
  function EscapeText(text: string): string
    decreases |text|
  {
    if |text| == 0 then "" else Escape(text[0]) + EscapeText(text[1..])
  }

  /** A text without newlines and spaces comes back unchanged. */
  lemma {:induction false} EscapeTextPlain(text: string)
    requires '\n' !in text && ' ' !in text
    ensures EscapeText(text) == text
    decreases |text|
  {
    if |text| > 0 {
      assert text[0] != '\n' && text[0] != ' ';
      assert forall c :: c in text[1..] ==> c in text;
      EscapeTextPlain(text[1..]);
      assert text == [text[0]] + text[1..];
    }
  }

  /** Different exportable symbols are written with different keys. */
  lemma EscapeInjective(a: char, b: char)
    requires Exportable(a) && Exportable(b) && Escape(a) == Escape(b)
    ensures a == b
  {
    if a != '\n' && a != ' ' {
      assert Escape(a)[0] == a;
      assert |Escape(b)| == 1;
    }
  }

  /** Stripping a line that starts and ends with non-whitespace, apart from its newline. */
  lemma StripLine(body: string)
    requires |body| > 0 && !IsSpace(body[0]) && !IsSpace(body[|body| - 1])
    ensures Strip(body + "\n") == body
  {
    var s := body + "\n";
    assert s[0] == body[0];
    assert StripLeft(s) == s;
    assert s[|s| - 1] == '\n';
    assert IsSpace(s[|s| - 1]);
    assert s[..|s| - 1] == body;
    assert StripRight(s) == StripRight(body);
    assert StripRight(body) == body;
  }

  /** Splitting at the first ':' when the part before it has none. */
  lemma SplitFirstColon(a: string, b: string)
    requires ':' !in a
    ensures SplitAtColon(a + ":" + b) == Some((a, b))
  {
    var s := a + ":" + b;
    assert s[|a|] == ':';
    assert s[..|a|] == a && s[|a| + 1..] == b;
  }

  /** An exported line is its key, a ':', the code and a newline. */
  lemma ExportLineParts(k: char, code: string)
    ensures ExportLine(k, code) == Escape(k) + ":" + code + "\n"
  {
  }

  /** An exportable symbol's key is not empty, starts with non-whitespace and holds no ':'. */
  lemma EscapeParts(k: char)
    requires Exportable(k)
    ensures |Escape(k)| > 0 && !IsSpace(Escape(k)[0]) && ':' !in Escape(k)
  {
  }

  /** Parsing an exported line gives back the escaped key and the code. */
  lemma ParseExportLine(k: char, code: string)
    requires Exportable(k) && IsBits(code)
    ensures ParseLine(ExportLine(k, code)) == Some((Escape(k), code))
  {
    var e := Escape(k);
    var body := e + ":" + code;
    ExportLineParts(k, code);
    EscapeParts(k);
    assert body + "\n" == e + ":" + code + "\n";
    assert body[0] == e[0];
    assert body[|body| - 1] == if |code| == 0 then ':' else code[|code| - 1];
    StripLine(body);
    SplitFirstColon(e, code);
  }

  /** A line holding a ':' and a code of bits is left as it is by the strip, apart from its newline. */
  lemma StripColonCode(code: string)
    requires IsBits(code)
    ensures Strip(":" + code + "\n") == ":" + code
  {
    var body := ":" + code;
    assert body[|body| - 1] == if |code| == 0 then ':' else code[|code| - 1];
    StripLine(body);
  }

  /** A whitespace symbol other than newline and space is exported under the empty key. */
  lemma ParseExportSpace(k: char, code: string)
    requires IsSpace(k) && k != '\n' && k != ' ' && IsBits(code)
    ensures ParseLine(ExportLine(k, code)) == Some(("", code))
  {
    var line := ":" + code + "\n";
    ExportLineParts(k, code);
    assert ExportLine(k, code) == [k] + line;
    StripSpaceCons(k, line);
    StripColonCode(code);
    ParseEmptyKey(ExportLine(k, code), code);
  }

  /** A line that strips to `":" + code` parses to the empty key and `code`. */
  lemma ParseEmptyKey(s: string, code: string)
    requires IsBits(code) && Strip(s) == ":" + code
    ensures ParseLine(s) == Some(("", code))
  {
    SplitFirstColon("", code);
    assert "" + ":" + code == ":" + code;
  }

  /** A leading whitespace character is stripped like the rest of the leading whitespace. */
  lemma StripSpaceCons(k: char, rest: string)
    requires IsSpace(k)
    ensures Strip([k] + rest) == Strip(rest)
  {
    assert ([k] + rest)[1..] == rest;
    assert StripLeft([k] + rest) == StripLeft(rest);
  }

  /** The ':' symbol is exported under the empty key, its code read back with a ':' in front. */
  lemma ParseExportColon(code: string)
    requires IsBits(code)
    ensures ParseLine(ExportLine(':', code)) == Some(("", ":" + code))
  {
    var body := "::" + code;
    assert ExportLine(':', code) == body + "\n";
    StripLine(body);
    assert body[1..] == ":" + code;
  }

  /** The first line of an exported line followed by anything is that line. */
  lemma SplitExportLine(line: string, rest: string)
    requires |line| > 0 && line[|line| - 1] == '\n' && '\n' !in line[..|line| - 1]
    ensures SplitLines(line + rest) == [line] + SplitLines(rest)
  {
    var s := line + rest;
    var n := LineEnd(s);
    assert s[|line| - 1] == '\n';
    assert forall i :: 0 <= i < |line| - 1 ==> s[i] == line[..|line| - 1][i];
    assert s[..|line|] == line && s[|line|..] == rest;
  }

  /** The exported lines, one per symbol of `order`. */
  function ExportedLines(order: seq<char>, codes: map<char, string>): (lines: seq<string>)
    requires forall i :: 0 <= i < |order| ==> order[i] in codes
    ensures |lines| == |order|
    decreases |order|
  {
    if |order| == 0 then []
    else
      var n := |order| - 1;
      ExportedLines(order[..n], codes) + [ExportLine(order[n], codes[order[n]])]
  }

  /** Line `i` of the export is the line of symbol `order[i]`. */
  lemma {:induction false} ExportedLine(order: seq<char>, codes: map<char, string>, i: nat)
    requires forall i :: 0 <= i < |order| ==> order[i] in codes
    requires i < |order|
    ensures ExportedLines(order, codes)[i] == ExportLine(order[i], codes[order[i]])
    decreases |order|
  {
    var n := |order| - 1;
    if i < n {
      ExportedLine(order[..n], codes, i);
    }
  }

  /** The exported lines start with the line of the first listed symbol. */
  lemma ExportedLinesCons(order: seq<char>, codes: map<char, string>)
    requires forall i :: 0 <= i < |order| ==> order[i] in codes
    requires |order| > 0
    ensures ExportedLines(order, codes) == [ExportLine(order[0], codes[order[0]])] + ExportedLines(order[1..], codes)
  {
    var a := ExportedLines(order, codes);
    var b := [ExportLine(order[0], codes[order[0]])] + ExportedLines(order[1..], codes);
    forall i | 0 <= i < |order| ensures a[i] == b[i] {
      ExportedLine(order, codes, i);
      if i > 0 {
        ExportedLine(order[1..], codes, i - 1);
      }
    }
  }

  /** The exported file, read back line by line, is the exported lines. */
  lemma {:induction false} SplitExport(order: seq<char>, codes: map<char, string>)
    requires forall i :: 0 <= i < |order| ==> order[i] in codes && '\n' !in codes[order[i]]
    ensures SplitLines(ExportCodes(order, codes)) == ExportedLines(order, codes)
    decreases |order|
  {
    if |order| > 0 {
      var line := ExportLine(order[0], codes[order[0]]);
      var rest := ExportCodes(order[1..], codes);
      assert ExportCodes(order, codes) == line + rest;
      SplitExportLine(line, rest);
      SplitExport(order[1..], codes);
      ExportedLinesCons(order, codes);
    }
  }

  /**
    A listing of a code table that survives export and import: every listed
    symbol has a code of bits, is exportable, and is listed once.
   */
  predicate Writable(order: seq<char>, codes: map<char, string>) {
    && (forall i :: 0 <= i < |order| ==> order[i] in codes && Exportable(order[i]) && IsBits(codes[order[i]]))
    && (forall i, j :: 0 <= i < j < |order| ==> order[i] != order[j])
  }

  /** Every exported line parses to its escaped entry. */
  lemma ParseExport(order: seq<char>, codes: map<char, string>)
    requires Writable(order, codes)
    ensures ParseLines(ExportedLines(order, codes)) == Somes(Escaped(order, codes))
  {
    var parsed := ParseLines(ExportedLines(order, codes));
    var entries := Escaped(order, codes);
    forall i | 0 <= i < |order| ensures parsed[i] == Some(entries[i]) {
      ExportedLine(order, codes, i);
      ParseExportLine(order[i], codes[order[i]]);
    }
  }

  /** The entries as parsed lines. */
  function Somes(entries: seq<(string, string)>): (parsed: seq<Option<(string, string)>>)
    ensures |parsed| == |entries|
    ensures forall i :: 0 <= i < |entries| ==> parsed[i] == Some(entries[i])
  {
    seq(|entries|, i requires 0 <= i < |entries| => Some(entries[i]))
  }

  /** Assigning entries with distinct keys, in order, into an empty dict gives back the entries. */
  lemma {:induction false} ImportDistinct(entries: seq<(string, string)>)
    requires DistinctKeys(entries)
    ensures ImportParsed(Somes(entries)) == entries
    decreases |entries|
  {
    if |entries| > 0 {
      var n := |entries| - 1;
      var init := entries[..n];
      assert Somes(entries)[..n] == Somes(init);
      ImportDistinct(init);
      assert !HasKey(init, entries[n].0);
      assert init + [entries[n]] == entries;
    }
  }

  /** The escaped keys of a writable listing are distinct. */
  lemma EscapedDistinct(order: seq<char>, codes: map<char, string>)
    requires Writable(order, codes)
    ensures DistinctKeys(Escaped(order, codes))
  {
    var entries := Escaped(order, codes);
    forall i, j | 0 <= i < j < |entries| ensures entries[i].0 != entries[j].0 {
      if entries[i].0 == entries[j].0 {
        EscapeInjective(order[i], order[j]);
      }
    }
  }

  /**
    Exporting a code table and importing the file gives one entry per
    symbol, in the exported order, under its escaped key and with its code,
    provided the codes are bit strings and every symbol is exportable.
   */
  lemma ImportExport(order: seq<char>, codes: map<char, string>)
    requires Writable(order, codes)
    ensures ImportCodes(ExportCodes(order, codes)) == Escaped(order, codes)
  {
    SplitExport(order, codes);
    ParseExport(order, codes);
    EscapedDistinct(order, codes);
    ImportDistinct(Escaped(order, codes));
  }
}
