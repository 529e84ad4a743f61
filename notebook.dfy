/** The parsed form of a Jupyter notebook, as the synchronizer and the validator see it. */
module Notebook {

  datatype Option<+T> = None | Some(value: T)

  /** One output object of a code cell. It is copied verbatim and never interpreted. */
  datatype Output = Output(json: string)

  /** One cell of a notebook: a JSON object whose keys the core reads by name. */
  datatype Cell = Cell(
    // `cell_type`; None when the key is missing
    cellType: Option<string>,
    // `source`, the text fragments that are joined into the cell's text; a missing key reads as []
    source: seq<string>,
    // `outputs`; None when the key is missing
    outputs: Option<seq<Output>>,
    // `execution_count`; None when the key is missing, Some(None) when it is present with value null
    executionCount: Option<Option<int>>,
    // every other key of the cell object (`metadata`, `id`, ...), each with its serialized value
    rest: map<string, string>)

  /** A notebook: its cells in reading order and `metadata.kernelspec.name` (None when any level is missing). */
  datatype Notebook = Notebook(cells: seq<Cell>, kernelName: Option<string>)

  const Code: string := "code"
  const Markdown: string := "markdown"

  predicate IsCode(c: Cell) {
    c.cellType == Some(Code)
  }

  predicate IsMarkdown(c: Cell) {
    c.cellType == Some(Markdown)
  }

  /** `len(cell.get('outputs', []))`: a missing key counts as no outputs. */
  function OutputCount(c: Cell): (n: nat)
    ensures n == 0 <==> c.outputs.None? || c.outputs.value == []
  {
    if c.outputs.Some? then |c.outputs.value| else 0
  }

  /** `''.join(parts)` */
  function Join(parts: seq<string>): (s: string)
    ensures parts == [] ==> s == ""
    ensures |parts| == 1 ==> s == parts[0]
  {
    if parts == [] then "" else Join(parts[..|parts| - 1]) + parts[|parts| - 1]
  }

  /** Joining a concatenation of fragment lists is concatenating their joins. */
  lemma {:induction false} JoinAppend(a: seq<string>, b: seq<string>)
    ensures Join(a + b) == Join(a) + Join(b)
    decreases |b|
  {
    if b == [] {
      assert a + b == a;
    } else {
      var b' := b[..|b| - 1];
      JoinAppend(a, b');
      assert (a + b)[..|a + b| - 1] == a + b';
      assert (a + b)[|a + b| - 1] == b[|b| - 1];
    }
  }

  /** The text of a cell: `''.join(cell.get('source', []))`. */
  function SourceText(c: Cell): string {
    Join(c.source)
  }

  /**
   * The 29 characters Python's `str.isspace` accepts, listed one by one. The model itself tests whitespace
   * with `IsSpace`; this table is only its independent cross-check (`IsSpaceMatchesTable`).
   */
  const Whitespace: set<char> := {
    '\t', '\n', '\U{B}', '\U{C}', '\r', '\U{1C}', '\U{1D}', '\U{1E}', '\U{1F}', ' ',
    '\U{85}', '\U{A0}', '\U{1680}',
    '\U{2000}', '\U{2001}', '\U{2002}', '\U{2003}', '\U{2004}', '\U{2005}', '\U{2006}', '\U{2007}',
    '\U{2008}', '\U{2009}', '\U{200A}',
    '\U{2028}', '\U{2029}', '\U{202F}', '\U{205F}', '\U{3000}'}

  /** The characters `str.strip()` removes, tested by code-point ranges. */
  predicate IsSpace(ch: char) {
    || '\t' <= ch <= '\r'
    || '\U{1C}' <= ch <= ' '
    || ch == '\U{85}' || ch == '\U{A0}' || ch == '\U{1680}'
    || '\U{2000}' <= ch <= '\U{200A}'
    || ch == '\U{2028}' || ch == '\U{2029}' || ch == '\U{202F}' || ch == '\U{205F}'
    || ch == '\U{3000}'
  }

  /** The range test agrees with the enumerated table, character by character. */
  lemma IsSpaceMatchesTable(ch: char)
    ensures IsSpace(ch) <==> ch in Whitespace
  {
  }

  /** `s.lstrip()`: the suffix of `s` left after dropping its leading whitespace. */
  function LStrip(s: string): (r: string)
    ensures |r| <= |s| && r == s[|s| - |r|..]
    ensures r == [] || !IsSpace(r[0])
    ensures forall i :: 0 <= i < |s| - |r| ==> IsSpace(s[i])
  {
    if s != [] && IsSpace(s[0]) then LStrip(s[1..]) else s
  }

  /** `s.rstrip()`: the prefix of `s` left after dropping its trailing whitespace. */
  function RStrip(s: string): (r: string)
    ensures |r| <= |s| && r == s[..|r|]
    ensures r == [] || !IsSpace(r[|r| - 1])
    ensures forall i :: |r| <= i < |s| ==> IsSpace(s[i])
  {
    if s != [] && IsSpace(s[|s| - 1]) then RStrip(s[..|s| - 1]) else s
  }

  /** What `rstrip()` drops from the result of `lstrip()` is whitespace of the whole text. */
  lemma RStripDropsTrailingSpace(s: string)
    ensures forall k :: |s| - |LStrip(s)| + |RStrip(LStrip(s))| <= k < |s| ==> IsSpace(s[k])
  {
    var l := LStrip(s);
    var i := |s| - |l|;
    forall k | i + |RStrip(l)| <= k < |s|
      ensures IsSpace(s[k])
    {
      assert s[k] == l[k - i];
    }
  }

  /**
   * `s.strip()`: the slice of `s` left once the whitespace before and after it is dropped; it neither starts
   * nor ends with whitespace, and is empty iff `s` is all whitespace.
   */
  function Strip(s: string): (r: string)
    ensures exists i, j ::
              && 0 <= i <= j <= |s| && r == s[i..j]
              && (forall k :: 0 <= k < i ==> IsSpace(s[k]))
              && (forall k :: j <= k < |s| ==> IsSpace(s[k]))
    ensures r == [] || (!IsSpace(r[0]) && !IsSpace(r[|r| - 1]))
    ensures r == [] <==> forall i :: 0 <= i < |s| ==> IsSpace(s[i])
  {
    var l := LStrip(s);
    var r := RStrip(l);
    RStripDropsTrailingSpace(s);
    assert r == s[|s| - |l|..|s| - |l| + |r|];
    r
  }

  /** The text is empty or consists of whitespace only. */
  predicate IsBlank(s: string) {
    forall i :: 0 <= i < |s| ==> IsSpace(s[i])
  }

  /** `IsBlank` is `not s.strip()`: a text is blank exactly when stripping leaves nothing. */
  lemma BlankIffStripEmpty(s: string)
    ensures IsBlank(s) <==> Strip(s) == ""
  {
  }

  /** `s[:k]` */
  function Take(s: string, k: nat): (r: string)
    ensures |r| == if |s| < k then |s| else k
    ensures r <= s
  {
    if |s| < k then s else s[..k]
  }

  /** Python truthiness of a kernel name: present and non-empty. */
  predicate Truthy(name: Option<string>) {
    name.Some? && name.value != ""
  }

  /** How far both components walk: `min(len(original.cells), len(translated.cells))`, the length of `zip`. */
  function AlignedLength(original: seq<Cell>, translated: seq<Cell>): (n: nat)
    ensures n <= |original| && n <= |translated|
    ensures n == |original| || n == |translated|
  {
    if |original| < |translated| then |original| else |translated|
  }
}
