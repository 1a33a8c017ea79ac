/** The data the emitter consumes: source files, the per-line annotation fragments
    produced by the annotation resolver, multi-spans, diagnostics and sub-diagnostics,
    and the owned, renderer-ready records the emitter builds. */
module Model {
  import opened Wrappers
  import opened Utf8
  import opened Levels

  /** A loaded source file. `id` is the file's identity (two loaded files with the
      same name are still different files); `lines` are its lines as code points, each
      with its own line terminator. */
  datatype SourceFile = SourceFile(id: nat, name: string, lines: seq<seq<char>>)

  /** The four shapes of a per-line annotation fragment. */
  datatype AnnotationType = Singleline | MultilineStart | MultilineLine | MultilineEnd

  /** One fragment of an annotation on one line. Columns are character positions. */
  datatype LineAnnotation = LineAnnotation(
    startCol: nat,
    endCol: nat,
    isPrimary: bool,
    text: Option<string>,
    level: Option<Level>,
    kind: AnnotationType)

  /** A 1-based line index and the fragments on that line. */
  datatype Line = Line(lineIndex: nat, annotations: seq<LineAnnotation>)

  /** The resolver's output for one file: the file and its annotated lines. */
  datatype AnnotatedFile = AnnotatedFile(file: SourceFile, lines: seq<Line>)

  /** A span as far as the emitter inspects it: whether it is dummy, and the name of
      the file its low end resolves to in the source map. */
  datatype Span = Span(isDummy: bool, fileName: string)

  /** A multi-span: its primary span if any, whether it is dummy, and the per-file
      annotated lines the resolver derives from it. */
  datatype MultiSpan = MultiSpan(primarySpan: Option<Span>, isDummy: bool, annotated: seq<AnnotatedFile>)

  datatype SubDiagnostic = SubDiagnostic(level: Level, text: string, span: MultiSpan)

  datatype Diagnostic = Diagnostic(
    id: Option<string>,
    text: string,
    level: Level,
    span: MultiSpan,
    children: seq<SubDiagnostic>)

  /** The source map as the emitter queries it: the name shown for a file. */
  datatype SourceMap = SourceMap(filenameForDiagnostics: string -> string)

  /** Operations on a file's annotated lines whose definitions are not part of this
      model: overriding every fragment's level, and merging further lines in. */
  datatype LineOps = LineOps(
    setLevel: (seq<Line>, Level) -> seq<Line>,
    addLines: (seq<Line>, seq<Line>) -> seq<Line>)

  /** A renderer-ready annotation: a byte range into its snippet's source text. */
  datatype OwnedAnnotation = OwnedAnnotation(start: nat, end: nat, text: string, level: RenderLevel)

  /** A renderer-ready excerpt of one file. */
  datatype OwnedSnippet = OwnedSnippet(
    origin: string,
    source: seq<char>,
    lineStart: nat,
    fold: bool,
    annotations: seq<OwnedAnnotation>)

  /** A renderer-ready title or footer line. */
  datatype OwnedMessage = OwnedMessage(id: Option<string>, text: string, level: RenderLevel)

  /** The conditions under which the Rust code panics (in a debug build). */
  datatype Defect =
    | NoLines
    | LineIndexZero
    | UnsortedLines
    | LineOutOfRange(lineIndex: nat)
    | NotCharBoundary(lineIndex: nat)
    | NestedMultilineStart(lineIndex: nat)
    | UnmatchedMultilineEnd(lineIndex: nat)
    | InvertedMultiline(lineIndex: nat)

  /** The concatenation of a run of lines. */
  function Concat(ls: seq<seq<char>>): (s: seq<char>)
  {
    if |ls| == 0 then [] else ls[0] + Concat(ls[1..])
  }

  lemma {:induction false} ConcatAppend(a: seq<seq<char>>, b: seq<seq<char>>)
    ensures Concat(a + b) == Concat(a) + Concat(b)
  {
    if |a| == 0 {
      assert a + b == b;
    } else {
      assert (a + b)[1..] == a[1..] + b;
      ConcatAppend(a[1..], b);
    }
  }

  /** `SourceFile::line_position`: the byte offset at which the 0-based line `i`
      starts, or `None` past the last line. Offsets are taken from the start of the
      file; the emitter only ever uses their differences. */
  function LinePosition(f: SourceFile, i: nat): (r: Option<nat>)
    ensures r.Some? <==> i < |f.lines|
    ensures i == 0 && |f.lines| > 0 ==> r == Some(0)
  {
    if i < |f.lines| then Some(ByteLen(Concat(f.lines[..i]))) else None
  }

  /** Each line starts where the previous one ends, and every line starts inside the
      file's text. */
  lemma LinePositionNext(f: SourceFile, i: nat)
    requires i + 1 < |f.lines|
    ensures LinePosition(f, i + 1).value == LinePosition(f, i).value + ByteLen(f.lines[i])
    ensures LinePosition(f, i + 1).value <= ByteLen(Concat(f.lines))
  {
    var ls := f.lines;
    assert ls[..i + 1] == ls[..i] + [ls[i]];
    ConcatAppend(ls[..i], [ls[i]]);
    assert Concat([ls[i]]) == ls[i] + Concat([]);
    assert ls[i] + [] == ls[i];
    ByteLenAppend(Concat(ls[..i]), ls[i]);
    assert ls == ls[..i + 1] + ls[i + 1..];
    ConcatAppend(ls[..i + 1], ls[i + 1..]);
    ByteLenAppend(Concat(ls[..i + 1]), Concat(ls[i + 1..]));
  }

  /** `SourceFile::get_lines(lo..=hi).unwrap_or_default()`: the text of the 0-based
      lines `lo` to `hi` inclusive, or the empty string when the range is not inside
      the file. */
  function GetLines(f: SourceFile, lo: nat, hi: nat): (r: seq<char>)
    ensures !(lo <= hi < |f.lines|) ==> r == []
    ensures lo <= hi < |f.lines| ==> LinePosition(f, lo).value + ByteLen(r) == ByteLen(Concat(f.lines[..hi + 1]))
  {
    if lo <= hi < |f.lines| then
      var ls := f.lines;
      assert ls[..hi + 1] == ls[..lo] + ls[lo..hi + 1];
      ConcatAppend(ls[..lo], ls[lo..hi + 1]);
      ByteLenAppend(Concat(ls[..lo]), Concat(ls[lo..hi + 1]));
      Concat(ls[lo..hi + 1])
    else
      []
  }
}
