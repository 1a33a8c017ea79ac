/** A declarative account of the snippet `file_to_snippet` builds: which fragment
    becomes which annotation, at which byte positions, and when the code panics
    instead. The lemmas prove the fold in `Reassembly` computes exactly this. */
module ReassemblySpec {
  import opened Wrappers
  import opened Utf8
  import opened Levels
  import opened Model
  import opened Reassembly

  /** One fragment together with the 1-based line it sits on. */
  datatype Frag = Frag(lineIndex: nat, ann: LineAnnotation)

  function FragsOf(line: Line): (fs: seq<Frag>)
    ensures |fs| == |line.annotations|
    ensures forall j :: 0 <= j < |fs| ==> fs[j] == Frag(line.lineIndex, line.annotations[j])
  {
    seq(|line.annotations|, j requires 0 <= j < |line.annotations| => Frag(line.lineIndex, line.annotations[j]))
  }

  /** All fragments of a file in arrival order: line by line, and in line order
      within a line. */
  function Flatten(lines: seq<Line>): (r: seq<Frag>)
  {
    if |lines| == 0 then [] else FragsOf(lines[0]) + Flatten(lines[1..])
  }

  /** The number of fragments on a run of lines. */
  function FragCount(lines: seq<Line>): (r: nat)
  {
    if |lines| == 0 then 0 else |lines[0].annotations| + FragCount(lines[1..])
  }

  lemma {:induction false} FlattenLength(lines: seq<Line>)
    ensures |Flatten(lines)| == FragCount(lines)
  {
    if |lines| > 0 {
      FlattenLength(lines[1..]);
    }
  }

  lemma {:induction false} FlattenAppend(a: seq<Line>, b: seq<Line>)
    ensures Flatten(a + b) == Flatten(a) + Flatten(b)
  {
    if |a| == 0 {
      assert a + b == b;
    } else {
      assert (a + b)[1..] == a[1..] + b;
      FlattenAppend(a[1..], b);
    }
  }

  /** The excerpt of a file: its 1-based first and last lines. */
  datatype Excerpt = Excerpt(file: SourceFile, first: nat, last: nat)

  predicate ValidExcerpt(ex: Excerpt) {
    1 <= ex.first <= ex.last <= |ex.file.lines|
  }

  function ExcerptOf(f: SourceFile, lines: seq<Line>): (r: Excerpt)
    requires |lines| > 0
  {
    Excerpt(f, lines[0].lineIndex, lines[|lines| - 1].lineIndex)
  }

  /** The excerpt's text: its lines, first to last inclusive. */
  function Source(ex: Excerpt): (r: seq<char>) {
    if ValidExcerpt(ex) then Concat(ex.file.lines[ex.first - 1..ex.last]) else []
  }

  /** The lines the resolver hands over are usable: there is one, they are
      1-based, sorted, and the last one lies inside the file. */
  predicate WellPlaced(f: SourceFile, lines: seq<Line>) {
    && |lines| > 0
    && 0 < lines[0].lineIndex
    && LinesSorted(lines)
    && lines[|lines| - 1].lineIndex <= |f.lines|
  }

  /** Bytes of the excerpt lines that come before line `li`. */
  function LineOffset(ex: Excerpt, li: nat): (r: nat)
    requires ValidExcerpt(ex) && ex.first <= li <= ex.last
  {
    ByteLen(Concat(ex.file.lines[ex.first - 1..li - 1]))
  }

  /** The excerpt text from the start of line `li` to its end. */
  function FromLine(ex: Excerpt, li: nat): (r: seq<char>)
    requires ValidExcerpt(ex) && ex.first <= li <= ex.last
  {
    Concat(ex.file.lines[li - 1..ex.last])
  }

  /** Byte position in the excerpt of character column `col` of line `li`: the
      bytes of the excerpt lines before it, plus the bytes of the first `col`
      characters from the start of that line on (0 for a line outside the excerpt). */
  function Position(ex: Excerpt, li: nat, col: nat): (r: nat) {
    if ValidExcerpt(ex) && ex.first <= li <= ex.last then
      LineOffset(ex, li) + CharToBytePos(FromLine(ex, li), col)
    else
      0
  }

  /** The multi-line start still open after the first `n` fragments: the last
      start or end fragment among them, when it is a start. */
  function Open(fs: seq<Frag>, n: nat): (r: Option<nat>)
    requires n <= |fs|
    ensures r.Some? ==> r.value < n && fs[r.value].ann.kind.MultilineStart?
  {
    if n == 0 then
      None
    else
      match fs[n - 1].ann.kind
      case MultilineStart => Some(n - 1)
      case MultilineEnd => None
      case _ => Open(fs, n - 1)
  }

  /** The fragments that produce an annotation. */
  predicate Emits(fr: Frag) {
    fr.ann.kind.Singleline? || fr.ann.kind.MultilineEnd?
  }

  /** The annotation fragment `k` of `fs` stands for: a single-line fragment its own
      columns, a multi-line end the span from its open start. */
  function Expected(ex: Excerpt, fs: seq<Frag>, k: nat, defaultLevel: Level): (r: OwnedAnnotation)
    requires k < |fs|
  {
    var fr := fs[k];
    var level := ToRenderLevel(fr.ann.level.UnwrapOr(defaultLevel));
    var end := Position(ex, fr.lineIndex, fr.ann.endCol);
    var open := Open(fs, k);
    if fr.ann.kind.MultilineEnd? && open.Some? then
      var s := fs[open.value];
      OwnedAnnotation(Position(ex, s.lineIndex, s.ann.startCol), end, MergedLabel(s.ann.text, fr.ann.text), level)
    else
      OwnedAnnotation(Position(ex, fr.lineIndex, fr.ann.startCol), end, fr.ann.text.UnwrapOr(""), level)
  }

  /** Fragment `k` is consistent with what precedes it: a start opens nothing while
      another is open, an end closes an open start and does not end before it. */
  predicate PairedAt(ex: Excerpt, fs: seq<Frag>, k: nat)
    requires k < |fs|
  {
    var open := Open(fs, k);
    match fs[k].ann.kind
    case MultilineStart => open.None?
    case MultilineEnd =>
      && open.Some?
      && Position(ex, fs[open.value].lineIndex, fs[open.value].ann.startCol)
         <= Position(ex, fs[k].lineIndex, fs[k].ann.endCol)
    case _ => true
  }

  /** The first `n` fragments are all paired. */
  predicate PairedUpTo(ex: Excerpt, fs: seq<Frag>, n: nat)
    requires n <= |fs|
  {
    n == 0 || (PairedUpTo(ex, fs, n - 1) && PairedAt(ex, fs, n - 1))
  }

  /** Being paired up to `b` includes being paired up to any `a <= b`. */
  lemma {:induction false} PairedUpToMonotone(ex: Excerpt, fs: seq<Frag>, a: nat, b: nat)
    requires a <= b <= |fs| && PairedUpTo(ex, fs, b)
    ensures PairedUpTo(ex, fs, a)
    decreases b
  {
    if a < b {
      PairedUpToMonotone(ex, fs, a, b - 1);
    }
  }

  predicate WellPaired(ex: Excerpt, fs: seq<Frag>) {
    PairedUpTo(ex, fs, |fs|)
  }

  /** The annotations of the first `n` fragments, one per emitting fragment, in
      arrival order. */
  function ExpectedAnnotations(ex: Excerpt, fs: seq<Frag>, n: nat, defaultLevel: Level): (r: seq<OwnedAnnotation>)
    requires n <= |fs|
  {
    if n == 0 then
      []
    else
      ExpectedAnnotations(ex, fs, n - 1, defaultLevel) + (if Emits(fs[n - 1]) then [Expected(ex, fs, n - 1, defaultLevel)] else [])
  }

  /** When the first `n` fragments all carry `level`, every annotation they specify
      renders at that level's renderer level, whatever the default. */
  lemma {:induction false} ExpectedAtLevel(ex: Excerpt, fs: seq<Frag>, n: nat, defaultLevel: Level, level: Level)
    requires n <= |fs|
    requires forall k :: 0 <= k < n ==> fs[k].ann.level == Some(level)
    ensures forall a :: a in ExpectedAnnotations(ex, fs, n, defaultLevel) ==> a.level == ToRenderLevel(level)
  {
    if n > 0 {
      ExpectedAtLevel(ex, fs, n - 1, defaultLevel, level);
    }
  }

  /** The number of emitting fragments among the first `n`. */
  function EmitCount(fs: seq<Frag>, n: nat): (r: nat)
    requires n <= |fs|
  {
    if n == 0 then 0 else EmitCount(fs, n - 1) + (if Emits(fs[n - 1]) then 1 else 0)
  }

  /** The state the fold should be in after the first `n` fragments. */
  function SpecState(ex: Excerpt, fs: seq<Frag>, n: nat, defaultLevel: Level): (r: State)
    requires n <= |fs|
  {
    var pending :=
      match Open(fs, n)
      case None => None
      case Some(j) => Some(Pending(fs[j].ann.text, Position(ex, fs[j].lineIndex, fs[j].ann.startCol)));
    State(pending, ExpectedAnnotations(ex, fs, n, defaultLevel))
  }

  // ---------------------------------------------------------------------------
  // Positions

  /** The position `rel_pos` computes from the sliced excerpt is `Position`. */
  lemma RelPosIsPosition(ex: Excerpt, li: nat, col: nat)
    requires ValidExcerpt(ex) && ex.first <= li <= ex.last
    ensures RelPos(Source(ex), LineOffset(ex, li), li, col) == Ok(Position(ex, li, col))
  {
    var a := Concat(ex.file.lines[ex.first - 1..li - 1]);
    var b := FromLine(ex, li);
    SourceSplit(ex, li);
    SliceFromAppend(a, b);
    assert SliceFrom(Source(ex), LineOffset(ex, li)) == Some(b);
  }

  /** A line's offset in the excerpt is the difference between where it and the
      first excerpt line start in the file. */
  lemma LineOffsetIsDifference(ex: Excerpt, li: nat)
    requires ValidExcerpt(ex) && ex.first <= li <= ex.last
    ensures LinePosition(ex.file, ex.first - 1).Some? && LinePosition(ex.file, li - 1).Some?
    ensures LineOffset(ex, li) == LinePosition(ex.file, li - 1).value - LinePosition(ex.file, ex.first - 1).value
  {
    var ls := ex.file.lines;
    assert ls[..li - 1] == ls[..ex.first - 1] + ls[ex.first - 1..li - 1];
    ConcatAppend(ls[..ex.first - 1], ls[ex.first - 1..li - 1]);
    ByteLenAppend(Concat(ls[..ex.first - 1]), Concat(ls[ex.first - 1..li - 1]));
  }

  /** The first excerpt line sits at offset 0: its columns are converted on the
      excerpt text itself. */
  lemma FirstLineAtOffsetZero(ex: Excerpt, col: nat)
    requires ValidExcerpt(ex)
    ensures Position(ex, ex.first, col) == CharToBytePos(Source(ex), col)
  {
    assert ex.file.lines[ex.first - 1..ex.first - 1] == [];
  }

  /** The excerpt splits at the start of every one of its lines. */
  lemma SourceSplit(ex: Excerpt, li: nat)
    requires ValidExcerpt(ex) && ex.first <= li <= ex.last
    ensures Source(ex) == Concat(ex.file.lines[ex.first - 1..li - 1]) + FromLine(ex, li)
  {
    var ls := ex.file.lines;
    assert ls[ex.first - 1..ex.last] == ls[ex.first - 1..li - 1] + ls[li - 1..ex.last];
    ConcatAppend(ls[ex.first - 1..li - 1], ls[li - 1..ex.last]);
  }

  /** A position is the byte length of a prefix of the excerpt: that of its text
      before the line plus `col` characters (as many as there are). */
  lemma PositionIsPrefix(ex: Excerpt, li: nat, col: nat)
    requires ValidExcerpt(ex) && ex.first <= li <= ex.last
    ensures var a := Concat(ex.file.lines[ex.first - 1..li - 1]);
            Position(ex, li, col) == CharToBytePos(Source(ex), |a| + col)
  {
    var a := Concat(ex.file.lines[ex.first - 1..li - 1]);
    SourceSplit(ex, li);
    CharToBytePosAfter(a, FromLine(ex, li), col);
  }

  /** Every position is a valid slicing offset into the excerpt: inside it and on
      a character boundary of its UTF-8 encoding. */
  lemma PositionInSource(ex: Excerpt, li: nat, col: nat)
    requires ValidExcerpt(ex)
    ensures Position(ex, li, col) <= |Encode(Source(ex))|
    ensures IsCharBoundary(Encode(Source(ex)), Position(ex, li, col))
  {
    var s := Source(ex);
    var k: nat := if ex.first <= li <= ex.last then |Concat(ex.file.lines[ex.first - 1..li - 1])| + col else 0;
    assert Position(ex, li, col) == CharToBytePos(s, k) by {
      if ex.first <= li <= ex.last {
        PositionIsPrefix(ex, li, col);
      }
    }
    ConvertedInEncoding(s, k);
  }

  /** Further columns on the same line never give smaller positions. */
  lemma PositionMonotone(ex: Excerpt, li: nat, c1: nat, c2: nat)
    requires c1 <= c2
    ensures Position(ex, li, c1) <= Position(ex, li, c2)
  {
    if ValidExcerpt(ex) && ex.first <= li <= ex.last {
      CharToBytePosMonotone(FromLine(ex, li), c1, c2);
    }
  }

  /** The byte range of columns `c1..c2` of line `li` holds exactly the UTF-8
      encoding of those characters. */
  lemma RangeCoversColumns(ex: Excerpt, li: nat, c1: nat, c2: nat)
    requires ValidExcerpt(ex) && ex.first <= li <= ex.last
    requires c1 <= c2 <= |FromLine(ex, li)|
    ensures Position(ex, li, c1) <= Position(ex, li, c2) <= |Encode(Source(ex))|
    ensures Encode(Source(ex))[Position(ex, li, c1)..Position(ex, li, c2)] == Encode(FromLine(ex, li)[c1..c2])
  {
    var a := Concat(ex.file.lines[ex.first - 1..li - 1]);
    var b := FromLine(ex, li);
    var s := Source(ex);
    assert s == a + b by {
      SourceSplit(ex, li);
    }
    var p1, p2 := Position(ex, li, c1), Position(ex, li, c2);
    assert p1 == CharToBytePos(s, |a| + c1) by {
      PositionIsPrefix(ex, li, c1);
    }
    assert p2 == CharToBytePos(s, |a| + c2) by {
      PositionIsPrefix(ex, li, c2);
    }
    SliceRoundTripAfter(a, b, c1, c2);
    assert Encode(s)[p1..p2] == Encode(b[c1..c2]);
  }

  /** `SliceRoundTrip` for columns counted after a prefix `a`. */
  lemma SliceRoundTripAfter(a: seq<char>, b: seq<char>, c1: nat, c2: nat)
    requires c1 <= c2 <= |b|
    ensures CharToBytePos(a + b, |a| + c1) <= CharToBytePos(a + b, |a| + c2) <= |Encode(a + b)|
    ensures Encode(a + b)[CharToBytePos(a + b, |a| + c1)..CharToBytePos(a + b, |a| + c2)] == Encode(b[c1..c2])
  {
    var s := a + b;
    assert s[|a| + c1..|a| + c2] == b[c1..c2];
    SliceRoundTrip(s, |a| + c1, |a| + c2);
  }
}
