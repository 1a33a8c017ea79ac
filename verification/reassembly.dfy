/** `file_to_snippet`: turns one file's sorted annotated lines into an owned snippet,
    merging each multi-line start/end pair back into a single annotation and turning
    character columns into byte offsets relative to the excerpt. */
module Reassembly {
  import opened Wrappers
  import opened Utf8
  import opened Levels
  import opened Model

  /** An open multi-line annotation: the start fragment's label and byte position. */
  datatype Pending = Pending(text: Option<string>, start: nat)

  /** The state carried across fragments: the open multi-line start, if any, and the
      annotations emitted so far. */
  datatype State = State(pending: Option<Pending>, out: seq<OwnedAnnotation>)

  /** Adjacent lines are in non-decreasing line order. */
  predicate LinesSorted(lines: seq<Line>) {
    forall i :: 0 < i < |lines| ==> lines[i - 1].lineIndex <= lines[i].lineIndex
  }

  /** The `rel_pos` closure: the byte offset, within the excerpt `source`, of
      character column `col` of the line starting `lineRel` bytes into the excerpt.
      The columns are counted on the excerpt from that line onwards. */
  function RelPos(source: seq<char>, lineRel: nat, lineIndex: nat, col: nat): (r: Result<nat, Defect>)
    ensures r.Err? <==> SliceFrom(source, lineRel).None?
    ensures r.Ok? ==> lineRel <= r.value <= ByteLen(source)
  {
    match SliceFrom(source, lineRel)
    case None => Err(NotCharBoundary(lineIndex))
    case Some(rest) =>
      CharToBytePosIsPrefixLength(rest, col);
      Ok(lineRel + CharToBytePos(rest, col))
  }

  /** The label of a merged multi-line annotation: the start's label, else the end's,
      else empty. */
  function MergedLabel(startText: Option<string>, endText: Option<string>): (r: string)
    ensures startText.Some? ==> r == startText.value
    ensures startText.None? && endText.Some? ==> r == endText.value
    ensures startText.None? && endText.None? ==> r == ""
  {
    startText.Or(endText).UnwrapOr("")
  }

  /** One fragment of the match in the loop body. */
  function Step(source: seq<char>, lineRel: nat, lineIndex: nat, defaultLevel: Level, st: State, ann: LineAnnotation)
    : (r: Result<State, Defect>)
    ensures ann.kind.MultilineStart? && st.pending.Some? ==> r == Err(NestedMultilineStart(lineIndex))
    ensures ann.kind.MultilineEnd? && st.pending.None? ==> r == Err(UnmatchedMultilineEnd(lineIndex))
    ensures ann.kind.MultilineLine? ==> r == Ok(st)
    ensures r.Ok? ==> |r.value.out| == |st.out| + (if ann.kind.Singleline? || ann.kind.MultilineEnd? then 1 else 0)
    ensures r.Ok? ==> r.value.out[..|st.out|] == st.out
    ensures r.Ok? ==> (r.value.pending.Some? <==> ann.kind.MultilineStart? || (!ann.kind.MultilineEnd? && st.pending.Some?))
  {
    var level := ToRenderLevel(ann.level.UnwrapOr(defaultLevel));
    match ann.kind
    case Singleline =>
      var start :- RelPos(source, lineRel, lineIndex, ann.startCol);
      // The second `rel_pos` slices at the same offset, so it cannot panic.
      var end := RelPos(source, lineRel, lineIndex, ann.endCol).value;
      Ok(st.(out := st.out + [OwnedAnnotation(start, end, ann.text.UnwrapOr(""), level)]))
    case MultilineStart =>
      if st.pending.Some? then
        Err(NestedMultilineStart(lineIndex))
      else
        var start :- RelPos(source, lineRel, lineIndex, ann.startCol);
        Ok(st.(pending := Some(Pending(ann.text, start))))
    case MultilineLine =>
      Ok(st)
    case MultilineEnd =>
      match st.pending
      case None => Err(UnmatchedMultilineEnd(lineIndex))
      case Some(p) =>
        var end :- RelPos(source, lineRel, lineIndex, ann.endCol);
        if end < p.start then
          Err(InvertedMultiline(lineIndex))
        else
          Ok(State(None, st.out + [OwnedAnnotation(p.start, end, MergedLabel(p.text, ann.text), level)]))
  }

  /** The inner loop over one line's fragments. */
  function StepAll(source: seq<char>, lineRel: nat, lineIndex: nat, defaultLevel: Level, st: State, anns: seq<LineAnnotation>)
    : (r: Result<State, Defect>)
    ensures r.Ok? ==> |st.out| <= |r.value.out| <= |st.out| + |anns|
    ensures r.Ok? ==> r.value.out[..|st.out|] == st.out
    decreases |anns|
  {
    if |anns| == 0 then
      Ok(st)
    else
      var st' :- Step(source, lineRel, lineIndex, defaultLevel, st, anns[0]);
      StepAll(source, lineRel, lineIndex, defaultLevel, st', anns[1..])
  }

  /** The outer loop over the lines: look the line up in the file (a panic past the
      end, and an underflow for line 0 or for a line before the excerpt's first),
      then run the inner loop on its fragments. */
  function StepLines(f: SourceFile, base: nat, source: seq<char>, defaultLevel: Level, st: State, lines: seq<Line>)
    : (r: Result<State, Defect>)
    ensures |lines| > 0 && lines[0].lineIndex == 0 ==> r == Err(LineIndexZero)
    ensures r.Ok? ==> |st.out| <= |r.value.out|
    ensures r.Ok? ==> r.value.out[..|st.out|] == st.out
    decreases |lines|
  {
    if |lines| == 0 then
      Ok(st)
    else
      var line := lines[0];
      if line.lineIndex == 0 then
        Err(LineIndexZero)
      else
        match LinePosition(f, line.lineIndex - 1)
        case None => Err(LineOutOfRange(line.lineIndex))
        case Some(abs) =>
          if abs < base then
            Err(UnsortedLines)
          else
            var st' :- StepAll(source, abs - base, line.lineIndex, defaultLevel, st, line.annotations);
            StepLines(f, base, source, defaultLevel, st', lines[1..])
  }

  /** `file_to_snippet`: the snippet for `lines` of file `f`, or the defect on which
      the Rust code panics. An open multi-line start left at the end is dropped. */
  function FileToSnippet(sm: SourceMap, f: SourceFile, lines: seq<Line>, defaultLevel: Level)
    : (r: Result<OwnedSnippet, Defect>)
    ensures r.Ok? ==> |lines| > 0 && 0 < lines[0].lineIndex <= lines[|lines| - 1].lineIndex && LinesSorted(lines)
    ensures r.Ok? ==> r.value.lineStart == lines[0].lineIndex && r.value.fold
    ensures r.Ok? ==> r.value.origin == sm.filenameForDiagnostics(f.name)
    ensures r.Ok? ==> r.value.source == GetLines(f, lines[0].lineIndex - 1, lines[|lines| - 1].lineIndex - 1)
  {
    if |lines| == 0 then
      Err(NoLines)
    else
      var first := lines[0].lineIndex;
      var last := lines[|lines| - 1].lineIndex;
      if first == 0 then
        Err(LineIndexZero)
      else if last < first then
        Err(UnsortedLines)
      else if !LinesSorted(lines) then
        Err(UnsortedLines)
      else
        match LinePosition(f, first - 1)
        case None => Err(LineOutOfRange(first))
        case Some(base) =>
          var source := GetLines(f, first - 1, last - 1);
          var st :- StepLines(f, base, source, defaultLevel, State(None, []), lines);
          Ok(OwnedSnippet(sm.filenameForDiagnostics(f.name), source, first, true, st.out))
  }
}
