/** `HumanEmitter::snippet` up to the renderer: the title, the snippets and the
    footers of one diagnostic, as owned data. */
module Emitter {
  import opened Wrappers
  import opened Levels
  import opened Model
  import opened Reassembly
  import opened ReassemblySpec
  import opened ReassemblyProof
  import opened PrimaryFile
  import opened Collation

  /** `OwnedMessage::from_diagnostic`: the title line, at the renderer level of the
      diagnostic's severity class. */
  function FromDiagnostic(diag: Diagnostic): (r: OwnedMessage)
    ensures r.id == diag.id && r.text == diag.text
    ensures RenderRank(r.level) == SeverityRank(diag.level)
  {
    ToRenderLevelKeepsSeverity(diag.level, diag.level);
    OwnedMessage(diag.id, diag.text, ToRenderLevel(diag.level))
  }

  /** `OwnedMessage::from_subdiagnostic`: a footer line, which never has an id. */
  function FromSubdiagnostic(sub: SubDiagnostic): (r: OwnedMessage)
    ensures r.id.None? && r.text == sub.text
    ensures RenderRank(r.level) == SeverityRank(sub.level)
  {
    ToRenderLevelKeepsSeverity(sub.level, sub.level);
    OwnedMessage(None, sub.text, ToRenderLevel(sub.level))
  }

  // ---------------------------------------------------------------------------
  // Footers
  // ---------------------------------------------------------------------------

  /** The footers: the children with a dummy span, as messages. */
  function Footers(children: seq<SubDiagnostic>): (r: seq<OwnedMessage>)
    ensures |r| <= |children|
    ensures forall k :: 0 <= k < |r| ==> r[k].id.None?
    decreases |children|
  {
    if |children| == 0 then
      []
    else
      (if children[0].span.isDummy then [FromSubdiagnostic(children[0])] else []) + Footers(children[1..])
  }

  /** The footers of two runs of children are those of the first, then those of the
      second. */
  lemma {:induction false} FootersAppend(a: seq<SubDiagnostic>, b: seq<SubDiagnostic>)
    ensures Footers(a + b) == Footers(a) + Footers(b)
    decreases |a|
  {
    if |a| == 0 {
      assert a + b == b;
    } else {
      assert (a + b)[1..] == a[1..] + b;
      FootersAppend(a[1..], b);
    }
  }

  /** The indices from `i` on of the children with a dummy span, in order. */
  function DummyIndices(children: seq<SubDiagnostic>, i: nat): (r: seq<nat>)
    requires i <= |children|
    decreases |children| - i
  {
    if i == |children| then
      []
    else
      (if children[i].span.isDummy then [i] else []) + DummyIndices(children, i + 1)
  }

  /** `idx` lists, in increasing order, exactly the indices from `i` on of the children
      with a dummy span. */
  predicate SelectsDummies(children: seq<SubDiagnostic>, i: nat, idx: seq<nat>) {
    && (forall k :: 0 <= k < |idx| ==> i <= idx[k] < |children| && children[idx[k]].span.isDummy)
    && (forall k, l :: 0 <= k < l < |idx| ==> idx[k] < idx[l])
    && (forall j :: i <= j < |children| && children[j].span.isDummy ==> j in idx)
  }

  lemma {:induction false} DummyIndicesSelect(children: seq<SubDiagnostic>, i: nat)
    requires i <= |children|
    ensures SelectsDummies(children, i, DummyIndices(children, i))
    decreases |children| - i
  {
    if i < |children| {
      DummyIndicesSelect(children, i + 1);
      var rest := DummyIndices(children, i + 1);
      if children[i].span.isDummy {
        assert DummyIndices(children, i) == [i] + rest;
        SelectsCons(children, i, rest);
      } else {
        assert DummyIndices(children, i) == rest;
        SelectsSkip(children, i, rest);
      }
    }
  }

  /** A dummy child at `i` followed by a selection from `i + 1` on is a selection
      from `i` on. */
  lemma SelectsCons(children: seq<SubDiagnostic>, i: nat, rest: seq<nat>)
    requires i < |children| && children[i].span.isDummy
    requires SelectsDummies(children, i + 1, rest)
    ensures SelectsDummies(children, i, [i] + rest)
  {
    var idx := [i] + rest;
    forall k, l | 0 <= k < l < |idx|
      ensures idx[k] < idx[l]
    {
      assert idx[l] == rest[l - 1];
      if k > 0 {
        assert idx[k] == rest[k - 1];
      }
    }
    forall j | i <= j < |children| && children[j].span.isDummy
      ensures j in idx
    {
      if j == i {
        assert idx[0] == j;
      } else {
        var k :| 0 <= k < |rest| && rest[k] == j;
        assert idx[k + 1] == j;
      }
    }
  }

  /** A child at `i` with a real span adds nothing to a selection from `i + 1` on. */
  lemma SelectsSkip(children: seq<SubDiagnostic>, i: nat, rest: seq<nat>)
    requires i < |children| && !children[i].span.isDummy
    requires SelectsDummies(children, i + 1, rest)
    ensures SelectsDummies(children, i, rest)
  {
  }

  /** The footers of the children from `i` on are the messages of the children that
      `DummyIndices` lists, in its order. */
  lemma {:induction false} FootersFrom(children: seq<SubDiagnostic>, i: nat)
    requires i <= |children|
    ensures var idx, r := DummyIndices(children, i), Footers(children[i..]);
            && |r| == |idx|
            && forall k :: 0 <= k < |idx| ==> idx[k] < |children| && r[k] == FromSubdiagnostic(children[idx[k]])
    decreases |children| - i
  {
    if i < |children| {
      assert children[i..][1..] == children[i + 1..];
      FootersFrom(children, i + 1);
    }
  }

  /** The footers are the messages of exactly the children with a dummy span, one
      each, in the children's order. */
  lemma FootersAreDummyChildren(children: seq<SubDiagnostic>)
    ensures var idx := DummyIndices(children, 0);
            && SelectsDummies(children, 0, idx)
            && |Footers(children)| == |idx|
            && forall k :: 0 <= k < |idx| ==> Footers(children)[k] == FromSubdiagnostic(children[idx[k]])
  {
    DummyIndicesSelect(children, 0);
    FootersFrom(children, 0);
    assert children[0..] == children;
  }

  // ---------------------------------------------------------------------------
  // The formatted diagnostic
  // ---------------------------------------------------------------------------

  /** What the renderer receives: a title, the snippets and the footers. */
  datatype Formatted = Formatted(title: OwnedMessage, snippets: seq<OwnedSnippet>, footers: seq<OwnedMessage>)

  /** `HumanEmitter::snippet`: without a source map there are no snippets. */
  function Format(sm: Option<SourceMap>, ops: LineOps, diag: Diagnostic): (r: Result<Formatted, Defect>)
    ensures sm.None? ==> r.Ok? && r.value.snippets == []
    ensures r.Ok? ==> r.value.title == FromDiagnostic(diag) && r.value.footers == Footers(diag.children)
    ensures r.Ok? ==> r.value.title.id == diag.id && r.value.title.text == diag.text
    ensures r.Ok? ==> |r.value.footers| <= |diag.children|
  {
    var snippets :- match sm
      case None => Ok([])
      case Some(m) => Collect(m, ops, diag);
    Ok(Formatted(FromDiagnostic(diag), snippets, Footers(diag.children)))
  }

  /** With a source map, formatting succeeds exactly when every collated file's lines
      are well placed and its multi-line fragments well paired; then there is one
      snippet per collated file, holding that file's excerpt and the annotations the
      fragments specify. */
  lemma FormatSnippets(m: SourceMap, ops: LineOps, diag: Diagnostic)
    ensures var r, files := Format(Some(m), ops, diag), Collate(ops, diag);
            && (r.Ok? <==> forall k :: 0 <= k < |files| ==>
                  WellPlaced(files[k].file, files[k].lines) && WellPaired(ExcerptOf(files[k].file, files[k].lines), Flatten(files[k].lines)))
            && (r.Ok? ==> |r.value.snippets| == |files| && forall k :: 0 <= k < |files| ==>
                  var f, ls := files[k].file, files[k].lines;
                  && r.value.snippets[k].source == Source(ExcerptOf(f, ls))
                  && r.value.snippets[k].annotations == ExpectedAnnotations(ExcerptOf(f, ls), Flatten(ls), |Flatten(ls)|, diag.level))
  {
    SnippetsCorrect(m, Collate(ops, diag), diag.level);
  }

  /** The snippets of any list of files: all succeed exactly when every file is well
      placed and well paired, and then each holds its file's excerpt and annotations. */
  lemma SnippetsCorrect(m: SourceMap, files: seq<AnnotatedFile>, d: Level)
    ensures var r := Snippets(m, files, d);
            && (r.Ok? <==> forall k :: 0 <= k < |files| ==>
                  WellPlaced(files[k].file, files[k].lines) && WellPaired(ExcerptOf(files[k].file, files[k].lines), Flatten(files[k].lines)))
            && (r.Ok? ==> |r.value| == |files| && forall k :: 0 <= k < |files| ==>
                  var f, ls := files[k].file, files[k].lines;
                  && r.value[k].source == Source(ExcerptOf(f, ls))
                  && r.value[k].annotations == ExpectedAnnotations(ExcerptOf(f, ls), Flatten(ls), |Flatten(ls)|, d))
  {
    forall k | 0 <= k < |files| {
      FileToSnippetCorrect(m, files[k].file, files[k].lines, d);
    }
  }

  /** The fragments of re-levelled lines all carry the level. */
  lemma {:induction false} FlattenAtLevel(level: Level, lines: seq<Line>)
    requires Relevelled(level, lines)
    ensures forall k :: 0 <= k < |Flatten(lines)| ==> Flatten(lines)[k].ann.level == Some(level)
  {
    if |lines| > 0 {
      var rest := lines[1..];
      assert Relevelled(level, rest) by {
        forall i, j | 0 <= i < |rest| && 0 <= j < |rest[i].annotations|
          ensures rest[i].annotations[j].level == Some(level) && (rest[i].annotations[j].isPrimary ==> rest[i].annotations[j].text.Some?)
        {
          assert rest[i] == lines[i + 1];
        }
      }
      FlattenAtLevel(level, rest);
      var head := FragsOf(lines[0]);
      forall k | 0 <= k < |Flatten(lines)|
        ensures Flatten(lines)[k].ann.level == Some(level)
      {
        if k < |head| {
          assert Flatten(lines)[k] == head[k];
        } else {
          assert Flatten(lines)[k] == Flatten(rest)[k - |head|];
        }
      }
    }
  }

  /** With a source map, a file that only sub-diagnostic `c` annotates, once, gets a
      snippet of its own display name whose annotations all render at the sub's
      level, not the main diagnostic's. */
  lemma FormatSubOnly(m: SourceMap, ops: LineOps, diag: Diagnostic, c: nat, j: nat)
    requires c < |diag.children| && j < |diag.children[c].span.annotated|
    requires DistinctIds(diag.children[c].span.annotated)
    requires CollectFiles(diag.children[c].span)[j].file.id !in Ids(diag.span.annotated)
    requires forall i :: 0 <= i < |diag.children| && i != c ==>
               CollectFiles(diag.children[c].span)[j].file.id !in Ids(diag.children[i].span.annotated)
    ensures var r, f := Format(Some(m), ops, diag), CollectFiles(diag.children[c].span)[j];
            r.Ok? ==> exists k ::
                        && 0 <= k < |r.value.snippets|
                        && r.value.snippets[k].origin == m.filenameForDiagnostics(f.file.name)
                        && forall a :: a in r.value.snippets[k].annotations ==> a.level == ToRenderLevel(diag.children[c].level)
  {
    var sub := diag.children[c];
    var f := CollectFiles(sub.span)[j];
    var entry := AnnotatedFile(f.file, RelevelLines(sub.level, sub.text, f.lines));
    CollateSubOnly(ops, diag, c, j);
    var files := Collate(ops, diag);
    var k :| 0 <= k < |files| && files[k] == entry;
    var r := Format(Some(m), ops, diag);
    if r.Ok? {
      FormatSnippets(m, ops, diag);
      RelevelLinesSpec(sub.level, sub.text, f.lines);
      var ls := entry.lines;
      FlattenAtLevel(sub.level, ls);
      ExpectedAtLevel(ExcerptOf(f.file, ls), Flatten(ls), |Flatten(ls)|, diag.level, sub.level);
      assert r.value.snippets[k].origin == m.filenameForDiagnostics(f.file.name);
    }
  }

  /** With a source map, a real primary span and several files sorted by name, the
      first snippet is that of the primary span's file whenever some file has its
      name. */
  lemma FormatPrimaryFirst(m: SourceMap, ops: LineOps, diag: Diagnostic)
    requires diag.span.primarySpan.Some? && !diag.span.primarySpan.value.isDummy
    requires |diag.span.annotated| > 1 && SortedByName(diag.span.annotated)
    requires NamedIn(diag.span.annotated, diag.span.primarySpan.value.fileName, 0, |diag.span.annotated|)
    requires Format(Some(m), ops, diag).Ok?
    ensures Format(Some(m), ops, diag).value.snippets[0].origin == m.filenameForDiagnostics(diag.span.primarySpan.value.fileName)
  {
    CollectFilesBringsPrimary(diag.span);
    var files := Collate(ops, diag);
    assert files[0].file == CollectFiles(diag.span)[0].file;
  }
}
