/** `OwnedSnippet::collect`: the main diagnostic's files at its level, then each
    sub-diagnostic's files relabelled at the sub's level and merged in by file
    identity, and one snippet per collated file. */
module Collation {
  import opened Wrappers
  import opened Levels
  import opened Model
  import opened Reassembly
  import opened PrimaryFile

  // ---------------------------------------------------------------------------
  // Re-levelling a sub-diagnostic's fragments
  // ---------------------------------------------------------------------------

  /** One fragment of a sub-diagnostic: forced to the sub's level, and given the sub's
      message if it is primary and has none. */
  function RelevelAnnotation(level: Level, msg: string, a: LineAnnotation): (r: LineAnnotation)
    ensures r.level == Some(level)
    ensures r.startCol == a.startCol && r.endCol == a.endCol && r.isPrimary == a.isPrimary && r.kind == a.kind
    ensures a.text.Some? ==> r.text == a.text
    ensures a.text.None? ==> (r.text.Some? <==> a.isPrimary) && (r.text.Some? ==> r.text.value == msg)
  {
    a.(level := Some(level), text := if a.isPrimary && a.text.None? then Some(msg) else a.text)
  }

  function RelevelLine(level: Level, msg: string, line: Line): (r: Line) {
    var anns := line.annotations;
    line.(annotations := seq(|anns|, i requires 0 <= i < |anns| => RelevelAnnotation(level, msg, anns[i])))
  }

  function RelevelLines(level: Level, msg: string, lines: seq<Line>): (r: seq<Line>)
    ensures |r| == |lines| && Relevelled(level, r)
    ensures forall i :: 0 <= i < |lines| ==> SameShape(lines[i], r[i])
  {
    seq(|lines|, i requires 0 <= i < |lines| => RelevelLine(level, msg, lines[i]))
  }

  /** The loops over `sub_file.lines` for the sub-diagnostic `sub`. */
  function RelevelFile(sub: SubDiagnostic, f: AnnotatedFile): (r: AnnotatedFile)
    ensures r.file == f.file && |r.lines| == |f.lines| && Relevelled(sub.level, r.lines)
  {
    f.(lines := RelevelLines(sub.level, sub.text, f.lines))
  }

  /** Every fragment carries `level`, and no primary fragment is unlabelled. */
  predicate Relevelled(level: Level, lines: seq<Line>) {
    forall i, j :: 0 <= i < |lines| && 0 <= j < |lines[i].annotations| ==>
      var a := lines[i].annotations[j];
      a.level == Some(level) && (a.isPrimary ==> a.text.Some?)
  }

  /** The two lines are the same but for the levels and labels of their fragments. */
  predicate SameShape(a: Line, b: Line) {
    && a.lineIndex == b.lineIndex
    && |a.annotations| == |b.annotations|
    && forall j :: 0 <= j < |a.annotations| ==>
         var x, y := a.annotations[j], b.annotations[j];
         x.startCol == y.startCol && x.endCol == y.endCol && x.isPrimary == y.isPrimary && x.kind == y.kind
  }

  /** Re-levelling keeps every line's index and every fragment's columns, primacy and
      kind; it sets every level, keeps every label there was, and labels exactly the
      unlabelled primary fragments with the sub's message. */
  lemma RelevelLinesSpec(level: Level, msg: string, lines: seq<Line>)
    ensures var r := RelevelLines(level, msg, lines);
            && |r| == |lines|
            && (forall i :: 0 <= i < |lines| ==> SameShape(lines[i], r[i]))
            && Relevelled(level, r)
            && (forall i, j :: 0 <= i < |lines| && 0 <= j < |lines[i].annotations| ==>
                  var a, b := lines[i].annotations[j], r[i].annotations[j];
                  && (a.text.Some? ==> b.text == a.text)
                  && (a.text.None? ==> (b.text.Some? <==> a.isPrimary))
                  && (b.text.Some? && a.text.None? ==> b.text.value == msg))
  {
  }

  /** Re-levelling leaves lines that already carry the level and labels unchanged, so
      re-levelling twice is re-levelling once. */
  lemma {:induction false} RelevelFixpoint(level: Level, msg: string, lines: seq<Line>)
    requires Relevelled(level, lines)
    ensures RelevelLines(level, msg, lines) == lines
  {
    var r := RelevelLines(level, msg, lines);
    forall i | 0 <= i < |lines|
      ensures r[i] == lines[i]
    {
      var anns := lines[i].annotations;
      forall j | 0 <= j < |anns|
        ensures r[i].annotations[j] == anns[j]
      {
        assert anns[j].level == Some(level);
      }
      assert r[i].annotations == anns;
    }
  }

  lemma RelevelIdempotent(level: Level, msg: string, other: string, lines: seq<Line>)
    ensures RelevelLines(level, other, RelevelLines(level, msg, lines)) == RelevelLines(level, msg, lines)
  {
    RelevelLinesSpec(level, msg, lines);
    RelevelFixpoint(level, other, RelevelLines(level, msg, lines));
  }

  // ---------------------------------------------------------------------------
  // Merging by file identity
  // ---------------------------------------------------------------------------

  /** The identities of the files. */
  function Ids(files: seq<AnnotatedFile>): (r: set<nat>) {
    set k | 0 <= k < |files| :: files[k].file.id
  }

  /** No file appears twice. */
  predicate DistinctIds(files: seq<AnnotatedFile>) {
    forall i, j :: 0 <= i < j < |files| ==> files[i].file.id != files[j].file.id
  }

  /** `iter_mut().find(|f| Arc::ptr_eq(&f.file, &sub_file.file))`: the first entry
      holding the file with identity `id`. */
  function FindById(files: seq<AnnotatedFile>, id: nat): (r: Option<nat>)
    ensures r.Some? ==> r.value < |files| && files[r.value].file.id == id
    ensures r.Some? ==> forall k :: 0 <= k < r.value ==> files[k].file.id != id
    ensures r.None? <==> id !in Ids(files)
  {
    if |files| == 0 then
      None
    else if files[0].file.id == id then
      Some(0)
    else
      match FindById(files[1..], id)
      case None =>
        assert Ids(files) == {files[0].file.id} + Ids(files[1..]) by {
          IdsCons(files);
        }
        None
      case Some(k) => Some(k + 1)
  }

  lemma IdsCons(files: seq<AnnotatedFile>)
    requires |files| > 0
    ensures Ids(files) == {files[0].file.id} + Ids(files[1..])
  {
    forall x | x in Ids(files)
      ensures x in {files[0].file.id} + Ids(files[1..])
    {
      var k :| 0 <= k < |files| && files[k].file.id == x;
      if k > 0 {
        assert files[1..][k - 1] == files[k];
      }
    }
  }

  /** One sub file merged in: its lines go to the entry for the same file, if there
      is one, and the file is appended otherwise. */
  function MergeFile(ops: LineOps, files: seq<AnnotatedFile>, sub: AnnotatedFile): (r: seq<AnnotatedFile>)
    ensures Ids(r) == Ids(files) + {sub.file.id}
    ensures |r| == |files| + (if sub.file.id in Ids(files) then 0 else 1)
    ensures forall k :: 0 <= k < |files| ==> r[k].file == files[k].file
    ensures forall k :: 0 <= k < |files| && files[k].file.id != sub.file.id ==> r[k] == files[k]
    ensures sub.file.id !in Ids(files) ==> r[|files|] == sub
  {
    match FindById(files, sub.file.id)
    case Some(i) =>
      var r := files[i := AnnotatedFile(files[i].file, ops.addLines(files[i].lines, sub.lines))];
      assert Ids(r) == Ids(files) by {
        IdsSameFiles(files, r);
      }
      r
    case None =>
      var r := files + [sub];
      assert Ids(r) == Ids(files) + {sub.file.id} by {
        IdsSnoc(files, sub);
      }
      r
  }

  /** The entry for the sub file's identity, if there was one, is the first such
      entry with `add_lines` applied to it; every other entry is kept. */
  lemma MergeFileLines(ops: LineOps, files: seq<AnnotatedFile>, sub: AnnotatedFile, i: nat)
    requires i < |files| && files[i].file.id == sub.file.id
    requires forall k :: 0 <= k < i ==> files[k].file.id != sub.file.id
    ensures MergeFile(ops, files, sub)[i].lines == ops.addLines(files[i].lines, sub.lines)
  {
  }

  lemma IdsSameFiles(a: seq<AnnotatedFile>, b: seq<AnnotatedFile>)
    requires |a| == |b| && forall k :: 0 <= k < |a| ==> a[k].file == b[k].file
    ensures Ids(a) == Ids(b)
  {
    forall x | x in Ids(a) ensures x in Ids(b) {
      var k :| 0 <= k < |a| && a[k].file.id == x;
      assert b[k].file.id == x;
    }
    forall x | x in Ids(b) ensures x in Ids(a) {
      var k :| 0 <= k < |b| && b[k].file.id == x;
      assert a[k].file.id == x;
    }
  }

  lemma IdsSnoc(files: seq<AnnotatedFile>, f: AnnotatedFile)
    ensures Ids(files + [f]) == Ids(files) + {f.file.id}
  {
    var r := files + [f];
    forall x | x in Ids(r) ensures x in Ids(files) + {f.file.id} {
      var k :| 0 <= k < |r| && r[k].file.id == x;
      if k < |files| {
        assert files[k].file.id == x;
      }
    }
    forall x | x in Ids(files) ensures x in Ids(r) {
      var k :| 0 <= k < |files| && files[k].file.id == x;
      assert r[k].file.id == x;
    }
    assert r[|files|].file.id == f.file.id;
  }

  /** Merging never makes a file appear twice. */
  lemma MergeFileDistinct(ops: LineOps, files: seq<AnnotatedFile>, sub: AnnotatedFile)
    requires DistinctIds(files)
    ensures DistinctIds(MergeFile(ops, files, sub))
  {
    var r := MergeFile(ops, files, sub);
    if sub.file.id !in Ids(files) {
      forall k | 0 <= k < |files|
        ensures r[k].file.id != sub.file.id
      {
        assert files[k].file.id in Ids(files);
      }
    }
  }

  /** The sub files merged in one after another. */
  function MergeFiles(ops: LineOps, files: seq<AnnotatedFile>, subs: seq<AnnotatedFile>): (r: seq<AnnotatedFile>)
    ensures Ids(r) == Ids(files) + Ids(subs)
    ensures |files| <= |r| && forall k :: 0 <= k < |files| ==> r[k].file == files[k].file
    decreases |subs|
  {
    if |subs| == 0 then
      files
    else
      IdsCons(subs);
      MergeFiles(ops, MergeFile(ops, files, subs[0]), subs[1..])
  }

  lemma {:induction false} MergeFilesDistinct(ops: LineOps, files: seq<AnnotatedFile>, subs: seq<AnnotatedFile>)
    requires DistinctIds(files)
    ensures DistinctIds(MergeFiles(ops, files, subs))
    decreases |subs|
  {
    if |subs| > 0 {
      MergeFileDistinct(ops, files, subs[0]);
      MergeFilesDistinct(ops, MergeFile(ops, files, subs[0]), subs[1..]);
    }
  }

  /** A sub-diagnostic's files, as `collect_files` finds them, re-levelled: each
      is the same file with the same lines and fragments, but every fragment at the
      sub's level and every unlabelled primary fragment labelled with its message. */
  function SubFiles(sub: SubDiagnostic): (r: seq<AnnotatedFile>)
    ensures |r| == |sub.span.annotated|
    ensures var fs := CollectFiles(sub.span);
            forall k :: 0 <= k < |r| ==>
              && r[k].file == fs[k].file
              && |r[k].lines| == |fs[k].lines|
              && Relevelled(sub.level, r[k].lines)
              && (forall i :: 0 <= i < |fs[k].lines| ==> SameShape(fs[k].lines[i], r[k].lines[i]))
    ensures var fs := CollectFiles(sub.span);
            forall k, i, j :: 0 <= k < |r| && 0 <= i < |fs[k].lines| && 0 <= j < |fs[k].lines[i].annotations| ==>
              var a, b := fs[k].lines[i].annotations[j], r[k].lines[i].annotations[j];
              && (a.text.Some? ==> b.text == a.text)
              && (a.text.None? ==> (b.text.Some? <==> a.isPrimary) && (b.text.Some? ==> b.text.value == sub.text))
  {
    var fs := CollectFiles(sub.span);
    seq(|fs|, k requires 0 <= k < |fs| => RelevelFile(sub, fs[k]))
  }

  /** The loop over the sub-diagnostics. */
  function MergeChildren(ops: LineOps, files: seq<AnnotatedFile>, children: seq<SubDiagnostic>): (r: seq<AnnotatedFile>)
    ensures |files| <= |r| && forall k :: 0 <= k < |files| ==> r[k].file == files[k].file
    decreases |children|
  {
    if |children| == 0 then
      files
    else
      MergeChildren(ops, MergeFiles(ops, files, SubFiles(children[0])), children[1..])
  }

  /** The identities of the files a list of sub-diagnostics annotates. */
  function ChildIds(children: seq<SubDiagnostic>): (r: set<nat>)
    decreases |children|
  {
    if |children| == 0 then {} else Ids(children[0].span.annotated) + ChildIds(children[1..])
  }

  /** `collect_files` keeps the set of files. */
  lemma CollectFilesIds(msp: MultiSpan)
    ensures Ids(CollectFiles(msp)) == Ids(msp.annotated)
  {
    var fs := CollectFiles(msp);
    forall x | x in Ids(fs) ensures x in Ids(msp.annotated) {
      var k :| 0 <= k < |fs| && fs[k].file.id == x;
      assert fs[k] in multiset(msp.annotated);
      var j :| 0 <= j < |msp.annotated| && msp.annotated[j] == fs[k];
    }
    forall x | x in Ids(msp.annotated) ensures x in Ids(fs) {
      var k :| 0 <= k < |msp.annotated| && msp.annotated[k].file.id == x;
      assert msp.annotated[k] in multiset(fs);
      var j :| 0 <= j < |fs| && fs[j] == msp.annotated[k];
    }
  }

  /** `collect_files` never makes a file appear twice. */
  lemma CollectFilesDistinct(msp: MultiSpan)
    requires DistinctIds(msp.annotated)
    ensures DistinctIds(CollectFiles(msp))
  {
    var fs := CollectFiles(msp);
    forall i, j | 0 <= i < j < |fs|
      ensures fs[i].file.id != fs[j].file.id
    {
      PermutationDistinct(msp.annotated, fs, i, j);
    }
  }

  /** A re-levelled sub file is still the same file. */
  lemma SubFilesIds(sub: SubDiagnostic)
    ensures Ids(SubFiles(sub)) == Ids(sub.span.annotated)
  {
    IdsSameFiles(CollectFiles(sub.span), SubFiles(sub));
    CollectFilesIds(sub.span);
  }

  /** Merging the children adds exactly the files they annotate, and never makes a
      file appear twice. */
  lemma {:induction false} MergeChildrenSpec(ops: LineOps, files: seq<AnnotatedFile>, children: seq<SubDiagnostic>)
    ensures Ids(MergeChildren(ops, files, children)) == Ids(files) + ChildIds(children)
    ensures DistinctIds(files) ==> DistinctIds(MergeChildren(ops, files, children))
    decreases |children|
  {
    if |children| > 0 {
      var next := MergeFiles(ops, files, SubFiles(children[0]));
      SubFilesIds(children[0]);
      if DistinctIds(files) {
        MergeFilesDistinct(ops, files, SubFiles(children[0]));
      }
      MergeChildrenSpec(ops, next, children[1..]);
    }
  }

  /** An entry whose file no sub file shares keeps its place and its lines. */
  lemma {:induction false} MergeFilesKeeps(ops: LineOps, files: seq<AnnotatedFile>, subs: seq<AnnotatedFile>, k: nat)
    requires k < |files| && files[k].file.id !in Ids(subs)
    ensures MergeFiles(ops, files, subs)[k] == files[k]
    decreases |subs|
  {
    if |subs| > 0 {
      IdsCons(subs);
      var next := MergeFile(ops, files, subs[0]);
      MergeFilesKeeps(ops, next, subs[1..], k);
    }
  }

  /** A sub file whose identity neither the entries so far nor any other sub file
      holds ends up in the list unchanged. */
  lemma {:induction false} MergeFilesPushes(ops: LineOps, files: seq<AnnotatedFile>, subs: seq<AnnotatedFile>, j: nat)
    requires j < |subs| && subs[j].file.id !in Ids(files)
    requires forall i :: 0 <= i < |subs| && i != j ==> subs[i].file.id != subs[j].file.id
    ensures subs[j] in MergeFiles(ops, files, subs)
    decreases |subs|
  {
    if j == 0 {
      MergeFilesPushesFirst(ops, files, subs);
    } else {
      assert subs[1..][j - 1] == subs[j];
      MergeFilesPushes(ops, MergeFile(ops, files, subs[0]), subs[1..], j - 1);
    }
  }

  lemma MergeFilesPushesFirst(ops: LineOps, files: seq<AnnotatedFile>, subs: seq<AnnotatedFile>)
    requires |subs| > 0 && subs[0].file.id !in Ids(files)
    requires forall i :: 0 < i < |subs| ==> subs[i].file.id != subs[0].file.id
    ensures subs[0] in MergeFiles(ops, files, subs)
  {
    var next := MergeFile(ops, files, subs[0]);
    var rest := subs[1..];
    assert subs[0].file.id !in Ids(rest) by {
      forall x | x in Ids(rest) ensures x != subs[0].file.id {
        var i :| 0 <= i < |rest| && rest[i].file.id == x;
        assert rest[i] == subs[i + 1];
      }
    }
    MergeFilesKeeps(ops, next, rest, |files|);
  }

  /** An entry whose file no child annotates keeps its place and its lines. */
  lemma {:induction false} MergeChildrenKeeps(ops: LineOps, files: seq<AnnotatedFile>, children: seq<SubDiagnostic>, k: nat)
    requires k < |files|
    requires forall i :: 0 <= i < |children| ==> files[k].file.id !in Ids(children[i].span.annotated)
    ensures MergeChildren(ops, files, children)[k] == files[k]
    decreases |children|
  {
    if |children| > 0 {
      SubFilesIds(children[0]);
      MergeFilesKeeps(ops, files, SubFiles(children[0]), k);
      var next := MergeFiles(ops, files, SubFiles(children[0]));
      assert forall i :: 0 <= i < |children| - 1 ==> children[1..][i] == children[i + 1];
      MergeChildrenKeeps(ops, next, children[1..], k);
    }
  }

  /** A re-levelled sub-diagnostic never holds a file twice when its span does not. */
  lemma SubFilesDistinct(sub: SubDiagnostic)
    requires DistinctIds(sub.span.annotated)
    ensures DistinctIds(SubFiles(sub))
  {
    CollectFilesDistinct(sub.span);
  }

  /** A file that only child `c` annotates, once, enters the merged list as that
      child's re-levelled sub file `t`. */
  lemma {:induction false} MergeChildrenPushes(ops: LineOps, files: seq<AnnotatedFile>, children: seq<SubDiagnostic>, c: nat, j: nat, t: AnnotatedFile)
    requires c < |children| && j < |children[c].span.annotated| && DistinctIds(children[c].span.annotated)
    requires t == SubFiles(children[c])[j] && t.file.id !in Ids(files)
    requires forall i :: 0 <= i < |children| && i != c ==> t.file.id !in Ids(children[i].span.annotated)
    ensures t in MergeChildren(ops, files, children)
    decreases |children|
  {
    if c == 0 {
      MergeChildrenPushesFirst(ops, files, children, j, t);
    } else {
      PushesPassOn(ops, files, children, c, j, t);
      MergeChildrenPushes(ops, MergeFiles(ops, files, SubFiles(children[0])), children[1..], c - 1, j, t);
    }
  }

  /** Merging a first child other than `c` keeps `t`'s identity out of the list, and
      the remaining children meet the conditions of `MergeChildrenPushes`. */
  lemma PushesPassOn(ops: LineOps, files: seq<AnnotatedFile>, children: seq<SubDiagnostic>, c: nat, j: nat, t: AnnotatedFile)
    requires 0 < c < |children| && j < |children[c].span.annotated| && DistinctIds(children[c].span.annotated)
    requires t == SubFiles(children[c])[j] && t.file.id !in Ids(files)
    requires forall i :: 0 <= i < |children| && i != c ==> t.file.id !in Ids(children[i].span.annotated)
    ensures var next, tail := MergeFiles(ops, files, SubFiles(children[0])), children[1..];
            && t.file.id !in Ids(next)
            && c - 1 < |tail| && j < |tail[c - 1].span.annotated| && DistinctIds(tail[c - 1].span.annotated)
            && t == SubFiles(tail[c - 1])[j]
            && forall i :: 0 <= i < |tail| && i != c - 1 ==> t.file.id !in Ids(tail[i].span.annotated)
  {
    var tail := children[1..];
    assert tail[c - 1] == children[c];
    forall i | 0 <= i < |tail| && i != c - 1
      ensures t.file.id !in Ids(tail[i].span.annotated)
    {
      assert tail[i] == children[i + 1];
    }
    SubFilesIds(children[0]);
  }

  lemma MergeChildrenPushesFirst(ops: LineOps, files: seq<AnnotatedFile>, children: seq<SubDiagnostic>, j: nat, t: AnnotatedFile)
    requires |children| > 0 && j < |children[0].span.annotated| && DistinctIds(children[0].span.annotated)
    requires t == SubFiles(children[0])[j] && t.file.id !in Ids(files)
    requires forall i :: 0 < i < |children| ==> t.file.id !in Ids(children[i].span.annotated)
    ensures t in MergeChildren(ops, files, children)
  {
    var sf := SubFiles(children[0]);
    SubFilesDistinct(children[0]);
    assert forall i :: 0 <= i < |sf| && i != j ==> sf[i].file.id != sf[j].file.id;
    MergeFilesPushes(ops, files, sf, j);
    var next := MergeFiles(ops, files, sf);
    var k :| 0 <= k < |next| && next[k] == t;
    var tail := children[1..];
    forall i | 0 <= i < |tail|
      ensures next[k].file.id !in Ids(tail[i].span.annotated)
    {
      assert tail[i] == children[i + 1];
    }
    MergeChildrenKeeps(ops, next, tail, k);
  }

  /** When the sub file `subs[j]` is the only one with the identity of entry `k`, and
      no other entry has it, entry `k` ends up with the sub file's lines added. */
  lemma {:induction false} MergeFilesMerged(ops: LineOps, files: seq<AnnotatedFile>, subs: seq<AnnotatedFile>, j: nat, k: nat)
    requires DistinctIds(files) && k < |files| && j < |subs| && subs[j].file.id == files[k].file.id
    requires forall i :: 0 <= i < |subs| && i != j ==> subs[i].file.id != files[k].file.id
    ensures MergeFiles(ops, files, subs)[k].lines == ops.addLines(files[k].lines, subs[j].lines)
    decreases |subs|
  {
    var next := MergeFile(ops, files, subs[0]);
    MergeFileDistinct(ops, files, subs[0]);
    var rest := subs[1..];
    if j == 0 {
      MergeFileLines(ops, files, subs[0], k);
      forall i | 0 <= i < |rest| ensures rest[i].file.id != next[k].file.id {
        assert rest[i] == subs[i + 1];
      }
      assert files[k].file.id !in Ids(rest);
      MergeFilesKeeps(ops, next, rest, k);
    } else {
      forall i | 0 <= i < |rest| && i != j - 1 ensures rest[i].file.id != next[k].file.id {
        assert rest[i] == subs[i + 1];
      }
      assert rest[j - 1] == subs[j];
      MergeFilesMerged(ops, next, rest, j - 1, k);
    }
  }

  /** A main entry that only child `c` annotates, once, ends up with that child's
      re-levelled lines `t.lines` added. */
  lemma {:induction false} MergeChildrenMerged(ops: LineOps, files: seq<AnnotatedFile>, children: seq<SubDiagnostic>, c: nat, j: nat, k: nat, t: AnnotatedFile)
    requires DistinctIds(files) && k < |files|
    requires c < |children| && j < |children[c].span.annotated| && DistinctIds(children[c].span.annotated)
    requires t == SubFiles(children[c])[j] && t.file.id == files[k].file.id
    requires forall i :: 0 <= i < |children| && i != c ==> t.file.id !in Ids(children[i].span.annotated)
    ensures MergeChildren(ops, files, children)[k].lines == ops.addLines(files[k].lines, t.lines)
    decreases |children|
  {
    if c == 0 {
      MergeChildrenMergedFirst(ops, files, children, j, k, t);
    } else {
      var next := MergeFiles(ops, files, SubFiles(children[0]));
      MergedPassesOn(ops, files, children, c, j, k, t);
      MergeChildrenMerged(ops, next, children[1..], c - 1, j, k, t);
    }
  }

  /** Merging a first child that does not hold entry `k`'s file leaves the entry in
      place, and the remaining children meet the conditions of `MergeChildrenMerged`. */
  lemma MergedPassesOn(ops: LineOps, files: seq<AnnotatedFile>, children: seq<SubDiagnostic>, c: nat, j: nat, k: nat, t: AnnotatedFile)
    requires DistinctIds(files) && k < |files|
    requires 0 < c < |children| && j < |children[c].span.annotated| && DistinctIds(children[c].span.annotated)
    requires t == SubFiles(children[c])[j] && t.file.id == files[k].file.id
    requires forall i :: 0 <= i < |children| && i != c ==> t.file.id !in Ids(children[i].span.annotated)
    ensures var next, tail := MergeFiles(ops, files, SubFiles(children[0])), children[1..];
            && DistinctIds(next) && k < |next| && next[k] == files[k]
            && c - 1 < |tail| && j < |tail[c - 1].span.annotated| && DistinctIds(tail[c - 1].span.annotated)
            && t == SubFiles(tail[c - 1])[j]
            && forall i :: 0 <= i < |tail| && i != c - 1 ==> t.file.id !in Ids(tail[i].span.annotated)
  {
    var sf := SubFiles(children[0]);
    var tail := children[1..];
    assert files[k].file.id !in Ids(sf) by {
      SubFilesIds(children[0]);
    }
    MergeFilesKeeps(ops, files, sf, k);
    MergeFilesDistinct(ops, files, sf);
    assert tail[c - 1] == children[c];
    forall i | 0 <= i < |tail| && i != c - 1 ensures t.file.id !in Ids(tail[i].span.annotated) {
      assert tail[i] == children[i + 1];
    }
  }

  lemma MergeChildrenMergedFirst(ops: LineOps, files: seq<AnnotatedFile>, children: seq<SubDiagnostic>, j: nat, k: nat, t: AnnotatedFile)
    requires DistinctIds(files) && k < |files|
    requires |children| > 0 && j < |children[0].span.annotated| && DistinctIds(children[0].span.annotated)
    requires t == SubFiles(children[0])[j] && t.file.id == files[k].file.id
    requires forall i :: 0 < i < |children| ==> t.file.id !in Ids(children[i].span.annotated)
    ensures MergeChildren(ops, files, children)[k].lines == ops.addLines(files[k].lines, t.lines)
  {
    var sf := SubFiles(children[0]);
    var next := MergeFiles(ops, files, sf);
    var tail := children[1..];
    SubFilesDistinct(children[0]);
    forall i | 0 <= i < |sf| && i != j ensures sf[i].file.id != files[k].file.id {
      if i < j {
        assert sf[i].file.id != sf[j].file.id;
      } else {
        assert sf[j].file.id != sf[i].file.id;
      }
    }
    MergeFilesMerged(ops, files, sf, j, k);
    forall i | 0 <= i < |tail| ensures next[k].file.id !in Ids(tail[i].span.annotated) {
      assert tail[i] == children[i + 1];
    }
    MergeChildrenKeeps(ops, next, tail, k);
  }

  // ---------------------------------------------------------------------------
  // The whole collation
  // ---------------------------------------------------------------------------

  /** The main diagnostic's files, each set to the diagnostic's level. */
  function MainFiles(ops: LineOps, diag: Diagnostic): (r: seq<AnnotatedFile>)
    ensures |r| == |diag.span.annotated|
    ensures var fs := CollectFiles(diag.span);
            forall k :: 0 <= k < |r| ==> r[k].file == fs[k].file && r[k].lines == ops.setLevel(fs[k].lines, diag.level)
    ensures Ids(r) == Ids(diag.span.annotated)
    ensures DistinctIds(diag.span.annotated) ==> DistinctIds(r)
  {
    var fs := CollectFiles(diag.span);
    var r := seq(|fs|, k requires 0 <= k < |fs| => fs[k].(lines := ops.setLevel(fs[k].lines, diag.level)));
    IdsSameFiles(fs, r);
    CollectFilesIds(diag.span);
    SameFilesDistinct(fs, r);
    if DistinctIds(diag.span.annotated) then CollectFilesDistinct(diag.span); r else r
  }

  /** Lists holding the same files in the same places are distinct together. */
  lemma SameFilesDistinct(a: seq<AnnotatedFile>, b: seq<AnnotatedFile>)
    requires |a| == |b| && forall k :: 0 <= k < |a| ==> a[k].file == b[k].file
    ensures DistinctIds(a) ==> DistinctIds(b)
  {
  }

  /** The files `collect` turns into snippets, in order. */
  function Collate(ops: LineOps, diag: Diagnostic): (r: seq<AnnotatedFile>)
    ensures |diag.span.annotated| <= |r|
    ensures forall k :: 0 <= k < |diag.span.annotated| ==> r[k].file == CollectFiles(diag.span)[k].file
  {
    MergeChildren(ops, MainFiles(ops, diag), diag.children)
  }

  /** The collated files are exactly the main diagnostic's and its children's, each
      once when the main diagnostic's are distinct. */
  lemma CollateFiles(ops: LineOps, diag: Diagnostic)
    ensures Ids(Collate(ops, diag)) == Ids(diag.span.annotated) + ChildIds(diag.children)
    ensures DistinctIds(diag.span.annotated) ==> DistinctIds(Collate(ops, diag))
  {
    var main := MainFiles(ops, diag);
    IdsSameFiles(CollectFiles(diag.span), main);
    CollectFilesIds(diag.span);
    MergeChildrenSpec(ops, main, diag.children);
    if DistinctIds(diag.span.annotated) {
      CollectFilesDistinct(diag.span);
    }
  }

  /** A file that only sub-diagnostic `c` annotates, once, is collated with that
      sub's re-levelled lines: every fragment at the sub's level, and its unlabelled
      primary fragments labelled with the sub's message. */
  lemma CollateSubOnly(ops: LineOps, diag: Diagnostic, c: nat, j: nat)
    requires c < |diag.children| && j < |diag.children[c].span.annotated|
    requires DistinctIds(diag.children[c].span.annotated)
    requires CollectFiles(diag.children[c].span)[j].file.id !in Ids(diag.span.annotated)
    requires forall i :: 0 <= i < |diag.children| && i != c ==>
               CollectFiles(diag.children[c].span)[j].file.id !in Ids(diag.children[i].span.annotated)
    ensures var sub := diag.children[c];
            var f := CollectFiles(sub.span)[j];
            AnnotatedFile(f.file, RelevelLines(sub.level, sub.text, f.lines)) in Collate(ops, diag)
  {
    var main := MainFiles(ops, diag);
    IdsSameFiles(CollectFiles(diag.span), main);
    CollectFilesIds(diag.span);
    MergeChildrenPushes(ops, main, diag.children, c, j, SubFiles(diag.children[c])[j]);
  }

  /** A file of the main diagnostic that exactly one sub-diagnostic also annotates,
      once, is not pushed again: its entry keeps its place and receives
      `add_lines` of the main lines at the diagnostic's level and the sub's
      re-levelled lines. */
  lemma CollateMerged(ops: LineOps, diag: Diagnostic, k: nat, c: nat, j: nat)
    requires DistinctIds(diag.span.annotated) && k < |diag.span.annotated|
    requires c < |diag.children| && j < |diag.children[c].span.annotated|
    requires DistinctIds(diag.children[c].span.annotated)
    requires CollectFiles(diag.children[c].span)[j].file.id == CollectFiles(diag.span)[k].file.id
    requires forall i :: 0 <= i < |diag.children| && i != c ==>
               CollectFiles(diag.span)[k].file.id !in Ids(diag.children[i].span.annotated)
    ensures var sub := diag.children[c];
            var f := CollectFiles(sub.span)[j];
            && Collate(ops, diag)[k].file == CollectFiles(diag.span)[k].file
            && Collate(ops, diag)[k].lines
               == ops.addLines(ops.setLevel(CollectFiles(diag.span)[k].lines, diag.level), RelevelLines(sub.level, sub.text, f.lines))
  {
    var main := MainFiles(ops, diag);
    MergeChildrenMerged(ops, main, diag.children, c, j, k, SubFiles(diag.children[c])[j]);
  }

  /** A permutation of files with distinct identities has distinct identities. */
  lemma PermutationDistinct(a: seq<AnnotatedFile>, b: seq<AnnotatedFile>, i: nat, j: nat)
    requires multiset(a) == multiset(b) && DistinctIds(a)
    requires i < j < |b|
    ensures b[i].file.id != b[j].file.id
  {
    if b[i].file.id == b[j].file.id {
      var x, y := b[i], b[j];
      assert x in multiset(a) && y in multiset(a);
      var p :| 0 <= p < |a| && a[p] == x;
      var q :| 0 <= q < |a| && a[q] == y;
      assert p == q;
      OccursTwice(b, i, j);
      DistinctCountOne(a, p);
      assert false;
    }
  }

  /** An entry found at two indices occurs at least twice. */
  lemma OccursTwice<T>(s: seq<T>, i: nat, j: nat)
    requires i < j < |s| && s[i] == s[j]
    ensures multiset(s)[s[i]] >= 2
  {
    assert s == s[..i] + [s[i]] + s[i + 1..j] + [s[j]] + s[j + 1..];
  }

  /** In a list of files with distinct identities every file occurs once. */
  lemma DistinctCountOne(a: seq<AnnotatedFile>, p: nat)
    requires DistinctIds(a) && p < |a|
    ensures multiset(a)[a[p]] == 1
  {
    assert a == a[..p] + [a[p]] + a[p + 1..];
    forall k | 0 <= k < |a| && k != p
      ensures a[k] != a[p]
    {
      if k < p {
        assert a[k].file.id != a[p].file.id;
      } else {
        assert a[p].file.id != a[k].file.id;
      }
    }
    assert a[p] !in a[..p] by {
      forall k | 0 <= k < p ensures a[..p][k] != a[p] {
        assert a[..p][k] == a[k];
      }
    }
    var tail := a[p + 1..];
    assert a[p] !in tail by {
      forall k | 0 <= k < |tail| ensures tail[k] != a[p] {
        assert tail[k] == a[p + 1 + k];
      }
    }
  }

  // ---------------------------------------------------------------------------
  // Snippets
  // ---------------------------------------------------------------------------

  /** `.map(file_to_snippet).collect()`: the snippets of the files in order, or the
      defect of the first file the conversion panics on. */
  function Snippets(sm: SourceMap, files: seq<AnnotatedFile>, level: Level): (r: Result<seq<OwnedSnippet>, Defect>)
    ensures r.Ok? <==> forall k :: 0 <= k < |files| ==> FileToSnippet(sm, files[k].file, files[k].lines, level).Ok?
    ensures r.Ok? ==> |r.value| == |files|
    ensures r.Ok? ==> forall k :: 0 <= k < |files| ==> r.value[k] == FileToSnippet(sm, files[k].file, files[k].lines, level).value
    ensures r.Err? ==> exists k :: 0 <= k < |files| && FileToSnippet(sm, files[k].file, files[k].lines, level) == Err(r.error)
    decreases |files|
  {
    if |files| == 0 then
      Ok([])
    else
      var s := FileToSnippet(sm, files[0].file, files[0].lines, level);
      if s.Err? then
        Err(s.error)
      else
        var rest := Snippets(sm, files[1..], level);
        if rest.Err? then
          Err(rest.error)
        else
          Ok([s.value] + rest.value)
  }

  /** `OwnedSnippet::collect`: one snippet per collated file, in collation order, each
      of the file's display name and starting at its first annotated line; it panics
      when `file_to_snippet` does on some collated file. */
  function Collect(sm: SourceMap, ops: LineOps, diag: Diagnostic): (r: Result<seq<OwnedSnippet>, Defect>)
    ensures var files := Collate(ops, diag);
            && (r.Ok? <==> forall k :: 0 <= k < |files| ==> FileToSnippet(sm, files[k].file, files[k].lines, diag.level).Ok?)
            && (r.Ok? ==> |r.value| == |files| && forall k :: 0 <= k < |files| ==>
                  && r.value[k].origin == sm.filenameForDiagnostics(files[k].file.name)
                  && |files[k].lines| > 0 && r.value[k].lineStart == files[k].lines[0].lineIndex)
    ensures r.Ok? ==> |diag.span.annotated| <= |r.value|
  {
    Snippets(sm, Collate(ops, diag), diag.level)
  }
}
