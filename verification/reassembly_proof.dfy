/** Proof that the fold of `file_to_snippet` succeeds exactly on well-placed,
    well-paired fragments and then produces the annotations `ExpectedAnnotations`
    describes, and consequences of that for callers. */
module ReassemblyProof {
  import opened Wrappers
  import opened Utf8
  import opened Levels
  import opened Model
  import opened Reassembly
  import opened ReassemblySpec

  /** Adjacent order gives order between any two lines. */
  lemma {:induction false} SortedPairwise(lines: seq<Line>, i: nat, j: nat)
    requires LinesSorted(lines) && i <= j < |lines|
    ensures lines[i].lineIndex <= lines[j].lineIndex
    decreases j - i
  {
    if i < j {
      SortedPairwise(lines, i, j - 1);
    }
  }

  /** One step of the fold from the specified state reaches the specified state of
      one more fragment, and fails exactly when that fragment is not paired. */
  lemma StepSpec(ex: Excerpt, fs: seq<Frag>, n: nat, li: nat, ann: LineAnnotation, d: Level)
    requires ValidExcerpt(ex) && n < |fs| && fs[n] == Frag(li, ann) && ex.first <= li <= ex.last
    ensures var r := Step(Source(ex), LineOffset(ex, li), li, d, SpecState(ex, fs, n, d), ann);
            && (r.Ok? <==> PairedAt(ex, fs, n))
            && (r.Ok? ==> r.value == SpecState(ex, fs, n + 1, d))
  {
    match ann.kind
    case Singleline => StepSinglelineSpec(ex, fs, n, li, ann, d);
    case MultilineStart => StepStartSpec(ex, fs, n, li, ann, d);
    case MultilineLine => StepLineSpec(ex, fs, n, li, ann, d);
    case MultilineEnd => StepEndSpec(ex, fs, n, li, ann, d);
  }

  lemma StepSinglelineSpec(ex: Excerpt, fs: seq<Frag>, n: nat, li: nat, ann: LineAnnotation, d: Level)
    requires ValidExcerpt(ex) && n < |fs| && fs[n] == Frag(li, ann) && ex.first <= li <= ex.last
    requires ann.kind.Singleline?
    ensures var r := Step(Source(ex), LineOffset(ex, li), li, d, SpecState(ex, fs, n, d), ann);
            && r.Ok? && PairedAt(ex, fs, n)
            && r.value == SpecState(ex, fs, n + 1, d)
  {
    RelPosIsPosition(ex, li, ann.startCol);
    RelPosIsPosition(ex, li, ann.endCol);
    assert Open(fs, n + 1) == Open(fs, n);
  }

  lemma StepStartSpec(ex: Excerpt, fs: seq<Frag>, n: nat, li: nat, ann: LineAnnotation, d: Level)
    requires ValidExcerpt(ex) && n < |fs| && fs[n] == Frag(li, ann) && ex.first <= li <= ex.last
    requires ann.kind.MultilineStart?
    ensures var r := Step(Source(ex), LineOffset(ex, li), li, d, SpecState(ex, fs, n, d), ann);
            && (r.Ok? <==> PairedAt(ex, fs, n))
            && (r.Ok? ==> r.value == SpecState(ex, fs, n + 1, d))
  {
    RelPosIsPosition(ex, li, ann.startCol);
    assert Open(fs, n + 1) == Some(n);
    assert ExpectedAnnotations(ex, fs, n + 1, d) == ExpectedAnnotations(ex, fs, n, d);
  }

  lemma StepLineSpec(ex: Excerpt, fs: seq<Frag>, n: nat, li: nat, ann: LineAnnotation, d: Level)
    requires ValidExcerpt(ex) && n < |fs| && fs[n] == Frag(li, ann) && ex.first <= li <= ex.last
    requires ann.kind.MultilineLine?
    ensures var r := Step(Source(ex), LineOffset(ex, li), li, d, SpecState(ex, fs, n, d), ann);
            && r.Ok? && PairedAt(ex, fs, n)
            && r.value == SpecState(ex, fs, n + 1, d)
  {
    assert Open(fs, n + 1) == Open(fs, n);
    assert ExpectedAnnotations(ex, fs, n + 1, d) == ExpectedAnnotations(ex, fs, n, d);
  }

  lemma StepEndSpec(ex: Excerpt, fs: seq<Frag>, n: nat, li: nat, ann: LineAnnotation, d: Level)
    requires ValidExcerpt(ex) && n < |fs| && fs[n] == Frag(li, ann) && ex.first <= li <= ex.last
    requires ann.kind.MultilineEnd?
    ensures var r := Step(Source(ex), LineOffset(ex, li), li, d, SpecState(ex, fs, n, d), ann);
            && (r.Ok? <==> PairedAt(ex, fs, n))
            && (r.Ok? ==> r.value == SpecState(ex, fs, n + 1, d))
  {
    RelPosIsPosition(ex, li, ann.endCol);
    assert Open(fs, n + 1) == None;
  }

  /** The first round of the inner loop over `anns`, whose states are numbered
      from `n`: from `S(n)` it goes on from `S(n + 1)` when `P(n)` holds, and fails
      otherwise. */
  predicate RoundGoesOn(src: seq<char>, off: nat, li: nat, d: Level, anns: seq<LineAnnotation>, n: nat, S: nat -> State, P: nat -> bool)
    requires |anns| > 0
  {
    var whole := StepAll(src, off, li, d, S(n), anns);
    && (P(n) ==> whole == StepAll(src, off, li, d, S(n + 1), anns[1..]))
    && (!P(n) ==> whole.Err?)
  }

  /** Every round of the inner loop over `anns` goes on as `RoundGoesOn` says. */
  predicate RoundsGoOn(src: seq<char>, off: nat, li: nat, d: Level, anns: seq<LineAnnotation>, n: nat, S: nat -> State, P: nat -> bool)
    decreases |anns|
  {
    |anns| == 0 || (RoundGoesOn(src, off, li, d, anns, n, S, P) && RoundsGoOn(src, off, li, d, anns[1..], n + 1, S, P))
  }

  /** The inner loop, for any states `S` and step conditions `P` whose rounds all
      go on as `RoundGoesOn` says. */
  lemma {:induction false} StepAllFold(src: seq<char>, off: nat, li: nat, d: Level, anns: seq<LineAnnotation>, n: nat, S: nat -> State, P: nat -> bool)
    requires RoundsGoOn(src, off, li, d, anns, n, S, P)
    ensures var r := StepAll(src, off, li, d, S(n), anns);
            && (r.Ok? <==> forall k :: n <= k < n + |anns| ==> P(k))
            && (r.Ok? ==> r.value == S(n + |anns|))
    decreases |anns|
  {
    if |anns| > 0 {
      StepAllFold(src, off, li, d, anns[1..], n + 1, S, P);
    }
  }

  /** The first round of the inner loop from the specified states. */
  lemma RoundHolds(ex: Excerpt, fs: seq<Frag>, n: nat, li: nat, anns: seq<LineAnnotation>, d: Level)
    requires ValidExcerpt(ex) && ex.first <= li <= ex.last
    requires |anns| > 0 && n < |fs| && fs[n] == Frag(li, anns[0])
    ensures RoundGoesOn(Source(ex), LineOffset(ex, li), li, d, anns, n, SpecStates(ex, fs, d), PairedAll(ex, fs))
  {
    var S := SpecStates(ex, fs, d);
    assert S(n) == SpecState(ex, fs, n, d) && S(n + 1) == SpecState(ex, fs, n + 1, d);
    StepAllHead(ex, fs, n, li, anns, d);
  }

  /** The rounds of the inner loop from the specified states. */
  lemma {:induction false} RoundsHold(ex: Excerpt, fs: seq<Frag>, n: nat, li: nat, anns: seq<LineAnnotation>, d: Level)
    requires ValidExcerpt(ex) && ex.first <= li <= ex.last
    requires n + |anns| <= |fs|
    requires forall j :: 0 <= j < |anns| ==> fs[n + j] == Frag(li, anns[j])
    ensures RoundsGoOn(Source(ex), LineOffset(ex, li), li, d, anns, n, SpecStates(ex, fs, d), PairedAll(ex, fs))
    decreases |anns|
  {
    if |anns| > 0 {
      RoundHolds(ex, fs, n, li, anns, d);
      FragsShift(fs, n, li, anns);
      RoundsHold(ex, fs, n + 1, li, anns[1..], d);
    }
  }

  /** The specified states, as a total function of the number of fragments. */
  function SpecStates(ex: Excerpt, fs: seq<Frag>, d: Level): (r: nat -> State) {
    (k: nat) => if k <= |fs| then SpecState(ex, fs, k, d) else State(None, [])
  }

  /** Fragment `k` exists and is paired, as a total function. */
  function PairedAll(ex: Excerpt, fs: seq<Frag>): (r: nat -> bool) {
    (k: nat) => k < |fs| && PairedAt(ex, fs, k)
  }

  /** Being paired up to `b` is being paired up to `a` and at each fragment between. */
  lemma {:induction false} PairedUpToRange(ex: Excerpt, fs: seq<Frag>, a: nat, b: nat)
    requires a <= b <= |fs|
    ensures PairedUpTo(ex, fs, b) <==> PairedUpTo(ex, fs, a) && forall k :: a <= k < b ==> PairedAll(ex, fs)(k)
    decreases b
  {
    if a < b {
      var P := PairedAll(ex, fs);
      PairedUpToRange(ex, fs, a, b - 1);
      assert P(b - 1) == PairedAt(ex, fs, b - 1);
      assert (forall k :: a <= k < b ==> P(k)) <==> (forall k :: a <= k < b - 1 ==> P(k)) && P(b - 1);
    }
  }

  /** The inner loop over one line's fragments, which sit at `n..n + |anns|`. */
  lemma StepAllSpec(ex: Excerpt, fs: seq<Frag>, n: nat, li: nat, anns: seq<LineAnnotation>, d: Level)
    requires ValidExcerpt(ex) && ex.first <= li <= ex.last
    requires n + |anns| <= |fs|
    requires forall j :: 0 <= j < |anns| ==> fs[n + j] == Frag(li, anns[j])
    requires PairedUpTo(ex, fs, n)
    ensures var r := StepAll(Source(ex), LineOffset(ex, li), li, d, SpecState(ex, fs, n, d), anns);
            && (r.Ok? <==> PairedUpTo(ex, fs, n + |anns|))
            && (r.Ok? ==> r.value == SpecState(ex, fs, n + |anns|, d))
  {
    var S, P := SpecStates(ex, fs, d), PairedAll(ex, fs);
    assert S(n) == SpecState(ex, fs, n, d) && S(n + |anns|) == SpecState(ex, fs, n + |anns|, d);
    RoundsHold(ex, fs, n, li, anns, d);
    StepAllFold(Source(ex), LineOffset(ex, li), li, d, anns, n, S, P);
    var between := forall k :: n <= k < n + |anns| ==> P(k);
    assert StepAll(Source(ex), LineOffset(ex, li), li, d, S(n), anns).Ok? <==> between;
    PairedUpToRange(ex, fs, n, n + |anns|);
    assert PairedUpTo(ex, fs, n + |anns|) <==> between;
  }

  /** One round of the inner loop from the specified state: it goes on from the
      specified state of one more fragment when that fragment is paired, and fails
      otherwise. */
  lemma StepAllHead(ex: Excerpt, fs: seq<Frag>, n: nat, li: nat, anns: seq<LineAnnotation>, d: Level)
    requires ValidExcerpt(ex) && ex.first <= li <= ex.last
    requires |anns| > 0 && n < |fs| && fs[n] == Frag(li, anns[0])
    ensures var whole := StepAll(Source(ex), LineOffset(ex, li), li, d, SpecState(ex, fs, n, d), anns);
            && (PairedAt(ex, fs, n) ==> whole == StepAll(Source(ex), LineOffset(ex, li), li, d, SpecState(ex, fs, n + 1, d), anns[1..]))
            && (!PairedAt(ex, fs, n) ==> whole.Err?)
  {
    StepSpec(ex, fs, n, li, anns[0], d);
    StepAllUnfold(Source(ex), LineOffset(ex, li), li, d, SpecState(ex, fs, n, d), anns);
  }

  /** One round of the inner loop. */
  lemma StepAllUnfold(source: seq<char>, off: nat, li: nat, d: Level, st: State, anns: seq<LineAnnotation>)
    requires |anns| > 0
    ensures var r := Step(source, off, li, d, st, anns[0]);
            StepAll(source, off, li, d, st, anns) == if r.Err? then Err(r.error) else StepAll(source, off, li, d, r.value, anns[1..])
  {
  }

  /** Dropping the first of a line's fragments moves the rest up by one place. */
  lemma FragsShift(fs: seq<Frag>, n: nat, li: nat, anns: seq<LineAnnotation>)
    requires |anns| > 0 && n + |anns| <= |fs|
    requires forall j :: 0 <= j < |anns| ==> fs[n + j] == Frag(li, anns[j])
    ensures forall j :: 0 <= j < |anns[1..]| ==> fs[n + 1 + j] == Frag(li, anns[1..][j])
  {
    forall j | 0 <= j < |anns[1..]|
      ensures fs[n + 1 + j] == Frag(li, anns[1..][j])
    {
      assert fs[n + (j + 1)] == Frag(li, anns[j + 1]);
    }
  }

  /** The fragments of a run of lines, found as a suffix of `fs`, start with those
      of its first line and go on with those of the rest. */
  lemma FlattenCons(fs: seq<Frag>, n: nat, ls: seq<Line>)
    requires n <= |fs| && fs[n..] == Flatten(ls) && |ls| > 0
    ensures n + |ls[0].annotations| <= |fs|
    ensures forall j :: 0 <= j < |ls[0].annotations| ==> fs[n + j] == Frag(ls[0].lineIndex, ls[0].annotations[j])
    ensures fs[n + |ls[0].annotations|..] == Flatten(ls[1..])
  {
    var m := |ls[0].annotations|;
    var head := FragsOf(ls[0]);
    assert fs[n..] == head + Flatten(ls[1..]);
    forall j | 0 <= j < m
      ensures fs[n + j] == Frag(ls[0].lineIndex, ls[0].annotations[j])
    {
      assert fs[n + j] == fs[n..][j] == head[j];
    }
    assert fs[n + m..] == fs[n..][m..];
  }

  /** Being paired up to `k`, as a total function. */
  function PairedUpTos(ex: Excerpt, fs: seq<Frag>): (r: nat -> bool) {
    (k: nat) => k <= |fs| && PairedUpTo(ex, fs, k)
  }

  /** The outer loop of the fold over file `f` with excerpt text `src`, as a
      function of the starting state and the remaining lines. */
  function LinesRun(f: SourceFile, base: nat, src: seq<char>, d: Level): (r: (State, seq<Line>) -> Result<State, Defect>) {
    (st: State, ls: seq<Line>) => StepLines(f, base, src, d, st, ls)
  }

  /** The first round of a run over `ls`, whose states are numbered by fragments
      from `n`: when `Q(n)` holds, from `S(n)` it goes on from `S(n + m)`, `m` the
      fragments on the line, if `Q(n + m)` holds, and fails otherwise. */
  predicate LineGoesOn(run: (State, seq<Line>) -> Result<State, Defect>, ls: seq<Line>, n: nat, S: nat -> State, Q: nat -> bool)
    requires |ls| > 0
  {
    var m := |ls[0].annotations|;
    Q(n) ==>
      && (Q(n + m) ==> run(S(n), ls) == run(S(n + m), ls[1..]))
      && (!Q(n + m) ==> run(S(n), ls).Err?)
  }

  /** Every round of a run over `ls` goes on as `LineGoesOn` says, and the run
      over no lines stops where it starts. */
  predicate LinesGoOn(run: (State, seq<Line>) -> Result<State, Defect>, ls: seq<Line>, n: nat, S: nat -> State, Q: nat -> bool)
    decreases |ls|
  {
    if |ls| == 0 then
      run(S(n), ls) == Ok(S(n))
    else
      LineGoesOn(run, ls, n, S, Q) && LinesGoOn(run, ls[1..], n + |ls[0].annotations|, S, Q)
  }

  /** A run over lines, for any states `S` and a condition `Q` that holds of every
      fragment count up to one it holds of, whose rounds all go on as `LineGoesOn`
      says. */
  lemma {:induction false} StepLinesFold(run: (State, seq<Line>) -> Result<State, Defect>, ls: seq<Line>, n: nat, end: nat, S: nat -> State, Q: nat -> bool)
    requires end == n + FragCount(ls)
    requires LinesGoOn(run, ls, n, S, Q) && Q(n)
    requires forall k :: n <= k <= end && Q(end) ==> Q(k)
    ensures var r := run(S(n), ls);
            && (r.Ok? <==> Q(end))
            && (r.Ok? ==> r.value == S(end))
    decreases |ls|
  {
    if |ls| > 0 {
      var m := |ls[0].annotations|;
      if Q(n + m) {
        StepLinesFold(run, ls[1..], n + m, end, S, Q);
      }
    }
  }

  /** The first round of the outer loop from the specified states. */
  lemma LineHolds(ex: Excerpt, base: nat, fs: seq<Frag>, n: nat, ls: seq<Line>, d: Level)
    requires ValidExcerpt(ex) && |ls| > 0 && ex.first <= ls[0].lineIndex <= ex.last
    requires LinePosition(ex.file, ex.first - 1) == Some(base)
    requires n + |ls[0].annotations| <= |fs|
    requires forall j :: 0 <= j < |ls[0].annotations| ==> fs[n + j] == Frag(ls[0].lineIndex, ls[0].annotations[j])
    ensures LineGoesOn(LinesRun(ex.file, base, Source(ex), d), ls, n, SpecStates(ex, fs, d), PairedUpTos(ex, fs))
  {
    var m := |ls[0].annotations|;
    var S, run := SpecStates(ex, fs, d), LinesRun(ex.file, base, Source(ex), d);
    assert S(n) == SpecState(ex, fs, n, d) && S(n + m) == SpecState(ex, fs, n + m, d);
    assert run(S(n), ls) == StepLines(ex.file, base, Source(ex), d, S(n), ls);
    assert run(S(n + m), ls[1..]) == StepLines(ex.file, base, Source(ex), d, S(n + m), ls[1..]);
    if PairedUpTo(ex, fs, n) {
      OneLineSpec(ex, base, fs, n, ls, d);
    }
  }

  /** The rounds of the outer loop from the specified states. */
  lemma {:induction false} LinesHold(ex: Excerpt, base: nat, fs: seq<Frag>, n: nat, ls: seq<Line>, d: Level)
    requires ValidExcerpt(ex) && LinePosition(ex.file, ex.first - 1) == Some(base)
    requires n <= |fs| && fs[n..] == Flatten(ls)
    requires forall k :: 0 <= k < |ls| ==> ex.first <= ls[k].lineIndex <= ex.last
    ensures LinesGoOn(LinesRun(ex.file, base, Source(ex), d), ls, n, SpecStates(ex, fs, d), PairedUpTos(ex, fs))
    decreases |ls|
  {
    if |ls| == 0 {
      LinesHoldNil(ex, base, fs, n, d);
    } else {
      FlattenCons(fs, n, ls);
      assert forall k :: 0 <= k < |ls| - 1 ==> ex.first <= ls[1..][k].lineIndex <= ex.last;
      LinesHold(ex, base, fs, n + |ls[0].annotations|, ls[1..], d);
      LinesHoldCons(ex, base, fs, n, ls, d);
    }
  }

  /** The outer loop over no lines stops where it starts. */
  lemma LinesHoldNil(ex: Excerpt, base: nat, fs: seq<Frag>, n: nat, d: Level)
    ensures LinesGoOn(LinesRun(ex.file, base, Source(ex), d), [], n, SpecStates(ex, fs, d), PairedUpTos(ex, fs))
  {
    var run, S := LinesRun(ex.file, base, Source(ex), d), SpecStates(ex, fs, d);
    assert run(S(n), []) == Ok(S(n));
  }

  /** The rounds of the outer loop go on over `ls` when they go on over its tail. */
  lemma LinesHoldCons(ex: Excerpt, base: nat, fs: seq<Frag>, n: nat, ls: seq<Line>, d: Level)
    requires ValidExcerpt(ex) && LinePosition(ex.file, ex.first - 1) == Some(base)
    requires |ls| > 0 && n <= |fs| && fs[n..] == Flatten(ls)
    requires forall k :: 0 <= k < |ls| ==> ex.first <= ls[k].lineIndex <= ex.last
    requires LinesGoOn(LinesRun(ex.file, base, Source(ex), d), ls[1..], n + |ls[0].annotations|, SpecStates(ex, fs, d), PairedUpTos(ex, fs))
    ensures LinesGoOn(LinesRun(ex.file, base, Source(ex), d), ls, n, SpecStates(ex, fs, d), PairedUpTos(ex, fs))
  {
    FlattenCons(fs, n, ls);
    LineHolds(ex, base, fs, n, ls, d);
    LinesGoOnCons(LinesRun(ex.file, base, Source(ex), d), ls, n, SpecStates(ex, fs, d), PairedUpTos(ex, fs));
  }

  /** The rounds of a run go on when the first does and the rest do. */
  lemma LinesGoOnCons(run: (State, seq<Line>) -> Result<State, Defect>, ls: seq<Line>, n: nat, S: nat -> State, Q: nat -> bool)
    requires |ls| > 0
    requires LineGoesOn(run, ls, n, S, Q) && LinesGoOn(run, ls[1..], n + |ls[0].annotations|, S, Q)
    ensures LinesGoOn(run, ls, n, S, Q)
  {
  }

  /** The outer loop over the remaining lines `ls`, whose fragments are the suffix
      of `fs` from `n` on, started in the specified state of the fragments before. */
  lemma StepLinesSpec(ex: Excerpt, base: nat, fs: seq<Frag>, n: nat, ls: seq<Line>, d: Level)
    requires ValidExcerpt(ex) && LinePosition(ex.file, ex.first - 1) == Some(base)
    requires n <= |fs| && fs[n..] == Flatten(ls)
    requires forall k :: 0 <= k < |ls| ==> ex.first <= ls[k].lineIndex <= ex.last
    requires PairedUpTo(ex, fs, n)
    ensures var r := StepLines(ex.file, base, Source(ex), d, SpecState(ex, fs, n, d), ls);
            && (r.Ok? <==> WellPaired(ex, fs))
            && (r.Ok? ==> r.value == SpecState(ex, fs, |fs|, d))
  {
    var S, Q, run := SpecStates(ex, fs, d), PairedUpTos(ex, fs), LinesRun(ex.file, base, Source(ex), d);
    LinesRunSpec(ex, base, fs, n, ls, d);
    var r := StepLines(ex.file, base, Source(ex), d, SpecState(ex, fs, n, d), ls);
    assert r == run(S(n), ls);
    assert Q(|fs|) == WellPaired(ex, fs);
    assert S(|fs|) == SpecState(ex, fs, |fs|, d);
  }

  /** `StepLinesSpec` in terms of the run, state and condition functions. */
  lemma LinesRunSpec(ex: Excerpt, base: nat, fs: seq<Frag>, n: nat, ls: seq<Line>, d: Level)
    requires ValidExcerpt(ex) && LinePosition(ex.file, ex.first - 1) == Some(base)
    requires n <= |fs| && fs[n..] == Flatten(ls)
    requires forall k :: 0 <= k < |ls| ==> ex.first <= ls[k].lineIndex <= ex.last
    requires PairedUpTo(ex, fs, n)
    ensures var S, Q, run := SpecStates(ex, fs, d), PairedUpTos(ex, fs), LinesRun(ex.file, base, Source(ex), d);
            var r := run(S(n), ls);
            && (r.Ok? <==> Q(|fs|))
            && (r.Ok? ==> r.value == S(|fs|))
  {
    var S, Q, run := SpecStates(ex, fs, d), PairedUpTos(ex, fs), LinesRun(ex.file, base, Source(ex), d);
    FlattenLength(ls);
    assert |fs| == n + FragCount(ls);
    assert Q(n);
    LinesHold(ex, base, fs, n, ls, d);
    PairedUpTosDownward(ex, fs, n);
    StepLinesFold(run, ls, n, |fs|, S, Q);
  }

  /** Being paired up to the end includes being paired up to any count. */
  lemma PairedUpTosDownward(ex: Excerpt, fs: seq<Frag>, n: nat)
    ensures var Q := PairedUpTos(ex, fs); forall k :: n <= k <= |fs| && Q(|fs|) ==> Q(k)
  {
    var Q := PairedUpTos(ex, fs);
    forall k | n <= k <= |fs| && Q(|fs|)
      ensures Q(k)
    {
      PairedUpToMonotone(ex, fs, k, |fs|);
    }
  }

  /** One round of the outer loop, on the line `ls[0]` whose fragments sit at
      `n..n + |ls[0].annotations|` of `fs`, from the specified state. */
  lemma OneLineSpec(ex: Excerpt, base: nat, fs: seq<Frag>, n: nat, ls: seq<Line>, d: Level)
    requires ValidExcerpt(ex) && |ls| > 0 && ex.first <= ls[0].lineIndex <= ex.last
    requires LinePosition(ex.file, ex.first - 1) == Some(base)
    requires n + |ls[0].annotations| <= |fs|
    requires forall j :: 0 <= j < |ls[0].annotations| ==> fs[n + j] == Frag(ls[0].lineIndex, ls[0].annotations[j])
    requires PairedUpTo(ex, fs, n)
    ensures var m := |ls[0].annotations|;
            var whole := StepLines(ex.file, base, Source(ex), d, SpecState(ex, fs, n, d), ls);
            && (PairedUpTo(ex, fs, n + m) ==> whole == StepLines(ex.file, base, Source(ex), d, SpecState(ex, fs, n + m, d), ls[1..]))
            && (!PairedUpTo(ex, fs, n + m) ==> whole.Err?)
  {
    var li := ls[0].lineIndex;
    var st := SpecState(ex, fs, n, d);
    assert LinePosition(ex.file, li - 1).Some? && LinePosition(ex.file, li - 1).value - base == LineOffset(ex, li) by {
      LineOffsetIsDifference(ex, li);
    }
    StepLinesUnfold(ex.file, base, LineOffset(ex, li), Source(ex), d, st, ls);
    StepAllSpec(ex, fs, n, li, ls[0].annotations, d);
  }

  /** One round of the outer loop on a line that starts `off` bytes after `base`. */
  lemma StepLinesUnfold(f: SourceFile, base: nat, off: nat, source: seq<char>, d: Level, st: State, lines: seq<Line>)
    requires |lines| > 0 && lines[0].lineIndex > 0
    requires LinePosition(f, lines[0].lineIndex - 1) == Some(base + off)
    ensures var r := StepAll(source, off, lines[0].lineIndex, d, st, lines[0].annotations);
            StepLines(f, base, source, d, st, lines) == if r.Err? then Err(r.error) else StepLines(f, base, source, d, r.value, lines[1..])
  {
  }

  /** The outer loop fails when its last line lies past the end of the file. */
  lemma {:induction false} StepLinesPastEnd(f: SourceFile, base: nat, source: seq<char>, d: Level, st: State, lines: seq<Line>)
    requires |lines| > 0 && lines[|lines| - 1].lineIndex > |f.lines|
    ensures StepLines(f, base, source, d, st, lines).Err?
    decreases |lines|
  {
    if |lines| > 1 && lines[0].lineIndex > 0 && lines[0].lineIndex - 1 < |f.lines| {
      var abs := LinePosition(f, lines[0].lineIndex - 1).value;
      if abs >= base {
        var r := StepAll(source, abs - base, lines[0].lineIndex, d, st, lines[0].annotations);
        if r.Ok? {
          assert lines[1..][|lines[1..]| - 1] == lines[|lines| - 1];
          StepLinesPastEnd(f, base, source, d, r.value, lines[1..]);
        }
      }
    }
  }

  /** `file_to_snippet` returns a snippet exactly when the lines are well placed
      in the file and the multi-line fragments pair up without ending before they
      start; the snippet then holds the annotations `ExpectedAnnotations` lists. */
  lemma FileToSnippetCorrect(sm: SourceMap, f: SourceFile, lines: seq<Line>, d: Level)
    ensures var r := FileToSnippet(sm, f, lines, d);
            r.Ok? <==> WellPlaced(f, lines) && WellPaired(ExcerptOf(f, lines), Flatten(lines))
    ensures var r := FileToSnippet(sm, f, lines, d);
            r.Ok? ==> && ValidExcerpt(ExcerptOf(f, lines))
                      && r.value.source == Source(ExcerptOf(f, lines))
                      && r.value.annotations == ExpectedAnnotations(ExcerptOf(f, lines), Flatten(lines), |Flatten(lines)|, d)
  {
    if |lines| > 0 && 0 < lines[0].lineIndex && LinesSorted(lines) {
      var first := lines[0].lineIndex;
      var last := lines[|lines| - 1].lineIndex;
      SortedPairwise(lines, 0, |lines| - 1);
      if first - 1 < |f.lines| {
        var base := LinePosition(f, first - 1).value;
        var source := GetLines(f, first - 1, last - 1);
        if last <= |f.lines| {
          var ex := ExcerptOf(f, lines);
          assert source == Source(ex);
          var fs := Flatten(lines);
          assert fs[0..] == fs;
          forall k | 0 <= k < |lines|
            ensures ex.first <= lines[k].lineIndex <= ex.last
          {
            SortedPairwise(lines, 0, k);
            SortedPairwise(lines, k, |lines| - 1);
          }
          StepLinesSpec(ex, base, fs, 0, lines, d);
        } else {
          StepLinesPastEnd(f, base, source, d, State(None, []), lines);
        }
      }
    }
  }

  // ---------------------------------------------------------------------------
  // Consequences

  /** One annotation per single-line fragment and per multi-line end; none for a
      multi-line start or a middle line. */
  lemma {:induction false} ExpectedCount(ex: Excerpt, fs: seq<Frag>, n: nat, d: Level)
    requires n <= |fs|
    ensures |ExpectedAnnotations(ex, fs, n, d)| == EmitCount(fs, n)
  {
    if n > 0 {
      ExpectedCount(ex, fs, n - 1, d);
    }
  }

  /** The annotations come in fragment arrival order: the annotation of the `k`-th
      fragment is preceded by exactly those of the emitting fragments before it. */
  lemma {:induction false} ExpectedAt(ex: Excerpt, fs: seq<Frag>, n: nat, k: nat, d: Level)
    requires k < n <= |fs| && Emits(fs[k])
    ensures EmitCount(fs, k) < |ExpectedAnnotations(ex, fs, n, d)|
    ensures ExpectedAnnotations(ex, fs, n, d)[EmitCount(fs, k)] == Expected(ex, fs, k, d)
  {
    ExpectedCount(ex, fs, n - 1, d);
    if k < n - 1 {
      ExpectedAt(ex, fs, n - 1, k, d);
    }
  }

  /** Both ends of a byte range lie inside the excerpt's encoding, on character
      boundaries. */
  predicate InSource(ex: Excerpt, a: OwnedAnnotation) {
    && a.start <= |Encode(Source(ex))| && IsCharBoundary(Encode(Source(ex)), a.start)
    && a.end <= |Encode(Source(ex))| && IsCharBoundary(Encode(Source(ex)), a.end)
  }

  /** The annotation of one fragment addresses the excerpt. */
  lemma ExpectedOneInSource(ex: Excerpt, fs: seq<Frag>, k: nat, d: Level)
    requires ValidExcerpt(ex) && k < |fs|
    ensures InSource(ex, Expected(ex, fs, k, d))
  {
    var fr := fs[k];
    PositionInSource(ex, fr.lineIndex, fr.ann.startCol);
    PositionInSource(ex, fr.lineIndex, fr.ann.endCol);
    var open := Open(fs, k);
    if open.Some? {
      var s := fs[open.value];
      PositionInSource(ex, s.lineIndex, s.ann.startCol);
    }
  }

  /** Every annotation of the expected list is a valid byte range start and end
      into the excerpt: inside it and on character boundaries of its encoding. */
  lemma {:induction false} ExpectedInSource(ex: Excerpt, fs: seq<Frag>, n: nat, d: Level)
    requires ValidExcerpt(ex) && n <= |fs|
    ensures forall a :: a in ExpectedAnnotations(ex, fs, n, d) ==> InSource(ex, a)
  {
    if n > 0 {
      var prev := ExpectedAnnotations(ex, fs, n - 1, d);
      var tail := if Emits(fs[n - 1]) then [Expected(ex, fs, n - 1, d)] else [];
      ExpectedInSource(ex, fs, n - 1, d);
      ExpectedOneInSource(ex, fs, n - 1, d);
      InSourceAppend(ex, prev, tail);
    }
  }

  lemma InSourceAppend(ex: Excerpt, prev: seq<OwnedAnnotation>, tail: seq<OwnedAnnotation>)
    requires forall a :: a in prev ==> InSource(ex, a)
    requires forall a :: a in tail ==> InSource(ex, a)
    ensures forall a :: a in prev + tail ==> InSource(ex, a)
  {
  }

  /** Every annotation of a successful snippet addresses its source text: both
      ends inside it and on character boundaries. */
  lemma SnippetRangesValid(sm: SourceMap, f: SourceFile, lines: seq<Line>, d: Level)
    requires FileToSnippet(sm, f, lines, d).Ok?
    ensures var s := FileToSnippet(sm, f, lines, d).value;
            forall a :: a in s.annotations ==>
              && a.start <= |Encode(s.source)| && IsCharBoundary(Encode(s.source), a.start)
              && a.end <= |Encode(s.source)| && IsCharBoundary(Encode(s.source), a.end)
  {
    FileToSnippetCorrect(sm, f, lines, d);
    ExpectedInSource(ExcerptOf(f, lines), Flatten(lines), |Flatten(lines)|, d);
  }
}
