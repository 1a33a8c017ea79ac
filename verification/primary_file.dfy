/** `collect_files`: the annotated files of a multi-span, with the file of a real
    primary span swapped to the front when a bisection by name finds it. */
module PrimaryFile {
  import opened Wrappers
  import opened Names
  import opened Model

  /** The files are in non-decreasing name order. */
  predicate SortedByName(files: seq<AnnotatedFile>) {
    forall i, j :: 0 <= i < j < |files| ==> NameLe(files[i].file.name, files[j].file.name)
  }

  /** Some file among `files[lo..hi]` is named `key`. */
  predicate NamedIn(files: seq<AnnotatedFile>, key: string, lo: nat, hi: nat)
    requires lo <= hi <= |files|
  {
    exists k :: lo <= k < hi && files[k].file.name == key
  }

  /** `binary_search_by` on the names in `files[lo..hi]`: the index of a file named
      `key`, or `None`. Whatever the order of `files`, an index it returns is one of a
      file with that name. */
  function Search(files: seq<AnnotatedFile>, key: string, lo: nat, hi: nat): (r: Option<nat>)
    requires lo <= hi <= |files|
    ensures r.Some? ==> lo <= r.value < hi && files[r.value].file.name == key
    decreases hi - lo
  {
    if lo == hi then
      None
    else
      var mid := lo + (hi - lo) / 2;
      match Compare(files[mid].file.name, key)
      case Equal => CompareEqual(files[mid].file.name, key); Some(mid)
      case Less => Search(files, key, mid + 1, hi)
      case Greater => Search(files, key, lo, mid)
  }

  /** On files sorted by name the search finds `key` exactly when some file has it. */
  lemma {:induction false} SearchComplete(files: seq<AnnotatedFile>, key: string, lo: nat, hi: nat)
    requires lo <= hi <= |files| && SortedByName(files)
    ensures Search(files, key, lo, hi).Some? <==> NamedIn(files, key, lo, hi)
    decreases hi - lo
  {
    if lo < hi {
      var mid := lo + (hi - lo) / 2;
      match Compare(files[mid].file.name, key)
      case Equal =>
      case Less =>
        SearchComplete(files, key, mid + 1, hi);
        NotNamedBelow(files, key, lo, mid);
        NamedInSplit(files, key, lo, mid + 1, hi);
      case Greater =>
        SearchComplete(files, key, lo, mid);
        NotNamedAbove(files, key, mid, hi);
        NamedInSplit(files, key, lo, mid, hi);
    }
  }

  /** Below an entry that sorts before `key`, no file is named `key`. */
  lemma NotNamedBelow(files: seq<AnnotatedFile>, key: string, lo: nat, mid: nat)
    requires lo <= mid < |files| && SortedByName(files)
    requires Compare(files[mid].file.name, key) == Less
    ensures !NamedIn(files, key, lo, mid + 1)
  {
    var m := files[mid].file.name;
    forall k | lo <= k <= mid
      ensures files[k].file.name != key
    {
      if k < mid {
        CompareTransitive(files[k].file.name, m, key);
      }
      CompareEqual(files[k].file.name, key);
    }
  }

  /** Above an entry that sorts after `key`, no file is named `key`. */
  lemma NotNamedAbove(files: seq<AnnotatedFile>, key: string, mid: nat, hi: nat)
    requires mid < hi <= |files| && SortedByName(files)
    requires Compare(files[mid].file.name, key) == Greater
    ensures !NamedIn(files, key, mid, hi)
  {
    var m := files[mid].file.name;
    CompareFlip(m, key);
    forall k | mid <= k < hi
      ensures files[k].file.name != key
    {
      if mid < k {
        CompareTransitive(key, m, files[k].file.name);
      }
      CompareEqual(key, files[k].file.name);
    }
  }

  lemma NamedInSplit(files: seq<AnnotatedFile>, key: string, lo: nat, mid: nat, hi: nat)
    requires lo <= mid <= hi <= |files|
    ensures NamedIn(files, key, lo, hi) <==> NamedIn(files, key, lo, mid) || NamedIn(files, key, mid, hi)
  {
    if NamedIn(files, key, lo, hi) {
      var k :| lo <= k < hi && files[k].file.name == key;
      if k < mid {
        assert NamedIn(files, key, lo, mid);
      } else {
        assert NamedIn(files, key, mid, hi);
      }
    }
  }

  /** Exchange of the entries at `i` and `j` (Rust's `slice::swap`). */
  function Swap<T>(s: seq<T>, i: nat, j: nat): (r: seq<T>)
    requires i < |s| && j < |s|
    ensures |r| == |s| && r[i] == s[j] && r[j] == s[i]
    ensures forall k :: 0 <= k < |s| && k != i && k != j ==> r[k] == s[k]
  {
    s[i := s[j]][j := s[i]]
  }

  /** A swap only reorders: it keeps the multiset of entries, and undoes itself. */
  lemma SwapPermutes<T>(s: seq<T>, i: nat, j: nat)
    requires i < |s| && j < |s|
    ensures multiset(Swap(s, i, j)) == multiset(s)
    ensures Swap(Swap(s, i, j), i, j) == s
  {
    var t := s[i := s[j]];
    assert multiset(t) == multiset(s) - multiset{s[i]} + multiset{s[j]};
    assert multiset(t[j := s[i]]) == multiset(t) - multiset{t[j]} + multiset{s[i]};
  }

  /** `collect_files`: the resolver's files for `msp`, reordered only when the primary
      span exists, is not dummy and there is more than one file. */
  function CollectFiles(msp: MultiSpan): (r: seq<AnnotatedFile>)
    ensures |r| == |msp.annotated| && multiset(r) == multiset(msp.annotated)
    ensures (msp.primarySpan.None? || msp.primarySpan.value.isDummy || |msp.annotated| <= 1) ==> r == msp.annotated
    ensures r == msp.annotated || exists pos :: 0 < pos < |r| && r == Swap(msp.annotated, 0, pos)
    ensures r != msp.annotated ==> r[0].file.name == msp.primarySpan.value.fileName
  {
    var files := msp.annotated;
    match msp.primarySpan
    case Some(primary) =>
      if !primary.isDummy && |files| > 1 then
        match Search(files, primary.fileName, 0, |files|)
        case Some(pos) => SwapPermutes(files, 0, pos); Swap(files, 0, pos)
        case None => files
      else
        files
    case None => files
  }

  /** When the primary span is real, there are several files and they are sorted by
      name, the primary span's file comes first exactly when some file has its name. */
  lemma CollectFilesBringsPrimary(msp: MultiSpan)
    requires msp.primarySpan.Some? && !msp.primarySpan.value.isDummy
    requires |msp.annotated| > 1 && SortedByName(msp.annotated)
    ensures var key := msp.primarySpan.value.fileName;
            CollectFiles(msp)[0].file.name == key <==> NamedIn(msp.annotated, key, 0, |msp.annotated|)
  {
    var files, key := msp.annotated, msp.primarySpan.value.fileName;
    SearchComplete(files, key, 0, |files|);
    var r := CollectFiles(msp);
    if r[0].file.name == key {
      assert r[0] in multiset(files);
    }
  }
}
