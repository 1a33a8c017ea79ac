/** The order on file names that the primary-file lookup searches by: strings
    compared code point by code point, a shorter prefix first. */
module Names {

  datatype Ordering = Less | Equal | Greater {
    /** The ordering seen from the other side. */
    function Flip(): (r: Ordering) {
      match this
      case Less => Greater
      case Equal => Equal
      case Greater => Less
    }
  }

  /** Lexicographic comparison of two names. */
  function Compare(a: string, b: string): (r: Ordering)
    decreases |a|
  {
    if |a| == 0 then
      if |b| == 0 then Equal else Less
    else if |b| == 0 then
      Greater
    else if a[0] < b[0] then
      Less
    else if b[0] < a[0] then
      Greater
    else
      Compare(a[1..], b[1..])
  }

  /** `a` sorts no later than `b`. */
  predicate NameLe(a: string, b: string) {
    Compare(a, b) != Greater
  }

  /** Two names compare equal exactly when they are the same name. */
  lemma {:induction false} CompareEqual(a: string, b: string)
    ensures Compare(a, b) == Equal <==> a == b
    decreases |a|
  {
    if |a| > 0 && |b| > 0 && a[0] == b[0] {
      CompareEqual(a[1..], b[1..]);
      assert a == [a[0]] + a[1..] && b == [b[0]] + b[1..];
    }
  }

  /** Comparing the other way round flips the result. */
  lemma {:induction false} CompareFlip(a: string, b: string)
    ensures Compare(b, a) == Compare(a, b).Flip()
    decreases |a|
  {
    if |a| > 0 && |b| > 0 && a[0] == b[0] {
      CompareFlip(a[1..], b[1..]);
    }
  }

  /** The order is transitive, and strictly so when either step is strict. */
  lemma {:induction false} CompareTransitive(a: string, b: string, c: string)
    requires NameLe(a, b) && NameLe(b, c)
    ensures NameLe(a, c)
    ensures (Compare(a, b) == Less || Compare(b, c) == Less) ==> Compare(a, c) == Less
    decreases |a|
  {
    if |a| > 0 && |b| > 0 && |c| > 0 && a[0] == b[0] == c[0] {
      CompareTransitive(a[1..], b[1..], c[1..]);
    }
  }
}
