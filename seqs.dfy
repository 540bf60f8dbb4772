/** `String.prototype.split` at the first occurrence of a separator, as the
 *  bot uses it on dates and identities. */
module Seqs {
  import opened Optional

  /** The first two fields of `s.split(sep)`: the part before the first `sep`,
   *  and the part after it when `sep` occurs at all. */
  function SplitFirst<T(==)>(s: seq<T>, sep: T): (r: (seq<T>, Option<seq<T>>))
    ensures sep !in r.0
    ensures r.1.None? ==> r.0 == s
    ensures r.1.Some? ==> s == r.0 + [sep] + r.1.value
    decreases |s|
  {
    if s == [] then ([], None)
    else if s[0] == sep then ([], Some(s[1..]))
    else
      var (a, b) := SplitFirst(s[1..], sep);
      ([s[0]] + a, b)
  }

  /** Splitting a joined sequence at the separator gives back its parts, as
   *  long as the separator does not occur in the first one. */
  lemma {:induction false} SplitFirstJoin<T>(a: seq<T>, sep: T, b: seq<T>)
    requires sep !in a
    ensures SplitFirst(a + [sep] + b, sep) == (a, Some(b))
    decreases |a|
  {
    if a == [] {
      assert a + [sep] + b == [sep] + b;
    } else {
      SplitFirstJoin(a[1..], sep, b);
      assert (a + [sep] + b)[1..] == a[1..] + [sep] + b;
      assert a == [a[0]] + a[1..];
    }
  }
}
