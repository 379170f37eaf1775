/** The Option type used for values the source represents as `None` or a value, and maps over sequences. */
module Wrappers {

  datatype Option<+T> = None | Some(value: T)

  /** `[f(x) for x in s]`, built from the front as a loop appending to a list builds it. */
  function MapSeq<A, B>(f: A -> B, s: seq<A>): (r: seq<B>)
    ensures |r| == |s|
    decreases |s|
  {
    if s == [] then [] else MapSeq(f, s[..|s| - 1]) + [f(s[|s| - 1])]
  }

  /** The element at `i` is `f` of the element at `i`. */
  lemma {:induction false} MapSeqAt<A, B>(f: A -> B, s: seq<A>, i: int)
    requires 0 <= i < |s|
    ensures MapSeq(f, s)[i] == f(s[i])
    decreases |s|
  {
    var last := |s| - 1;
    if i < last {
      MapSeqAt(f, s[..last], i);
      assert s[..last][i] == s[i];
    }
  }
}
