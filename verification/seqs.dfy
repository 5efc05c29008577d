/** Order-preserving selection from a sequence. */
module Seqs {

  /** The elements of `s` that `keep` accepts, in their original order. */
  function Filter<T(!new)>(s: seq<T>, keep: T -> bool): (r: seq<T>)
    ensures |r| <= |s|
    ensures forall x :: x in r <==> x in s && keep(x)
  {
    if |s| == 0 then []
    else
      assert s == s[..|s| - 1] + [s[|s| - 1]];
      Filter(s[..|s| - 1], keep) + (if keep(s[|s| - 1]) then [s[|s| - 1]] else [])
  }

  /** The indices of the elements of `s` that `keep` accepts, ascending. */
  function Positions<T>(s: seq<T>, keep: T -> bool): (r: seq<nat>)
    ensures forall k :: 0 <= k < |r| ==> r[k] < |s| && keep(s[r[k]])
    ensures forall k, l :: 0 <= k < l < |r| ==> r[k] < r[l]
    ensures forall i :: 0 <= i < |s| && keep(s[i]) ==> i in r
  {
    if |s| == 0 then []
    else Positions(s[..|s| - 1], keep) + (if keep(s[|s| - 1]) then [|s| - 1] else [])
  }

  /** The elements of `s` at the indices `pos`, in the order of `pos`. */
  function Select<T>(s: seq<T>, pos: seq<nat>): seq<T>
    requires forall k :: 0 <= k < |pos| ==> pos[k] < |s|
  {
    seq(|pos|, k requires 0 <= k < |pos| => s[pos[k]])
  }

  /** Filtering is selection at the ascending accepted positions, so the
      result is a subsequence of `s` holding every accepted element in order. */
  lemma {:induction false} FilterIsSelection<T(!new)>(s: seq<T>, keep: T -> bool)
    ensures Filter(s, keep) == Select(s, Positions(s, keep))
  {
    if |s| > 0 {
      var init := s[..|s| - 1];
      var last := s[|s| - 1];
      FilterIsSelection(init, keep);
      var pos := Positions(init, keep);
      assert Select(s, pos) == Select(init, pos);
      if keep(last) {
        assert Positions(s, keep) == pos + [|s| - 1];
        assert Select(s, pos + [|s| - 1]) == Select(s, pos) + [last];
      } else {
        assert Positions(s, keep) == pos;
      }
    }
  }

}
