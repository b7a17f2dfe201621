/** Optional values and the filter that keeps the present ones. */
module Wrappers {
  datatype Option<+T> = None | Some(value: T)

  /** The zero- or one-element sequence holding the value, if any. */
  function OptionToSeq<T>(o: Option<T>): (r: seq<T>)
    ensures |r| <= 1
    ensures o.None? <==> r == []
    ensures o.Some? ==> r == [o.value]
  {
    match o
    case None => []
    case Some(v) => [v]
  }

  /** The values present in `os`, in order. */
  function Somes<T>(os: seq<Option<T>>): (r: seq<T>)
    ensures |r| <= |os|
  {
    if os == [] then []
    else
      var n := |os| - 1;
      Somes(os[..n]) + OptionToSeq(os[n])
  }

  /** The positions of the present values in `os`, ascending. */
  function SomeIndices<T>(os: seq<Option<T>>): (r: seq<nat>)
    ensures forall k :: 0 <= k < |r| ==> r[k] < |os| && os[r[k]].Some?
    ensures forall j, k :: 0 <= j < k < |r| ==> r[j] < r[k]
    ensures forall i :: 0 <= i < |os| && os[i].Some? ==> i in r
  {
    if os == [] then []
    else
      var n := |os| - 1;
      var front := SomeIndices(os[..n]);
      assert forall k :: 0 <= k < |front| ==> os[front[k]] == os[..n][front[k]];
      front + (if os[n].Some? then [n] else [])
  }

  /** `Somes` keeps exactly the present values, in order: its k-th
      element is the value at the k-th present position. */
  lemma {:induction false} SomesKeeps<T>(os: seq<Option<T>>)
    ensures var r, idx := Somes(os), SomeIndices(os);
            |r| == |idx| &&
            forall k :: 0 <= k < |r| ==> r[k] == os[idx[k]].value
  {
    if os != [] {
      var n := |os| - 1;
      SomesKeeps(os[..n]);
      var front, idx := Somes(os[..n]), SomeIndices(os[..n]);
      var r, tail := Somes(os), OptionToSeq(os[n]);
      assert r == front + tail;
      assert SomeIndices(os) == idx + (if os[n].Some? then [n] else []);
      forall k | 0 <= k < |front|
        ensures r[k] == os[SomeIndices(os)[k]].value
      {
        assert os[idx[k]] == os[..n][idx[k]];
      }
    }
  }

  /** Indexing into a concatenation. */
  lemma ConcatIndex<T>(x: seq<T>, y: seq<T>, i: nat)
    requires i < |x| + |y|
    ensures (x + y)[i] == if i < |x| then x[i] else y[i - |x|]
  {
  }

  lemma AppendAssoc<T>(a: seq<T>, b: seq<T>, c: seq<T>)
    ensures (a + b) + c == a + (b + c)
  {
  }
}
