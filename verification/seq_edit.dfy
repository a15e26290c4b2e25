/** The three list edits every section form performs on its array of entries,
    written the way the forms write them: spread-and-append, `Array.prototype.map`
    with an index test, and `Array.prototype.filter` with an index test. Both
    callbacks compare the element's index with a caller-supplied number, so an
    index outside the list simply matches nothing. */
module SeqEdit {

  /** `[...s, x]`. */
  function Append<T>(s: seq<T>, x: T): (r: seq<T>)
    ensures |r| == |s| + 1
    ensures r[..|s|] == s
    ensures r[|s|] == x
  {
    s + [x]
  }

  /** `s.map((item, j) => j === i ? f(item) : item)`, element by element. */
  function MapAt<T>(s: seq<T>, i: int, f: T -> T): (r: seq<T>)
    ensures |r| == |s|
    ensures forall j :: 0 <= j < |s| && j != i ==> r[j] == s[j]
    ensures 0 <= i < |s| ==> r[i] == f(s[i])
    decreases |s|
  {
    if |s| == 0 then []
    else
      var last := |s| - 1;
      MapAt(s[..last], i, f) + [if last == i then f(s[last]) else s[last]]
  }

  /** `s.filter((_, j) => j !== i)`, element by element. */
  function RemoveAt<T>(s: seq<T>, i: int): (r: seq<T>)
    ensures 0 <= i < |s| ==> r == s[..i] + s[i + 1..]
    ensures !(0 <= i < |s|) ==> r == s
    decreases |s|
  {
    if |s| == 0 then []
    else
      var last := |s| - 1;
      RemoveAt(s[..last], i) + (if last == i then [] else [s[last]])
  }

  /** Appending and then filtering out the new last index gives back the
      original list. */
  lemma RemoveAppended<T>(s: seq<T>, x: T)
    ensures RemoveAt(Append(s, x), |s|) == s
  {
    assert Append(s, x)[..|s|] == s;
  }

  /** Removal keeps the order of the survivors: those before `i` keep their
      index, those after move down by one. */
  lemma RemoveAtShifts<T>(s: seq<T>, i: int)
    requires 0 <= i < |s|
    ensures |RemoveAt(s, i)| == |s| - 1
    ensures forall j :: 0 <= j < i ==> RemoveAt(s, i)[j] == s[j]
    ensures forall j :: i <= j < |s| - 1 ==> RemoveAt(s, i)[j] == s[j + 1]
  {
  }
}
