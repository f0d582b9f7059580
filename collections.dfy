/**
 * A stand-in for the .NET `List<T>` that the core mutates in place: a reference
 * to a growable sequence. Two variables that hold the same `List` see each
 * other's updates, as in the source.
 */
module Collections {

  class List<T> {
    var elements: seq<T>

    /** `new List<T>()` */
    constructor ()
      ensures elements == []
    {
      elements := [];
    }

    /** `new List<T>(collection)`: a fresh list holding a copy of the elements. */
    constructor Copy(s: seq<T>)
      ensures elements == s
    {
      elements := s;
    }

    function Count(): nat
      reads this
    {
      |elements|
    }

    method Add(x: T)
      modifies this
      ensures elements == old(elements) + [x]
    {
      elements := elements + [x];
    }

    /** `List.Insert`: the callers in the core always pass an index in `[0, Count]`. */
    method Insert(index: nat, x: T)
      requires index <= |elements|
      modifies this
      ensures elements == old(elements)[..index] + [x] + old(elements)[index..]
    {
      elements := elements[..index] + [x] + elements[index..];
    }

    method Clear()
      modifies this
      ensures elements == []
    {
      elements := [];
    }
  }

  /**
   * `List.IndexOf`: the first position whose element `eq`-matches `x`, or -1.
   * `eq` is the element type's own `Equals`, called as `element.Equals(x)`.
   */
  function IndexOf<T>(s: seq<T>, x: T, eq: (T, T) -> bool): (r: int)
    ensures -1 <= r < |s|
    ensures r == -1 <==> forall j :: 0 <= j < |s| ==> !eq(s[j], x)
    ensures 0 <= r ==> eq(s[r], x) && forall j :: 0 <= j < r ==> !eq(s[j], x)
  {
    if s == [] then -1
    else if eq(s[0], x) then 0
    else
      var k := IndexOf(s[1..], x, eq);
      if k == -1 then -1 else k + 1
  }
}
