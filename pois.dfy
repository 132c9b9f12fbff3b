/** A list of POI-like objects, appended to in order; `get` past the end answers null. */
module PoiLists {
  import opened Results

  class POIS<T> {
    var pois: seq<T>

    /** `new POIS()`: empty. */
    constructor ()
      ensures pois == [] && Size() == 0
    {
      pois := [];
    }

    /** `add(t)`: appended at the end. */
    method Add(t: T)
      modifies this
      ensures pois == old(pois) + [t]
      ensures Size() == old(Size()) + 1 && pois[Size() - 1] == t
    {
      pois := pois + [t];
    }

    /** `size()`. */
    function Size(): nat
      reads this
    {
      |pois|
    }

    /** `getList()`: the elements in insertion order. */
    function GetList(): seq<T>
      reads this
    {
      pois
    }

    /** `get(i)`: the i-th element below the size, null at or above it; a negative index throws. */
    method Get(i: int) returns (r: Result<Option<T>>)
      ensures 0 <= i < Size() ==> r == Ok(Some(pois[i]))
      ensures i >= Size() ==> r == Ok(None)
      ensures i < 0 ==> r == Fail(IndexOutOfBounds)
    {
      if i < |pois| {
        if i < 0 {
          return Fail(IndexOutOfBounds);
        }
        return Ok(Some(pois[i]));
      }
      return Ok(None);
    }
  }
}
