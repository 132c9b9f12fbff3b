/** A tag holding further tags; the list is created on the first add. */
module Tags {
  import opened Results

  class Tag {
    /** null until the first `addTag`. */
    var tags: Option<seq<Tag>>

    /** `new Tag()`: no list yet. */
    constructor ()
      ensures tags.None? && GetNumTags() == 0
    {
      tags := None;
    }

    /** `getTags()`: the list, or null before the first add. */
    function GetTags(): Option<seq<Tag>>
      reads this
    {
      tags
    }

    /** `addTag(t)`: creates the list if needed, then appends. */
    method AddTag(t: Tag)
      modifies this
      ensures tags == Some((if old(tags).None? then [] else old(tags).value) + [t])
      ensures GetNumTags() == old(GetNumTags()) + 1
    {
      if tags.None? {
        tags := Some([]);
      }
      tags := Some(tags.value + [t]);
    }

    /** `getNumTags()`: 0 without a list, its size otherwise. */
    function GetNumTags(): (n: nat)
      reads this
      ensures tags.None? ==> n == 0
      ensures tags.Some? ==> n == |tags.value|
    {
      if tags.None? then 0 else |tags.value|
    }

    /**
     * `getTag(i)`: the i-th tag below the count and null at or above it. A
     * negative index reaches `tags.get(i)`: a null list throws
     * NullPointerException, a list IndexOutOfBoundsException.
     */
    method GetTag(i: int) returns (r: Result<Option<Tag>>)
      ensures 0 <= i < GetNumTags() ==> tags.Some? && r == Ok(Some(tags.value[i]))
      ensures i >= GetNumTags() ==> r == Ok(None)
      ensures i < 0 && tags.None? ==> r == Fail(NullPointer)
      ensures i < 0 && tags.Some? ==> r == Fail(IndexOutOfBounds)
    {
      if i < GetNumTags() {
        if tags.None? {
          return Fail(NullPointer);
        }
        if i < 0 {
          return Fail(IndexOutOfBounds);
        }
        return Ok(Some(tags.value[i]));
      }
      return Ok(None);
    }
  }
}
