/** A category with sub-categories; the list of sub-categories is created on the first add. */
module Categories {
  import opened Results

  class Category {
    /** null until the first `addCategory`. */
    var subCategories: Option<seq<Category>>

    /** `new Category()`: no list yet. */
    constructor ()
      ensures subCategories.None? && GetNumCategories() == 0 && !HasSubCategories()
    {
      subCategories := None;
    }

    /** `addCategory(c)`: creates the list if needed, then appends. */
    method AddCategory(c: Category)
      modifies this
      ensures subCategories == Some(old(Children()) + [c])
      ensures GetNumCategories() == old(GetNumCategories()) + 1 && HasSubCategories()
    {
      if subCategories.None? {
        subCategories := Some([]);
      }
      subCategories := Some(subCategories.value + [c]);
    }

    /** The sub-categories added so far, the missing list read as empty. */
    function Children(): seq<Category>
      reads this
    {
      if subCategories.None? then [] else subCategories.value
    }

    /** `getNumCategories()`: 0 without a list, its size otherwise. */
    function GetNumCategories(): (n: nat)
      reads this
      ensures n == |Children()|
    {
      if subCategories.None? then 0 else |subCategories.value|
    }

    /** `hasSubCategories()`. */
    predicate HasSubCategories()
      reads this
    {
      GetNumCategories() > 0
    }

    /**
     * `getCategory(i)`: null while there is no list; afterwards `List.get`,
     * which throws outside the list.
     */
    method GetCategory(i: int) returns (r: Result<Option<Category>>)
      ensures subCategories.None? ==> r == Ok(None)
      ensures subCategories.Some? && 0 <= i < GetNumCategories() ==> r == Ok(Some(Children()[i]))
      ensures subCategories.Some? && !(0 <= i < GetNumCategories()) ==> r == Fail(IndexOutOfBounds)
    {
      if subCategories.None? {
        return Ok(None);
      }
      var list := subCategories.value;
      if 0 <= i < |list| {
        return Ok(Some(list[i]));
      }
      return Fail(IndexOutOfBounds);
    }
  }

  /** A category has sub-categories exactly when its count is positive, and the count is the list's length. */
  lemma HasSubCategoriesIffCount(c: Category)
    ensures c.HasSubCategories() <==> c.Children() != []
  {
  }
}
