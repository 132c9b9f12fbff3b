/**
 * The process-wide table of geometry position lists, keyed by the list's
 * `String.hashCode()`. A list is stored only under a key not yet taken, so on a
 * hash collision the first list stays.
 */
module GeometryTables {
  import opened Results
  import opened Maps

  const TwoTo31: int := 0x8000_0000
  const TwoTo32: int := 0x1_0000_0000

  /** A Java `int`. */
  predicate IsInt32(x: int) {
    -TwoTo31 <= x < TwoTo31
  }

  /** Java's narrowing of an integer to `int`: the value modulo 2^32, in the signed range. */
  function WrapInt32(x: int): (r: int)
    ensures IsInt32(r) && (r - x) % TwoTo32 == 0
  {
    (x + TwoTo31) % TwoTo32 - TwoTo31
  }

  /** `String.hashCode()`: h = 31 * h + c over the characters, in 32-bit arithmetic. */
  function StringHash(s: string): (h: int)
    ensures IsInt32(h)
  {
    if s == [] then 0 else WrapInt32(31 * StringHash(s[..|s| - 1]) + s[|s| - 1] as int)
  }

  /** `getHash(posList)`: 0 for null, the string's hash code otherwise. */
  function GetHash(posList: Option<string>): (h: int)
    ensures IsInt32(h)
    ensures posList.None? ==> h == 0
  {
    if posList.None? then 0 else StringHash(posList.value)
  }

  /** Short strings hash without wrapping: two characters give 31 * c0 + c1. */
  lemma HashOfTwo(a: char, b: char)
    requires a as int < 0x10000 && b as int < 0x10000
    ensures StringHash([a, b]) == 31 * (a as int) + b as int
  {
    assert [a, b][..1] == [a];
    assert [a][..0] == [];
    WrapInRange(a as int);
    assert StringHash([a]) == a as int;
    WrapInRange(31 * (a as int) + b as int);
  }

  /** An integer already in the `int` range is not changed by narrowing. */
  lemma WrapInRange(x: int)
    requires IsInt32(x)
    ensures WrapInt32(x) == x
  {
    assert 0 <= x + TwoTo31 < TwoTo32;
  }

  /** "Aa" and "BB" collide: both hash to 2112. */
  lemma AaBbCollide()
    ensures StringHash("Aa") == StringHash("BB") == 2112
  {
    HashOfTwo('A', 'a');
    HashOfTwo('B', 'B');
  }

  class GeometryHashMap {
    /** Hash code to the position list first stored under it (null for a null list). */
    var geometryInfo: map<int, Option<string>>

    /** The empty table of a fresh class load. */
    constructor ()
      ensures geometryInfo == map[]
    {
      geometryInfo := map[];
    }

    /** `addGeometry(posList)`: returns the hash; stores the list only if the hash is not a key yet. */
    method AddGeometry(posList: Option<string>) returns (key: int)
      modifies this
      ensures key == GetHash(posList) && IsInt32(key)
      ensures geometryInfo == PutIfAbsent(old(geometryInfo), key, posList)
      ensures ContainsKey(key)
      ensures ContainsValue(posList) <==> old(ContainsValue(posList)) || !old(ContainsKey(key))
    {
      key := GetHash(posList);
      if !ContainsKey(key) {
        geometryInfo := geometryInfo[key := posList];
      }
    }

    /**
     * `delGeometry(posList)`: `remove` is given the String itself, which never
     * equals an Integer key, so nothing is removed.
     */
    method DelGeometry(posList: Option<string>)
      modifies this
      ensures geometryInfo == old(geometryInfo)
    {
    }

    /** `getGeometry(key)`: the stored list, or null when the key is absent. */
    function GetGeometry(key: int): (r: Option<string>)
      reads this
      ensures key !in geometryInfo ==> r.None?
      ensures key in geometryInfo ==> r == geometryInfo[key]
    {
      if key in geometryInfo then geometryInfo[key] else None
    }

    /** `getGeometrySize()`. */
    function GetGeometrySize(): nat
      reads this
    {
      |geometryInfo|
    }

    /** `containsKey(key)`. */
    predicate ContainsKey(key: int)
      reads this
    {
      key in geometryInfo
    }

    /** `containsValue(posList)`: some key holds the list (null included). */
    predicate ContainsValue(posList: Option<string>)
      reads this
    {
      posList in geometryInfo.Values
    }

    /** `clearList()`: the table is empty. */
    method ClearList()
      modifies this
      ensures geometryInfo == map[] && GetGeometrySize() == 0
    {
      geometryInfo := map[];
    }
  }

  /** Adding grows the table by at most one entry, and adding the same list again changes nothing. */
  lemma AddSizes(m: map<int, Option<string>>, posList: Option<string>)
    ensures var n := PutIfAbsent(m, GetHash(posList), posList);
      |n| == (if GetHash(posList) in m then |m| else |m| + 1) &&
      PutIfAbsent(n, GetHash(posList), posList) == n
  {
    var k := GetHash(posList);
    if k !in m {
      assert m[k := posList].Keys == m.Keys + {k};
    }
  }

  /** After "Aa" then "BB" the table holds one entry, "Aa", under 2112: the colliding list is dropped. */
  lemma CollisionKeepsFirst()
    ensures var m := PutIfAbsent(PutIfAbsent(map[], GetHash(Some("Aa")), Some("Aa")), GetHash(Some("BB")), Some("BB"));
      m == map[2112 := Some("Aa")] && Some("BB") !in m.Values
  {
    AaBbCollide();
    var m := map[2112 := Some("Aa")];
    forall v | v in m.Values
      ensures v == Some("Aa")
    {
      var k :| k in m && m[k] == v;
    }
    assert "BB"[0] != "Aa"[0];
  }
}
