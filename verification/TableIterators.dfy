/** The in-memory sorted source fed to the merge (`TableIterator`). */
module TableIterators {
  import opened Options
  import opened Bytes
  import opened Rows

  /** A cursor over a `BTreeMap`: the row under the cursor and those after it. */
  class TableIterator {
    var current: Option<Row<Bytes>>
    var inner: seq<Row<Bytes>>

    /** The rows still to be read, the current one first. */
    ghost function Rest(): (rows: seq<Row<Bytes>>)
      reads this
    {
      if current.Some? then [current.value] + inner else []
    }

    ghost predicate Valid()
      reads this
    {
      current.None? ==> inner == []
    }

    constructor (data: seq<Row<Bytes>>)
      ensures Valid() && Rest() == data
    {
      current := if data == [] then None else Some(data[0]);
      inner := if data == [] then [] else data[1..];
    }

    predicate IsValid()
      reads this
      ensures Valid() ==> (IsValid() <==> Rest() != [])
    {
      current.Some?
    }

    function Key(): (key: Bytes)
      reads this
      ensures IsValid() ==> key == Rest()[0].key
    {
      if current.Some? then current.value.key else []
    }

    function Value(): (value: Bytes)
      reads this
      ensures IsValid() ==> value == Rest()[0].value
    {
      if current.Some? then current.value.value else []
    }

    method Next()
      requires Valid()
      modifies this
      ensures Valid()
      ensures Rest() == if old(Rest()) == [] then [] else old(Rest())[1..]
    {
      assert current.Some? ==> inner == Rest()[1..];
      if inner == [] {
        current := None;
      } else {
        current, inner := Some(inner[0]), inner[1..];
      }
      assert old(current).Some? ==> Rest() == old(Rest())[1..];
    }

    /** Advances to the first row at or above `key`; never moves backwards. */
    method Seek(key: Bytes)
      requires Valid()
      modifies this
      ensures Valid()
      ensures Rest() == DropBelow(old(Rest()), key)
    {
      while IsValid() && Less(Key(), key)
        invariant Valid()
        invariant DropBelow(Rest(), key) == DropBelow(old(Rest()), key)
        decreases |Rest()|
      {
        Next();
      }
    }
  }
}
