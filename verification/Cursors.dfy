/** A cursor over one sorted sequence of entries: what every internal Iterator is. */
module Cursors {
  import opened Keys
  import Lookup

  /** pos is None when the iterator is not Valid(). */
  datatype Cursor = Cursor(es: seq<Entry>, pos: Option<nat>)
  {
    predicate WellFormed()
    {
      Sorted(es) && (pos.Some? ==> pos.value < |es|)
    }

    predicate Valid()
    {
      pos.Some?
    }

    function Current(): Entry
      requires WellFormed() && Valid()
    {
      es[pos.value]
    }

    function SeekToFirst(): (c: Cursor)
      requires WellFormed()
      ensures c.WellFormed() && c.es == es
    {
      Cursor(es, if es == [] then None else Some(0))
    }

    function SeekToLast(): (c: Cursor)
      requires WellFormed()
      ensures c.WellFormed() && c.es == es
    {
      Cursor(es, if es == [] then None else Some(|es| - 1))
    }

    /** To the first entry at or after the target. */
    function Seek(target: IKey): (c: Cursor)
      requires WellFormed()
      ensures c.WellFormed() && c.es == es
    {
      var i := Lookup.FirstAtLeast(es, target);
      Cursor(es, if i < |es| then Some(i) else None)
    }

    function Next(): (c: Cursor)
      requires WellFormed() && Valid()
      ensures c.WellFormed() && c.es == es
    {
      Cursor(es, if pos.value + 1 < |es| then Some(pos.value + 1) else None)
    }

    function Prev(): (c: Cursor)
      requires WellFormed() && Valid()
      ensures c.WellFormed() && c.es == es
    {
      Cursor(es, if pos.value > 0 then Some(pos.value - 1) else None)
    }
  }
}
