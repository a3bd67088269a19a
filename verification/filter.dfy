/** The probabilistic membership filter (a cuckoo filter in the program),
    kept abstract: the model fixes the shape of its two operations and never
    their answers. In particular nothing here promises that an inserted item
    is later found. */
module Filter {
  import opened Wrappers
  import opened BigEndian

  /** `Insert` mutates the filter in place and reports whether the item was
      stored. A failed insert may already have moved items around, so it
      yields a state as well. */
  type Inserter<!F> = (F, Bytes) -> (bool, F)

  /** `Lookup` answers a membership query without changing the filter. */
  type Lookup<-F> = (F, Bytes) -> bool

  /** The filter after inserting `items` one by one, in order, starting from
      `f`; None as soon as one insert reports failure. */
  function InsertAll<F>(insert: Inserter<F>, f: F, items: seq<Bytes>): Option<F>
  {
    if |items| == 0 then Some(f)
    else
      match InsertAll(insert, f, items[..|items| - 1])
      case None => None
      case Some(g) =>
        var (stored, g') := insert(g, items[|items| - 1]);
        if stored then Some(g') else None
  }

  /** Once an insert has failed, inserting more items cannot recover. */
  lemma {:induction false} InsertAllFailurePersists<F>(insert: Inserter<F>, f: F, items: seq<Bytes>, k: nat)
    requires k <= |items|
    requires InsertAll(insert, f, items[..k]).None?
    ensures InsertAll(insert, f, items).None?
    decreases |items|
  {
    if k < |items| {
      var p := items[..|items| - 1];
      assert p[..k] == items[..k];
      InsertAllFailurePersists(insert, f, p, k);
    } else {
      assert items[..k] == items;
    }
  }

  /** The distinct items of a sequence. */
  function Members(items: seq<Bytes>): (r: set<Bytes>)
    ensures forall x :: x in r <==> x in items
  {
    set x | x in items
  }
}
