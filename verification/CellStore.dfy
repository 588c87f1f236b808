/** Memory as a store of cells: allocation, and giving back what has been allocated since a point. */
module CellStore {

  /** All cells of `m` are in `g`, unchanged. */
  ghost predicate Extends<C>(m: map<nat, C>, g: map<nat, C>) {
    forall a | a in m :: a in g && g[a] == m[a]
  }

  /** Whatever is not from before has been allocated from `ap` on. */
  ghost predicate Grew<C>(before: map<nat, C>, ap: nat, cells: map<nat, C>, next: nat) {
    ap <= next && (forall a | a in before :: a in cells) && forall a | a in cells && a !in before :: ap <= a
  }

  lemma GrewOn<C>(first: map<nat, C>, ap: nat, before: map<nat, C>, mid: nat, cells: map<nat, C>, next: nat)
    requires Grew(first, ap, before, mid) && Grew(before, mid, cells, next)
    ensures Grew(first, ap, cells, next)
  {
  }

  lemma ExtendsOn<C>(m: map<nat, C>, g: map<nat, C>, h: map<nat, C>)
    requires Extends(m, g) && Extends(g, h)
    ensures Extends(m, h)
  {
  }

  class Store<C> {
    var cells: map<nat, C>
    var next: nat

    /** Cells have addresses below the allocation point, and none is at the null pointer. */
    predicate Valid()
      reads this
    {
      next > 0 && 0 !in cells && forall a | a in cells :: a < next
    }

    constructor ()
      ensures Valid() && cells == map[]
    {
      cells, next := map[], 1;
    }

    /** `allocate`, with the words filled in. */
    method Allocate(c: C) returns (p: nat)
      requires Valid()
      modifies this
      ensures Valid() && p == old(next) > 0 && p !in old(cells)
      ensures cells == old(cells)[p := c] && Extends(old(cells), cells)
      ensures Grew(old(cells), old(next), cells, next)
    {
      p := next;
      cells, next := cells[p := c], next + 1;
    }

    /** `restore_allocation_point`: all that was allocated since is gone. */
    method Restore(ap: nat, ghost before: map<nat, C>)
      requires Valid() && 0 < ap && Extends(before, cells) && Grew(before, ap, cells, next)
      requires forall a | a in before :: a < ap
      modifies this
      ensures Valid() && cells == before && next == ap
    {
      assert forall a | a in cells :: a in before <==> a < ap;
      cells, next := map a | a in cells && a < ap :: cells[a], ap;
    }
  }
}
