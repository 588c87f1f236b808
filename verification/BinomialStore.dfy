/** priq.c on its cells: heaps are built by allocating cells and by overwriting cells that
    the same call allocated; every older cell stays as it was. */
module BinomialStore {
  import opened BinomialHeap
  import opened BinomialCells

  /** The trees copied out so far: none, or a segment that ends in a cell of this call. */
  ghost predicate OutOk(cells: seq<Cell>, n: nat, p: nat, last: nat, out: Forest) {
    if out == Nil then p == 0 && last == 0
    else n <= last && IsSegment(cells, p, last, out) && last !in Inner(cells, p, last, out)
  }

  ghost function OutFoot(cells: seq<Cell>, n: nat, p: nat, last: nat, out: Forest): set<nat>
    requires OutOk(cells, n, p, last, out)
  {
    if out == Nil then {} else {last} + Inner(cells, p, last, out)
  }

  /** `pq_1`: its first root is a cell of this call that nothing else reaches, or its heights
      rise; all that follows is older than this call. */
  ghost predicate CarryOk(cells: seq<Cell>, n: nat, q: nat, f: Forest, out: set<nat>) {
    && IsForest(cells, q, f) && AllBinomial(f) && Carrying(f, 0)
    && (f.Tree? ==> AllBelow(Foot(cells, cells[q].next, f.next), n))
    && (f.Tree? && q >= n ==> q !in Foot(cells, cells[q].son, f.sons) && q !in out)
    && (q < n ==> Rising(f, 0))
  }

  /** `pq_2`: older than this call, heights rising. */
  ghost predicate OlderOk(cells: seq<Cell>, n: nat, q: nat, g: Forest) {
    IsForest(cells, q, g) && AllBelow(Foot(cells, q, g), n) && AllBinomial(g) && Rising(g, 0)
  }

  /** What linking the first two trees does to the cells, seen from outside. */
  ghost predicate Linked(before: seq<Cell>, after: seq<Cell>, n: nat, q: nat, f: Forest, r: nat, out: set<nat>)
    requires IsForest(before, q, f) && FirstTwoEqual(f)
  {
    && n <= |before| <= |after| && n <= q
    && (forall a | 0 <= a < |before| && a != q :: after[a] == before[a])
    && CarryOk(after, n, r, LinkFirstTwo(f), out)
    && (forall a | a in Foot(after, r, LinkFirstTwo(f)) :: a in Foot(before, q, f) || a >= |before|)
  }

  lemma CarriedIsFresh(cells: seq<Cell>, n: nat, q: nat, f: Forest, out: set<nat>)
    requires CarryOk(cells, n, q, f, out) && FirstTwoEqual(f)
    ensures q >= n && 0 < cells[q].next < n
    ensures IsForest(cells, cells[q].next, f.next)
    ensures cells[cells[q].next].item == f.next.item && cells[cells[q].next].height == f.next.height
    ensures IsForest(cells, cells[cells[q].next].son, f.next.sons)
    ensures IsForest(cells, cells[cells[q].next].next, f.next.next)
    ensures AllBelow(Foot(cells, cells[cells[q].next].son, f.next.sons), n)
    ensures Foot(cells, cells[cells[q].next].son, f.next.sons) <= Foot(cells, q, f)
    ensures Foot(cells, cells[cells[q].next].next, f.next.next) <= Foot(cells, q, f)
    ensures AllBelow(Foot(cells, cells[cells[q].next].next, f.next.next), n)
  {
    assert Rising(f, 0) ==> Rising(f.next, f.height + 1);
    assert IsForest(cells, cells[q].next, f.next);
    assert cells[q].next in Foot(cells, cells[q].next, f.next);
  }

  /** The cells after the first root has become the son: a new root, and a new next pointer. */
  ghost function FirstAsSon(before: seq<Cell>, q: nat, b: nat): seq<Cell>
    requires q < |before| && b < |before|
  {
    (before + [Cell(before[b].height + 1, before[b].item, q, before[b].next)])
    [q := Cell(before[q].height, before[q].item, before[q].son, before[b].son)]
  }

  lemma FirstAsSonForest(before: seq<Cell>, n: nat, q: nat, f: Forest, out: set<nat>)
    requires 0 < n <= |before| && CarryOk(before, n, q, f, out) && FirstTwoEqual(f)
    requires f.item > f.next.item && before[q].next < |before|
    ensures var after := FirstAsSon(before, q, before[q].next);
            && IsForest(after, |before|, LinkFirstTwo(f))
            && Foot(after, q, LinkFirstTwo(f).sons) <= Foot(before, q, f)
            && AllBelow(Foot(after, after[|before|].next, f.next.next), n)
            && Foot(after, after[|before|].next, f.next.next) <= Foot(before, q, f)
  {
    CarriedIsFresh(before, n, q, f, out);
    FootInside(before, q, f);
    var b := before[q].next;
    var after := FirstAsSon(before, q, b);
    Untouched(before, after, before[q].son, f.sons);
    Untouched(before, after, before[b].son, f.next.sons);
    Untouched(before, after, before[b].next, f.next.next);
    var son := Tree(f.height, f.item, f.sons, f.next.sons);
    assert IsForest(after, q, son);
    assert LinkFirstTwo(f) == Tree(f.next.height + 1, f.next.item, son, f.next.next);
  }

  /** The first root becomes the son: its next pointer is overwritten. */
  lemma FirstBecomesSon(before: seq<Cell>, n: nat, q: nat, f: Forest, out: set<nat>)
    requires 0 < n <= |before| && CarryOk(before, n, q, f, out) && FirstTwoEqual(f) && AllBelow(out, |before|)
    requires f.item > f.next.item && before[q].next < |before|
    ensures Linked(before, FirstAsSon(before, q, before[q].next), n, q, f, |before|, out)
  {
    CarriedIsFresh(before, n, q, f, out);
    FootInside(before, q, f);
    LinkFirstTwoKeeps(f, 0);
    FirstAsSonForest(before, n, q, f, out);
  }

  /** The second root becomes the son: a copy of it is made, and the first root is overwritten. */
  lemma SecondBecomesSon(before: seq<Cell>, n: nat, q: nat, f: Forest, out: set<nat>)
    requires 0 < n <= |before| && CarryOk(before, n, q, f, out) && FirstTwoEqual(f) && AllBelow(out, |before|)
    requires f.item <= f.next.item && before[q].next < |before|
    ensures var b := before[q].next;
            var after := (before + [Cell(before[b].height, before[b].item, before[b].son, before[q].son)])
                         [q := Cell(before[q].height + 1, before[q].item, |before|, before[b].next)];
            Linked(before, after, n, q, f, q, out)
  {
    CarriedIsFresh(before, n, q, f, out);
    FootInside(before, q, f);
    LinkFirstTwoKeeps(f, 0);
    var b := before[q].next;
    var after := (before + [Cell(before[b].height, before[b].item, before[b].son, before[q].son)])
                 [q := Cell(before[q].height + 1, before[q].item, |before|, before[b].next)];
    Untouched(before, after, before[q].son, f.sons);
    Untouched(before, after, before[b].son, f.next.sons);
    Untouched(before, after, before[b].next, f.next.next);
    assert IsForest(after, |before|, Tree(f.next.height, f.next.item, f.next.sons, f.sons));
  }

  /** The state of the loop of `merge`. */
  ghost predicate Merging(cells: seq<Cell>, n: nat, p: nat, last: nat, out: Forest, q1: nat, f: Forest, q2: nat, g: Forest) {
    && 0 < n <= |cells| && OutOk(cells, n, p, last, out)
    && CarryOk(cells, n, q1, f, OutFoot(cells, n, p, last, out))
    && OlderOk(cells, n, q2, g)
    && (out != Nil ==> last !in Foot(cells, q1, f))
  }

  lemma OutInside(cells: seq<Cell>, n: nat, p: nat, last: nat, out: Forest)
    requires OutOk(cells, n, p, last, out)
    ensures AllBelow(OutFoot(cells, n, p, last, out), |cells|)
    ensures out != Nil <==> last != 0
  {
    if out != Nil {
      InnerInside(cells, p, last, out);
    }
  }

  /** The copied trees are untouched when none of their cells is. */
  lemma OutUntouched(cells: seq<Cell>, after: seq<Cell>, n: nat, p: nat, last: nat, out: Forest)
    requires OutOk(cells, n, p, last, out) && |cells| <= |after|
    requires forall a | a in OutFoot(cells, n, p, last, out) && a < |cells| :: after[a] == cells[a]
    ensures OutOk(after, n, p, last, out) && OutFoot(after, n, p, last, out) == OutFoot(cells, n, p, last, out)
  {
    if out != Nil {
      InnerInside(cells, p, last, out);
      SegmentUntouched(cells, after, p, last, out);
    }
  }

  /** The cells after linking the first trees of two lists: a new root and a new son. */
  ghost function TwoLinked(before: seq<Cell>, a: nat, b: nat): seq<Cell>
    requires a < |before| && b < |before|
  {
    before + [Cell(before[a].height + 1, before[a].item, |before| + 1, before[a].next),
              Cell(before[b].height, before[b].item, before[b].son, before[a].son)]
  }

  lemma TwoLinkedForest(before: seq<Cell>, a: nat, f: Forest, b: nat, g: Forest)
    requires f.Tree? && g.Tree? && IsForest(before, a, f) && IsForest(before, b, g)
    ensures var after := TwoLinked(before, a, b);
            var m := |before|;
            && IsForest(after, m, Link(f, g, f.next))
            && Foot(after, m + 1, Link(f, g, f.next).sons)
               == {m + 1} + Foot(before, before[b].son, g.sons) + Foot(before, before[a].son, f.sons)
            && Foot(after, after[m].next, f.next) == Foot(before, before[a].next, f.next)
  {
    var after := TwoLinked(before, a, b);
    OlderKept(before, after, before[a].son, f.sons);
    OlderKept(before, after, before[b].son, g.sons);
    OlderKept(before, after, before[a].next, f.next);
    var son := Tree(g.height, g.item, g.sons, f.sons);
    assert IsForest(after, |before| + 1, son);
  }

  lemma LinkedCarries(before: seq<Cell>, n: nat, a: nat, f: Forest, b: nat, g: Forest, out: set<nat>)
    requires 0 < n <= |before| && AllBelow(out, |before|)
    requires f.Tree? && g.Tree? && f.height == g.height && f.item <= g.item
    requires IsForest(before, a, f) && AllBinomial(f) && Rising(f.next, f.height + 1)
    requires IsForest(before, b, g) && AllBinomial(g)
    requires AllBelow(Foot(before, before[a].next, f.next), n)
    ensures CarryOk(TwoLinked(before, a, b), n, |before|, Link(f, g, f.next), out)
  {
    TwoLinkedForest(before, a, f, b, g);
    TwoLinkedFoot(before, a, f, b, g);
    LinkKeeps(f, g, f.next);
  }

  /** Linking two first trees: the new root carries on in front of one list, the other goes on. */
  lemma EqualLinked(before: seq<Cell>, n: nat, p: nat, last: nat, out: Forest, a: nat, f: Forest, b: nat, g: Forest)
    requires 0 < n <= |before| && OutOk(before, n, p, last, out)
    requires f.Tree? && g.Tree? && f.height == g.height && f.item <= g.item
    requires IsForest(before, a, f) && AllBinomial(f) && Rising(f.next, f.height + 1)
    requires IsForest(before, b, g) && AllBinomial(g) && Rising(g.next, g.height + 1)
    requires AllBelow(Foot(before, before[a].next, f.next), n) && AllBelow(Foot(before, before[b].next, g.next), n)
    requires out != Nil ==> last !in Foot(before, a, f) && last !in Foot(before, b, g)
    ensures Merging(TwoLinked(before, a, b), n, p, last, out, |before|, Link(f, g, f.next), before[b].next, g.next)
  {
    OutInside(before, n, p, last, out);
    LinkedCarries(before, n, a, f, b, g, OutFoot(before, n, p, last, out));
    LinkedOut(before, n, p, last, out, a, f, b, g);
    LinkedGoesOn(before, n, a, b, g);
  }

  lemma LinkedOut(before: seq<Cell>, n: nat, p: nat, last: nat, out: Forest, a: nat, f: Forest, b: nat, g: Forest)
    requires OutOk(before, n, p, last, out)
    requires f.Tree? && g.Tree? && IsForest(before, a, f) && IsForest(before, b, g)
    requires IsForest(TwoLinked(before, a, b), |before|, Link(f, g, f.next))
    requires out != Nil ==> last !in Foot(before, a, f) && last !in Foot(before, b, g)
    ensures var after := TwoLinked(before, a, b);
            && OutOk(after, n, p, last, out) && OutFoot(after, n, p, last, out) == OutFoot(before, n, p, last, out)
            && (out != Nil ==> last !in Foot(after, |before|, Link(f, g, f.next)))
  {
    OutInside(before, n, p, last, out);
    OutUntouched(before, TwoLinked(before, a, b), n, p, last, out);
    TwoLinkedFoot(before, a, f, b, g);
  }

  lemma LinkedGoesOn(before: seq<Cell>, n: nat, a: nat, b: nat, g: Forest)
    requires a < |before| && g.Tree? && IsForest(before, b, g) && AllBinomial(g) && Rising(g.next, g.height + 1)
    requires AllBelow(Foot(before, before[b].next, g.next), n)
    ensures OlderOk(TwoLinked(before, a, b), n, before[b].next, g.next)
  {
    OlderKept(before, TwoLinked(before, a, b), before[b].next, g.next);
    RisingFrom(g.next, g.height + 1, 0);
  }

  lemma PartsOfFoot(cells: seq<Cell>, p: nat, f: Forest)
    requires f.Tree? && IsForest(cells, p, f)
    ensures Foot(cells, cells[p].son, f.sons) <= Foot(cells, p, f)
    ensures Foot(cells, cells[p].next, f.next) <= Foot(cells, p, f)
    ensures |cells| !in Foot(cells, p, f)
  {
    FootInside(cells, p, f);
  }

  lemma TwoLinkedFoot(before: seq<Cell>, a: nat, f: Forest, b: nat, g: Forest)
    requires f.Tree? && g.Tree? && IsForest(before, a, f) && IsForest(before, b, g)
    requires IsForest(TwoLinked(before, a, b), |before|, Link(f, g, f.next))
    ensures var after := TwoLinked(before, a, b);
            var m := |before|;
            && Foot(after, m, Link(f, g, f.next)) <= {m, m + 1} + Foot(before, a, f) + Foot(before, b, g)
            && m !in Foot(after, after[m].son, Link(f, g, f.next).sons)
  {
    TwoLinkedForest(before, a, f, b, g);
    PartsOfFoot(before, a, f);
    PartsOfFoot(before, b, g);
  }

  /** After the carried trees have been linked the loop goes on as before. */
  lemma CarryLinked(before: seq<Cell>, after: seq<Cell>, n: nat, p: nat, last: nat, out: Forest,
                    q: nat, f: Forest, r: nat, q2: nat, g: Forest)
    requires Merging(before, n, p, last, out, q, f, q2, g) && FirstTwoEqual(f)
    requires Linked(before, after, n, q, f, r, OutFoot(before, n, p, last, out))
    ensures Merging(after, n, p, last, out, r, LinkFirstTwo(f), q2, g)
    ensures forall a | 0 <= a < n :: after[a] == before[a]
  {
    OutInside(before, n, p, last, out);
    OutUntouched(before, after, n, p, last, out);
    Untouched(before, after, q2, g);
  }

  /** After the first tree of `pq_1` has been copied out, what follows it is older than this call. */
  lemma FirstCopied(before: seq<Cell>, after: seq<Cell>, n: nat, p: nat, last: nat, out: Forest,
                    q: nat, f: Forest, q2: nat, g: Forest, start: nat, end: nat)
    requires Merging(before, n, p, last, out, q, f, q2, g) && f.Tree? && !FirstTwoEqual(f)
    requires end == |before| < |after| && forall a | 0 <= a < |before| && (a != last || out == Nil) :: after[a] == before[a]
    requires OutOk(after, n, start, end, Append(out, f.(next := Nil)))
    ensures Merging(after, n, start, end, Append(out, f.(next := Nil)), before[q].next, f.next, q2, g)
  {
    CarriedRises(f);
    NextIsOlder(before, n, q, f);
    OlderUntouched(before, after, n, last, out, before[q].next, f.next);
    OlderUntouched(before, after, n, last, out, q2, g);
    FootInside(before, q, f);
    NextFoots(after, n, before[q].next, f.next);
  }

  /** What is older than the call is not reached by the changes of the call. */
  lemma OlderUntouched(before: seq<Cell>, after: seq<Cell>, n: nat, last: nat, out: Forest, q: nat, g: Forest)
    requires IsForest(before, q, g) && AllBelow(Foot(before, q, g), n) && (out != Nil ==> n <= last)
    requires |before| <= |after|
    requires forall a | 0 <= a < |before| && (a != last || out == Nil) :: after[a] == before[a]
    ensures IsForest(after, q, g) && Foot(after, q, g) == Foot(before, q, g)
  {
    Untouched(before, after, q, g);
  }

  lemma NextFoots(cells: seq<Cell>, n: nat, q: nat, f: Forest)
    requires IsForest(cells, q, f) && AllBelow(Foot(cells, q, f), n)
    ensures f.Tree? ==> AllBelow(Foot(cells, cells[q].next, f.next), n)
  {
  }

  lemma NextIsOlder(cells: seq<Cell>, n: nat, q: nat, f: Forest)
    requires f.Tree? && IsForest(cells, q, f) && 0 < n && AllBelow(Foot(cells, cells[q].next, f.next), n)
    requires Rising(f.next, f.height + 1)
    ensures cells[q].next < n && Carrying(f.next, 0)
  {
    if f.next.Tree? {
      assert cells[q].next in Foot(cells, cells[q].next, f.next);
      RisingFrom(f.next.next, f.next.height + 1, f.next.height);
    }
  }

  /** After the first tree of `pq_2` has been copied out. */
  lemma SecondCopied(before: seq<Cell>, after: seq<Cell>, n: nat, p: nat, last: nat, out: Forest,
                     q: nat, f: Forest, q2: nat, g: Forest, start: nat, end: nat)
    requires Merging(before, n, p, last, out, q, f, q2, g) && g.Tree?
    requires end == |before| < |after| && forall a | 0 <= a < |before| && (a != last || out == Nil) :: after[a] == before[a]
    requires OutOk(after, n, start, end, Append(out, g.(next := Nil)))
    requires OutFoot(after, n, start, end, Append(out, g.(next := Nil)))
             == OutFoot(before, n, p, last, out) + {end} + Foot(before, before[q2].son, g.sons)
    ensures Merging(after, n, start, end, Append(out, g.(next := Nil)), q, f, before[q2].next, g.next)
  {
    OutInside(before, n, p, last, out);
    FootInside(before, q, f);
    FootInside(before, q2, g);
    RisingFrom(g.next, g.height + 1, 0);
    Untouched(before, after, q, f);
    if f.Tree? {
      Untouched(before, after, before[q].son, f.sons);
      Untouched(before, after, before[q].next, f.next);
    }
    Untouched(before, after, before[q2].next, g.next);
  }

  lemma StartMerging(cells: seq<Cell>, q1: nat, f: Forest, q2: nat, g: Forest)
    requires |cells| > 0 && IsForest(cells, q1, f) && IsForest(cells, q2, g) && Valid(f) && Valid(g)
    ensures Merging(cells, |cells|, 0, 0, Nil, q1, f, q2, g)
  {
    FootInside(cells, q1, f);
    FootInside(cells, q2, g);
    if f.Tree? {
      FootInside(cells, cells[q1].next, f.next);
      RisingFrom(f.next, f.height + 1, f.height);
    }
  }

  /** The test of the source for two trees of one height. */
  lemma NextInside(cells: seq<Cell>, q: nat, f: Forest)
    requires f.Tree? && IsForest(cells, q, f)
    ensures cells[q].next < |cells| || cells[q].next == 0
    ensures FirstTwoEqual(f) <==> cells[q].next != 0 && cells[q].height == cells[cells[q].next].height
  {
    assert IsForest(cells, cells[q].next, f.next);
  }

  class Store {
    var cells: seq<Cell>

    constructor ()
      ensures cells == [Cell(0, 0, 0, 0)]
    {
      cells := [Cell(0, 0, 0, 0)];
    }

    /** `allocate`, with the words filled in. */
    method Allocate(c: Cell) returns (p: nat)
      modifies this
      ensures p == |old(cells)| && cells == old(cells) + [c]
    {
      p := |cells|;
      cells := cells + [c];
    }

    /** Link the first two trees of `pq_1` (merge, lines 117-145 and 206-233). */
    method LinkCarried(q: nat, ghost n: nat, ghost f: Forest, ghost out: set<nat>) returns (r: nat)
      requires 0 < n <= |cells| && CarryOk(cells, n, q, f, out) && FirstTwoEqual(f) && AllBelow(out, |cells|)
      modifies this
      ensures Linked(old(cells), cells, n, q, f, r, out)
    {
      CarriedIsFresh(cells, n, q, f, out);
      var b := cells[q].next;
      if cells[q].item > cells[b].item {
        FirstBecomesSon(cells, n, q, f, out);
        r := Allocate(Cell(cells[b].height + 1, cells[b].item, q, cells[b].next));
        cells := cells[q := Cell(cells[q].height, cells[q].item, cells[q].son, cells[b].son)];
      } else {
        SecondBecomesSon(cells, n, q, f, out);
        var tmp := Allocate(Cell(cells[b].height, cells[b].item, cells[b].son, cells[q].son));
        cells := cells[q := Cell(cells[q].height + 1, cells[q].item, tmp, cells[b].next)];
        r := q;
      }
    }

    /** Copy the first tree of a list to the end of the new list (merge, lines 147-153 and 155-161). */
    method CopyOut(q: nat, p: nat, last: nat, ghost n: nat, ghost f: Forest, ghost out: Forest) returns (start: nat, end: nat)
      requires 0 < n <= |cells| && OutOk(cells, n, p, last, out)
      requires f.Tree? && IsForest(cells, q, f) && (out != Nil ==> last !in Foot(cells, cells[q].son, f.sons))
      modifies this
      ensures end == |old(cells)| < |cells|
      ensures forall a | 0 <= a < |old(cells)| && (a != last || out == Nil) :: cells[a] == old(cells)[a]
      ensures OutOk(cells, n, start, end, Append(out, f.(next := Nil)))
      ensures OutFoot(cells, n, start, end, Append(out, f.(next := Nil)))
              == old(OutFoot(cells, n, p, last, out)) + {end} + old(Foot(cells, cells[q].son, f.sons))
    {
      ghost var before := cells;
      FootInside(cells, cells[q].son, f.sons);
      var tmp := Allocate(cells[q]);
      Untouched(before, cells, before[q].son, f.sons);
      if last == 0 {
        start := tmp;
        assert out == Nil by {
          if out != Nil {
            InnerInside(before, p, last, out);
          }
        }
      } else {
        start := p;
        InnerInside(before, p, last, out);
        SegmentUntouched(before, cells, p, last, out);
        ExtendSegment(cells, p, last, out, tmp, f.sons);
        cells := cells[last := cells[last].(next := tmp)];
      }
      end := tmp;
    }

    /** Set the open pointer of the new list to what is left (merge, lines 194-198 and 236-239). */
    method Close(p: nat, last: nat, q: nat, ghost n: nat, ghost out: Forest, ghost f: Forest) returns (start: nat)
      requires 0 < n <= |cells| && OutOk(cells, n, p, last, out)
      requires IsForest(cells, q, f) && (out != Nil ==> last !in Foot(cells, q, f))
      modifies this
      ensures |cells| == |old(cells)| && forall a | 0 <= a < |cells| && a < n :: cells[a] == old(cells)[a]
      ensures IsForest(cells, start, Append(out, f))
    {
      if out != Nil {
        InnerInside(cells, p, last, out);
      }
      if last == 0 {
        start := q;
      } else {
        CloseSegment(cells, p, last, out, q, f);
        cells := cells[last := cells[last].(next := q)];
        start := p;
      }
    }

    /** Link the first trees of both lists (merge, lines 165-187). */
    method LinkEqual(q1: nat, q2: nat, p: nat, last: nat, ghost n: nat, ghost out: Forest, ghost f: Forest, ghost g: Forest)
      returns (r1: nat, r2: nat)
      requires Merging(cells, n, p, last, out, q1, f, q2, g)
      requires f.Tree? && g.Tree? && f.height == g.height && !FirstTwoEqual(f)
      modifies this
      ensures old(cells) <= cells
      ensures if f.item > g.item then Merging(cells, n, p, last, out, r1, Link(g, f, g.next), r2, f.next)
              else Merging(cells, n, p, last, out, r1, Link(f, g, f.next), r2, g.next)
    {
      ghost var before := cells;
      CarriedRises(f);
      FootInside(cells, q1, f);
      FootInside(cells, q2, g);
      var a, b := q1, q2;
      if cells[q1].item > cells[q2].item {
        a, b := q2, q1;
        EqualLinked(cells, n, p, last, out, q2, g, q1, f);
      } else {
        EqualLinked(cells, n, p, last, out, q1, f, q2, g);
      }
      r1 := Allocate(Cell(cells[a].height + 1, cells[a].item, |cells| + 1, cells[a].next));
      var son := Allocate(Cell(cells[b].height, cells[b].item, cells[b].son, cells[a].son));
      r2 := cells[b].next;
      assert cells == TwoLinked(before, a, b);
    }

    /** The end of `merge` when `pq_1` is left: link what is carried, then hang the rest on the new list. */
    method SettleAndClose(q0: nat, p: nat, last: nat, ghost n: nat, ghost out: Forest, ghost f0: Forest) returns (r: nat)
      requires Merging(cells, n, p, last, out, q0, f0, 0, Nil) && f0.Tree?
      modifies this
      ensures n <= |cells| && |old(cells)| <= |cells| && forall a | 0 <= a < n :: cells[a] == old(cells)[a]
      ensures IsForest(cells, r, Append(out, Settle(f0)))
    {
      var q := q0;
      ghost var f := f0;
      NextInside(cells, q, f);
      while cells[q].next != 0 && cells[q].height == cells[cells[q].next].height
        invariant Merging(cells, n, p, last, out, q, f, 0, Nil) && f.Tree?
        invariant |old(cells)| <= |cells| && forall a | 0 <= a < n :: cells[a] == old(cells)[a]
        invariant Settle(f) == Settle(f0)
        invariant cells[q].next < |cells| || cells[q].next == 0
        invariant FirstTwoEqual(f) <==> cells[q].next != 0 && cells[q].height == cells[cells[q].next].height
        decreases Length(f)
      {
        ghost var before := cells;
        OutInside(cells, n, p, last, out);
        var r1 := LinkCarried(q, n, f, OutFoot(cells, n, p, last, out));
        CarryLinked(before, cells, n, p, last, out, q, f, r1, 0, Nil);
        q, f := r1, LinkFirstTwo(f);
        NextInside(cells, q, f);
      }
      r := Close(p, last, q, n, out, f);
    }

    /** One round of the first loop of `merge`. */
    method MergeStep(pq1: nat, pq2: nat, start: nat, end: nat, ghost n: nat, ghost out0: Forest, ghost f0: Forest, ghost g0: Forest)
      returns (q1: nat, q2: nat, p: nat, last: nat, ghost out: Forest, ghost f: Forest, ghost g: Forest)
      requires Merging(cells, n, start, end, out0, pq1, f0, pq2, g0) && f0.Tree? && g0.Tree?
      modifies this
      ensures Merging(cells, n, p, last, out, q1, f, q2, g)
      ensures |old(cells)| <= |cells| && forall a | 0 <= a < n :: cells[a] == old(cells)[a]
      ensures Append(out, MergeLists(f, g)) == Append(out0, MergeLists(f0, g0))
      ensures Length(f) + Length(g) < Length(f0) + Length(g0)
    {
      ghost var before := cells;
      q1, q2, p, last := pq1, pq2, start, end;
      out, f, g := out0, f0, g0;
      NextInside(cells, q1, f);
      if cells[q1].next != 0 && cells[q1].height == cells[cells[q1].next].height {
        OutInside(cells, n, p, last, out);
        q1 := LinkCarried(q1, n, f, OutFoot(cells, n, p, last, out));
        CarryLinked(before, cells, n, p, last, out, pq1, f, q1, q2, g);
        f := LinkFirstTwo(f);
      } else if cells[q1].height < cells[q2].height {
        p, last := CopyOut(q1, p, last, n, f, out);
        FirstCopied(before, cells, n, start, end, out, q1, f, q2, g, p, last);
        AppendAppend(out, f.(next := Nil), MergeLists(f.next, g));
        q1 := cells[q1].next;
        out, f := Append(out, f.(next := Nil)), f.next;
      } else if cells[q1].height > cells[q2].height {
        p, last := CopyOut(q2, p, last, n, g, out);
        SecondCopied(before, cells, n, start, end, out, q1, f, q2, g, p, last);
        AppendAppend(out, g.(next := Nil), MergeLists(f, g.next));
        q2 := cells[q2].next;
        out, g := Append(out, g.(next := Nil)), g.next;
      } else {
        q1, q2 := LinkEqual(q1, q2, p, last, n, out, f, g);
        if f.item > g.item {
          f, g := Link(g, f, g.next), f.next;
        } else {
          f, g := Link(f, g, f.next), g.next;
        }
      }
    }

    /** `merge`: the result holds the linked trees; no cell from before the call has changed. */
    method Merge(pq1: nat, pq2: nat, ghost f0: Forest, ghost g0: Forest) returns (r: nat)
      requires |cells| > 0 && IsForest(cells, pq1, f0) && IsForest(cells, pq2, g0) && Valid(f0) && Valid(g0)
      modifies this
      ensures old(cells) <= cells && IsForest(cells, r, Merged(f0, g0))
    {
      if pq1 == 0 {
        return pq2;
      }
      if pq2 == 0 {
        return pq1;
      }
      var q1, q2, p, last := pq1, pq2, 0, 0;
      ghost var n, f, g, out := |cells|, f0, g0, Nil;
      StartMerging(cells, pq1, f0, pq2, g0);
      while q1 != 0 && q2 != 0
        invariant Merging(cells, n, p, last, out, q1, f, q2, g)
        invariant n == |old(cells)| && forall a | 0 <= a < n :: cells[a] == old(cells)[a]
        invariant Merged(f0, g0) == Append(out, MergeLists(f, g))
        decreases Length(f) + Length(g)
      {
        q1, q2, p, last, out, f, g := MergeStep(q1, q2, p, last, n, out, f, g);
      }
      if q1 == 0 {
        r := Close(p, last, q2, n, out, g);
      } else {
        r := SettleAndClose(q1, p, last, n, out, f);
      }
    }

    /** `find_min`: the first tree whose root is least. */
    method FindMin(pq: nat, ghost f0: Forest) returns (min: nat)
      requires f0.Tree? && IsForest(cells, pq, f0)
      ensures min == MinPointer(cells, pq, f0) && IsForest(cells, min, MinTree(f0))
    {
      var p: nat := pq;
      min := pq;
      ghost var f, best := f0, f0;
      while cells[p].next != 0
        invariant f.Tree? && IsForest(cells, p, f) && best.Tree? && IsForest(cells, min, best)
        invariant p < |cells| && min < |cells|
        invariant Best(best, f.next) == MinTree(f0)
        invariant MinPointer(cells, pq, f0) ==
                  if f.next == Nil || best.item <= MinItem(f.next) then min else MinPointer(cells, cells[p].next, f.next)
        decreases f
      {
        p, f := cells[p].next, f.next;
        if cells[min].item > cells[p].item {
          min, best := p, f;
        }
      }
    }

    /** `priq_find_min`. */
    method FindMinItem(pq: nat, ghost f: Forest) returns (item: int)
      requires f.Tree? && Valid(f) && IsForest(cells, pq, f)
      ensures Count(f, item) > 0 && forall x | Count(f, x) > 0 :: item <= x
    {
      var p := FindMin(pq, f);
      item := cells[p].item;
      DeletedKeeps(f);
      assert Count(Deleted(f), item) + 1 == Count(f, item);
    }

    /** `priq_insert`. */
    method Insert(pq: nat, item: int, ghost f: Forest) returns (r: nat)
      requires |cells| > 0 && IsForest(cells, pq, f) && Valid(f)
      modifies this
      ensures old(cells) <= cells && IsForest(cells, r, Inserted(f, item))
    {
      ghost var before := cells;
      var single := Allocate(Cell(0, item, 0, 0));
      OlderKept(before, cells, pq, f);
      r := Merge(pq, single, f, Tree(0, item, Nil, Nil));
    }

    /** The list without its least tree: the trees before it are copied (priq_delete, lines 300-322). */
    method RemoveMin(pq: nat, min: nat, ghost f0: Forest) returns (r: nat)
      requires |cells| > 0 && f0.Tree? && IsForest(cells, pq, f0) && min == MinPointer(cells, pq, f0)
      modifies this
      ensures old(cells) <= cells && IsForest(cells, r, WithoutMin(f0))
    {
      var p, start, last := pq, 0, 0;
      ghost var n, f, out := |cells|, f0, Nil;
      FootInside(cells, pq, f0);
      while p != min
        invariant n == |old(cells)| <= |cells| && forall a | 0 <= a < n :: cells[a] == old(cells)[a]
        invariant f.Tree? && IsForest(cells, p, f) && AllBelow(Foot(cells, p, f), n)
        invariant OutOk(cells, n, start, last, out)
        invariant min == MinPointer(cells, p, f) && WithoutMin(f0) == Append(out, WithoutMin(f))
        decreases f
      {
        ghost var before := cells;
        var start', last' := CopyOut(p, start, last, n, f, out);
        OlderUntouched(before, cells, n, last, out, cells[p].next, f.next);
        MinPointerUntouched(before, cells, cells[p].next, f.next);
        AppendAppend(out, f.(next := Nil), WithoutMin(f.next));
        p := cells[p].next;
        start, last, out, f := start', last', Append(out, f.(next := Nil)), f.next;
      }
      MinPointerIsHere(cells, p, f);
      r := Close(start, last, cells[p].next, n, out, f.next);
    }

    /** The sons of the least root, copied in the opposite order (priq_delete, lines 326-336). */
    method TurnSons(sons: nat, ghost f0: Forest) returns (rest: nat)
      requires |cells| > 0 && IsForest(cells, sons, f0)
      modifies this
      ensures old(cells) <= cells && IsForest(cells, rest, Turned(f0, Nil))
    {
      var p: nat := sons;
      rest := 0;
      ghost var f, done := f0, Nil;
      while p != 0
        invariant old(cells) <= cells && IsForest(cells, p, f) && IsForest(cells, rest, done)
        invariant Turned(f0, Nil) == Turned(f, done)
        decreases f
      {
        ghost var before := cells;
        rest := Allocate(Cell(cells[p].height, cells[p].item, cells[p].son, rest));
        OlderKept(before, cells, p, f);
        OlderKept(before, cells, before[p].son, f.sons);
        OlderKept(before, cells, cells[rest].next, done);
        p := cells[p].next;
        f, done := f.next, f.(next := done);
      }
    }

    /** `priq_delete`: a heap without its least item; the given heap is still there. */
    method Delete(pq: nat, ghost f: Forest) returns (r: nat)
      requires |cells| > 0 && IsForest(cells, pq, f) && Valid(f)
      modifies this
      ensures old(cells) <= cells && IsForest(cells, r, if f == Nil then Nil else Deleted(f))
    {
      if pq == 0 {
        return 0;
      }
      var min := FindMin(pq, f);
      ghost var start, m := cells, MinTree(f);
      DeletedParts(f);
      var exceptMin := RemoveMin(pq, min, f);
      OlderKept(start, cells, min, m);
      ghost var removed := cells;
      var rest := TurnSons(cells[min].son, m.sons);
      OlderKept(removed, cells, exceptMin, WithoutMin(f));
      if exceptMin == 0 && rest == 0 {
        return 0;
      }
      r := Merge(rest, exceptMin, Turned(m.sons, Nil), WithoutMin(f));
    }
  }

  lemma DeletedParts(f: Forest)
    requires f.Tree? && Valid(f)
    ensures Valid(WithoutMin(f)) && Valid(Turned(MinTree(f).sons, Nil))
  {
    WithoutMinKeeps(f, 0);
    TurnedSons(MinTree(f).sons, MinTree(f).height, MinTree(f).item, Nil);
  }

  /** The cell of the first tree whose root is least. */
  ghost function MinPointer(cells: seq<Cell>, p: nat, f: Forest): (r: nat)
    requires f.Tree? && IsForest(cells, p, f)
    ensures IsForest(cells, r, MinTree(f))
    decreases f
  {
    if f.item == MinItem(f) then p else MinPointer(cells, cells[p].next, f.next)
  }

  lemma {:induction false} MinPointerUntouched(before: seq<Cell>, after: seq<Cell>, p: nat, f: Forest)
    requires f.Tree? && IsForest(before, p, f) && IsForest(after, p, f) && |before| <= |after|
    requires forall a | a in Foot(before, p, f) && a < |before| :: after[a] == before[a]
    ensures MinPointer(after, p, f) == MinPointer(before, p, f)
    decreases f
  {
    assert p in Foot(before, p, f);
    if f.item != MinItem(f) {
      MinPointerUntouched(before, after, before[p].next, f.next);
    }
  }

  /** One pointer, one list. */
  lemma {:induction false} OneForest(cells: seq<Cell>, p: nat, f: Forest, g: Forest)
    requires IsForest(cells, p, f) && IsForest(cells, p, g)
    ensures f == g
    decreases f
  {
    if f != Nil {
      OneForest(cells, cells[p].son, f.sons, g.sons);
      OneForest(cells, cells[p].next, f.next, g.next);
    }
  }

  /** A walk that has come to the least tree's cell has come to the least tree. */
  lemma MinPointerIsHere(cells: seq<Cell>, p: nat, f: Forest)
    requires f.Tree? && IsForest(cells, p, f) && MinPointer(cells, p, f) == p
    ensures f.item == MinItem(f)
  {
    OneForest(cells, p, f, MinTree(f));
  }

  /** The least of a tree found so far and the trees of the rest, the earlier one on a tie. */
  function Best(t: Forest, rest: Forest): Forest
    requires t.Tree?
  {
    if rest == Nil || t.item <= MinItem(rest) then t else MinTree(rest)
  }

  /** A list that carries nothing rises. */
  lemma CarriedRises(f: Forest)
    requires f.Tree? && Carrying(f, 0) && !FirstTwoEqual(f)
    ensures Rising(f.next, f.height + 1) && Rising(f.next, 0)
  {
    if f.next.Tree? {
      RisingFrom(f.next, f.height + 1, 0);
    }
  }
}
