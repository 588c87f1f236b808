/** The chunk trees of shtring.c and shtring_internal.c: what a tree is and which text it has,
    catenation, reading of a range, and the smallest subtree for a range. */
module Rope {

  import opened Wrappers

  /** `CELL_shtring_chunk` and `CELL_shtring_node`, with the length and height stored in it. */
  datatype Tree = Chunk(text: string) | Node(length: nat, height: nat, kids: seq<Tree>)

  const SHTRING_CHUNK_MAX: nat := 32
  const MAX_SHTRING_NODE_CHILDREN: nat := 8

  /** `shtring_tree_length`. */
  function Length(t: Tree): nat {
    if t.Chunk? then |t.text| else t.length
  }

  /** `shtring_tree_height`. */
  function Height(t: Tree): nat {
    if t.Chunk? then 1 else t.height
  }

  function SumOfLengths(kids: seq<Tree>): nat {
    if kids == [] then 0 else SumOfLengths(kids[..|kids| - 1]) + Length(kids[|kids| - 1])
  }

  /** What `shtring_check_chunk` and `shtring_check_node` demand of a tree of height `h`: all chunks at one
      depth and not empty, one to eight children to a node, and exact lengths. */
  predicate WellFormed(t: Tree, h: nat)
    decreases h
  {
    if h <= 1 then h == 1 && t.Chunk? && 0 < |t.text| <= SHTRING_CHUNK_MAX
    else
      && t.Node? && t.height == h && 1 <= |t.kids| <= MAX_SHTRING_NODE_CHILDREN
      && t.length == SumOfLengths(t.kids)
      && forall i | 0 <= i < |t.kids| :: WellFormed(t.kids[i], h - 1)
  }

  function Text(t: Tree): string
    decreases t, 0
  {
    match t
    case Chunk(text) => text
    case Node(_, _, kids) => Texts(kids)
  }

  function Texts(kids: seq<Tree>): string
    decreases kids, 1
  {
    if kids == [] then [] else Texts(kids[..|kids| - 1]) + Text(kids[|kids| - 1])
  }

  ghost predicate AllWellFormed(kids: seq<Tree>, h: nat) {
    forall i | 0 <= i < |kids| :: WellFormed(kids[i], h)
  }

  /** Cached lengths are the lengths of the text. */
  lemma {:induction false} LengthIsExact(t: Tree, h: nat)
    requires WellFormed(t, h)
    ensures |Text(t)| == Length(t) > 0 && Height(t) == h >= 1
    decreases h, 0
  {
    if h > 1 {
      LengthsAreExact(t.kids, h - 1);
      LengthIsExact(t.kids[|t.kids| - 1], h - 1);
    }
  }

  lemma {:induction false} LengthsAreExact(kids: seq<Tree>, h: nat)
    requires AllWellFormed(kids, h)
    ensures |Texts(kids)| == SumOfLengths(kids)
    decreases h, 1, |kids|
  {
    if kids != [] {
      LengthsAreExact(kids[..|kids| - 1], h);
      LengthIsExact(kids[|kids| - 1], h);
    }
  }

  lemma {:induction false} TextsAppend(a: seq<Tree>, b: seq<Tree>)
    ensures Texts(a + b) == Texts(a) + Texts(b) && SumOfLengths(a + b) == SumOfLengths(a) + SumOfLengths(b)
    decreases |b|
  {
    if b == [] {
      assert a + b == a;
    } else {
      var n := |b| - 1;
      TextsAppend(a, b[..n]);
      assert (a + b)[..|a + b| - 1] == a + b[..n];
      assert Texts(a) + (Texts(b[..n]) + Text(b[n])) == Texts(a) + Texts(b[..n]) + Text(b[n]);
    }
  }

  lemma TextsOne(t: Tree)
    ensures Texts([t]) == Text(t) && SumOfLengths([t]) == Length(t)
  {
    assert [t][..0] == [];
  }

  // ---------- nodes ----------

  /** `shtring_new_node`, filled by `shtring_add_child`, which adds up the lengths. */
  function NewNode(kids: seq<Tree>, h: nat): Tree {
    Node(SumOfLengths(kids), h, kids)
  }

  lemma NewNodeIs(kids: seq<Tree>, h: nat)
    requires h > 1 && AllWellFormed(kids, h - 1) && 1 <= |kids| <= MAX_SHTRING_NODE_CHILDREN
    ensures WellFormed(NewNode(kids, h), h) && Text(NewNode(kids, h)) == Texts(kids)
  {
  }

  /** `make_of_height`: nodes with one child, up to the height. */
  method MakeOfHeight(p0: Tree, h: nat) returns (p: Tree)
    requires 1 <= Height(p0) <= h && WellFormed(p0, Height(p0))
    ensures WellFormed(p, h) && Text(p) == Text(p0)
    ensures p == Raised(p0, h)
  {
    p := p0;
    var len := Length(p);
    var current := Height(p);
    while current < h
      invariant 1 <= current <= h && WellFormed(p, current) && Text(p) == Text(p0) && len == Length(p)
      invariant Raised(p, h) == Raised(p0, h) && Height(p) == current
    {
      current := current + 1;
      TextsOne(p);
      NewNodeIs([p], current);
      p := NewNode([p], current);
    }
  }

  function Raised(p: Tree, h: nat): Tree
    requires 1 <= Height(p) <= h
    decreases h - Height(p)
  {
    if Height(p) == h then p else Raised(NewNode([p], Height(p) + 1), h)
  }

  lemma {:induction false} RaisedKeeps(p: Tree, h: nat)
    requires 1 <= Height(p) <= h && WellFormed(p, Height(p))
    ensures WellFormed(Raised(p, h), h) && Text(Raised(p, h)) == Text(p)
    decreases h - Height(p)
  {
    if Height(p) < h {
      TextsOne(p);
      NewNodeIs([p], Height(p) + 1);
      RaisedKeeps(NewNode([p], Height(p) + 1), h);
    }
  }

  // ---------- catenation ----------

  /** How `cat_recursive` ends: with a tree, without one, or at an assertion. */
  datatype Joint = Joined(tree: Tree) | Refused | Aborted

  /** `shtring_add_children` asserts that it is given at least one child.  Assertions are compiled in unless
      the configuration turns them off; without them it adds none. */
  function AddedChildren(some: bool, checks: bool, tree: Tree): Joint {
    if checks && !some then Aborted else Joined(tree)
  }

  /** `cat_recursive`: the lower tree joins a node of its own height at the adjoining side of the higher
      tree, if there is room in it; every node above it is built anew, from the joined kid and its other kids. */
  function CatRecursive(p1: Tree, h1: nat, p2: Tree, h2: nat, checks: bool): Joint
    requires WellFormed(p1, h1) && WellFormed(p2, h2)
    decreases h1 + h2
  {
    if h1 == h2 then
      if h1 == 1 || |p1.kids| + |p2.kids| > MAX_SHTRING_NODE_CHILDREN then Refused
      else Joined(NewNode(p1.kids + p2.kids, h1))
    else if h1 < h2 then
      var q := CatRecursive(p1, h1, p2.kids[0], h2 - 1, checks);
      if !q.Joined? then q else AddedChildren(2 <= |p2.kids|, checks, NewNode([q.tree] + p2.kids[1..], h2))
    else
      var q := CatRecursive(p1.kids[|p1.kids| - 1], h1 - 1, p2, h2, checks);
      if !q.Joined? then q
      else AddedChildren(1 <= |p1.kids| - 1, checks, NewNode(p1.kids[..|p1.kids| - 1] + [q.tree], h1))
  }

  /** The two nodes that would be joined have room for each other's kids. */
  predicate HasRoom(p1: Tree, h1: nat, p2: Tree, h2: nat)
    requires WellFormed(p1, h1) && WellFormed(p2, h2)
    decreases h1 + h2
  {
    if h1 == h2 then h1 > 1 && |p1.kids| + |p2.kids| <= MAX_SHTRING_NODE_CHILDREN
    else if h1 < h2 then HasRoom(p1, h1, p2.kids[0], h2 - 1)
    else HasRoom(p1.kids[|p1.kids| - 1], h1 - 1, p2, h2)
  }

  /** On the last (or first) way down from `p` some node above height `low` has one kid only. */
  predicate HasOnlyChild(p: Tree, h: nat, low: nat, last: bool)
    requires WellFormed(p, h)
    decreases h
  {
    1 < h && low < h && (|p.kids| == 1 || HasOnlyChild(if last then p.kids[|p.kids| - 1] else p.kids[0], h - 1, low, last))
  }

  /** The higher tree has a node with one kid on its adjoining side, above the height of the lower one. */
  predicate IsThin(p1: Tree, h1: nat, p2: Tree, h2: nat)
    requires WellFormed(p1, h1) && WellFormed(p2, h2)
  {
    if h1 < h2 then HasOnlyChild(p2, h2, h1, false) else HasOnlyChild(p1, h1, h2, true)
  }

  /** Catenation comes to the assertion. */
  predicate Aborts(p1: Tree, h1: nat, p2: Tree, h2: nat, checks: bool)
    requires WellFormed(p1, h1) && WellFormed(p2, h2)
  {
    checks && HasRoom(p1, h1, p2, h2) && IsThin(p1, h1, p2, h2)
  }

  /** It aborts just then, and is refused just when there is no room. */
  lemma {:induction false} CatRecursiveEnds(p1: Tree, h1: nat, p2: Tree, h2: nat, checks: bool)
    requires WellFormed(p1, h1) && WellFormed(p2, h2)
    ensures var q := CatRecursive(p1, h1, p2, h2, checks);
            && (q.Aborted? <==> Aborts(p1, h1, p2, h2, checks))
            && (q.Refused? <==> !HasRoom(p1, h1, p2, h2))
            && (q.Joined? ==> q == CatRecursive(p1, h1, p2, h2, false))
    decreases h1 + h2
  {
    hide NewNode, SumOfLengths, WellFormed;
    LengthIsExact(p1, h1);
    LengthIsExact(p2, h2);
    if h1 < h2 {
      NodeFacts(p2, h2);
      CatRecursiveEnds(p1, h1, p2.kids[0], h2 - 1, checks);
    } else if h1 > h2 {
      NodeFacts(p1, h1);
      CatRecursiveEnds(p1.kids[|p1.kids| - 1], h1 - 1, p2, h2, checks);
    }
  }

  /** The node of height `m` on the last, or first, way down. */
  function SideNode(p: Tree, h: nat, m: nat, last: bool): (q: Tree)
    requires WellFormed(p, h) && 1 <= m <= h
    ensures WellFormed(q, m) && (m > 1 ==> q.Node?)
    decreases h
  {
    if h == m then p else SideNode(if last then p.kids[|p.kids| - 1] else p.kids[0], h - 1, m, last)
  }

  lemma {:induction false} HasRoomIff(p1: Tree, h1: nat, p2: Tree, h2: nat)
    requires WellFormed(p1, h1) && WellFormed(p2, h2)
    ensures h1 >= 1 && h2 >= 1
    ensures var m := if h1 < h2 then h1 else h2;
            HasRoom(p1, h1, p2, h2) <==> m > 1 && |SideNode(p1, h1, m, true).kids| + |SideNode(p2, h2, m, false).kids| <= 8
    decreases h1 + h2
  {
    LengthIsExact(p1, h1);
    LengthIsExact(p2, h2);
    hide SumOfLengths, WellFormed, Text;
    if h1 < h2 {
      NodeFacts(p2, h2);
      HasRoomIff(p1, h1, p2.kids[0], h2 - 1);
    } else if h1 > h2 {
      NodeFacts(p1, h1);
      HasRoomIff(p1.kids[|p1.kids| - 1], h1 - 1, p2, h2);
    }
  }

  function SideKid(p: Tree, last: bool): Tree
    requires p.Node? && p.kids != []
  {
    if last then p.kids[|p.kids| - 1] else p.kids[0]
  }

  predicate OneKidAt(p: Tree, h: nat, m: nat, last: bool)
    requires WellFormed(p, h) && 1 < m <= h
  {
    |SideNode(p, h, m, last).kids| == 1
  }

  lemma OneLevelDown(p: Tree, h: nat, low: nat, last: bool)
    requires WellFormed(p, h) && 1 <= low < h
    ensures p.Node? && p.kids != [] && WellFormed(SideKid(p, last), h - 1) && (OneKidAt(p, h, h, last) <==> |p.kids| == 1)
    ensures HasOnlyChild(p, h, low, last) <==> |p.kids| == 1 || HasOnlyChild(SideKid(p, last), h - 1, low, last)
    ensures forall k: nat | low < k < h :: OneKidAt(p, h, k, last) <==> OneKidAt(SideKid(p, last), h - 1, k, last)
  {
  }

  lemma {:induction false} OnlyChildIff(p: Tree, h: nat, low: nat, last: bool)
    requires WellFormed(p, h) && low >= 1
    ensures HasOnlyChild(p, h, low, last) <==> exists k: nat :: low < k <= h && OneKidAt(p, h, k, last)
    decreases h
  {
    hide WellFormed, SideNode, SideKid, OneKidAt;
    if low < h {
      OneLevelDown(p, h, low, last);
      OnlyChildIff(SideKid(p, last), h - 1, low, last);
      if HasOnlyChild(SideKid(p, last), h - 1, low, last) {
        var k: nat :| low < k <= h - 1 && OneKidAt(SideKid(p, last), h - 1, k, last);
        assert OneKidAt(p, h, k, last);
      }
    }
  }

  /** Written out: the assertion is reached when the two nodes of the lower height on the adjoining sides have at
      most eight kids together, and some node above on the side of the higher tree has one kid only. */
  lemma AbortsIff(p1: Tree, h1: nat, p2: Tree, h2: nat)
    requires WellFormed(p1, h1) && WellFormed(p2, h2)
    ensures h1 >= 1 && h2 >= 1
    ensures var m := if h1 < h2 then h1 else h2;
            CatRecursive(p1, h1, p2, h2, true).Aborted? <==>
              && m > 1 && |SideNode(p1, h1, m, true).kids| + |SideNode(p2, h2, m, false).kids| <= 8
              && if h1 < h2 then exists k: nat :: m < k <= h2 && OneKidAt(p2, h2, k, false)
                 else exists k: nat :: m < k <= h1 && OneKidAt(p1, h1, k, true)
  {
    LengthIsExact(p1, h1);
    LengthIsExact(p2, h2);
    CatRecursiveEnds(p1, h1, p2, h2, true);
    HasRoomIff(p1, h1, p2, h2);
    if h1 < h2 {
      OnlyChildIff(p2, h2, h1, false);
    } else {
      OnlyChildIff(p1, h1, h2, true);
    }
    hide CatRecursive, HasRoom, HasOnlyChild, SideNode, WellFormed;
  }

  /** `cat_trees`: that, or a node more at the side or on top; nothing if it aborts. */
  function CatTrees(p1: Tree, h1: nat, p2: Tree, h2: nat, checks: bool): Option<Tree>
    requires WellFormed(p1, h1) && WellFormed(p2, h2)
  {
    LengthIsExact(p1, h1);
    LengthIsExact(p2, h2);
    match CatRecursive(p1, h1, p2, h2, checks)
    case Joined(q) => Some(q)
    case Aborted => None
    case Refused => Some(CatBeside(p1, h1, p2, h2))
  }

  function CatBeside(p1: Tree, h1: nat, p2: Tree, h2: nat): Tree
    requires WellFormed(p1, h1) && WellFormed(p2, h2) && Height(p1) == h1 >= 1 && Height(p2) == h2 >= 1
  {
    if h1 == h2 then NewNode([p1, p2], h1 + 1)
    else if h1 < h2 then
      if |p2.kids| < MAX_SHTRING_NODE_CHILDREN then NewNode([Raised(p1, h2 - 1)] + p2.kids, h2)
      else NewNode([Raised(p1, h2), p2], h2 + 1)
    else
      if |p1.kids| < MAX_SHTRING_NODE_CHILDREN then NewNode(p1.kids + [Raised(p2, h1 - 1)], h1)
      else NewNode([p1, Raised(p2, h1)], h1 + 1)
  }

  function Max(a: nat, b: nat): nat { if a > b then a else b }

  lemma SideJoined(a: seq<Tree>, b: seq<Tree>, h: nat)
    requires h > 1 && AllWellFormed(a, h - 1) && AllWellFormed(b, h - 1) && 1 <= |a + b| <= MAX_SHTRING_NODE_CHILDREN
    ensures WellFormed(NewNode(a + b, h), h) && Text(NewNode(a + b, h)) == Texts(a) + Texts(b)
  {
    TextsAppend(a, b);
    NewNodeIs(a + b, h);
  }

  /** A node whose first child has been replaced by one with more text in front. */
  lemma FirstReplaced(kids: seq<Tree>, q: Tree, h: nat, front: string)
    requires h > 1 && AllWellFormed(kids, h - 1) && 1 <= |kids| <= MAX_SHTRING_NODE_CHILDREN
    requires WellFormed(q, h - 1) && Text(q) == front + Text(kids[0])
    ensures var p := NewNode([q] + kids[1..], h); WellFormed(p, h) && Text(p) == front + Texts(kids)
  {
    SideJoined([q], kids[1..], h);
    TextsAppend([kids[0]], kids[1..]);
    TextsOne(kids[0]);
    TextsOne(q);
    assert kids == [kids[0]] + kids[1..];
    assert front + Text(kids[0]) + Texts(kids[1..]) == front + (Text(kids[0]) + Texts(kids[1..]));
  }

  lemma LastReplaced(kids: seq<Tree>, q: Tree, h: nat, back: string)
    requires h > 1 && AllWellFormed(kids, h - 1) && 1 <= |kids| <= MAX_SHTRING_NODE_CHILDREN
    requires WellFormed(q, h - 1) && Text(q) == Text(kids[|kids| - 1]) + back
    ensures var p := NewNode(kids[..|kids| - 1] + [q], h); WellFormed(p, h) && Text(p) == Texts(kids) + back
  {
    var n := |kids| - 1;
    SideJoined(kids[..n], [q], h);
    TextsOne(q);
    assert Texts(kids[..n]) + (Text(kids[n]) + back) == Texts(kids[..n]) + Text(kids[n]) + back;
  }

  /** Where it ends with a tree, that has both texts and is no higher than the higher one. */
  lemma {:induction false} CatRecursiveKeeps(p1: Tree, h1: nat, p2: Tree, h2: nat, checks: bool)
    requires WellFormed(p1, h1) && WellFormed(p2, h2)
    ensures var q := CatRecursive(p1, h1, p2, h2, checks);
            q.Joined? ==> WellFormed(q.tree, Max(h1, h2)) && Text(q.tree) == Text(p1) + Text(p2)
    decreases h1 + h2
  {
    hide NewNode, Texts;
    if h1 == h2 {
      if h1 > 1 && |p1.kids| + |p2.kids| <= MAX_SHTRING_NODE_CHILDREN {
        SideJoined(p1.kids, p2.kids, h1);
      }
    } else if h1 < h2 {
      CatRecursiveKeeps(p1, h1, p2.kids[0], h2 - 1, checks);
      var q := CatRecursive(p1, h1, p2.kids[0], h2 - 1, checks);
      if q.Joined? {
        FirstReplaced(p2.kids, q.tree, h2, Text(p1));
      }
    } else {
      var last := p1.kids[|p1.kids| - 1];
      CatRecursiveKeeps(last, h1 - 1, p2, h2, checks);
      var q := CatRecursive(last, h1 - 1, p2, h2, checks);
      if q.Joined? {
        LastReplaced(p1.kids, q.tree, h1, Text(p2));
      }
    }
  }

  lemma OnTop(a: Tree, b: Tree, h: nat)
    requires WellFormed(a, h) && WellFormed(b, h)
    ensures var p := NewNode([a, b], h + 1); WellFormed(p, h + 1) && Text(p) == Text(a) + Text(b)
  {
    SideJoined([a], [b], h + 1);
    TextsOne(a);
    TextsOne(b);
    assert [a, b] == [a] + [b];
  }

  /** A node beside or on top has both texts and is at most one higher than the higher tree. */
  lemma CatBesideKeeps(p1: Tree, h1: nat, p2: Tree, h2: nat)
    requires WellFormed(p1, h1) && WellFormed(p2, h2) && Height(p1) == h1 >= 1 && Height(p2) == h2 >= 1
    ensures var q := CatBeside(p1, h1, p2, h2);
            && Max(h1, h2) <= Height(q) <= Max(h1, h2) + 1 && WellFormed(q, Height(q))
            && Text(q) == Text(p1) + Text(p2)
  {
    hide NewNode, Texts, Raised, Text, WellFormed;
    if h1 == h2 {
      OnTop(p1, p2, h1);
    } else if h1 < h2 {
      RaisedKeeps(p1, h2 - 1);
      RaisedKeeps(p1, h2);
      NodeFacts(p2, h2);
      if |p2.kids| < MAX_SHTRING_NODE_CHILDREN {
        TextsOne(Raised(p1, h2 - 1));
        SideJoined([Raised(p1, h2 - 1)], p2.kids, h2);
      } else {
        OnTop(Raised(p1, h2), p2, h2);
      }
    } else {
      RaisedKeeps(p2, h1 - 1);
      RaisedKeeps(p2, h1);
      NodeFacts(p1, h1);
      if |p1.kids| < MAX_SHTRING_NODE_CHILDREN {
        TextsOne(Raised(p2, h1 - 1));
        SideJoined(p1.kids, [Raised(p2, h1 - 1)], h1);
      } else {
        OnTop(p1, Raised(p2, h1), h1);
      }
    }
    var q := CatBeside(p1, h1, p2, h2);
    if WellFormed(q, Max(h1, h2)) {
      LengthIsExact(q, Max(h1, h2));
    } else {
      LengthIsExact(q, Max(h1, h2) + 1);
    }
  }

  /** Catenation gives a well-formed tree with both texts, at most one higher than the higher one, if and only
      if it does not come to the assertion. */
  lemma CatTreesKeeps(p1: Tree, h1: nat, p2: Tree, h2: nat, checks: bool)
    requires WellFormed(p1, h1) && WellFormed(p2, h2)
    ensures var q := CatTrees(p1, h1, p2, h2, checks);
            && (q.Some? <==> !Aborts(p1, h1, p2, h2, checks))
            && (q.Some? ==>
                  && Max(h1, h2) <= Height(q.value) <= Max(h1, h2) + 1 && WellFormed(q.value, Height(q.value))
                  && Text(q.value) == Text(p1) + Text(p2))
  {
    hide Texts, CatRecursive, CatBeside, Text, WellFormed, Aborts;
    LengthIsExact(p1, h1);
    LengthIsExact(p2, h2);
    CatRecursiveKeeps(p1, h1, p2, h2, checks);
    CatRecursiveEnds(p1, h1, p2, h2, checks);
    CatBesideKeeps(p1, h1, p2, h2);
    var q := CatRecursive(p1, h1, p2, h2, checks);
    if q.Joined? {
      LengthIsExact(q.tree, Max(h1, h2));
    }
  }

  lemma NodeFacts(p: Tree, h: nat)
    requires WellFormed(p, h) && h > 1
    ensures p.Node? && AllWellFormed(p.kids, h - 1) && 1 <= |p.kids| && Text(p) == Texts(p.kids)
  {
  }

  // ---------- reading a range ----------

  /** The part of `text`, which stands from place `pos` on, that lies between `start` and `start + len`. */
  function Part(text: string, pos: nat, start: nat, len: nat): string {
    var from := if start > pos then start - pos else 0;
    var to := if start + len < pos + |text| then start + len - pos else |text|;
    if from < to && to <= |text| then text[from..to] else []
  }

  /** `shtring_monkey` from left to right with `collect_string`: the characters that it copies, and the
      place that it has come to. */
  method Monkey(t: Tree, ghost h: nat, start: nat, len: nat, pos: nat) returns (copied: string, newPos: nat)
    requires WellFormed(t, h)
    ensures newPos == pos + |Text(t)| && copied == Part(Text(t), pos, start, len)
    decreases h, 1
  {
    hide Texts;
    LengthIsExact(t, h);
    if t.Chunk? {
      copied := MonkeyChunk(t.text, start, len, pos);
      return copied, pos + |t.text|;
    }
    NothingInside(Text(t), pos, start, len);
    if pos >= start + len || pos + t.length <= start {
      return [], pos + t.length;
    }
    copied, newPos := MonkeyKids(t.kids, h - 1, start, len, pos);
  }

  method MonkeyKids(kids: seq<Tree>, ghost h: nat, start: nat, len: nat, pos: nat) returns (copied: string, newPos: nat)
    requires AllWellFormed(kids, h)
    ensures newPos == pos + |Texts(kids)| && copied == Part(Texts(kids), pos, start, len)
    decreases h, 2
  {
    hide Part;
    copied, newPos := [], pos;
    NothingInside([], pos, start, len);
    var i := 0;
    while i < |kids|
      invariant i <= |kids| && newPos == pos + |Texts(kids[..i])|
      invariant copied == Part(Texts(kids[..i]), pos, start, len)
    {
      var more;
      more, newPos := Monkey(kids[i], h, start, len, newPos);
      assert kids[..i + 1][..i] == kids[..i];
      PartAppend(Texts(kids[..i]), Text(kids[i]), pos, start, len);
      copied := copied + more;
      i := i + 1;
    }
    assert kids[..i] == kids;
  }

  method MonkeyChunk(text: string, start: nat, len: nat, pos: nat) returns (copied: string)
    ensures copied == Part(text, pos, start, len)
  {
    copied := [];
    if pos < start + len && pos + |text| > start {
      var offInChunk := if pos >= start then 0 else start - pos;
      var interesting := if pos + |text| <= start + len then |text| - offInChunk else start + len - (pos + offInChunk);
      copied := text[offInChunk..offInChunk + interesting];
    }
  }

  lemma NothingInside(text: string, pos: nat, start: nat, len: nat)
    ensures pos >= start + len || pos + |text| <= start ==> Part(text, pos, start, len) == []
    ensures Part([], pos, start, len) == []
  {
  }

  lemma PartAppend(a: string, b: string, pos: nat, start: nat, len: nat)
    ensures Part(a + b, pos, start, len) == Part(a, pos, start, len) + Part(b, pos + |a|, start, len)
  {
  }

  /** `CELL_shtring`: a range of the text of a tree, or of nothing. */
  datatype Shtring = Shtring(offset: nat, len: nat, height: nat, tree: Option<Tree>)

  predicate Valid(s: Shtring) {
    if s.tree.None? then s.height == 0 && s.offset == s.len == 0
    else WellFormed(s.tree.value, s.height) && s.offset + s.len <= |Text(s.tree.value)|
  }

  function Value(s: Shtring): string
    requires Valid(s)
  {
    if s.tree.None? then [] else Text(s.tree.value)[s.offset..s.offset + s.len]
  }

  /** `shtring_strat`: any range of a shtring is read as just that slice of its value. */
  method Strat(s: Shtring, pos: nat, len: nat) returns (text: string)
    requires Valid(s) && pos + len <= s.len
    ensures text == Value(s)[pos..pos + len]
  {
    if s.tree.None? {
      return [];
    }
    var newPos;
    text, newPos := Monkey(s.tree.value, s.height, s.offset + pos, len, 0);
    SliceOfSlice(Text(s.tree.value), s.offset, s.len, pos, len);
  }

  lemma SliceOfSlice(text: string, offset: nat, n: nat, pos: nat, len: nat)
    requires offset + n <= |text| && pos + len <= n
    ensures text[offset..offset + n][pos..pos + len] == text[offset + pos..offset + pos + len]
  {
    var l, r := text[offset..offset + n][pos..pos + len], text[offset + pos..offset + pos + len];
    forall k | 0 <= k < |l| ensures l[k] == r[k] {
      assert l[k] == text[offset..offset + n][pos + k] == text[offset + (pos + k)];
    }
  }

  /** `shtring_cat` of shtrings that need no trimming: the first ends with its tree, the second begins with it.
      There is no result if and only if it aborts. */
  method Cat(s1: Shtring, s2: Shtring, checks: bool) returns (s: Option<Shtring>)
    requires Valid(s1) && Valid(s2)
    requires s1.tree.Some? ==> s1.offset + s1.len == Length(s1.tree.value)
    requires s2.tree.Some? ==> s2.offset == 0
    ensures s.None? <==> s1.tree.Some? && s2.tree.Some? && Aborts(s1.tree.value, s1.height, s2.tree.value, s2.height, checks)
    ensures s.Some? ==> Valid(s.value) && Value(s.value) == Value(s1) + Value(s2)
  {
    hide Text, WellFormed, CatTrees, Aborts;
    if s1.tree.None? {
      return Some(s2);
    }
    if s2.tree.None? {
      return Some(s1);
    }
    var p1, p2 := s1.tree.value, s2.tree.value;
    LengthIsExact(p1, s1.height);
    LengthIsExact(p2, s2.height);
    CatTreesKeeps(p1, s1.height, p2, s2.height, checks);
    var q := CatTrees(p1, s1.height, p2, s2.height, checks);
    if q.None? {
      return None;
    }
    s := Some(Shtring(s1.offset, s1.len + s2.len, Height(q.value), q));
    EndAndBegin(Text(p1), Text(p2), s1.offset, s2.len);
  }

  lemma EndAndBegin(a: string, b: string, i: nat, n: nat)
    requires i <= |a| && n <= |b|
    ensures (a + b)[i..|a| + n] == a[i..|a|] + b[0..n]
  {
  }

  // ---------- the smallest subtree ----------

  /** The child that has place `start`, and the place in it. */
  method ChildAt(p: Tree, ghost h: nat, start: nat) returns (i: nat, newStart: nat)
    requires h > 1 && WellFormed(p, h) && start < p.length
    ensures i < |p.kids| && newStart < Length(p.kids[i]) && start == SumOfLengths(p.kids[..i]) + newStart
  {
    i, newStart := 0, start;
    assert p.kids[..0] == [] && p.kids[..|p.kids|] == p.kids;
    while Length(p.kids[i]) <= newStart
      invariant i < |p.kids| && start == SumOfLengths(p.kids[..i]) + newStart
      decreases |p.kids| - i
    {
      newStart := newStart - Length(p.kids[i]);
      assert p.kids[..i + 1][..i] == p.kids[..i];
      i := i + 1;
    }
  }

  lemma ChildText(kids: seq<Tree>, h: nat, i: nat)
    requires i < |kids| && AllWellFormed(kids, h)
    ensures Texts(kids) == Texts(kids[..i]) + Text(kids[i]) + Texts(kids[i + 1..])
    ensures |Texts(kids[..i])| == SumOfLengths(kids[..i]) && |Text(kids[i])| == Length(kids[i])
  {
    LengthsAreExact(kids[..i], h);
    LengthIsExact(kids[i], h);
    assert kids == kids[..i] + ([kids[i]] + kids[i + 1..]);
    TextsAppend(kids[..i], [kids[i]] + kids[i + 1..]);
    TextsAppend([kids[i]], kids[i + 1..]);
    TextsOne(kids[i]);
  }

  /** The range goes over from some child of the node to the next. */
  ghost predicate Crosses(p: Tree, start: nat, len: nat) {
    p.Node? && exists i: nat | i + 1 < |p.kids| ::
      SumOfLengths(p.kids[..i]) <= start < SumOfLengths(p.kids[..i]) + Length(p.kids[i]) < start + len
  }

  /** `minimal_subtree`: the descent to the lowest subtree that has the whole range.  A place at the very
      end of the text has no child to go to. */
  method MinimalSubtree(p0: Tree, h0: nat, start0: nat, len: nat) returns (p: Tree, h: nat, start: nat)
    requires WellFormed(p0, h0) && start0 + len <= |Text(p0)| && (h0 > 1 ==> start0 < |Text(p0)|)
    ensures 1 <= h <= h0 && WellFormed(p, h) && start + len <= |Text(p)|
    ensures Text(p)[start..start + len] == Text(p0)[start0..start0 + len]
    ensures h == 1 || Crosses(p, start, len)
  {
    hide Text, Texts, SumOfLengths;
    p, h, start := p0, h0, start0;
    LengthIsExact(p, h);
    while h > 1
      invariant 1 <= h <= h0 && WellFormed(p, h) && start + len <= |Text(p)| && (h > 1 ==> start < |Text(p)|)
      invariant Text(p)[start..start + len] == Text(p0)[start0..start0 + len]
    {
      LengthIsExact(p, h);
      NodeFacts(p, h);
      var i, newStart := ChildAt(p, h, start);
      var child := p.kids[i];
      if i + 1 < |p.kids| && Length(child) < newStart + len {
        break;
      }
      RangeInChild(p.kids, h - 1, i, newStart, len);
      LengthIsExact(child, h - 1);
      start := newStart;
      p := child;
      h := h - 1;
    }
  }

  /** A range that does not go beyond child `i` is a range of the child. */
  lemma RangeInChild(kids: seq<Tree>, h: nat, i: nat, start: nat, len: nat)
    requires i < |kids| && AllWellFormed(kids, h) && SumOfLengths(kids[..i]) + start + len <= |Texts(kids)|
    requires i + 1 == |kids| || start + len <= Length(kids[i])
    ensures start + len <= |Text(kids[i])|
    ensures var n := SumOfLengths(kids[..i]);
            Texts(kids)[n + start..n + start + len] == Text(kids[i])[start..start + len]
  {
    ChildText(kids, h, i);
    if i + 1 == |kids| {
      assert kids[i + 1..] == [] && Texts(kids[i + 1..]) == [];
    }
    hide Texts, Text, SumOfLengths;
    Middle(Texts(kids[..i]), Text(kids[i]), Texts(kids[i + 1..]), start, start + len);
  }

  lemma Middle(a: string, b: string, c: string, i: nat, j: nat)
    requires i <= j <= |b|
    ensures (a + b + c)[|a| + i..|a| + j] == b[i..j]
  {
    var l, r := (a + b + c)[|a| + i..|a| + j], b[i..j];
    forall k | 0 <= k < |l| ensures l[k] == r[k] {
      assert l[k] == (a + b + c)[|a| + i + k] == b[i + k];
    }
  }

  /** `shtring_copy`: another shtring for a range, without copying text. */
  method Copy(s: Shtring, start: nat, len: nat) returns (t: Shtring)
    requires Valid(s) && start + len <= s.len
    requires s.height > 1 ==> s.offset + start < Length(s.tree.value)
    ensures Valid(t) && Value(t) == Value(s)[start..start + len]
  {
    if s.tree.None? {
      return s;
    }
    LengthIsExact(s.tree.value, s.height);
    var p, h, offset := MinimalSubtree(s.tree.value, s.height, s.offset + start, len);
    t := Shtring(offset, len, h, Some(p));
    SliceOfSlice(Text(s.tree.value), s.offset, s.len, start, len);
  }
}
