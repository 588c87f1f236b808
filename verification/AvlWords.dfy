/** What an update of an AVL tree has to allocate: the words of the cells of the new tree
    that were not in the given one. */
module AvlWords {

  import opened Wrappers
  import opened AvlTree

  ghost predicate Within<D>(t: Tree<D>, given: Tree<D>) {
    t == given || (given.Node? && (Within(t, given.left) || Within(t, given.right)))
  }

  /** Three words for a leaf, four for a node; a subtree of the given tree costs nothing. */
  ghost function NewWords<D>(t: Tree<D>, given: Option<Tree<D>>): nat {
    if given.Some? && Within(t, given.value) then 0
    else if t.Leaf? then 3 else 4 + NewWords(t.left, given) + NewWords(t.right, given)
  }

  lemma {:induction false} SonsWithin<D>(t: Tree<D>, given: Tree<D>)
    requires Within(t, given) && t.Node?
    ensures Within(t.left, given) && Within(t.right, given)
  {
    if t == given {
      assert Within(given.left, given.left) && Within(given.right, given.right);
    } else if Within(t, given.left) {
      SonsWithin(t, given.left);
    } else {
      SonsWithin(t, given.right);
    }
  }

  lemma OldIsFree<D>(t: Tree<D>, given: Tree<D>)
    requires Within(t, given)
    ensures NewWords(t, Some(given)) == 0
    ensures t.Node? ==> NewWords(t.left, Some(given)) == NewWords(t.right, Some(given)) == 0
  {
    if t.Node? {
      SonsWithin(t, given);
    }
  }

  lemma GivenIsFree<D>(t: Tree<D>)
    ensures NewWords(t, Some(t)) == 0
  {
  }

  lemma LeafCosts<D>(key: int, data: D, given: Option<Tree<D>>)
    ensures NewWords(Leaf(key, data), given) <= 3
  {
  }

  /** The sons of a tree cost no more than the tree, and a node over them four words more. */
  lemma NodeCosts<D>(t: Tree<D>, given: Option<Tree<D>>)
    requires t.Node?
    ensures NewWords(t.left, given) + NewWords(t.right, given) <= NewWords(t, given)
    ensures NewWords(t, given) <= 4 + NewWords(t.left, given) + NewWords(t.right, given)
  {
    if given.Some? && Within(t, given.value) {
      OldIsFree(t, given.value);
    }
  }

  lemma SimpleRightCosts<D>(p: Tree<D>, given: Option<Tree<D>>)
    requires p.Node? && p.left.Node?
    ensures NewWords(SimpleRotateRight(p), given) <= 8 + NewWords(p.left, given) + NewWords(p.right, given)
  {
    var r := SimpleRotateRight(p);
    NodeCosts(r, given);
    NodeCosts(r.right, given);
    NodeCosts(p.left, given);
  }

  lemma SimpleLeftCosts<D>(p: Tree<D>, given: Option<Tree<D>>)
    requires p.Node? && p.right.Node?
    ensures NewWords(SimpleRotateLeft(p), given) <= 8 + NewWords(p.left, given) + NewWords(p.right, given)
  {
    var r := SimpleRotateLeft(p);
    NodeCosts(r, given);
    NodeCosts(r.left, given);
    NodeCosts(p.right, given);
  }

  lemma DoubleRightCosts<D>(p: Tree<D>, given: Option<Tree<D>>)
    requires p.Node? && p.left.Node? && p.left.right.Node?
    ensures NewWords(DoubleRotateRight(p), given) <= 12 + NewWords(p.left, given) + NewWords(p.right, given)
  {
    var r := DoubleRotateRight(p);
    NodeCosts(r, given);
    NodeCosts(r.left, given);
    NodeCosts(r.right, given);
    NodeCosts(p.left, given);
    NodeCosts(p.left.right, given);
  }

  lemma DoubleLeftCosts<D>(p: Tree<D>, given: Option<Tree<D>>)
    requires p.Node? && p.right.Node? && p.right.left.Node?
    ensures NewWords(DoubleRotateLeft(p), given) <= 12 + NewWords(p.left, given) + NewWords(p.right, given)
  {
    var r := DoubleRotateLeft(p);
    NodeCosts(r, given);
    NodeCosts(r.left, given);
    NodeCosts(r.right, given);
    NodeCosts(p.right, given);
    NodeCosts(p.right.left, given);
  }
}
