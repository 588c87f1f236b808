/** The look-up tables of triev2.c.  A node shape is numbered by its cell type, 0 for a node with
    all four sons; each table is proved against the set of digits that the shape has sons for. */
module TrieTables {

  import opened TrieKeys

  const BONK: nat := 15

  const OFFSET: seq<seq<nat>> := [
    [1, 2, 3, 4], [1, 2, 3, 0], [1, 2, 0, 3], [1, 2, 0, 0], [1, 0, 2, 3],
    [1, 0, 2, 0], [1, 0, 0, 2], [1, 0, 0, 0], [0, 1, 2, 3], [0, 1, 2, 0],
    [0, 1, 0, 2], [0, 1, 0, 0], [0, 0, 1, 2], [0, 0, 1, 0], [0, 0, 0, 1]]

  /** The shape has a son for the digit. */
  predicate Has(ct: nat, b: Digit)
    requires ct < 15
  {
    OFFSET[ct][b] != 0
  }

  /** The slot of the son for a digit, or 0. */
  function Slot(ct: nat, b: Digit): (slot: nat)
    requires ct < 15
    ensures slot == 0 <==> !Has(ct, b)
  {
    OFFSET[ct][b]
  }

  /** How many sons the shape has for digits below `b`. */
  function Rank(ct: nat, b: nat): nat
    requires ct < 15
  {
    (if 0 < b && Has(ct, 0) then 1 else 0) + (if 1 < b && Has(ct, 1) then 1 else 0)
    + (if 2 < b && Has(ct, 2) then 1 else 0) + (if 3 < b && Has(ct, 3) then 1 else 0)
  }

  /** The number of a shape, read as four bits from the top, has a 0 for each son. */
  lemma ShapeIsBits(ct: nat, b: Digit)
    requires ct < 15
    ensures Has(ct, b) <==> 0 == match b case 0 => ct / 8 % 2 case 1 => ct / 4 % 2 case 2 => ct / 2 % 2 case _ => ct % 2
  {
  }

  const GREATEST_NON_NULL: seq<seq<nat>> := [
    [0, 1, 2, 3, 4], [0, 1, 2, 3, 3], [0, 1, 2, 2, 3], [0, 1, 2, 2, 2], [0, 1, 1, 2, 3],
    [0, 1, 1, 2, 2], [0, 1, 1, 1, 2], [0, 1, 1, 1, 1], [0, 0, 1, 2, 3], [0, 0, 1, 2, 2],
    [0, 0, 1, 1, 2], [0, 0, 1, 1, 1], [0, 0, 0, 1, 2], [0, 0, 0, 1, 1], [0, 0, 0, 0, 1]]

  const DEOFFSET: seq<seq<nat>> := [
    [0, 1, 2, 3], [0, 1, 2, 0xFF], [0, 1, 3, 0xFF], [0, 1, 0xFF, 0xFF], [0, 2, 3, 0xFF],
    [0, 2, 0xFF, 0xFF], [0, 3, 0xFF, 0xFF], [0, 0xFF, 0xFF, 0xFF], [1, 2, 3, 0xFF], [1, 2, 0xFF, 0xFF],
    [1, 3, 0xFF, 0xFF], [1, 0xFF, 0xFF, 0xFF], [2, 3, 0xFF, 0xFF], [2, 0xFF, 0xFF, 0xFF], [3, 0xFF, 0xFF, 0xFF]]

  const FIRST_NONEXISTENT_KEY: seq<nat> := [0xFF, 3, 2, 2, 1, 1, 1, 1, 0, 0, 0, 0, 0, 0, 0]

  const UNI_CELL_TYPE: seq<nat> := [7, 11, 13, 14]

  const BI_CELL_TYPE: seq<seq<nat>> := [
    [BONK, 3, 5, 6], [3, BONK, 9, 10], [5, 9, BONK, 12], [6, 10, 12, BONK]]

  const CELL_TYPE_WITHOUT: seq<seq<nat>> := [
    [8, 4, 2, 1], [9, 5, 3, 1], [10, 6, 2, 3], [11, 7, 3, 3], [12, 4, 6, 5],
    [13, 5, 7, 5], [14, 6, 6, 7], [BONK, 7, 7, 7], [8, 12, 10, 9], [9, 13, 11, 9],
    [10, 14, 10, 11], [11, BONK, 11, 11], [12, 12, 14, 13], [13, 13, BONK, 13], [14, 14, 14, BONK]]

  /** Sons and the header word. */
  const CELL_SIZE: seq<nat> := [5, 4, 4, 3, 4, 3, 3, 2, 4, 3, 3, 2, 3, 2, 2]

  // The sixty cases of the switch in `triev2_insert`: the shape of the copy, the slots copied into it
  // in order (0 where the new son goes), and the slot of the son that is there already, or 0.

  const WITH: seq<seq<nat>> := [
    [0, 0, 0, 0], [1, 1, 1, 0], [2, 2, 0, 2], [3, 3, 1, 2], [4, 0, 4, 4],
    [5, 1, 5, 4], [6, 2, 4, 6], [7, 3, 5, 6], [0, 8, 8, 8], [1, 9, 9, 8],
    [2, 10, 8, 10], [3, 11, 9, 10], [4, 8, 12, 12], [5, 9, 13, 12], [6, 10, 12, 14]]

  const COPIED: seq<seq<seq<nat>>> := [
    [[0, 2, 3, 4], [1, 0, 3, 4], [1, 2, 0, 4], [1, 2, 3, 0]],
    [[0, 2, 3], [1, 0, 3], [1, 2, 0], [1, 2, 3, 0]],
    [[0, 2, 3], [1, 0, 3], [1, 2, 0, 3], [1, 2, 0]],
    [[0, 2], [1, 0], [1, 2, 0], [1, 2, 0]],
    [[0, 2, 3], [1, 0, 2, 3], [1, 0, 3], [1, 2, 0]],
    [[0, 2], [1, 0, 2], [1, 0], [1, 2, 0]],
    [[0, 2], [1, 0, 2], [1, 0, 2], [1, 0]],
    [[0], [1, 0], [1, 0], [1, 0]],
    [[0, 1, 2, 3], [0, 2, 3], [1, 0, 3], [1, 2, 0]],
    [[0, 1, 2], [0, 2], [1, 0], [1, 2, 0]],
    [[0, 1, 2], [0, 2], [1, 0, 2], [1, 0]],
    [[0, 1], [0], [1, 0], [1, 0]],
    [[0, 1, 2], [0, 1, 2], [0, 2], [1, 0]],
    [[0, 1], [0, 1], [0], [1, 0]],
    [[0, 1], [0, 1], [0, 1], [0]]]

  const OLD_SLOT: seq<seq<nat>> := [
    [1, 2, 3, 4], [1, 2, 3, 0], [1, 2, 0, 3], [1, 2, 0, 0], [1, 0, 2, 3],
    [1, 0, 2, 0], [1, 0, 0, 2], [1, 0, 0, 0], [0, 1, 2, 3], [0, 1, 2, 0],
    [0, 1, 0, 2], [0, 1, 0, 0], [0, 0, 1, 2], [0, 0, 1, 0], [0, 0, 0, 1]]

  lemma SizeIsRank(ct: nat)
    requires ct < 15
    ensures CELL_SIZE[ct] == Rank(ct, 4) + 1 && 1 <= Rank(ct, 4) <= 4
  {
  }

  lemma OffsetIsRank(ct: nat, b: Digit)
    requires ct < 15
    ensures OFFSET[ct][b] == if Has(ct, b) then Rank(ct, b) + 1 else 0
    ensures Rank(ct, b) <= Rank(ct, 4) && (Has(ct, b) ==> Rank(ct, b) < Rank(ct, 4))
  {
  }

  lemma GreatestIsRank(ct: nat, b: nat)
    requires ct < 15 && b <= 4
    ensures GREATEST_NON_NULL[ct][b] == Rank(ct, b)
  {
  }

  /** `deoffset` finds the digit of a slot. */
  lemma DeoffsetIsDigit(ct: nat, i: nat)
    requires ct < 15 && i < Rank(ct, 4) <= 4
    ensures DEOFFSET[ct][i] < 4
    ensures var b: Digit := DEOFFSET[ct][i]; Has(ct, b) && Rank(ct, b) == i
  {
  }

  lemma FirstNonexistentIsFirst(ct: nat, b: Digit)
    requires 0 < ct < 15
    ensures FIRST_NONEXISTENT_KEY[ct] < 4
    ensures !Has(ct, FIRST_NONEXISTENT_KEY[ct]) && (b < FIRST_NONEXISTENT_KEY[ct] ==> Has(ct, b))
  {
  }

  lemma UniHasOne(a: Digit, b: Digit)
    ensures UNI_CELL_TYPE[a] < 15 && (Has(UNI_CELL_TYPE[a], b) <==> b == a)
    ensures CELL_SIZE[UNI_CELL_TYPE[a]] == 2
  {
  }

  lemma BiHasTwo(a: Digit, c: Digit, b: Digit)
    requires a != c
    ensures BI_CELL_TYPE[a][c] < 15 && (Has(BI_CELL_TYPE[a][c], b) <==> b == a || b == c)
    ensures CELL_SIZE[BI_CELL_TYPE[a][c]] == 3
  {
  }

  lemma WithoutDropsOne(ct: nat, a: Digit, b: Digit)
    requires ct < 15 && Has(ct, a) && CELL_SIZE[ct] > 2
    ensures CELL_TYPE_WITHOUT[ct][a] < 15 && (Has(CELL_TYPE_WITHOUT[ct][a], b) <==> Has(ct, b) && b != a)
  {
    if a == 0 {
    } else if a == 1 {
    } else if a == 2 {
    }
  }

  lemma WithoutSize(ct: nat, a: Digit)
    requires ct < 15 && Has(ct, a) && CELL_SIZE[ct] > 2
    ensures CELL_TYPE_WITHOUT[ct][a] < 15 && CELL_SIZE[CELL_TYPE_WITHOUT[ct][a]] == CELL_SIZE[ct] - 1
  {
  }

  lemma SwitchShape(ct: nat, a: Digit, b: Digit)
    requires ct < 15
    ensures WITH[ct][a] < 15 && (Has(WITH[ct][a], b) <==> Has(ct, b) || b == a)
  {
    if a == 0 {
    } else if a == 1 {
    } else if a == 2 {
    }
  }

  lemma SwitchSize(ct: nat, a: Digit)
    requires ct < 15
    ensures WITH[ct][a] < 15 && CELL_SIZE[WITH[ct][a]] == |COPIED[ct][a]| + 1
  {
  }

  /** The case of the switch moves the son for `b` to its place in the new shape, and leaves the
      place of the added digit `a` to be filled. */
  predicate MovesSon(ct: nat, a: Digit, b: Digit)
    requires ct < 15
  {
    var i := OFFSET[WITH[ct][a]][b];
    0 < i <= |COPIED[ct][a]| && COPIED[ct][a][i - 1] == if b == a then 0 else OFFSET[ct][b]
  }

  lemma SwitchCopiesWithFirstSon(ct: nat, a: Digit, b: Digit)
    requires ct < 8 && OFFSET[WITH[ct][a]][b] != 0
    ensures MovesSon(ct, a, b)
  {
  }

  lemma SwitchCopiesWithoutFirstSon(ct: nat, a: Digit, b: Digit)
    requires 8 <= ct < 15 && OFFSET[WITH[ct][a]][b] != 0
    ensures MovesSon(ct, a, b)
  {
  }

  lemma SwitchCopies(ct: nat, a: Digit, b: Digit)
    requires ct < 15 && OFFSET[WITH[ct][a]][b] != 0
    ensures MovesSon(ct, a, b)
  {
    if ct < 8 {
      SwitchCopiesWithFirstSon(ct, a, b);
    } else {
      SwitchCopiesWithoutFirstSon(ct, a, b);
    }
  }

  /** Each slot of the copy is for one digit: no case of the switch reads past the sons that
      there are, and just one slot is left open. */
  lemma SwitchSlot(ct: nat, a: Digit, i: nat)
    requires ct < 15 && i < |COPIED[ct][a]|
    ensures WITH[ct][a] < 15 && COPIED[ct][a][i] < CELL_SIZE[ct]
    ensures COPIED[ct][a][i] == 0 <==> i + 1 == OFFSET[WITH[ct][a]][a]
  {
    hide Has, Rank;
    var w := WITH[ct][a];
    SwitchSize(ct, a);
    SizeIsRank(w);
    DeoffsetIsDigit(w, i);
    var c: Digit := DEOFFSET[w][i];
    OffsetIsRank(w, c);
    SwitchCopies(ct, a, c);
    SwitchShape(ct, a, c);
    OffsetIsRank(ct, c);
    SizeIsRank(ct);
    if i + 1 == OFFSET[w][a] {
      OffsetsDiffer(w, c, a);
    }
  }

  /** In the smaller shape the sons behind the one that is dropped move up by one. */
  lemma WithoutOffset(ct: nat, a: Digit, b: Digit)
    requires ct < 15 && Has(ct, a) && Has(ct, b) && b != a && CELL_SIZE[ct] > 2
    ensures CELL_TYPE_WITHOUT[ct][a] < 15
    ensures OFFSET[CELL_TYPE_WITHOUT[ct][a]][b] == OFFSET[ct][b] - if b > a then 1 else 0
    ensures b > a <==> OFFSET[ct][b] > OFFSET[ct][a]
  {
    if a == 0 {
    } else if a == 1 {
    } else if a == 2 {
    }
  }

  lemma OffsetsDiffer(ct: nat, a: Digit, b: Digit)
    requires ct < 15 && Has(ct, a) && OFFSET[ct][a] == OFFSET[ct][b]
    ensures a == b
  {
  }

  /** The smaller of two digits has the first slot. */
  lemma BiOffsets(a: Digit, c: Digit)
    requires a != c
    ensures BI_CELL_TYPE[a][c] < 15
    ensures OFFSET[BI_CELL_TYPE[a][c]][a] == if a < c then 1 else 2
    ensures OFFSET[BI_CELL_TYPE[a][c]][c] == if c < a then 1 else 2
  {
  }

  lemma OldSlotIsOffset(ct: nat, a: Digit)
    requires ct < 15
    ensures OLD_SLOT[ct][a] == OFFSET[ct][a]
  {
  }

  /** `deoffset` names the other digit of a shape with two. */
  lemma OtherSlot(ct: nat, b: Digit)
    requires ct < 15 && CELL_SIZE[ct] == 3 && Has(ct, b)
    ensures OFFSET[ct][b] <= 2 && DEOFFSET[ct][2 - OFFSET[ct][b]] < 4
    ensures var c: Digit := DEOFFSET[ct][2 - OFFSET[ct][b]];
            c != b && Has(ct, c) && OFFSET[ct][c] == 3 - OFFSET[ct][b]
  {
  }

  lemma OnlyTwo(ct: nat, a: Digit, c: Digit, b: Digit)
    requires ct < 15 && CELL_SIZE[ct] == 3 && Has(ct, a) && Has(ct, c) && a != c
    ensures Has(ct, b) <==> b == a || b == c
  {
  }

  lemma OnlyOne(ct: nat, a: Digit, b: Digit)
    requires ct < 15 && CELL_SIZE[ct] == 2 && Has(ct, a)
    ensures Has(ct, b) <==> b == a
  {
  }

  /** Where the smaller shape has the sons that are left. */
  lemma WithoutMoves(ct: nat, a: Digit, b: Digit)
    requires ct < 15 && Has(ct, a) && CELL_SIZE[ct] > 2
    ensures CELL_TYPE_WITHOUT[ct][a] < 15
    ensures OFFSET[CELL_TYPE_WITHOUT[ct][a]][b] ==
              if b == a || !Has(ct, b) then 0
              else if OFFSET[ct][b] > OFFSET[ct][a] then OFFSET[ct][b] - 1 else OFFSET[ct][b]
  {
    WithoutDropsOne(ct, a, b);
    if Has(ct, b) && b != a {
      WithoutOffset(ct, a, b);
    }
  }

  lemma OffsetInCell(ct: nat, b: Digit)
    requires ct < 15
    ensures OFFSET[ct][b] < CELL_SIZE[ct] && 2 <= CELL_SIZE[ct] <= 5
  {
  }

  /** The last entry of `greatest_non_null` is the slot of the greatest digit. */
  lemma LastIsGreatest(ct: nat)
    requires ct < 15
    ensures 1 <= GREATEST_NON_NULL[ct][4] < CELL_SIZE[ct] && DEOFFSET[ct][GREATEST_NON_NULL[ct][4] - 1] < 4
    ensures var d: Digit := DEOFFSET[ct][GREATEST_NON_NULL[ct][4] - 1];
            Has(ct, d) && OFFSET[ct][d] == GREATEST_NON_NULL[ct][4] && forall c: Digit :: Has(ct, c) ==> c <= d
  {
  }

  /** The other entries give the slot of the greatest digit below a given one. */
  lemma SmallerSlot(ct: nat, b: Digit)
    requires ct < 15 && GREATEST_NON_NULL[ct][b] != 0
    ensures GREATEST_NON_NULL[ct][b] < CELL_SIZE[ct] && DEOFFSET[ct][GREATEST_NON_NULL[ct][b] - 1] < 4
    ensures var c: Digit := DEOFFSET[ct][GREATEST_NON_NULL[ct][b] - 1];
            && c < b && Has(ct, c) && OFFSET[ct][c] == GREATEST_NON_NULL[ct][b]
            && forall a: Digit :: Has(ct, a) && a < b ==> a <= c
  {
  }

  lemma HasSmaller(ct: nat, a: Digit, b: Digit)
    requires ct < 15 && Has(ct, a) && a < b
    ensures GREATEST_NON_NULL[ct][b] != 0
  {
  }
}
