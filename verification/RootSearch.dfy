/** The search of `io_read_root` for the newest root block of one file: a binary search
    over time stamps that steps over data pages and backs off from never-written pages. */
module RootSearch {

  import opened Wrappers
  import opened DiskLayout

  datatype Direction = LEFTWARD | RIGHTWARD

  ghost predicate AllData(blocks: seq<Block>, lo: int, hi: int) {
    forall p | lo <= p < hi && 0 <= p < |blocks| :: blocks[p].PageBlock?
  }

  /** Every root outside `left .. right` is at most as new as the one at `left`. */
  ghost predicate NewestWithin(blocks: seq<Block>, left: int, right: int) {
    && RootAt(blocks, left)
    && forall q | RootAt(blocks, q) && !(left < q < right) ::
         Value(StampAt(blocks, q)) <= Value(StampAt(blocks, left))
  }

  /** The middle root is newer than the left one: nothing below it can be the newest. */
  lemma MoveLeftLimit(blocks: seq<Block>, left: nat, mid: nat, right: nat)
    requires WellPlaced(blocks) && left < mid < right <= |blocks|
    requires NewestWithin(blocks, left, right) && RootAt(blocks, mid)
    requires Value(StampAt(blocks, mid)) > Value(StampAt(blocks, left))
    ensures NewestWithin(blocks, mid, right)
  {
    var start :| 0 <= start <= |blocks| && SortedFrom(blocks, start);
    forall q | RootAt(blocks, q) && !(mid < q < right)
      ensures Value(StampAt(blocks, q)) <= Value(StampAt(blocks, mid))
    {
      if left < q < mid {
        assert Before(start, left, mid) || Before(start, mid, left);
        assert Before(start, q, mid) || Before(start, left, q) || Before(start, mid, q);
      }
    }
  }

  /** The middle root is not newer: nothing from it upwards can be the newest. */
  lemma MoveRightLimit(blocks: seq<Block>, left: nat, mid: nat, right: nat)
    requires WellPlaced(blocks) && left < mid < right <= |blocks|
    requires NewestWithin(blocks, left, right) && RootAt(blocks, mid)
    requires Value(StampAt(blocks, mid)) <= Value(StampAt(blocks, left))
    ensures NewestWithin(blocks, left, mid)
  {
    var start :| 0 <= start <= |blocks| && SortedFrom(blocks, start);
    forall q | RootAt(blocks, q) && !(left < q < mid)
      ensures Value(StampAt(blocks, q)) <= Value(StampAt(blocks, left))
    {
      if mid < q < right {
        assert Before(start, mid, left);
        assert Before(start, q, left);
      }
    }
  }

  /** A never-written page has no root above it. */
  lemma MoveRightLimitToUnused(blocks: seq<Block>, left: nat, mid: nat, right: nat)
    requires WellPlaced(blocks) && left < mid < right <= |blocks|
    requires NewestWithin(blocks, left, right) && blocks[mid].UnusedBlock?
    ensures NewestWithin(blocks, left, mid)
  {
    forall q | RootAt(blocks, q) && !(left < q < mid)
      ensures Value(StampAt(blocks, q)) <= Value(StampAt(blocks, left))
    {
      assert q != mid;
      assert !(mid < q < |blocks|);
    }
  }

  /** Between the limits there are only data pages: the left limit is the newest root. */
  lemma LeftLimitIsNewest(blocks: seq<Block>, left: nat, right: nat)
    requires WellPlaced(blocks) && NewestWithin(blocks, left, right)
    requires left < right <= |blocks|
    requires AllData(blocks, left + 1, right)
    ensures Newest(blocks) == Some(left)
  {
    var start :| 0 <= start <= |blocks| && SortedFrom(blocks, start);
    forall q | RootAt(blocks, q) && q != left
      ensures Value(StampAt(blocks, q)) < Value(StampAt(blocks, left))
    {
      assert !(left < q < right);
      assert Before(start, q, left) || Before(start, left, q);
    }
    NewestIsUnique(blocks, left);
  }

  /** The search in one file.  It ends on every disk whose pages carry one of the three
      cookies; on a well-placed file it finds exactly the newest root. */
  method SearchFile(blocks: seq<Block>) returns (page: Option<nat>)
    requires |blocks| > 0
    ensures page.Some? ==> RootAt(blocks, page.value)
    ensures WellPlaced(blocks) ==> page == Newest(blocks)
  {
    var left, right := 0, |blocks|;
    var direction := RIGHTWARD;
    var rightIsRoot, rightStamp := false, Stamp(0, 0);

    // search_leftmost_root
    while !blocks[left].RootBlock?
      invariant left < |blocks|
      invariant forall q | q < left :: !RootAt(blocks, q)
      decreases |blocks| - left
    {
      var unused := blocks[left].UnusedBlock?;
      left := left + 1;
      if left == |blocks| || unused {
        return None;
      }
    }
    var leftStamp := blocks[left].stamp;

    // left_or_right_page_changed
    while left != right
      invariant left < right <= |blocks|
      invariant RootAt(blocks, left) && leftStamp == blocks[left].stamp
      invariant rightIsRoot ==> RootAt(blocks, right) && rightStamp == blocks[right].stamp
      invariant rightIsRoot ==> Value(rightStamp) <= Value(leftStamp)
      invariant WellPlaced(blocks) ==> NewestWithin(blocks, left, right)
      decreases right - left
    {
      var firstDirection := direction;
      var firstMid := (right + left) / 2;
      var mid := firstMid;
      ghost var oldLeft, oldRight := left, right;

      // mid_page_changed
      var found := false;
      while true
        invariant !found && left == oldLeft && right == oldRight
        invariant left <= mid < right && left <= firstMid < right
        invariant mid == left ==> firstMid == left
        invariant leftStamp == blocks[left].stamp
        invariant direction == firstDirection == RIGHTWARD ==> firstMid <= mid && AllData(blocks, firstMid, mid)
        invariant direction == firstDirection == LEFTWARD ==> mid <= firstMid && AllData(blocks, mid + 1, firstMid + 1)
        invariant direction != firstDirection == RIGHTWARD ==>
                    mid < firstMid && AllData(blocks, mid + 1, firstMid) && AllData(blocks, firstMid, right)
        invariant direction != firstDirection == LEFTWARD ==>
                    firstMid < mid && AllData(blocks, firstMid + 1, mid) && AllData(blocks, left + 1, firstMid + 1)
        decreases if direction == firstDirection then 1 else 0,
                  if direction == RIGHTWARD then right - mid else mid - left
      {
        if mid == left {
          found := true;
          break;
        }
        match blocks[mid]
        case PageBlock(_) =>
          if direction == RIGHTWARD {
            mid := mid + 1;
            if mid == right {
              if firstDirection != direction {
                found := true;
                break;
              }
              mid := firstMid - 1;
              direction := LEFTWARD;
              if mid == left {
                found := true;
                break;
              }
            }
          } else {
            mid := mid - 1;
            if mid == left {
              if firstDirection != direction {
                found := true;
                break;
              }
              mid := firstMid + 1;
              direction := RIGHTWARD;
              if mid == right {
                found := true;
                break;
              }
            }
          }
        case RootBlock(midStamp, _) =>
          NewerIsGreater(midStamp, leftStamp);
          if WellPlaced(blocks) {
            if IsNewer(midStamp, leftStamp) {
              MoveLeftLimit(blocks, left, mid, right);
            } else {
              MoveRightLimit(blocks, left, mid, right);
            }
          }
          if IsNewer(midStamp, leftStamp) {
            left, leftStamp := mid, midStamp;
          } else {
            right, rightStamp, rightIsRoot := mid, midStamp, true;
          }
          direction := if direction == RIGHTWARD then LEFTWARD else RIGHTWARD;
          break;
        case UnusedBlock =>
          if WellPlaced(blocks) {
            MoveRightLimitToUnused(blocks, left, mid, right);
          }
          right, rightIsRoot := mid, false;
          break;
      }
      if found {
        if WellPlaced(blocks) {
          LeftLimitIsNewest(blocks, left, right);
        }
        break;
      }
    }

    // found_newest_root_in_this_file
    NewerIsGreater(rightStamp, leftStamp);
    page := Some(if rightIsRoot && IsNewer(rightStamp, leftStamp) then right else left);
  }
}
