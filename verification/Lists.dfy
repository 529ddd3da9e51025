/** Lists of distinct elements, and the sorted list of a set. */
module Lists {

  ghost predicate Distinct<T(!new)>(list: seq<T>) {
    forall k, l :: 0 <= k < l < |list| ==> list[k] != list[l]
  }

  /** Distinct numbers below `size` are at most `size` many. */
  lemma {:induction false} DistinctFits(list: seq<nat>, size: nat)
    requires Distinct(list) && forall k :: 0 <= k < |list| ==> list[k] < size
    ensures |list| <= size
  {
    if k: nat :| k < |list| && list[k] == size - 1 {
      DistinctFits(list[..k] + list[k + 1..], size - 1);
    } else if |list| > 0 {
      assert list[0] < size;
      DistinctFits(list, size - 1);
    }
  }

  /** A list that holds every number below `size` is at least that long. */
  lemma {:induction false} CoveringIsLong(list: seq<nat>, size: nat)
    requires forall y: nat :: y < size ==> y in list
    ensures size <= |list|
  {
    if size > 0 {
      var last: nat := size - 1;
      assert last in list;
      var k :| 0 <= k < |list| && list[k] == last;
      var rest := list[..k] + list[k + 1..];
      forall y: nat | y < size - 1 ensures y in rest {
        assert y in list;
        var l :| 0 <= l < |list| && list[l] == y;
        assert rest[if l < k then l else l - 1] == y;
      }
      CoveringIsLong(rest, size - 1);
    }
  }

  /** `size` distinct numbers below `size` are all of them. */
  lemma DistinctCovers(list: seq<nat>, size: nat, y: nat)
    requires Distinct(list) && |list| == size && y < size
    requires forall k :: 0 <= k < |list| ==> list[k] < size
    ensures y in list
  {
    if y !in list {
      DistinctFits(list + [y], size);
    }
  }

  lemma {:induction false} DistinctCount<T(!new)>(list: seq<T>)
    requires Distinct(list)
    ensures |set x | x in list| == |list|
  {
    if list == [] {
      assert (set x | x in list) == {};
    } else {
      var front := list[..|list| - 1];
      DistinctCount(front);
      assert (set x | x in list) == (set x | x in front) + {list[|list| - 1]};
    }
  }

  /** `sorted`. */
  method Sorted(s: set<nat>) returns (list: seq<nat>)
    ensures forall k, l :: 0 <= k < l < |list| ==> list[k] < list[l]
    ensures forall j :: j in list <==> j in s
  {
    list := [];
    var left := s;
    while left != {}
      invariant left <= s
      invariant forall k, l :: 0 <= k < l < |list| ==> list[k] < list[l]
      invariant forall k, j :: 0 <= k < |list| && j in left ==> list[k] < j
      invariant forall j :: j in s <==> j in list || j in left
      decreases left
    {
      var least := Least(left);
      list := list + [least];
      left := left - {least};
    }
  }

  method Least(s: set<nat>) returns (least: nat)
    requires s != {}
    ensures least in s && forall j :: j in s ==> least <= j
  {
    least :| least in s;
    var left := s - {least};
    while left != {}
      invariant left <= s && least in s
      invariant forall j :: j in s && j !in left ==> least <= j
      decreases left
    {
      var j :| j in left;
      if j < least {
        least := j;
      }
      left := left - {j};
    }
  }
}
