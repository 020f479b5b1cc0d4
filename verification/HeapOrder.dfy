/** The array shape of Go's `container/heap`: what one sift step does to heap order. */
module HeapOrder {
  import opened Order

  /** `(i - 1) / 2` with Go's truncating division, so the root is its own parent. */
  function Parent(i: nat): (p: nat)
    ensures p <= i && (p == i <==> i == 0)
  {
    if i == 0 then 0 else (i - 1) / 2
  }

  function Exchange<T>(s: seq<T>, i: nat, j: nat): (t: seq<T>)
    requires i < |s| && j < |s|
    ensures |t| == |s| && t[i] == s[j] && t[j] == s[i]
    ensures forall k :: 0 <= k < |s| && k != i && k != j ==> t[k] == s[k]
  {
    s[i := s[j]][j := s[i]]
  }

  /**
   * Every node below `n` whose parent is at or after `lo` is in order with its parent,
   * except the children of `hole` and the node `loose` itself.
   */
  ghost predicate Pairs(s: seq<Item>, n: nat, lo: nat, hole: nat, loose: nat)
    requires n <= |s|
  {
    forall k {:trigger Parent(k)} :: 0 < k < n && lo <= Parent(k) != hole && k != loose ==> Le(s[Parent(k)], s[k])
  }

  /** The children of `i` are in order with the parent of `i`. */
  ghost predicate Grand(s: seq<Item>, n: nat, lo: nat, i: nat)
    requires n <= |s|
  {
    0 < i && lo <= Parent(i) ==> forall k {:trigger Parent(k)} :: 0 < k < n && Parent(k) == i ==> Le(s[Parent(i)], s[k])
  }

  /** Heap order of the first `n` nodes, restricted to parents at or after `lo`. */
  ghost predicate OrderedFrom(s: seq<Item>, n: nat, lo: nat)
    requires n <= |s|
  {
    forall k {:trigger Parent(k)} :: 0 < k < n && lo <= Parent(k) ==> Le(s[Parent(k)], s[k])
  }

  ghost predicate Ordered(s: seq<Item>) {
    OrderedFrom(s, |s|, 0)
  }

  /** `j` is the child that `down` compares with `i`. */
  ghost predicate LesserChild(s: seq<Item>, n: nat, i: nat, j: nat)
    requires n <= |s|
  {
    0 < j < n && Parent(j) == i && forall k {:trigger Parent(k)} :: 0 < k < n && Parent(k) == i ==> Le(s[j], s[k])
  }

  lemma DownStep(s: seq<Item>, n: nat, lo: nat, start: nat, i: nat, j: nat)
    requires n <= |s| && lo <= start <= i < n && LesserChild(s, n, i, j) && Less(s[j], s[i])
    requires Pairs(s, n, lo, i, if i == start then start else 0) && Grand(s, n, lo, i)
    ensures Pairs(Exchange(s, i, j), n, lo, j, 0) && Grand(Exchange(s, i, j), n, lo, j)
  {
    var t := Exchange(s, i, j);
    LessTotal(s[i], s[j]);
    forall k | 0 < k < n && lo <= Parent(k) != j
      ensures Le(t[Parent(k)], t[k])
    {
      if k == i {
        assert Le(s[Parent(i)], s[j]);
      } else if Parent(k) == i {
        assert Le(s[j], s[k]);
      }
    }
    forall k | 0 < k < n && Parent(k) == j
      ensures Le(t[Parent(j)], t[k])
    {
      assert Le(s[Parent(k)], s[k]);
    }
  }

  lemma DownStops(s: seq<Item>, n: nat, lo: nat, start: nat, i: nat, j: nat)
    requires n <= |s| && lo <= start <= i && LesserChild(s, n, i, j) && Le(s[i], s[j])
    requires Pairs(s, n, lo, i, if i == start then start else 0)
    ensures Pairs(s, n, lo, n, if i == start then start else 0)
  {
    forall k | 0 < k < n && Parent(k) == i
      ensures Le(s[i], s[k])
    {
      LeTransitive(s[i], s[j], s[k]);
    }
  }

  lemma UpStep(s: seq<Item>, n: nat, j: nat)
    requires 0 < j < n <= |s| && Less(s[j], s[Parent(j)])
    requires Pairs(s, n, 0, n, j) && Grand(s, n, 0, j)
    ensures Pairs(Exchange(s, Parent(j), j), n, 0, n, Parent(j))
    ensures Grand(Exchange(s, Parent(j), j), n, 0, Parent(j))
  {
    var p := Parent(j);
    var t := Exchange(s, p, j);
    LessTotal(s[j], s[p]);
    forall k | 0 < k < n && k != p
      ensures Le(t[Parent(k)], t[k])
    {
      if k != j && Parent(k) == p {
        LeTransitive(s[j], s[p], s[k]);
      } else if Parent(k) == j {
        assert Le(s[p], s[k]);
      }
    }
    if 0 < p {
      forall k | 0 < k < n && Parent(k) == p
        ensures Le(t[Parent(p)], t[k])
      {
        assert Le(s[Parent(p)], s[p]);
        if k != j {
          LeTransitive(s[Parent(p)], s[p], s[k]);
        }
      }
    }
  }

  /** Replacing one record of an ordered heap leaves order everywhere but around it. */
  lemma Loosen(s: seq<Item>, i: nat, x: Item)
    requires i < |s| && Ordered(s)
    ensures Pairs(s[i := x], |s|, 0, i, i) && Grand(s[i := x], |s|, 0, i)
  {
    forall k | 0 < k < |s| && Parent(k) == i && 0 < i
      ensures Le(s[Parent(i)], s[k])
    {
      LeTransitive(s[Parent(i)], s[i], s[k]);
    }
  }

  /** So does moving the last record into the place of another and leaving the other last. */
  lemma LoosenLast(s: seq<Item>, i: nat)
    requires i < |s| - 1 && Ordered(s)
    ensures Pairs(Exchange(s, i, |s| - 1), |s| - 1, 0, i, i)
    ensures Grand(Exchange(s, i, |s| - 1), |s| - 1, 0, i)
  {
    var t := Exchange(s, i, |s| - 1);
    Loosen(s, i, s[|s| - 1]);
    forall k | 0 < k < |s| - 1 && Parent(k) == i && 0 < i
      ensures Le(t[Parent(i)], t[k])
    {
      assert s[i := s[|s| - 1]][k] == s[k];
      assert Le(s[Parent(i)], s[k]);
    }
  }

  /** Heap order puts a least record at the root. */
  lemma {:induction false} RootIsLeast(s: seq<Item>, k: nat)
    requires k < |s| && Ordered(s)
    ensures Le(s[0], s[k])
  {
    if k == 0 {
      LessTotal(s[0], s[0]);
    } else {
      RootIsLeast(s, Parent(k));
      LeTransitive(s[0], s[Parent(k)], s[k]);
    }
  }
}
