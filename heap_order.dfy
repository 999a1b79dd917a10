/**
  Heap order over the expiry times of the priority queue's slots, and the facts behind
  container/heap's sift steps. A slot k > 0 of the implicit binary tree has parent
  (k - 1) / 2 and slot i has children 2i + 1 and 2i + 2. The order is the one `Less`
  defines: a slot sorts first when its expiry is strictly earlier, so heap order asks that
  no slot expires before its parent.
*/
module HeapOrder {

  /** The parent slot of slot `k`. */
  function Parent(k: int): int
    requires k > 0
  {
    (k - 1) / 2
  }

  /** `s` with slots `i` and `j` exchanged. */
  function Swapped<T>(s: seq<T>, i: int, j: int): seq<T>
    requires 0 <= i < |s| && 0 <= j < |s|
  {
    s[i := s[j]][j := s[i]]
  }

  /** Exchanging two slots of a sequence keeps its elements. */
  lemma SwapKeepsElements<T>(s: seq<T>, i: int, j: int)
    requires 0 <= i < |s| && 0 <= j < |s|
    ensures multiset(Swapped(s, i, j)) == multiset(s)
  {
  }

  /** Exchanging two slots before `n` leaves the slots from `n` on as they were. */
  lemma SwapKeepsSuffix<T>(s: seq<T>, i: int, j: int, n: int)
    requires 0 <= i < n && 0 <= j < n && n <= |s|
    ensures Swapped(s, i, j)[n..] == s[n..]
  {
  }

  /** A non-empty sequence holds the elements of its prefix and its last element. */
  lemma LastSplitsElements<T>(s: seq<T>)
    requires |s| > 0
    ensures multiset(s) == multiset(s[..|s| - 1]) + multiset{s[|s| - 1]}
  {
    assert s == s[..|s| - 1] + [s[|s| - 1]];
  }

  /** Heap order on the first `n` slots. */
  ghost predicate Ordered(e: seq<int>, n: int)
  {
    n <= |e| && forall k {:trigger Parent(k)} :: 0 < k < n ==> e[Parent(k)] <= e[k]
  }

  /** Heap order on the first `n` slots is heap order of the prefix of length `n`. */
  lemma OrderedPrefix(e: seq<int>, n: int)
    requires 0 <= n && Ordered(e, n)
    ensures Ordered(e[..n], n)
  {
  }

  /** Heap order on the first `n` slots except on the edge from its parent into slot `j`. */
  ghost predicate OrderedExceptInto(e: seq<int>, n: int, j: int)
  {
    n <= |e| && forall k {:trigger Parent(k)} :: 0 < k < n && k != j ==> e[Parent(k)] <= e[k]
  }

  /** The parent of slot `j` expires no later than the children of `j`: what makes it
      safe to move `j`'s parent down into `j`. */
  ghost predicate ParentBoundsChildren(e: seq<int>, n: int, j: int)
  {
    && n <= |e| && 0 <= j < |e|
    && (j > 0 ==> forall c :: 0 < c < n && Parent(c) == j ==> e[Parent(j)] <= e[c])
  }

  /** The state while slot `i0` is sifted down and has reached slot `i`: heap order on the
      first `n` slots except on the edges out of `i` and, as long as nothing moved, on the
      edge into `i0`. With `i == i0` this is also the state after slot `i0`'s expiry was
      overwritten in a heap, which heap.Fix repairs. */
  ghost predicate SiftingDown(e: seq<int>, n: int, i0: int, i: int)
  {
    && (forall k {:trigger Parent(k)} :: 0 < k < n && k < |e| && Parent(k) != i && (k == i0 ==> i0 < i) ==> e[Parent(k)] <= e[k])
    && ParentBoundsChildren(e, n, i)
  }

  /** The root of a heap expires no later than any slot. */
  lemma {:induction false} RootIsEarliest(e: seq<int>, i: int)
    requires Ordered(e, |e|) && 0 <= i < |e|
    ensures e[0] <= e[i]
    decreases i
  {
    if i > 0 {
      RootIsEarliest(e, Parent(i));
    }
  }

  /** One step of container/heap's `up`: when slot `j` expires before its parent, exchanging
      the two moves the only disorder to the edge into the parent. */
  lemma UpStep(e: seq<int>, j: int)
    requires 0 < j < |e| && e[j] < e[Parent(j)]
    requires OrderedExceptInto(e, |e|, j) && ParentBoundsChildren(e, |e|, j)
    ensures OrderedExceptInto(Swapped(e, Parent(j), j), |e|, Parent(j))
    ensures ParentBoundsChildren(Swapped(e, Parent(j), j), |e|, Parent(j))
  {
    var i := Parent(j);
    var e' := Swapped(e, i, j);
    forall k | 0 < k < |e| && k != i
      ensures e'[Parent(k)] <= e'[k]
    {
      if k == j {
      } else if Parent(k) == j {
        assert e'[j] == e[i];
      } else if Parent(k) == i {
        assert e[i] <= e[k];
      }
    }
    if i > 0 {
      forall c | 0 < c < |e| && Parent(c) == i
        ensures e'[Parent(i)] <= e'[c]
      {
        assert e[Parent(i)] <= e[i];
      }
    }
  }

  /** One step of container/heap's `down`: exchanging slot `i` with its earlier child `j`
      when that child expires first moves the disorder to the edges out of `j`. */
  lemma DownStep(e: seq<int>, n: int, i0: int, i: int, j: int)
    requires n <= |e| && 0 <= i0 <= i && (j == 2 * i + 1 || j == 2 * i + 2) && j < n
    requires 2 * i + 1 < n ==> e[j] <= e[2 * i + 1]
    requires 2 * i + 2 < n ==> e[j] <= e[2 * i + 2]
    requires e[j] < e[i]
    requires SiftingDown(e, n, i0, i)
    ensures SiftingDown(Swapped(e, i, j), n, i0, j)
  {
    var e' := Swapped(e, i, j);
    assert Parent(j) == i;
    forall k | 0 < k < n && Parent(k) != j && (k == i0 ==> i0 < j)
      ensures e'[Parent(k)] <= e'[k]
    {
      DownStepEdge(e, n, i0, i, j, k);
    }
    forall c | 0 < c < n && Parent(c) == j
      ensures e'[Parent(j)] <= e'[c]
    {
      assert c != i0 && Parent(c) != i;
    }
  }

  /** The edge into slot `k` after one step of `down`, when `k` is not a child of `j`. */
  lemma DownStepEdge(e: seq<int>, n: int, i0: int, i: int, j: int, k: int)
    requires n <= |e| && 0 <= i0 <= i && (j == 2 * i + 1 || j == 2 * i + 2) && j < n
    requires 2 * i + 1 < n ==> e[j] <= e[2 * i + 1]
    requires 2 * i + 2 < n ==> e[j] <= e[2 * i + 2]
    requires e[j] < e[i]
    requires SiftingDown(e, n, i0, i)
    requires 0 < k < n && Parent(k) != j && (k == i0 ==> i0 < j)
    ensures Swapped(e, i, j)[Parent(k)] <= Swapped(e, i, j)[k]
  {
    var e' := Swapped(e, i, j);
    assert Parent(j) == i;
    if k == j {
    } else if k == i {
      assert e[Parent(i)] <= e[j];
    } else if Parent(k) == i {
      assert k == 2 * i + 1 || k == 2 * i + 2;
    } else {
      assert e'[Parent(k)] == e[Parent(k)] && e'[k] == e[k];
    }
  }

  /** When container/heap's `down` stops at slot `i` (no child expires before it), heap
      order holds on the first `n` slots if anything moved, and otherwise everywhere but
      on the edge into `i0`. */
  lemma DownDone(e: seq<int>, n: int, i0: int, i: int)
    requires n <= |e| && 0 <= i0 <= i
    requires 2 * i + 1 < n ==> e[i] <= e[2 * i + 1]
    requires 2 * i + 2 < n ==> e[i] <= e[2 * i + 2]
    requires SiftingDown(e, n, i0, i)
    ensures i0 < i ==> Ordered(e, n)
    ensures OrderedExceptInto(e, n, i0)
  {
    forall k | 0 < k < n && Parent(k) == i
      ensures e[Parent(k)] <= e[k]
    {
      assert k == 2 * i + 1 || k == 2 * i + 2;
    }
  }

  /** heap.Pop's first step: moving the last slot of a heap to the root leaves the first
      |e| - 1 slots in the state `down` repairs from the root. */
  lemma PopSwapSiftsFromRoot(e: seq<int>)
    requires |e| > 0 && Ordered(e, |e|)
    ensures SiftingDown(Swapped(e, 0, |e| - 1), |e| - 1, 0, 0)
  {
  }

  /** Overwriting the expiry of slot `i` in a heap leaves the state heap.Fix repairs. */
  lemma OverwriteSiftsFrom(e: seq<int>, i: int, x: int)
    requires Ordered(e, |e|) && 0 <= i < |e|
    ensures SiftingDown(e[i := x], |e|, i, i)
  {
    if i > 0 {
      forall c | 0 < c < |e| && Parent(c) == i
        ensures e[Parent(i)] <= e[c]
      {
        assert e[Parent(i)] <= e[i];
      }
    }
  }

  /** heap.Push's first step: appending to a heap leaves only the edge into the new slot
      to repair, which is what `up` does. */
  lemma AppendSiftsUp(e: seq<int>, x: int)
    requires Ordered(e, |e|)
    ensures OrderedExceptInto(e + [x], |e| + 1, |e|)
    ensures ParentBoundsChildren(e + [x], |e| + 1, |e|)
  {
    var e' := e + [x];
    forall k | 0 < k < |e'| && k != |e|
      ensures e'[Parent(k)] <= e'[k]
    {
      assert e'[k] == e[k] && e'[Parent(k)] == e[Parent(k)];
    }
  }
}
