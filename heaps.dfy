/**
 * Binary min-heaps of entries, as Python's `heapq` keeps them in a list:
 * the entry at index p is no later than its children at 2p+1 and 2p+2.
 * `HeapPush`, `HeapPop` and `Heapify` are the three `heapq` operations
 * the queue uses (taskq/queue.py:51, 66, 109).
 */
module Heaps {
  import opened Entries

  /** `c` is a child of `p` in the implicit binary tree of a heap list. */
  predicate ChildOf(p: int, c: int) {
    0 <= p && (c == 2 * p + 1 || c == 2 * p + 2)
  }

  ghost predicate IsHeap(h: seq<Entry>) {
    forall p, c :: 0 <= p < |h| && c < |h| && ChildOf(p, c) ==> Le(h[p], h[c])
  }

  /** No entry object occurs twice in the list. */
  ghost predicate Distinct(h: seq<Entry>) {
    forall e | e in multiset(h) :: multiset(h)[e] == 1
  }

  /** The root of a heap is no later than any entry in it. */
  lemma {:induction false} RootIsLeast(h: seq<Entry>, i: nat)
    requires IsHeap(h) && i < |h|
    ensures Le(h[0], h[i])
    decreases i
  {
    if i > 0 {
      var p := (i - 1) / 2;
      assert ChildOf(p, i);
      RootIsLeast(h, p);
    }
  }

  lemma HeadIsLeast(h: seq<Entry>)
    requires IsHeap(h) && |h| > 0
    ensures forall e | e in h :: Le(h[0], e)
  {
    forall e | e in h
      ensures Le(h[0], e)
    {
      var i :| 0 <= i < |h| && h[i] == e;
      RootIsLeast(h, i);
    }
  }

  /** Exchanges the entries at positions `i` and `j`. */
  function Swap(s: seq<Entry>, i: nat, j: nat): (r: seq<Entry>)
    requires i < |s| && j < |s|
    ensures |r| == |s| && r[i] == s[j] && r[j] == s[i]
    ensures forall m :: 0 <= m < |s| && m != i && m != j ==> r[m] == s[m]
    ensures multiset(r) == multiset(s)
  {
    s[i := s[j]][j := s[i]]
  }

  /** Every parent/child pair is in order except the pairs whose child is `k`. */
  ghost predicate HeapExceptChild(r: seq<Entry>, k: nat) {
    forall p, c :: 0 <= p < |r| && c < |r| && c != k && ChildOf(p, c) ==> Le(r[p], r[c])
  }

  /** The parent of `k` is no later than the children of `k`. */
  ghost predicate ParentBelowGrandchildren(r: seq<Entry>, k: nat)
    requires k < |r|
  {
    k > 0 ==> forall c :: 0 <= c < |r| && ChildOf(k, c) ==> Le(r[(k - 1) / 2], r[c])
  }

  /** One step of sifting up keeps the two sift-up invariants, one level higher. */
  lemma SiftUpStep(r: seq<Entry>, k: nat)
    requires 0 < k < |r|
    requires HeapExceptChild(r, k) && ParentBelowGrandchildren(r, k)
    requires Lt(r[k], r[(k - 1) / 2])
    ensures HeapExceptChild(Swap(r, k, (k - 1) / 2), (k - 1) / 2)
    ensures ParentBelowGrandchildren(Swap(r, k, (k - 1) / 2), (k - 1) / 2)
  {
    var q := (k - 1) / 2;
    var s := Swap(r, k, q);
    assert ChildOf(q, k);
    forall p, c | 0 <= p < |s| && c < |s| && c != q && ChildOf(p, c)
      ensures Le(s[p], s[c])
    {
      if p == q && c != k {
        assert Le(r[q], r[c]);
      } else if p == k {
        assert Le(r[q], r[c]);
      }
    }
    if q > 0 {
      assert ChildOf((q - 1) / 2, q);
    }
  }

  /** heapq.heappush: append, then move the new entry up while it is earlier than its parent. */
  method HeapPush(h: seq<Entry>, e: Entry) returns (r: seq<Entry>)
    requires IsHeap(h)
    ensures IsHeap(r)
    ensures multiset(r) == multiset(h) + multiset{e}
    ensures |r| == |h| + 1
  {
    r := h + [e];
    var k := |h|;
    while k > 0 && Lt(r[k], r[(k - 1) / 2])
      invariant 0 <= k < |r| == |h| + 1
      invariant multiset(r) == multiset(h) + multiset{e}
      invariant HeapExceptChild(r, k) && ParentBelowGrandchildren(r, k)
      decreases k
    {
      SiftUpStep(r, k);
      r, k := Swap(r, k, (k - 1) / 2), (k - 1) / 2;
    }
    if k > 0 {
      assert ChildOf((k - 1) / 2, k);
    }
  }

  /** Every parent/child pair whose parent is at or beyond `start`, other than `k`, is in order. */
  ghost predicate HeapBeyondExcept(r: seq<Entry>, start: nat, k: nat) {
    forall p, c :: start <= p < |r| && c < |r| && p != k && ChildOf(p, c) ==> Le(r[p], r[c])
  }

  /** One step of sifting down keeps the two sift-down invariants, one level lower. */
  lemma SiftDownStep(r: seq<Entry>, start: nat, k: nat, c: nat)
    requires start <= k && c < |r| && ChildOf(k, c)
    requires HeapBeyondExcept(r, start, k)
    requires k > start ==> ParentBelowGrandchildren(r, k)
    requires forall d :: d < |r| && ChildOf(k, d) ==> Le(r[c], r[d])
    requires Lt(r[c], r[k])
    ensures HeapBeyondExcept(Swap(r, k, c), start, c)
    ensures ParentBelowGrandchildren(Swap(r, k, c), c)
    ensures Swap(r, k, c)[..start] == r[..start]
  {
    var s := Swap(r, k, c);
    assert s[..start] == r[..start];
    forall p, d | start <= p < |s| && d < |s| && p != c && ChildOf(p, d)
      ensures Le(s[p], s[d])
    {
      if d == k {
        assert k > start && p == (k - 1) / 2;
      }
    }
  }

  /** Sifting down is done once the entry at `k` is no later than its children. */
  lemma SiftDownDone(r: seq<Entry>, start: nat, k: nat)
    requires start <= k < |r|
    requires HeapBeyondExcept(r, start, k)
    requires forall d :: d < |r| && ChildOf(k, d) ==> Le(r[k], r[d])
    ensures forall p, c :: start <= p < |r| && c < |r| && ChildOf(p, c) ==> Le(r[p], r[c])
  {
  }

  /**
   * Moves the entry at `start` down below every child that is earlier than it.
   * All parent/child pairs whose parent lies beyond `start` must already be in
   * order; afterwards so are those whose parent is `start` itself.
   */
  method SiftDown(a: seq<Entry>, start: nat) returns (r: seq<Entry>)
    requires start < |a|
    requires forall p, c :: start < p < |a| && c < |a| && ChildOf(p, c) ==> Le(a[p], a[c])
    ensures |r| == |a| && multiset(r) == multiset(a)
    ensures r[..start] == a[..start]
    ensures forall p, c :: start <= p < |r| && c < |r| && ChildOf(p, c) ==> Le(r[p], r[c])
  {
    r := a;
    var k := start;
    while 2 * k + 1 < |r|
      invariant start <= k < |r| == |a|
      invariant multiset(r) == multiset(a)
      invariant r[..start] == a[..start]
      invariant HeapBeyondExcept(r, start, k)
      invariant k > start ==> ParentBelowGrandchildren(r, k)
      decreases |r| - k
    {
      var c := 2 * k + 1;
      if c + 1 < |r| && Lt(r[c + 1], r[c]) {
        c := c + 1;
      }
      if !Lt(r[c], r[k]) {
        assert forall d :: d < |r| && ChildOf(k, d) ==> Le(r[k], r[d]);
        SiftDownDone(r, start, k);
        return;
      }
      SiftDownStep(r, start, k, c);
      r, k := Swap(r, k, c), c;
    }
    SiftDownDone(r, start, k);
  }

  /** heapq.heappop: take the root, move the last entry to the root and sift it down. */
  method HeapPop(h: seq<Entry>) returns (top: Entry, r: seq<Entry>)
    requires IsHeap(h) && |h| > 0
    ensures top == h[0]
    ensures IsHeap(r)
    ensures multiset(r) == multiset(h) - multiset{top}
    ensures |r| == |h| - 1
  {
    var last := h[|h| - 1];
    r := h[..|h| - 1];
    assert h == r + [last];
    if r == [] {
      top := last;
      return;
    }
    top := r[0];
    r := r[0 := last];
    r := SiftDown(r, 0);
  }

  /** heapq.heapify: sift down every parent, from the last one to the root. */
  method Heapify(a: seq<Entry>) returns (r: seq<Entry>)
    ensures IsHeap(r)
    ensures multiset(r) == multiset(a)
  {
    r := a;
    var i := |a| / 2;
    while i > 0
      invariant 0 <= i <= |a| / 2
      invariant |r| == |a| && multiset(r) == multiset(a)
      invariant forall p, c :: i <= p < |r| && c < |r| && ChildOf(p, c) ==> Le(r[p], r[c])
    {
      i := i - 1;
      r := SiftDown(r, i);
    }
  }

  /** What `HeapPush` returns holds exactly the old entries and the new one, each once. */
  lemma PushedMembers(h: seq<Entry>, r: seq<Entry>, e: Entry)
    requires multiset(r) == multiset(h) + multiset{e}
    requires Distinct(h) && e !in h
    ensures Distinct(r)
    ensures forall x :: x in r <==> x in h || x == e
  {
    assert forall x :: x in r <==> x in multiset(r);
    assert forall x :: x in h <==> x in multiset(h);
  }

  /** What `HeapPop` leaves holds exactly the old entries other than the root, each once. */
  lemma PoppedMembers(h: seq<Entry>, r: seq<Entry>, top: Entry)
    requires multiset(r) == multiset(h) - multiset{top}
    requires Distinct(h) && top in h
    ensures Distinct(r)
    ensures forall x :: x in r <==> x in h && x != top
  {
    assert forall x :: x in r <==> x in multiset(r);
    assert forall x :: x in h <==> x in multiset(h);
  }

  /** A list whose entries all occur, at least as often, in a list without repeats has no repeats. */
  lemma DistinctWithin(a: seq<Entry>, b: seq<Entry>)
    requires multiset(a) <= multiset(b) && Distinct(b)
    ensures Distinct(a)
  {
    forall e | e in multiset(a)
      ensures multiset(a)[e] == 1
    {
      assert e in multiset(b);
    }
  }
}
