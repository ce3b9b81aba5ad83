/** The abstract free list of the K&R allocator (The C Programming Language,
    2nd ed., section 8.7): free blocks as spans of header-sized units, in
    ascending address order, starting at the zero-size sentinel `base`.
    The functions here are the specifications that the allocator's methods
    are proved against; the lemmas are what the allocator promises. */
module FreeList {

  datatype Option<T> = None | Some(value: T)

  /** Unit address of the static sentinel header `base`; every heap block lies above it. */
  const Base: nat := 1

  /** A block: its first unit (the header) and its length in units, header included. */
  datatype Span = Span(addr: nat, size: nat)

  function End(s: Span): nat { s.addr + s.size }

  /** The unit ranges [a, a + sa) and [b, b + sb) share no unit. */
  predicate Apart(a: nat, sa: nat, b: nat, sb: nat) { a + sa <= b || b + sb <= a }

  /** Ascending by address, and every block ends strictly before the next one
      starts: no overlap and no two physically touching free blocks. */
  predicate Ordered(v: seq<Span>) {
    forall i, j :: 0 <= i < j < |v| ==> v[i].addr + v[i].size < v[j].addr
  }

  /** Ordered, stated between neighbours only. */
  predicate Sorted(v: seq<Span>) {
    |v| <= 1 || (End(v[0]) < v[1].addr && Sorted(v[1..]))
  }

  /** The neighbour form and the pairwise form of the order agree. */
  lemma {:induction false} SortedOrdered(v: seq<Span>)
    ensures Sorted(v) <==> Ordered(v)
  {
    if |v| > 1 {
      var t := v[1..];
      SortedOrdered(t);
      assert forall i :: 0 <= i < |t| ==> t[i] == v[i + 1];
      if End(v[0]) < v[1].addr && Ordered(t) {
        forall i, j | 0 <= i < j < |v| ensures v[i].addr + v[i].size < v[j].addr {
          if i >= 1 {
            assert t[i - 1] == v[i] && t[j - 1] == v[j];
          } else if j >= 2 {
            assert t[0] == v[1] && t[j - 1] == v[j];
          }
        }
      }
      if Ordered(v) {
        forall i, j | 0 <= i < j < |t| ensures t[i].addr + t[i].size < t[j].addr {
          assert t[i] == v[i + 1] && t[j] == v[j + 1];
        }
      }
    }
  }

  /** Any two blocks of a sorted list, not just neighbours, are in order. */
  lemma Below(v: seq<Span>, j: nat, k: nat)
    requires Sorted(v) && j < k < |v|
    ensures End(v[j]) < v[k].addr
  {
    SortedOrdered(v);
  }

  /** The free list's invariant: the sentinel first, then non-empty heap blocks
      in ascending, non-touching order. Following `ptr` from the last block
      wraps to the sentinel, so the wrap edge is unique. */
  predicate WellFormed(v: seq<Span>) {
    |v| >= 1 && v[0] == Span(Base, 0) && Sorted(v) &&
    forall j :: 1 <= j < |v| ==> v[j].size >= 1
  }

  /** The sum of the sizes of the free blocks. */
  function Total(v: seq<Span>): nat {
    if v == [] then 0 else Total(v[..|v| - 1]) + v[|v| - 1].size
  }

  // ---------------------------------------------------------------------
  // Cyclic positions in a list of n blocks

  /** The index of the block `d` links after index `f` (0 <= d <= n). */
  function At(n: nat, f: nat, d: nat): nat
    requires f < n && d <= n
  {
    if f + d < n then f + d else f + d - n
  }

  /** The index `ptr` leads to from index j. */
  function Succ(n: nat, j: nat): nat
    requires j < n
  {
    At(n, j, 1)
  }

  /** How many links lead from f to j, counting f itself as n links away. */
  function Dist(n: nat, f: nat, j: nat): (d: nat)
    requires f < n && j < n
    ensures 1 <= d <= n && At(n, f, d) == j
  {
    if f < j then j - f else j + n - f
  }

  // ---------------------------------------------------------------------
  // Allocation: next-fit search and carving

  /** The first block, `d` or more links after index f, whose size is at least nu. */
  function Scan(v: seq<Span>, f: nat, d: nat, nu: nat): (r: Option<nat>)
    requires f < |v| && 1 <= d <= |v|
    ensures r.Some? ==> r.value < |v| && v[r.value].size >= nu
    ensures r.Some? ==> d <= Dist(|v|, f, r.value)
    decreases |v| - d
  {
    var j := At(|v|, f, d);
    if v[j].size >= nu then Some(j)
    else if d == |v| then None
    else Scan(v, f, d + 1, nu)
  }

  /** The block malloc takes: the first that fits, searching from the one after the cursor f. */
  function NextFit(v: seq<Span>, f: nat, nu: nat): (r: Option<nat>)
    requires f < |v|
    ensures r.Some? ==> r.value < |v| && v[r.value].size >= nu
  {
    Scan(v, f, 1, nu)
  }

  lemma {:induction false} ScanSpec(v: seq<Span>, f: nat, d: nat, nu: nat)
    requires f < |v| && 1 <= d <= |v|
    ensures Scan(v, f, d, nu).None? ==>
              forall e :: d <= e <= |v| ==> v[At(|v|, f, e)].size < nu
    ensures Scan(v, f, d, nu).Some? ==>
              forall e :: d <= e < Dist(|v|, f, Scan(v, f, d, nu).value) ==> v[At(|v|, f, e)].size < nu
    decreases |v| - d
  {
    var j := At(|v|, f, d);
    if v[j].size < nu && d < |v| {
      ScanSpec(v, f, d + 1, nu);
    }
  }

  /** NextFit fails exactly when no free block is large enough, and otherwise
      returns a fitting block that no earlier fitting block precedes in the
      cyclic order starting after the cursor. */
  lemma NextFitSpec(v: seq<Span>, f: nat, nu: nat)
    requires f < |v|
    ensures NextFit(v, f, nu).None? <==> forall j :: 0 <= j < |v| ==> v[j].size < nu
    ensures NextFit(v, f, nu).Some? ==>
              forall j :: 0 <= j < |v| && Dist(|v|, f, j) < Dist(|v|, f, NextFit(v, f, nu).value) ==>
                v[j].size < nu
  {
    ScanSpec(v, f, 1, nu);
    if NextFit(v, f, nu).None? {
      forall j | 0 <= j < |v| ensures v[j].size < nu {
        assert At(|v|, f, Dist(|v|, f, j)) == j;
      }
    } else {
      var i := NextFit(v, f, nu).value;
      forall j | 0 <= j < |v| && Dist(|v|, f, j) < Dist(|v|, f, i) ensures v[j].size < nu {
        assert At(|v|, f, Dist(|v|, f, j)) == j;
      }
    }
  }

  /** Taking nu units from block i: an exact fit leaves the list, a larger block
      keeps its place and loses its tail. Returns the new list and the address
      of the block handed out. */
  function Carve(v: seq<Span>, i: nat, nu: nat): (r: (seq<Span>, nat))
    requires i < |v| && v[i].size >= nu
    ensures v[i].addr <= r.1 && r.1 + nu == End(v[i])
    ensures |r.0| == if v[i].size == nu then |v| - 1 else |v|
  {
    if v[i].size == nu then (v[..i] + v[i + 1..], v[i].addr)
    else (v[i := Span(v[i].addr, v[i].size - nu)], v[i].addr + (v[i].size - nu))
  }

  // ---------------------------------------------------------------------
  // Release: insertion point and coalescing

  /** The insertion point for a block at address a: the last free block below a. */
  function Slot(v: seq<Span>, a: nat): (k: nat)
    requires |v| >= 1 && v[0].addr < a
    ensures k < |v| && v[k].addr < a
    ensures forall j :: k < j < |v| ==> v[j].addr >= a
  {
    if v[|v| - 1].addr < a then |v| - 1 else Slot(v[..|v| - 1], a)
  }

  /** After a release, a request no larger than the released block finds a
      fit from any cursor: malloc then reuses free memory without growing
      the heap. */
  lemma ReleasedFitsRequest(v: seq<Span>, k: nat, s: Span, f: nat, nu: nat)
    requires k < |v| && f < |Release(v, k, s)| && nu <= s.size
    ensures NextFit(Release(v, k, s), f, nu).Some?
  {
    ReleaseHolds(v, k, s);
    NextFitSpec(Release(v, k, s), f, nu);
  }

  /** Block s ends where the free block after k starts. */
  predicate Fwd(v: seq<Span>, k: nat, s: Span)
    requires k < |v|
  {
    k + 1 < |v| && End(s) == v[k + 1].addr
  }

  /** Block s, having absorbed the following free block when it touches it. */
  function Merged(v: seq<Span>, k: nat, s: Span): Span
    requires k < |v|
  {
    if Fwd(v, k, s) then Span(s.addr, s.size + v[k + 1].size) else s
  }

  /** The free blocks after the merged block. */
  function Rest(v: seq<Span>, k: nat, s: Span): seq<Span>
    requires k < |v|
  {
    if Fwd(v, k, s) then v[k + 2..] else v[k + 1..]
  }

  /** Inserting block s after block k, absorbing the following block when s
      ends where it starts, and being absorbed into block k when block k ends
      where s starts. */
  function Release(v: seq<Span>, k: nat, s: Span): (r: seq<Span>)
    requires k < |v|
    ensures |r| + (if End(v[k]) == s.addr then 1 else 0) + (if Fwd(v, k, s) then 1 else 0) == |v| + 1
    ensures k <= |r| && r[..k] == v[..k]
  {
    if End(v[k]) == s.addr then v[..k] + [Span(v[k].addr, v[k].size + Merged(v, k, s).size)] + Rest(v, k, s)
    else v[..k + 1] + [Merged(v, k, s)] + Rest(v, k, s)
  }

  /** The released block, merged or not, is a block of the new list at least
      as large as s: at index k when block k absorbs it, k + 1 otherwise. */
  lemma ReleaseHolds(v: seq<Span>, k: nat, s: Span)
    requires k < |v|
    ensures var j := if End(v[k]) == s.addr then k else k + 1;
      j < |Release(v, k, s)| && Release(v, k, s)[j].size >= s.size
  {
  }

  /** Block s lies strictly inside the gap after free block k. */
  predicate FitsGap(v: seq<Span>, k: nat, s: Span)
    requires k < |v|
  {
    v[k].addr < s.addr && End(v[k]) <= s.addr && s.size >= 1 &&
    (k + 1 < |v| ==> End(s) <= v[k + 1].addr)
  }

  // ---------------------------------------------------------------------
  // Lemmas about Total

  lemma {:induction false} TotalAppend(a: seq<Span>, b: seq<Span>)
    ensures Total(a + b) == Total(a) + Total(b)
    decreases |b|
  {
    if b == [] {
      assert a + b == a;
    } else {
      assert (a + b)[..|a + b| - 1] == a + b[..|b| - 1];
      TotalAppend(a, b[..|b| - 1]);
    }
  }

  lemma TotalSplit(v: seq<Span>, i: nat)
    requires i < |v|
    ensures Total(v) == Total(v[..i]) + v[i].size + Total(v[i + 1..])
  {
    assert v == v[..i] + [v[i]] + v[i + 1..];
    TotalThree(v[..i], v[i], v[i + 1..]);
  }

  // ---------------------------------------------------------------------
  // Lemmas about Ordered

  lemma OrderedSlice(v: seq<Span>, lo: nat, hi: nat)
    requires Ordered(v) && lo <= hi <= |v|
    ensures Ordered(v[lo..hi])
  {
    forall i, j | 0 <= i < j < hi - lo
      ensures v[lo..hi][i].addr + v[lo..hi][i].size < v[lo..hi][j].addr
    {
      assert v[lo..hi][i] == v[lo + i] && v[lo..hi][j] == v[lo + j];
    }
  }

  /** A list built from an ordered prefix, one block and an ordered suffix is
      ordered when the block fits between them. */
  lemma OrderedSplice(a: seq<Span>, x: Span, b: seq<Span>)
    requires Ordered(a) && Ordered(b)
    requires forall i :: 0 <= i < |a| ==> End(a[i]) < x.addr
    requires forall j :: 0 <= j < |b| ==> End(x) < b[j].addr
    ensures Ordered(a + [x] + b)
  {
    var r := a + [x] + b;
    forall i, j | 0 <= i < j < |r| ensures r[i].addr + r[i].size < r[j].addr {
      if j < |a| {
        assert r[i] == a[i] && r[j] == a[j];
      } else if j == |a| {
        assert r[i] == a[i] && r[j] == x;
      } else if i < |a| {
        assert r[i] == a[i] && r[j] == b[j - |a| - 1];
        assert End(a[i]) < x.addr;
        assert End(x) < b[j - |a| - 1].addr;
      } else if i == |a| {
        assert r[i] == x && r[j] == b[j - |a| - 1];
      } else {
        assert r[i] == b[i - |a| - 1] && r[j] == b[j - |a| - 1];
      }
    }
  }

  // ---------------------------------------------------------------------
  // What Carve promises

  /** Carving keeps the free-list invariant. */
  lemma CarveWellFormed(v: seq<Span>, i: nat, nu: nat)
    requires WellFormed(v) && i < |v| && v[i].size >= nu >= 1
    ensures WellFormed(Carve(v, i, nu).0)
  {
    var r := Carve(v, i, nu).0;
    assert i >= 1;
    SortedOrdered(v);
    if v[i].size == nu {
      OrderedSkip(v, i);
    } else {
      OrderedShrink(v, i, Span(v[i].addr, v[i].size - nu));
    }
    SortedOrdered(r);
  }

  /** Dropping a block keeps the order. */
  lemma OrderedSkip(v: seq<Span>, i: nat)
    requires Ordered(v) && i < |v|
    ensures Ordered(v[..i] + v[i + 1..])
  {
    var r := v[..i] + v[i + 1..];
    forall a, b | 0 <= a < b < |r| ensures r[a].addr + r[a].size < r[b].addr {
      var a' := if a < i then a else a + 1;
      var b' := if b < i then b else b + 1;
      assert r[a] == v[a'] && r[b] == v[b'];
    }
  }

  /** Shrinking a block from its end keeps the order. */
  lemma OrderedShrink(v: seq<Span>, i: nat, x: Span)
    requires Ordered(v) && i < |v| && x.addr == v[i].addr && x.size <= v[i].size
    ensures Ordered(v[i := x])
  {
    var r := v[i := x];
    forall a, b | 0 <= a < b < |r| ensures r[a].addr + r[a].size < r[b].addr {
      assert v[a].addr + v[a].size < v[b].addr;
    }
  }


  /** Carving removes exactly nu units from the free list. */
  lemma CarveTotal(v: seq<Span>, i: nat, nu: nat)
    requires i < |v| && v[i].size >= nu
    ensures Total(Carve(v, i, nu).0) + nu == Total(v)
  {
    TotalSplit(v, i);
    var r := Carve(v, i, nu).0;
    if v[i].size == nu {
      TotalAppend(v[..i], v[i + 1..]);
    } else {
      TotalSplit(r, i);
      assert r[..i] == v[..i] && r[i + 1..] == v[i + 1..];
    }
  }

  /** The handed-out block and what stays free exactly tile the old block i:
      the returned nu units end where block i ended, and on a split the
      remaining head ends where they begin. The block handed out overlaps no
      free block afterwards, and the blocks before i are untouched, so the
      predecessor i - 1 is still at index i - 1. */
  lemma CarveTiles(v: seq<Span>, i: nat, nu: nat)
    requires WellFormed(v) && i < |v| && v[i].size >= nu >= 1
    ensures var (r, b) := Carve(v, i, nu);
      i >= 1 && b + nu == End(v[i]) && v[i].addr <= b &&
      r[..i] == v[..i] &&
      (v[i].size == nu <==> |r| + 1 == |v|) &&
      (v[i].size > nu ==> |r| == |v| && r[i] == Span(v[i].addr, b - v[i].addr)) &&
      forall j :: 0 <= j < |r| ==> Apart(b, nu, r[j].addr, r[j].size)
  {
    var (r, b) := Carve(v, i, nu);
    assert i >= 1;
    forall j | 0 <= j < |r| ensures Apart(b, nu, r[j].addr, r[j].size) {
      if v[i].size == nu {
        var j' := if j < i then j else j + 1;
        assert r[j] == v[j'];
        if j' < i { Below(v, j', i); } else { Below(v, i, j'); }
      } else if j < i {
        Below(v, j, i);
      } else if j > i {
        Below(v, i, j);
      }
    }
  }

  // ---------------------------------------------------------------------
  // What Release promises

  /** The blocks after the merged block follow it with a gap. */
  lemma RestAbove(v: seq<Span>, k: nat, s: Span)
    requires WellFormed(v) && k < |v| && FitsGap(v, k, s)
    ensures Ordered(Rest(v, k, s))
    ensures forall j :: 0 <= j < |Rest(v, k, s)| ==> End(Merged(v, k, s)) < Rest(v, k, s)[j].addr
  {
    SortedOrdered(v);
    var rest := Rest(v, k, s);
    var m := Merged(v, k, s);
    OrderedSlice(v, if Fwd(v, k, s) then k + 2 else k + 1, |v|);
    forall j | 0 <= j < |rest| ensures End(m) < rest[j].addr {
      if Fwd(v, k, s) {
        assert rest[j] == v[k + 2 + j];
        assert v[k + 1].addr + v[k + 1].size < v[k + 2 + j].addr;
      } else {
        assert rest[j] == v[k + 1 + j];
        if j > 0 {
          assert v[k + 1].addr < v[k + 1 + j].addr;
        }
      }
    }
  }

  /** The blocks up to and including k precede block s with a gap. */
  lemma PrefixBelow(v: seq<Span>, k: nat, s: Span, pre: seq<Span>)
    requires WellFormed(v) && k < |v| && FitsGap(v, k, s) && End(v[k]) < s.addr
    requires pre == v[..k + 1]
    ensures Ordered(pre)
    ensures forall i :: 0 <= i < |pre| ==> End(pre[i]) < Merged(v, k, s).addr
  {
    SortedOrdered(v);
    OrderedSlice(v, 0, k + 1);
    forall i | 0 <= i < |pre| ensures End(pre[i]) < Merged(v, k, s).addr {
      assert pre[i] == v[i];
      if i < k {
        assert v[i].addr + v[i].size < v[k].addr;
      }
    }
  }

  /** Every block after the merged one is a non-empty heap block. */
  lemma RestNonEmpty(v: seq<Span>, k: nat, s: Span)
    requires WellFormed(v) && k < |v|
    ensures forall j :: 0 <= j < |Rest(v, k, s)| ==> Rest(v, k, s)[j].size >= 1
  {
    var rest := Rest(v, k, s);
    forall j | 0 <= j < |rest| ensures rest[j].size >= 1 {
      assert rest[j] == v[j + (if Fwd(v, k, s) then k + 2 else k + 1)];
    }
  }

  /** Block k absorbing s (and its follower) keeps the pairwise order. */
  lemma AbsorbedOrdered(v: seq<Span>, k: nat, s: Span)
    requires WellFormed(v) && k < |v| && FitsGap(v, k, s) && End(v[k]) == s.addr
    ensures Ordered(Release(v, k, s))
  {
    SortedOrdered(v);
    var x := Span(v[k].addr, v[k].size + Merged(v, k, s).size);
    var pre := v[..k];
    RestAbove(v, k, s);
    OrderedSlice(v, 0, k);
    forall i | 0 <= i < |pre| ensures End(pre[i]) < x.addr {
      assert pre[i] == v[i];
    }
    OrderedSplice(pre, x, Rest(v, k, s));
    assert Release(v, k, s) == pre + [x] + Rest(v, k, s);
  }

  /** Release when block k ends where s starts: k absorbs s (and its follower). */
  lemma AbsorbedWellFormed(v: seq<Span>, k: nat, s: Span)
    requires WellFormed(v) && k < |v| && FitsGap(v, k, s) && End(v[k]) == s.addr
    ensures WellFormed(Release(v, k, s))
  {
    var rest := Rest(v, k, s);
    var r := Release(v, k, s);
    var pre := v[..k];
    AbsorbedOrdered(v, k, s);
    SortedOrdered(r);
    RestNonEmpty(v, k, s);
    assert r == pre + [Span(v[k].addr, v[k].size + Merged(v, k, s).size)] + rest;
    forall j | 1 <= j < |r| ensures r[j].size >= 1 {
      if j < k { assert r[j] == v[j]; }
      else if j > k { assert r[j] == rest[j - k - 1]; }
    }
  }

  /** Release when block k does not touch s: s (merged with its follower) is linked in after k. */
  lemma InsertedWellFormed(v: seq<Span>, k: nat, s: Span)
    requires WellFormed(v) && k < |v| && FitsGap(v, k, s) && End(v[k]) != s.addr
    ensures WellFormed(Release(v, k, s))
  {
    SortedOrdered(v);
    SortedOrdered(Release(v, k, s));
    var m := Merged(v, k, s);
    var rest := Rest(v, k, s);
    var r := Release(v, k, s);
    var pre := v[..k + 1];
    RestAbove(v, k, s);
    RestNonEmpty(v, k, s);
    PrefixBelow(v, k, s, pre);
    OrderedSplice(pre, m, rest);
    assert r == pre + [m] + rest;
    forall j | 1 <= j < |r| ensures r[j].size >= 1 {
      if j <= k { assert r[j] == v[j]; }
      else if j > k + 1 { assert r[j] == rest[j - k - 2]; }
    }
  }

  /** Releasing a block that fits the gap after k keeps the free-list invariant:
      still ordered, still no two touching free blocks. */
  lemma ReleaseWellFormed(v: seq<Span>, k: nat, s: Span)
    requires WellFormed(v) && k < |v| && FitsGap(v, k, s)
    ensures WellFormed(Release(v, k, s))
  {
    if End(v[k]) == s.addr {
      AbsorbedWellFormed(v, k, s);
    } else {
      InsertedWellFormed(v, k, s);
    }
  }

  lemma TotalThree(a: seq<Span>, x: Span, b: seq<Span>)
    ensures Total(a + [x] + b) == Total(a) + x.size + Total(b)
  {
    TotalAppend(a + [x], b);
    TotalAppend(a, [x]);
    assert [x][..0] == [];
  }

  /** The free list before a release, cut around the insertion point. */
  lemma TotalAroundSlot(v: seq<Span>, k: nat, s: Span)
    requires k < |v|
    ensures Total(v) == Total(v[..k]) + v[k].size + (Merged(v, k, s).size - s.size) + Total(Rest(v, k, s))
  {
    TotalSplit(v, k);
    var tail := v[k + 1..];
    if Fwd(v, k, s) {
      TotalSplit(tail, 0);
      assert tail[..0] == [];
      assert tail[1..] == Rest(v, k, s);
    } else {
      assert tail == Rest(v, k, s);
    }
  }

  /** The free list after a release, cut around the insertion point. */
  lemma TotalAroundMerge(v: seq<Span>, k: nat, s: Span)
    requires k < |v|
    ensures Total(Release(v, k, s)) == Total(v[..k]) + v[k].size + Merged(v, k, s).size + Total(Rest(v, k, s))
  {
    var m := Merged(v, k, s);
    var rest := Rest(v, k, s);
    var r := Release(v, k, s);
    if End(v[k]) == s.addr {
      var x := Span(v[k].addr, v[k].size + m.size);
      assert r == v[..k] + [x] + rest;
      TotalThree(v[..k], x, rest);
    } else {
      var pre := v[..k + 1];
      assert r == pre + [m] + rest;
      TotalThree(pre, m, rest);
      TotalSplit(pre, k);
      assert pre[..k] == v[..k] && pre[k + 1..] == [];
    }
  }

  /** Every block of the list after a release is either an old free block, not
      one that was absorbed, or the single merged block running from block k
      (when k absorbed s) or s, to the end of s or of block k + 1 (when s
      absorbed it). Returns the old index, or -1 for the merged block. */
  lemma ReleaseSpan(v: seq<Span>, k: nat, s: Span, j: nat) returns (j': int)
    requires k < |v| && j < |Release(v, k, s)|
    ensures var bwd, fwd := End(v[k]) == s.addr, Fwd(v, k, s);
      var lo := if bwd then v[k].addr else s.addr;
      var hi := if fwd then End(v[k + 1]) else End(s);
      (j' < 0 ==> Release(v, k, s)[j] == Span(lo, hi - lo)) &&
      (j' >= 0 ==> j' < |v| && Release(v, k, s)[j] == v[j'] &&
                   !(bwd && j' == k) && !(fwd && j' == k + 1))
  {
    var r := Release(v, k, s);
    var rest := Rest(v, k, s);
    var sh := if Fwd(v, k, s) then 1 else 0;
    if End(v[k]) == s.addr {
      assert r == v[..k] + [Span(v[k].addr, v[k].size + Merged(v, k, s).size)] + rest;
      if j < k {
        j' := j;
      } else if j == k {
        j' := -1;
      } else {
        assert r[j] == rest[j - k - 1] == v[j + sh];
        j' := j + sh;
      }
    } else {
      assert r == v[..k + 1] + [Merged(v, k, s)] + rest;
      if j <= k {
        j' := j;
      } else if j == k + 1 {
        j' := -1;
      } else {
        assert r[j] == rest[j - k - 2] == v[j - 1 + sh];
        j' := j - 1 + sh;
      }
    }
  }

  /** Releasing a block adds exactly its size to the free list. */
  lemma ReleaseTotal(v: seq<Span>, k: nat, s: Span)
    requires k < |v|
    ensures Total(Release(v, k, s)) == Total(v) + s.size
  {
    TotalAroundSlot(v, k, s);
    TotalAroundMerge(v, k, s);
  }

  /** The blocks before the insertion point are untouched and the insertion
      point keeps its address, so the cursor set to it stays on a free block. */
  lemma ReleaseKeepsPrefix(v: seq<Span>, k: nat, s: Span)
    requires k < |v|
    ensures var r := Release(v, k, s);
      k < |r| && r[..k] == v[..k] && r[k].addr == v[k].addr
  {
  }

  /** The loop in free stops at block j exactly when j is the insertion point:
      either the released block lies strictly between j and its successor, or
      j is the wrap point (its successor is not above it) and the released
      block lies above j or below the successor. */
  lemma StopsAtSlot(v: seq<Span>, a: nat, j: nat)
    requires WellFormed(v) && Base < a && j < |v|
    requires forall i :: 0 <= i < |v| ==> v[i].addr != a
    ensures var p, q := v[j].addr, v[Succ(|v|, j)].addr;
      ((a > p && a < q) || (p >= q && (a > p || a < q))) <==> j == Slot(v, a)
  {
    SortedOrdered(v);
  }
}
