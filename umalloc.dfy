/** The user-space allocator of umalloc.c: Kernighan and Ritchie's free-list
    malloc (The C Programming Language, 2nd ed., section 8.7).

    Memory is a sequence of header-sized cells indexed by unit address.
    Cell 0 is the null address, cell 1 the static sentinel `base`, and the
    heap obtained from the operating system lies above; the heap grows by
    appending cells at the top. A block at address b occupies the units
    [b, b + size) and hands out the payload pointer b + 1. */
module Umalloc {
  import opened FreeList

  /** A block header: the next free block's address and the block's size in
      units, its own header unit included. */
  datatype Header = Header(ptr: nat, size: nat)

  const Null: nat := 0
  /** sizeof(Header) on the 32-bit target: a pointer and a uint. */
  const HeaderSize: nat := 8
  /** The fewest units morecore asks the operating system for. */
  const MinChunk: nat := 4096
  /** The largest request for which neither the unit computation nor the byte
      count passed to sbrk leaves the range of a 32-bit signed integer. */
  const MaxRequest: nat := 0x7FFF_FFF0

  /** Units for a request of nbytes: one header unit plus the fewest units
      whose bytes hold nbytes. */
  function Units(nbytes: nat): (nu: nat)
    ensures nu >= 1
    ensures nbytes <= (nu - 1) * HeaderSize < nbytes + HeaderSize
  {
    (nbytes + HeaderSize - 1) / HeaderSize + 1
  }

  /** Units morecore requests for a need of nu units. */
  function Chunk(nu: nat): (n: nat)
    ensures n >= nu && n >= MinChunk
    ensures n == nu || n == MinChunk
  {
    if nu < MinChunk then MinChunk else nu
  }

  /** The header cells of the free blocks hold exactly the list v: each block
      records its size and the address of the block after it, the last block
      pointing back to the first. */
  predicate Linked(mem: seq<Header>, v: seq<Span>) {
    (forall j :: 0 <= j < |v| ==> v[j].addr < |mem|) &&
    forall j {:trigger mem[v[j].addr]} :: 0 <= j < |v| ==>
      mem[v[j].addr] == Header(v[Succ(|v|, j)].addr, v[j].size)
  }

  /** Every free block lies inside memory. */
  predicate InHeap(mem: seq<Header>, v: seq<Span>) {
    forall j :: 0 <= j < |v| ==> End(v[j]) <= |mem|
  }

  /** The allocated blocks (address to units) are heap blocks whose headers
      hold their sizes, and no allocated block overlaps a free block or
      another allocated block. */
  predicate LiveOk(mem: seq<Header>, v: seq<Span>, live: map<nat, nat>) {
    (forall b {:trigger live[b]} :: b in live ==>
       Base < b && live[b] >= 1 && b + live[b] <= |mem| && mem[b].size == live[b]) &&
    (forall b, j :: b in live && 0 <= j < |v| ==> Apart(b, live[b], v[j].addr, v[j].size)) &&
    (forall b, c :: b in live && c in live && b != c ==> Apart(b, live[b], c, live[c]))
  }

  /** The allocator's invariant over its statics and ghost view: before the
      first malloc freep is null and nothing is allocated; afterwards the free
      list is well formed and linked through the headers, freep is on it, and
      the allocated blocks are apart from it and from each other. */
  predicate State(mem: seq<Header>, freep: nat, view: seq<Span>, cur: nat, live: map<nat, nat>) {
    |mem| > Base &&
    (freep == Null ==> view == [] && live == map[]) &&
    (freep != Null ==>
      WellFormed(view) && cur < |view| && freep == view[cur].addr &&
      Linked(mem, view) && InHeap(mem, view) && LiveOk(mem, view, live))
  }

  /** Memory m1 agrees with m0 everywhere except possibly at x and y. */
  predicate SameExcept(m0: seq<Header>, m1: seq<Header>, x: nat, y: nat) {
    |m1| == |m0| && forall a :: 0 <= a < |m0| && a != x && a != y ==> m1[a] == m0[a]
  }

  // -----------------------------------------------------------------------
  // Header updates against the abstract list

  lemma LinkedGrow(m0: seq<Header>, m1: seq<Header>, v: seq<Span>)
    requires Linked(m0, v) && |m0| <= |m1|
    requires forall a :: 0 <= a < |m0| ==> m1[a] == m0[a]
    ensures Linked(m1, v)
  {
    forall j | 0 <= j < |v| ensures m1[v[j].addr] == Header(v[Succ(|v|, j)].addr, v[j].size) {
      assert m1[v[j].addr] == m0[v[j].addr];
    }
  }

  /** Block r[j] is block v[j'] of the old list, its header cell was not
      written, and its successor is the same block in both lists. */
  lemma KeptLink(m0: seq<Header>, m1: seq<Header>, v: seq<Span>, r: seq<Span>, j: nat, j': nat)
    requires Linked(m0, v) && j < |r| && j' < |v| && r[j] == v[j']
    requires r[Succ(|r|, j)] == v[Succ(|v|, j')]
    requires |m1| == |m0| && m1[v[j'].addr] == m0[v[j'].addr]
    ensures r[j].addr < |m1| && m1[r[j].addr] == Header(r[Succ(|r|, j)].addr, r[j].size)
  {
    assert m0[v[j'].addr] == Header(v[Succ(|v|, j')].addr, v[j'].size);
  }

  /** Exact fit: the predecessor's pointer skipping block i relinks the list without it. */
  lemma ExactFitLinked(m0: seq<Header>, m1: seq<Header>, v: seq<Span>, i: nat)
    requires WellFormed(v) && Linked(m0, v) && 1 <= i < |v|
    requires SameExcept(m0, m1, v[i - 1].addr, v[i - 1].addr)
    requires v[i - 1].addr < |m1| && m1[v[i - 1].addr] == Header(v[Succ(|v|, i)].addr, v[i - 1].size)
    ensures Linked(m1, v[..i] + v[i + 1..])
  {
    var r := v[..i] + v[i + 1..];
    forall j | 0 <= j < |r|
      ensures r[j].addr < |m1| && m1[r[j].addr] == Header(r[Succ(|r|, j)].addr, r[j].size)
    {
      if j < i - 1 {
        assert r[j] == v[j] && r[j + 1] == v[j + 1];
        Below(v, j, i - 1);
        KeptLink(m0, m1, v, r, j, j);
      } else if j == i - 1 {
        assert r[j] == v[j];
        if i + 1 < |v| { assert r[i] == v[i + 1]; }
        else { assert r[0] == v[0]; }
      } else {
        assert r[j] == v[j + 1];
        Below(v, i - 1, j + 1);
        if j + 1 < |r| { assert r[j + 1] == v[j + 2]; }
        else { assert r[0] == v[0]; }
        KeptLink(m0, m1, v, r, j, j + 1);
      }
    }
    assert forall j :: 0 <= j < |r| ==> r[j].addr < |m1|;
  }

  /** Split: the shrunk head keeps its link, and the carved tail's header lies
      inside the old block, where no free header is. */
  lemma SplitLinked(m0: seq<Header>, m1: seq<Header>, v: seq<Span>, i: nat, nu: nat)
    requires WellFormed(v) && Linked(m0, v) && i < |v| && v[i].size > nu
    requires SameExcept(m0, m1, v[i].addr, v[i].addr + (v[i].size - nu))
    requires v[i].addr < |m1| && m1[v[i].addr] == Header(v[Succ(|v|, i)].addr, v[i].size - nu)
    ensures Linked(m1, v[i := Span(v[i].addr, v[i].size - nu)])
  {
    SortedOrdered(v);
    var r := v[i := Span(v[i].addr, v[i].size - nu)];
    forall j | 0 <= j < |r|
      ensures r[j].addr < |m1| && m1[r[j].addr] == Header(r[Succ(|r|, j)].addr, r[j].size)
    {
      if j < i {
        assert v[j].addr + v[j].size < v[i].addr;
      } else if j > i {
        assert v[i].addr + v[i].size < v[j].addr;
      }
      if j != i {
        assert r[Succ(|r|, j)].addr == v[Succ(|v|, j)].addr;
        assert m1[v[j].addr] == m0[v[j].addr];
        assert m0[v[j].addr] == Header(v[Succ(|v|, j)].addr, v[j].size);
      }
    }
    assert forall j :: 0 <= j < |r| ==> r[j].addr < |m1|;
  }

  /** Replacing the blocks v[i..i+t) by block x, whose header points at the
      block after them (the sentinel when there is none) and which block
      i - 1 now points at, links the new list; the only other cell written
      is y, no header of a kept block. */
  lemma SpliceLinked(m0: seq<Header>, m1: seq<Header>, v: seq<Span>, i: nat, t: nat, x: Span, y: nat)
    requires WellFormed(v) && Linked(m0, v) && 1 <= i && i + t <= |v|
    requires v[i - 1].addr < x.addr && (i + t < |v| ==> x.addr < v[i + t].addr)
    requires SameExcept(m0, m1, x.addr, y) && x.addr < |m1|
    requires forall j :: 0 <= j < |v| && (j < i - 1 || i + t <= j) ==> v[j].addr != y
    requires m1[x.addr] == Header(if i + t < |v| then v[i + t].addr else v[0].addr, x.size)
    requires m1[v[i - 1].addr] == Header(x.addr, v[i - 1].size)
    ensures Linked(m1, v[..i] + [x] + v[i + t..])
  {
    var r := v[..i] + [x] + v[i + t..];
    forall j | 0 <= j < |r|
      ensures r[j].addr < |m1| && m1[r[j].addr] == Header(r[Succ(|r|, j)].addr, r[j].size)
    {
      if j < i - 1 {
        assert r[j] == v[j] && r[j + 1] == v[j + 1];
        Below(v, j, i - 1);
        KeptLink(m0, m1, v, r, j, j);
      } else if j == i - 1 {
        assert r[j] == v[j] && r[j + 1] == x;
      } else if j == i {
        assert r[j] == x;
        if j + 1 < |r| { assert r[j + 1] == v[i + t]; }
        else { assert r[0] == v[0]; }
      } else {
        var j': nat := j - 1 + t;
        assert r[j] == v[j'];
        if j' > i + t { Below(v, i + t, j'); }
        if j + 1 < |r| { assert r[j + 1] == v[j' + 1]; }
        else { assert r[0] == v[0]; }
        KeptLink(m0, m1, v, r, j, j');
      }
    }
    assert forall j :: 0 <= j < |r| ==> r[j].addr < |m1|;
  }

  /** Release when block k does not touch the released block s: the headers of
      s and of block k are what free writes, and they link the new list. */
  lemma InsertLinked(m0: seq<Header>, m1: seq<Header>, v: seq<Span>, k: nat, s: Span)
    requires WellFormed(v) && Linked(m0, v) && k < |v| && FitsGap(v, k, s) && s.addr < |m0|
    requires End(v[k]) != s.addr
    requires SameExcept(m0, m1, s.addr, v[k].addr)
    requires m1[s.addr] == Header(
               if Fwd(v, k, s) then v[Succ(|v|, k + 1)].addr else v[Succ(|v|, k)].addr,
               Merged(v, k, s).size)
    requires m1[v[k].addr] == Header(s.addr, v[k].size)
    ensures Linked(m1, Release(v, k, s))
  {
    var sh: nat := if Fwd(v, k, s) then 1 else 0;
    var m := Merged(v, k, s);
    assert Release(v, k, s) == v[..k + 1] + [m] + v[k + 1 + sh..];
    forall j | 0 <= j < |v| && (j < k || k + 1 + sh <= j) ensures v[j].addr != v[k].addr {
      if j < k { Below(v, j, k); } else { Below(v, k, j); }
    }
    if sh == 1 && k + 2 < |v| { Below(v, k + 1, k + 2); }
    SpliceLinked(m0, m1, v, k + 1, sh, m, v[k].addr);
  }

  /** Release when block k ends where the released block s starts: block k's
      header absorbs s, and the header of s is abandoned. */
  lemma AbsorbLinked(m0: seq<Header>, m1: seq<Header>, v: seq<Span>, k: nat, s: Span)
    requires WellFormed(v) && Linked(m0, v) && k < |v| && FitsGap(v, k, s) && s.addr < |m0|
    requires End(v[k]) == s.addr
    requires SameExcept(m0, m1, s.addr, v[k].addr)
    requires m1[v[k].addr] == Header(
               if Fwd(v, k, s) then v[Succ(|v|, k + 1)].addr else v[Succ(|v|, k)].addr,
               v[k].size + Merged(v, k, s).size)
    ensures Linked(m1, Release(v, k, s))
  {
    var sh: nat := if Fwd(v, k, s) then 1 else 0;
    var x := Span(v[k].addr, v[k].size + Merged(v, k, s).size);
    assert k >= 1;
    var t := 1 + sh;
    assert Release(v, k, s) == v[..k] + [x] + v[k + t..];
    Below(v, k - 1, k);
    assert m1[v[k - 1].addr] == m0[v[k - 1].addr];
    assert m0[v[k - 1].addr] == Header(v[Succ(|v|, k - 1)].addr, v[k - 1].size);
    forall j | 0 <= j < |v| && (j < k - 1 || k + 1 + sh <= j) ensures v[j].addr != s.addr {
      if j < k { Below(v, j, k); } else { Below(v, k, j); }
    }
    if k + t < |v| { Below(v, k, k + t); }
    SpliceLinked(m0, m1, v, k, t, x, s.addr);
  }

  // -----------------------------------------------------------------------
  // Allocated blocks against the abstract list

  /** Handing out block b of nu units carved from block i keeps the allocated
      blocks apart from each other and from the free list. */
  lemma CarveLive(m0: seq<Header>, m1: seq<Header>, v: seq<Span>, live: map<nat, nat>, i: nat, nu: nat)
    requires WellFormed(v) && InHeap(m0, v) && LiveOk(m0, v, live) && i < |v| && v[i].size >= nu >= 1
    requires var b := Carve(v, i, nu).1;
      |m1| == |m0| && m1[b].size == nu &&
      forall a :: 0 <= a < |m0| && a != b && a != v[i].addr && a != v[i - 1].addr ==> m1[a] == m0[a]
    ensures Carve(v, i, nu).1 !in live
    ensures InHeap(m1, Carve(v, i, nu).0)
    ensures LiveOk(m1, Carve(v, i, nu).0, live[Carve(v, i, nu).1 := nu])
  {
    var (r, b) := Carve(v, i, nu);
    CarveTiles(v, i, nu);
    var live' := live[b := nu];
    assert End(v[i]) <= |m0|;
    CarveApart(m0, v, live, i, nu);
    forall j | 0 <= j < |r| ensures End(r[j]) <= |m1| {
      if v[i].size == nu {
        assert r[j] == v[if j < i then j else j + 1];
      }
    }
    Below(v, 0, i);
    forall c | c in live' ensures Base < c && live'[c] >= 1 && c + live'[c] <= |m1| && m1[c].size == live'[c] {
      if c != b {
        assert m1[c] == m0[c];
      }
    }
    forall c, d | c in live' && d in live' && c != d ensures Apart(c, live'[c], d, live'[d]) {
    }
  }

  /** The allocated blocks stay apart from the carved list and from the block
      handed out, whose header and whose predecessor's header they do not hold. */
  lemma CarveApart(m0: seq<Header>, v: seq<Span>, live: map<nat, nat>, i: nat, nu: nat)
    requires WellFormed(v) && LiveOk(m0, v, live) && 1 <= i < |v| && v[i].size >= nu >= 1
    ensures forall c :: c in live ==>
      Apart(c, live[c], Carve(v, i, nu).1, nu) && c != Carve(v, i, nu).1 && c != v[i].addr && c != v[i - 1].addr
    ensures forall c, j :: c in live && 0 <= j < |Carve(v, i, nu).0| ==>
      Apart(c, live[c], Carve(v, i, nu).0[j].addr, Carve(v, i, nu).0[j].size)
  {
    var (r, b) := Carve(v, i, nu);
    CarveTiles(v, i, nu);
    forall c | c in live ensures Apart(c, live[c], b, nu) && c != b && c != v[i].addr && c != v[i - 1].addr {
      assert Apart(c, live[c], v[i].addr, v[i].size);
      assert Apart(c, live[c], v[i - 1].addr, v[i - 1].size);
    }
    forall c, j | c in live && 0 <= j < |r| ensures Apart(c, live[c], r[j].addr, r[j].size) {
      if v[i].size == nu {
        assert r[j] == v[if j < i then j else j + 1];
      } else {
        assert Apart(c, live[c], v[j].addr, v[j].size);
      }
    }
  }

  /** A block apart from two touching regions is apart from their union. */
  lemma ApartJoin(c: nat, sc: nat, a: nat, sa: nat, sb: nat)
    requires sc >= 1 && Apart(c, sc, a, sa) && Apart(c, sc, a + sa, sb)
    ensures Apart(c, sc, a, sa + sb)
  {
  }

  /** Releasing block s into the free list keeps the remaining allocated blocks
      apart from the merged free blocks. */
  lemma ReleaseLive(m0: seq<Header>, m1: seq<Header>, v: seq<Span>, live: map<nat, nat>, k: nat, s: Span)
    requires WellFormed(v) && InHeap(m0, v) && LiveOk(m0, v, live) && k < |v| && FitsGap(v, k, s)
    requires End(s) <= |m0|
    requires forall c :: c in live && c != s.addr ==> Apart(c, live[c], s.addr, s.size)
    requires SameExcept(m0, m1, s.addr, v[k].addr)
    ensures InHeap(m1, Release(v, k, s))
    ensures LiveOk(m1, Release(v, k, s), live - {s.addr})
  {
    var r := Release(v, k, s);
    var live' := live - {s.addr};
    var bwd, fwd := End(v[k]) == s.addr, Fwd(v, k, s);
    var lo := if bwd then v[k].addr else s.addr;
    var hi := if fwd then End(v[k + 1]) else End(s);
    forall j | 0 <= j < |r|
      ensures End(r[j]) <= |m1|
      ensures forall c :: c in live' ==> Apart(c, live[c], r[j].addr, r[j].size)
    {
      var j' := ReleaseSpan(v, k, s, j);
      if j' >= 0 {
        assert End(v[j']) <= |m0|;
      } else {
        assert End(v[k]) <= |m0|;
        if fwd { assert End(v[k + 1]) <= |m0|; }
        forall c | c in live' ensures Apart(c, live[c], r[j].addr, r[j].size) {
          assert Apart(c, live[c], v[k].addr, v[k].size);
          var sz := s.size;
          if bwd {
            ApartJoin(c, live[c], v[k].addr, v[k].size, s.size);
            sz := v[k].size + s.size;
          }
          if fwd {
            assert Apart(c, live[c], v[k + 1].addr, v[k + 1].size);
            ApartJoin(c, live[c], lo, sz, v[k + 1].size);
          }
        }
      }
    }
    forall c | c in live' ensures m1[c] == m0[c] {
      assert Apart(c, live[c], v[k].addr, v[k].size);
    }
    forall c, d | c in live' && d in live' && c != d ensures Apart(c, live'[c], d, live'[d]) {
    }
  }

  /** Block bp may be handed to free: it is a heap block inside memory whose
      header holds a non-zero size, and it overlaps no free block and no
      other allocated block. */
  predicate Releasable(mem: seq<Header>, v: seq<Span>, live: map<nat, nat>, bp: nat) {
    Base < bp < |mem| && mem[bp].size >= 1 && bp + mem[bp].size <= |mem| &&
    (forall j :: 0 <= j < |v| ==> Apart(bp, mem[bp].size, v[j].addr, v[j].size)) &&
    (forall c :: c in live && c != bp ==> Apart(bp, mem[bp].size, c, live[c]))
  }

  /** The header writes of free (umalloc.c, lines 41-61) for block bp after
      free block p: bp takes over p's successor q when bp ends at q and is
      linked to q otherwise; then p takes over bp when p ends at bp and is
      linked to bp otherwise. */
  function Joined(m: seq<Header>, bp: nat, p: nat): (m': seq<Header>)
    requires bp < |m| && p < |m| && m[p].ptr < |m|
    ensures |m'| == |m| && forall a :: 0 <= a < |m| && a != bp && a != p ==> m'[a] == m[a]
  {
    var q := m[p].ptr;
    var fwd := bp + m[bp].size == q;
    var sz := if fwd then m[bp].size + m[q].size else m[bp].size;
    var nx := if fwd then m[q].ptr else q;
    var m1 := m[bp := Header(nx, sz)];
    m1[p := if p + m1[p].size == bp then Header(nx, m1[p].size + sz) else Header(bp, m1[p].size)]
  }

  /** A released block is not a free block and fits the gap after its
      insertion point. */
  lemma ReleasedFits(m0: seq<Header>, v: seq<Span>, s: Span)
    requires WellFormed(v) && InHeap(m0, v) && Base < s.addr && s.size >= 1 && End(s) <= |m0|
    requires forall j :: 0 <= j < |v| ==> Apart(s.addr, s.size, v[j].addr, v[j].size)
    ensures forall j :: 0 <= j < |v| ==> v[j].addr != s.addr
    ensures FitsGap(v, Slot(v, s.addr), s)
  {
    SortedOrdered(v);
    var k := Slot(v, s.addr);
    forall j | 0 <= j < |v| ensures v[j].addr != s.addr {
      assert Apart(s.addr, s.size, v[j].addr, v[j].size);
    }
    assert Apart(s.addr, s.size, v[k].addr, v[k].size);
    if k + 1 < |v| {
      assert Apart(s.addr, s.size, v[k + 1].addr, v[k + 1].size);
    }
  }

  /** What free may rely on for a releasable block: it is not on the free
      list, and its insertion point lies below it with a successor inside
      memory. */
  lemma FreeEntry(m0: seq<Header>, f0: nat, v: seq<Span>, c0: nat, live: map<nat, nat>, bp: nat)
    requires State(m0, f0, v, c0, live) && f0 != Null && Releasable(m0, v, live, bp)
    ensures forall j :: 0 <= j < |v| ==> v[j].addr != bp
    ensures var p := v[Slot(v, bp)].addr; p < bp && m0[p].ptr < |m0|
  {
    ReleasedFits(m0, v, Span(bp, m0[bp].size));
    var k := Slot(v, bp);
    assert m0[v[k].addr] == Header(v[Succ(|v|, k)].addr, v[k].size);
  }

  /** The headers Joined writes for block s after free block k are the ones
      that link the released list. */
  lemma JoinedHeaders(m0: seq<Header>, v: seq<Span>, k: nat, s: Span)
    requires WellFormed(v) && Linked(m0, v) && k < |v| && FitsGap(v, k, s)
    requires s.addr < |m0| && m0[s.addr].size == s.size
    ensures var m2, p := Joined(m0, s.addr, v[k].addr), v[k].addr;
      var next := if Fwd(v, k, s) then v[Succ(|v|, k + 1)].addr else v[Succ(|v|, k)].addr;
      SameExcept(m0, m2, s.addr, p) &&
      if End(v[k]) == s.addr then m2[p] == Header(next, v[k].size + Merged(v, k, s).size)
      else m2[s.addr] == Header(next, Merged(v, k, s).size) && m2[p] == Header(s.addr, v[k].size)
  {
    SortedOrdered(v);
    var n := |v|;
    assert m0[v[k].addr] == Header(v[Succ(n, k)].addr, v[k].size);
    if k + 1 < n {
      assert m0[v[k + 1].addr] == Header(v[Succ(n, k + 1)].addr, v[k + 1].size);
    }
  }

  /** The headers free leaves behind hold the released list, which keeps the
      allocator's invariant with the cursor on the insertion point and block
      bp no longer allocated. */
  lemma FreeExit(m0: seq<Header>, f0: nat, v: seq<Span>, c0: nat, live: map<nat, nat>, bp: nat, p: nat)
    requires State(m0, f0, v, c0, live) && f0 != Null && Releasable(m0, v, live, bp)
    requires p == v[Slot(v, bp)].addr && p < bp && m0[p].ptr < |m0|
    ensures var k := Slot(v, bp);
      State(Joined(m0, bp, p), p, Release(v, k, Span(bp, m0[bp].size)), k, live - {bp})
  {
    SortedOrdered(v);
    var s := Span(bp, m0[bp].size);
    var k := Slot(v, bp);
    var n := |v|;
    var m2 := Joined(m0, bp, p);
    ReleasedFits(m0, v, s);
    JoinedHeaders(m0, v, k, s);
    ReleaseKeepsPrefix(v, k, s);
    ReleaseWellFormed(v, k, s);
    ReleaseLive(m0, m2, v, live, k, s);
    if End(v[k]) == s.addr {
      AbsorbLinked(m0, m2, v, k, s);
    } else {
      InsertLinked(m0, m2, v, k, s);
    }
  }

  /** Memory grown by n fresh cells whose first header records n units keeps
      the invariant, and the new region is a releasable block above every free
      block, allocated to no one. */
  lemma GrownReleasable(m0: seq<Header>, f0: nat, v: seq<Span>, c0: nat, live: map<nat, nat>, n: nat, m1: seq<Header>)
    requires State(m0, f0, v, c0, live) && f0 != Null && n >= 1
    requires m1 == (m0 + seq(n, _ => Header(Null, 0)))[|m0| := Header(Null, n)]
    ensures State(m1, f0, v, c0, live) && Releasable(m1, v, live, |m0|)
    ensures Slot(v, |m0|) == |v| - 1 && |m0| !in live
  {
    assert forall a :: 0 <= a < |m0| ==> m1[a] == m0[a];
    LinkedGrow(m0, m1, v);
    forall j | 0 <= j < |v| ensures Apart(|m0|, n, v[j].addr, v[j].size) {
      assert End(v[j]) <= |m0|;
    }
  }

  /** The header writes of malloc (umalloc.c, lines 102-113) taking nu units
      from block p, whose predecessor on the list is prevp: an exact fit is
      unlinked by its predecessor; a larger block shrinks by nu and its tail,
      given a header of nu units, is handed out. Returns the new memory and
      the block handed out. */
  function Taken(m: seq<Header>, prevp: nat, p: nat, nu: nat): (r: (seq<Header>, nat))
    requires prevp < |m| && p < |m| && 1 <= nu <= m[p].size && p + m[p].size <= |m|
    ensures |r.0| == |m| && p <= r.1 && r.1 + nu == p + m[p].size
  {
    if m[p].size == nu then (m[prevp := m[prevp].(ptr := m[p].ptr)], p)
    else
      var m1 := m[p := m[p].(size := m[p].size - nu)];
      var b := p + m1[p].size;
      (m1[b := m1[b].(size := nu)], b)
  }

  /** The first malloc's set-up: `base` points to itself with size zero. */
  lemma FirstState(m0: seq<Header>)
    requires |m0| > Base
    ensures State(m0[Base := Header(Base, 0)], Base, [Span(Base, 0)], 0, map[])
  {
  }

  /** What malloc needs to take nu units from free block i, the successor of
      the cursor's block in the scan: the block lies in memory, and its
      predecessor's header points at it. */
  lemma TakeEntry(m0: seq<Header>, f0: nat, v: seq<Span>, c0: nat, live: map<nat, nat>, i: nat, nu: nat)
    requires State(m0, f0, v, c0, live) && f0 != Null && i < |v| && v[i].size >= nu >= 1
    ensures i >= 1 && v[i - 1].addr < |m0| && v[i].addr + v[i].size <= |m0|
    ensures m0[v[i].addr] == Header(v[Succ(|v|, i)].addr, v[i].size)
    ensures m0[v[i - 1].addr].ptr == v[i].addr
  {
    assert m0[v[i].addr] == Header(v[Succ(|v|, i)].addr, v[i].size);
    assert m0[v[i - 1].addr] == Header(v[Succ(|v|, i - 1)].addr, v[i - 1].size);
  }

  /** Taking nu units from free block i leaves headers holding the carved
      list, with the cursor on block i's predecessor and the block handed out
      newly allocated. */
  lemma TakeExit(m0: seq<Header>, f0: nat, v: seq<Span>, c0: nat, live: map<nat, nat>, i: nat, nu: nat)
    requires State(m0, f0, v, c0, live) && f0 != Null && 1 <= i < |v| && v[i].size >= nu >= 1
    ensures var t := Taken(m0, v[i - 1].addr, v[i].addr, nu);
      t.1 == Carve(v, i, nu).1 && t.1 !in live &&
      State(t.0, v[i - 1].addr, Carve(v, i, nu).0, i - 1, live[t.1 := nu])
  {
    SortedOrdered(v);
    TakeEntry(m0, f0, v, c0, live, i, nu);
    var (m1, b) := Taken(m0, v[i - 1].addr, v[i].addr, nu);
    CarveTiles(v, i, nu);
    CarveWellFormed(v, i, nu);
    if v[i].size == nu {
      ExactFitLinked(m0, m1, v, i);
    } else {
      SplitLinked(m0, m1, v, i, nu);
    }
    CarveLive(m0, m1, v, live, i, nu);
  }

  // -----------------------------------------------------------------------
  // What malloc computes

  /** The outcome malloc promises for a request of nu units on free list v
      with cursor f and heap top top, where grow says whether the operating
      system grants more memory: the new free list, the index of the block
      taken in the list it was taken from, and that block's address; None
      when no block fits and the heap cannot grow. With no fit, the search is
      repeated once on the list with a fresh region of Chunk(nu) units at the
      top released into it, from the cursor free leaves on the last block. */
  function Search(v: seq<Span>, f: nat, nu: nat, top: nat, grow: bool): Option<(seq<Span>, nat, nat)>
    requires f < |v|
  {
    match NextFit(v, f, nu)
    case Some(i) => Some((Carve(v, i, nu).0, i, Carve(v, i, nu).1))
    case None =>
      if !grow then None
      else
        var v1 := Release(v, |v| - 1, Span(top, Chunk(nu)));
        match NextFit(v1, |v| - 1, nu)
        case Some(i) => Some((Carve(v1, i, nu).0, i, Carve(v1, i, nu).1))
        case None => None
  }

  /** In every state after the first malloc, a region granted at the heap top
      fits after the last free block, so the Search lemmas below apply to the
      allocator's free list, cursor and heap size. */
  lemma TopFits(m: seq<Header>, f: nat, v: seq<Span>, c: nat, live: map<nat, nat>, n: nat)
    requires State(m, f, v, c, live) && f != Null && n >= 1
    ensures FitsGap(v, |v| - 1, Span(|m|, n))
  {
    assert End(v[|v| - 1]) <= |m|;
  }

  /** Under the invariant, a free block's header points to a lower or equal
      address exactly when it is the last block: the list has one wrap edge,
      the one free's scan stops at when the block lies above every free block. */
  lemma WrapEdge(m: seq<Header>, f: nat, v: seq<Span>, c: nat, live: map<nat, nat>, j: nat)
    requires State(m, f, v, c, live) && f != Null && j < |v|
    ensures m[v[j].addr].ptr <= v[j].addr <==> j == |v| - 1
  {
    assert m[v[j].addr] == Header(v[Succ(|v|, j)].addr, v[j].size);
    if j + 1 < |v| {
      Below(v, j, j + 1);
    } else {
      assert v[0].addr == Base;
      if j > 0 { Below(v, 0, j); }
    }
  }

  /** Search fails exactly when no free block fits and the operating system
      refuses: a granted region of Chunk(nu) units always fits. */
  lemma SearchRefused(v: seq<Span>, f: nat, nu: nat, top: nat, grow: bool)
    requires WellFormed(v) && f < |v| && nu >= 1 && FitsGap(v, |v| - 1, Span(top, Chunk(nu)))
    ensures Search(v, f, nu, top, grow).None? <==> !grow && forall j :: 0 <= j < |v| ==> v[j].size < nu
  {
    NextFitSpec(v, f, nu);
    if grow && NextFit(v, f, nu).None? {
      var s := Span(top, Chunk(nu));
      ReleaseHolds(v, |v| - 1, s);
      NextFitSpec(Release(v, |v| - 1, s), |v| - 1, nu);
    }
  }

  /** A block Search hands out is nu units apart from every block of the new
      free list, which is well formed and has lost exactly those nu units
      (after gaining the Chunk(nu) units of a grown heap, when no block fit). */
  lemma SearchTaken(v: seq<Span>, f: nat, nu: nat, top: nat, grow: bool)
    requires WellFormed(v) && f < |v| && nu >= 1 && FitsGap(v, |v| - 1, Span(top, Chunk(nu)))
    requires Search(v, f, nu, top, grow).Some?
    ensures var (r, _, b) := Search(v, f, nu, top, grow).value;
      WellFormed(r) &&
      Total(r) + nu == Total(v) + (if NextFit(v, f, nu).Some? then 0 else Chunk(nu)) &&
      forall j :: 0 <= j < |r| ==> Apart(b, nu, r[j].addr, r[j].size)
  {
    if NextFit(v, f, nu).Some? {
      var i := NextFit(v, f, nu).value;
      assert Search(v, f, nu, top, grow).value == (Carve(v, i, nu).0, i, Carve(v, i, nu).1);
      CarveFacts(v, i, nu);
    } else {
      var s := Span(top, Chunk(nu));
      var w := Release(v, |v| - 1, s);
      assert NextFit(w, |v| - 1, nu).Some?;
      var i := NextFit(w, |v| - 1, nu).value;
      assert Search(v, f, nu, top, grow).value == (Carve(w, i, nu).0, i, Carve(w, i, nu).1);
      ReleaseWellFormed(v, |v| - 1, s);
      ReleaseTotal(v, |v| - 1, s);
      CarveFacts(w, i, nu);
    }
  }

  /** Carving nu units from a fitting block of a well-formed list. */
  lemma CarveFacts(w: seq<Span>, i: nat, nu: nat)
    requires WellFormed(w) && i < |w| && w[i].size >= nu >= 1
    ensures var (r, b) := Carve(w, i, nu);
      WellFormed(r) && Total(r) + nu == Total(w) &&
      forall j :: 0 <= j < |r| ==> Apart(b, nu, r[j].addr, r[j].size)
  {
    CarveWellFormed(w, i, nu);
    CarveTotal(w, i, nu);
    CarveTiles(w, i, nu);
  }

  /** Following the header of the block d steps after the cursor reaches the
      block d + 1 steps after it; the cursor's block is 0 or |v| steps on. */
  lemma Follow(m: seq<Header>, f: nat, v: seq<Span>, c: nat, live: map<nat, nat>, d: nat)
    requires State(m, f, v, c, live) && f != Null && d <= |v|
    ensures v[At(|v|, c, d)].addr < |m|
    ensures d < |v| ==> m[v[At(|v|, c, d)].addr].ptr == v[At(|v|, c, d + 1)].addr
    ensures v[At(|v|, c, d)].addr == f <==> d == 0 || d == |v|
  {
    var j := At(|v|, c, d);
    assert m[v[j].addr] == Header(v[Succ(|v|, j)].addr, v[j].size);
    if j < c { Below(v, j, c); } else if j > c { Below(v, c, j); }
  }

  /** When the scan of malloc finds block i on list v with cursor f, and v is
      either the list it started from or the grown list, Search describes
      the block taken. */
  lemma SearchFound(v0: seq<Span>, f0: nat, nu: nat, top: nat, grow: bool, v: seq<Span>, f: nat, i: nat)
    requires f0 < |v0| && f < |v| && NextFit(v, f, nu) == Some(i)
    requires (v == v0 && f == f0) ||
             (NextFit(v0, f0, nu).None? && grow && v == Release(v0, |v0| - 1, Span(top, Chunk(nu))) && f == |v0| - 1)
    ensures Search(v0, f0, nu, top, grow) == Some((Carve(v, i, nu).0, i, Carve(v, i, nu).1))
  {
  }

  /** What malloc promises for a request of nu units, given the free list v0
      and cursor f0 it searches, the heap top top, whether the operating
      system grants more memory, and the allocated blocks live0 before the
      call: the returned pointer ap, the new list v and cursor c, the new
      allocated blocks live and the new heap size are those of Search. */
  ghost predicate Outcome(v0: seq<Span>, f0: nat, nu: nat, top: nat, grow: bool, live0: map<nat, nat>,
                          ap: nat, v: seq<Span>, c: nat, live: map<nat, nat>, size: nat)
    requires f0 < |v0|
  {
    match Search(v0, f0, nu, top, grow)
    case None => ap == Null && v == v0 && c == f0 && live == live0 && size == top
    case Some((r, i, b)) =>
      ap == b + 1 && v == r && c + 1 == i && b !in live0 && live == live0[b := nu] &&
      size == top + (if NextFit(v0, f0, nu).Some? then 0 else Chunk(nu))
  }

  /** Malloc's outcome when the scan has found a fit. */
  lemma OutcomeTaken(v0: seq<Span>, f0: nat, nu: nat, top: nat, grow: bool, live0: map<nat, nat>,
                     r0: seq<Span>, i: nat, b: nat, c: nat, live: map<nat, nat>, size: nat)
    requires f0 < |v0| && i < |r0| && r0[i].size >= nu
    requires Search(v0, f0, nu, top, grow) == Some((Carve(r0, i, nu).0, i, Carve(r0, i, nu).1))
    requires b == Carve(r0, i, nu).1 && c + 1 == i && b !in live0 && live == live0[b := nu]
    requires size == top + (if NextFit(v0, f0, nu).Some? then 0 else Chunk(nu))
    ensures Outcome(v0, f0, nu, top, grow, live0, b + 1, Carve(r0, i, nu).0, c, live, size)
  {
  }

  /** Malloc's outcome when no block fits and the operating system refuses. */
  lemma OutcomeRefused(v0: seq<Span>, f0: nat, nu: nat, top: nat, live0: map<nat, nat>)
    requires f0 < |v0| && NextFit(v0, f0, nu).None?
    ensures Outcome(v0, f0, nu, top, false, live0, Null, v0, f0, live0, top)
  {
  }

  // -----------------------------------------------------------------------
  // The allocator

  /** The allocator's state: the statics `base` (cell Base of mem) and `freep`. */
  class Allocator {
    var mem: seq<Header>
    var freep: nat
    /** The free list in address order, starting at the sentinel. */
    ghost var view: seq<Span>
    /** The index of freep in view. */
    ghost var cur: nat
    /** The blocks handed out and not yet freed: address to size in units. */
    ghost var live: map<nat, nat>

    ghost predicate Valid()
      reads this
    {
      State(mem, freep, view, cur, live)
    }

    /** The free list the next search starts from: on the first call, the
        self-loop on `base` that malloc sets up. */
    ghost function StartView(): seq<Span>
      reads this
    {
      if freep == Null then [Span(Base, 0)] else view
    }

    ghost function StartCursor(): nat
      reads this
    {
      if freep == Null then 0 else cur
    }

    /** Both statics zero, as the C runtime leaves them, over a memory of just
        the null cell and `base`. */
    constructor ()
      ensures Valid() && freep == Null && |mem| == Base + 1 && live == map[]
    {
      mem := [Header(Null, 0), Header(Null, 0)];
      freep := Null;
      view := [];
      cur := 0;
      live := map[];
    }

    /** Every allocated block may be freed. */
    lemma LiveReleasable(b: nat)
      requires Valid() && b in live
      ensures freep != Null && Releasable(mem, view, live, b)
    {
    }

    /** The search loop of free: from the cursor, the free block after which
        block bp belongs in address order. */
    method Locate(bp: nat) returns (p: nat)
      requires Valid() && freep != Null && Base < bp
      requires forall j :: 0 <= j < |view| ==> view[j].addr != bp
      ensures p == view[Slot(view, bp)].addr
    {
      ghost var k: nat := Slot(view, bp);
      ghost var n: nat := |view|;
      ghost var i: nat := cur;
      p := freep;
      while !(bp > p && bp < mem[p].ptr)
        invariant i < n && p == view[i].addr && p < |mem|
        invariant mem[p] == Header(view[Succ(n, i)].addr, view[i].size)
        decreases if i <= k then k - i else k + n - i
      {
        StopsAtSlot(view, bp, i);
        if p >= mem[p].ptr && (bp > p || bp < mem[p].ptr) {
          break;
        }
        p := mem[p].ptr;
        i := Succ(n, i);
      }
      StopsAtSlot(view, bp, i);
    }

    /** The header writes of free, applied one after another to a copy of
        memory that Free then installs; Joined states their combined effect. */
    static method Join(m: seq<Header>, bp: nat, p: nat) returns (m': seq<Header>)
      requires p < bp < |m| && m[p].ptr < |m|
      ensures m' == Joined(m, bp, p)
    {
      m' := m;
      if bp + m'[bp].size == m'[p].ptr {
        m' := m'[bp := m'[bp].(size := m'[bp].size + m'[m'[p].ptr].size)];
        m' := m'[bp := m'[bp].(ptr := m'[m'[p].ptr].ptr)];
      } else {
        m' := m'[bp := m'[bp].(ptr := m'[p].ptr)];
      }
      if p + m'[p].size == bp {
        m' := m'[p := m'[p].(size := m'[p].size + m'[bp].size)];
        m' := m'[p := m'[p].(ptr := m'[bp].ptr)];
      } else {
        m' := m'[p := m'[p].(ptr := bp)];
      }
    }

    /** free: link block ap - 1 into the free list after the block Locate finds,
        merging with the following and with the preceding free block where they
        touch, and leave the cursor on the insertion point. */
    method Free(ap: nat)
      requires Valid() && freep != Null && ap >= 1 && Releasable(mem, view, live, ap - 1)
      modifies this
      ensures Valid() && freep != Null
      ensures var k := Slot(old(view), ap - 1);
        view == Release(old(view), k, Span(ap - 1, old(mem[ap - 1].size))) &&
        cur == k && freep == old(view)[k].addr
      ensures live == old(live) - {ap - 1}
      ensures |mem| == old(|mem|)
    {
      var bp := ap - 1;
      ghost var m0, f0, v, c0, live0 := mem, freep, view, cur, live;
      FreeEntry(m0, f0, v, c0, live0, bp);
      var p := Locate(bp);
      FreeExit(m0, f0, v, c0, live0, bp, p);
      ghost var k := Slot(v, bp);
      var m' := Join(mem, bp, p);
      mem, freep, view, cur, live := m', p, Release(v, k, Span(bp, m0[bp].size)), k, live0 - {bp};
    }

    /** sbrk, the operating system's heap extension: when it grants the request,
        n fresh cells appear above the old top, whose address it returns;
        otherwise it returns -1 and memory is unchanged. */
    method Sbrk(n: nat, osGrants: bool) returns (p: int)
      modifies this`mem
      ensures osGrants ==> p == old(|mem|) && mem == old(mem) + seq(n, _ => Header(Null, 0))
      ensures !osGrants ==> p == -1 && mem == old(mem)
    {
      if osGrants {
        p := |mem|;
        mem := mem + seq(n, _ => Header(Null, 0));
      } else {
        p := -1;
      }
    }

    /** morecore's request to the operating system for n units: when granted,
        the new region above the old top gets a header of n units, and it is a
        block free can release, lying above every free block. */
    method Grow(n: nat, osGrants: bool) returns (hp: int)
      requires Valid() && freep != Null && n >= 1
      modifies this`mem
      ensures Valid() && freep != Null
      ensures !osGrants ==> hp == -1 && mem == old(mem)
      ensures osGrants ==>
        hp == old(|mem|) && |mem| == old(|mem|) + n && mem[hp].size == n &&
        Releasable(mem, view, live, hp) && Slot(view, hp) == |view| - 1 && hp !in live
    {
      ghost var m0 := mem;
      hp := Sbrk(n, osGrants);
      if hp == -1 {
        return;
      }
      mem := mem[hp := mem[hp].(size := n)];
      GrownReleasable(m0, freep, view, cur, live, n, mem);
    }

    /** morecore: obtain at least MinChunk units from the operating system, give
        the new region one header and pass it to free. */
    method Morecore(nu: nat, osGrants: bool) returns (r: nat)
      requires Valid() && freep != Null
      modifies this
      ensures Valid() && freep != Null
      ensures !osGrants ==>
        r == Null && mem == old(mem) && view == old(view) && cur == old(cur) &&
        freep == old(freep) && live == old(live)
      ensures osGrants ==>
        r != Null && r == freep && |mem| == old(|mem|) + Chunk(nu) && live == old(live) &&
        view == Release(old(view), |old(view)| - 1, Span(old(|mem|), Chunk(nu))) &&
        cur == |old(view)| - 1
    {
      var n := nu;
      if n < MinChunk {
        n := MinChunk;
      }
      var hp := Grow(n, osGrants);
      if hp == -1 {
        return Null;
      }
      assert live - {hp} == live;
      Free(hp + 1);
      r := freep;
    }

    /** The header writes of malloc's fit branch, applied one after another to
        a copy of memory that TakeFrom then installs; Taken states their
        combined effect. */
    static method Take(m: seq<Header>, prevp: nat, p: nat, nu: nat) returns (m': seq<Header>, b: nat)
      requires prevp < |m| && p < |m| && 1 <= nu <= m[p].size && p + m[p].size <= |m|
      ensures (m', b) == Taken(m, prevp, p, nu)
    {
      m', b := m, p;
      if m'[b].size == nu {
        m' := m'[prevp := m'[prevp].(ptr := m'[b].ptr)];
      } else {
        m' := m'[b := m'[b].(size := m'[b].size - nu)];
        b := b + m'[b].size;
        m' := m'[b := m'[b].(size := nu)];
      }
    }

    /** malloc's fit branch: take nu units from free block i, which follows
        block prevp on the list, and leave the cursor on prevp. */
    method TakeFrom(prevp: nat, p: nat, ghost i: nat, nu: nat) returns (b: nat)
      requires Valid() && freep != Null && 1 <= i < |view| && view[i].size >= nu >= 1
      requires prevp == view[i - 1].addr && p == view[i].addr
      modifies this
      ensures Valid() && freep != Null && |mem| == old(|mem|)
      ensures view == Carve(old(view), i, nu).0 && cur == i - 1 && b == Carve(old(view), i, nu).1
      ensures b !in old(live) && live == old(live)[b := nu]
    {
      TakeEntry(mem, freep, view, cur, live, i, nu);
      TakeExit(mem, freep, view, cur, live, i, nu);
      ghost var r := Carve(view, i, nu).0;
      var m';
      m', b := Take(mem, prevp, p, nu);
      mem, freep, view, cur, live := m', prevp, r, i - 1, live[b := nu];
    }

    /** The state of malloc's search loop after d steps from the cursor: prevp
        and p are the blocks d - 1 and d steps on, the search of the current
        list has d steps to go, and the list is either the one malloc started
        from (v0, cursor f0, heap top top) or, once the heap has grown, that
        list with the fresh region released into it, which has a fit. */
    ghost predicate Scanning(prevp: nat, p: nat, nu: nat, d: nat, grown: bool,
                             v0: seq<Span>, f0: nat, top: nat, live0: map<nat, nat>)
      reads this
    {
      Valid() && freep != Null && live == live0 && 1 <= d <= |view| &&
      prevp == view[At(|view|, cur, d - 1)].addr && p == view[At(|view|, cur, d)].addr &&
      NextFit(view, cur, nu) == Scan(view, cur, d, nu) &&
      (!grown ==> view == v0 && cur == f0 && |mem| == top) &&
      (grown ==>
        f0 < |v0| && NextFit(v0, f0, nu).None? && |mem| == top + Chunk(nu) &&
        view == Release(v0, |v0| - 1, Span(top, Chunk(nu))) && cur == |v0| - 1 &&
        NextFit(view, cur, nu).Some?)
    }

    /** The search starts on the block after the cursor. */
    lemma ScanStart(prevp: nat, p: nat, nu: nat, live0: map<nat, nat>)
      requires Valid() && freep != Null && live == live0 && prevp == freep && p == mem[prevp].ptr
      ensures Scanning(prevp, p, nu, 1, false, view, cur, |mem|, live0)
    {
      Follow(mem, freep, view, cur, live, 0);
    }

    /** Block p is too small and is not the cursor's block: the search moves on
        to its successor. */
    lemma ScanStep(prevp: nat, p: nat, nu: nat, d: nat, grown: bool,
                   v0: seq<Span>, f0: nat, top: nat, live0: map<nat, nat>)
      requires Scanning(prevp, p, nu, d, grown, v0, f0, top, live0)
      requires mem[p].size < nu && p != freep
      ensures d < |view| && Scanning(p, mem[p].ptr, nu, d + 1, grown, v0, f0, top, live0)
    {
      Follow(mem, freep, view, cur, live, d);
    }

    /** Back at the cursor's block with no fit: the heap has not grown yet and
        no block of the list malloc started from fits. */
    lemma ScanExhausted(prevp: nat, p: nat, nu: nat, d: nat, grown: bool,
                        v0: seq<Span>, f0: nat, top: nat, live0: map<nat, nat>)
      requires Scanning(prevp, p, nu, d, grown, v0, f0, top, live0)
      requires mem[p].size < nu && p == freep
      ensures !grown && view == v0 && cur == f0 && |mem| == top && NextFit(v0, f0, nu).None?
    {
      Follow(mem, freep, view, cur, live, d);
      assert mem[view[cur].addr] == Header(view[Succ(|view|, cur)].addr, view[cur].size);
    }

    /** After morecore has grown the heap, the search restarts after the new
        cursor on a list that has a fit. */
    lemma ScanRegrown(nu: nat, v0: seq<Span>, f0: nat, top: nat, live0: map<nat, nat>)
      requires Valid() && freep != Null && live == live0 && f0 < |v0| && |view| >= 1
      requires NextFit(v0, f0, nu).None? && |mem| == top + Chunk(nu)
      requires view == Release(v0, |v0| - 1, Span(top, Chunk(nu))) && cur == |v0| - 1
      ensures Scanning(freep, mem[freep].ptr, nu, 1, true, v0, f0, top, live0)
    {
      ReleaseHolds(v0, |v0| - 1, Span(top, Chunk(nu)));
      NextFitSpec(view, cur, nu);
      Follow(mem, freep, view, cur, live, 0);
    }

    /** Block p fits: it is block i of the list, prevp is its predecessor, and
        taking it is the outcome Search describes. */
    lemma ScanFound(prevp: nat, p: nat, nu: nat, d: nat, grown: bool, grow: bool,
                    v0: seq<Span>, f0: nat, top: nat, live0: map<nat, nat>) returns (i: nat)
      requires Scanning(prevp, p, nu, d, grown, v0, f0, top, live0) && (grown ==> grow)
      requires f0 < |v0| && nu >= 1 && mem[p].size >= nu
      ensures 1 <= i < |view| && view[i].size >= nu && prevp == view[i - 1].addr && p == view[i].addr
      ensures Search(v0, f0, nu, top, grow) == Some((Carve(view, i, nu).0, i, Carve(view, i, nu).1))
      ensures |mem| == top + (if NextFit(v0, f0, nu).Some? then 0 else Chunk(nu))
    {
      var n := |view|;
      i := At(n, cur, d);
      Follow(mem, freep, view, cur, live, d);
      assert mem[view[i].addr] == Header(view[Succ(n, i)].addr, view[i].size);
      assert i >= 1 && At(n, cur, d - 1) == i - 1;
      SearchFound(v0, f0, nu, top, grow, view, cur, i);
      if !grown {
        NextFitSpec(v0, f0, nu);
      }
    }

    /** One turn of malloc's search loop at block p, whose predecessor is
        prevp: take p if it fits; at the cursor, call morecore (and give up
        with Null when it fails); then step to the next block. The ghost d
        counts the steps taken since the search started or resumed, and
        grown records that morecore has run. */
    method Probe(prevp: nat, p: nat, nu: nat, grow: bool, ghost d: nat, ghost grown: bool,
                 ghost v0: seq<Span>, ghost f0: nat, ghost top: nat, ghost live0: map<nat, nat>)
      returns (done: bool, ap: nat, prevp': nat, p': nat, ghost d': nat, ghost grown': bool)
      requires Scanning(prevp, p, nu, d, grown, v0, f0, top, live0) && (grown ==> grow)
      requires f0 < |v0| && nu >= 1
      modifies this
      ensures Valid() && freep != Null
      ensures done ==> Outcome(v0, f0, nu, top, grow, live0, ap, view, cur, live, |mem|)
      ensures !done ==> Scanning(prevp', p', nu, d', grown', v0, f0, top, live0) && (grown' ==> grow)
      ensures !done ==> (grown' && !grown) || (grown' == grown && |view| - d' < old(|view|) - d)
    {
      done, ap, prevp', p', d', grown' := false, Null, prevp, p, d, grown;
      if mem[p].size >= nu {
        done := true;
        ap := Claim(prevp, p, nu, d, grown, grow, v0, f0, top, live0);
        return;
      }
      if p == freep {
        var q := Regrow(prevp, p, nu, grow, d, grown, v0, f0, top, live0);
        if q == Null {
          done := true;
          return;
        }
        prevp', p', d', grown' := q, mem[q].ptr, 1, true;
      } else {
        ScanStep(prevp, p, nu, d, grown, v0, f0, top, live0);
        prevp', p', d' := p, mem[p].ptr, d + 1;
      }
    }

    /** malloc's search back at the cursor with no fit: morecore grows the
        heap, and the search resumes from the new cursor; when the operating
        system refuses, malloc's outcome is Null. */
    method Regrow(prevp: nat, p: nat, nu: nat, grow: bool, ghost d: nat, ghost grown: bool,
                  ghost v0: seq<Span>, ghost f0: nat, ghost top: nat, ghost live0: map<nat, nat>)
      returns (q: nat)
      requires Scanning(prevp, p, nu, d, grown, v0, f0, top, live0) && (grown ==> grow)
      requires f0 < |v0| && nu >= 1 && mem[p].size < nu && p == freep
      modifies this
      ensures Valid() && freep != Null && !grown
      ensures q == Null ==> Outcome(v0, f0, nu, top, grow, live0, Null, view, cur, live, |mem|)
      ensures q != Null ==> grow && q == freep && Scanning(q, mem[q].ptr, nu, 1, true, v0, f0, top, live0)
    {
      ScanExhausted(prevp, p, nu, d, grown, v0, f0, top, live0);
      q := Morecore(nu, grow);
      if q == Null {
        OutcomeRefused(v0, f0, nu, top, live0);
        return;
      }
      ScanRegrown(nu, v0, f0, top, live0);
    }

    /** malloc's fit branch: the scan stands at a block p of at least nu
        units; take it and return the address after its header. */
    method Claim(prevp: nat, p: nat, nu: nat, ghost d: nat, ghost grown: bool, ghost grow: bool,
                 ghost v0: seq<Span>, ghost f0: nat, ghost top: nat, ghost live0: map<nat, nat>)
      returns (ap: nat)
      requires Scanning(prevp, p, nu, d, grown, v0, f0, top, live0) && (grown ==> grow)
      requires f0 < |v0| && nu >= 1 && mem[p].size >= nu
      modifies this
      ensures Valid() && freep != Null
      ensures Outcome(v0, f0, nu, top, grow, live0, ap, view, cur, live, |mem|)
    {
      ghost var i := ScanFound(prevp, p, nu, d, grown, grow, v0, f0, top, live0);
      ghost var vb := view;
      var b := TakeFrom(prevp, p, i, nu);
      OutcomeTaken(v0, f0, nu, top, grow, live0, vb, i, b, cur, live, |mem|);
      ap := b + 1;
    }

    /** malloc's first-call setup: with no free list yet, `base` becomes a
        block of size zero whose pointer is itself, and the cursor points at it. */
    method Prime()
      requires Valid()
      modifies this
      ensures Valid() && freep != Null
      ensures view == old(StartView()) && cur == old(StartCursor())
      ensures |mem| == old(|mem|) && live == old(live)
    {
      if freep == Null {
        FirstState(mem);
        freep := Base;
        mem := mem[Base := Header(Base, 0)];
        view, cur := [Span(Base, 0)], 0;
      }
    }

    /** malloc: search the free list from the block after the cursor for the
        first block of at least Units(nbytes) units (next fit). An exact fit is
        unlinked; a larger block gives up its tail. With no fit, morecore grows
        the heap once and the search resumes from the new cursor. Returns
        block + 1, or Null when the operating system refuses; the outcome is
        the one Search describes. */
    method Malloc(nbytes: nat, osGrants: bool) returns (ap: nat)
      requires Valid() && nbytes <= MaxRequest
      modifies this
      ensures Valid() && freep != Null
      ensures Outcome(old(StartView()), old(StartCursor()), Units(nbytes), old(|mem|), osGrants, old(live),
                      ap, view, cur, live, |mem|)
    {
      var nunits := Units(nbytes);
      Prime();
      var prevp := freep;
      ghost var v0, f0, top, live0 := view, cur, |mem|, live;
      ghost var d: nat := 1;
      ghost var grown := false;
      var p := mem[prevp].ptr;
      ScanStart(prevp, p, nunits, live0);
      while true
        invariant Scanning(prevp, p, nunits, d, grown, v0, f0, top, live0) && (grown ==> osGrants)
        decreases if grown then 0 else 1, |view| - d
      {
        var done;
        done, ap, prevp, p, d, grown := Probe(prevp, p, nunits, osGrants, d, grown, v0, f0, top, live0);
        if done {
          return;
        }
      }
    }
  }
}
