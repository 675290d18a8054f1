/** The kernel heap: a free-extent allocator over a fixed table of
    (address, size) records kept in address order, and the
    kmalloc/kfree/krealloc layer that prefixes every block with a
    16-byte header whose first word stores the requested size. */
module Memory {
  import opened Machine

  /** Capacity of the free table. */
  const MEMMAN_FREES: nat := 4090
  /** Bytes of header in front of every kmalloc block. */
  const HEADER: nat := 16
  /** Where the allocator starts handing out memory after boot. */
  const HEAP_START: nat := 0x400000

  /** One free extent of the table. */
  datatype Extent = Extent(addr: nat, size: nat)

  // ---------------------------------------------------------------------
  // The free list as a value, and the operations on it as functions
  // ---------------------------------------------------------------------

  /** Sum of the sizes of the extents, summed from the front. */
  function SumSizes(s: seq<Extent>): nat
  {
    if |s| == 0 then 0 else SumSizes(s[..|s| - 1]) + s[|s| - 1].size
  }

  function End(e: Extent): nat { e.addr + e.size }

  /** The table invariant: every extent is non-empty and extents are in
      strictly increasing address order with a gap between neighbours, so
      no two of them overlap or touch. */
  ghost predicate WellFormed(s: seq<Extent>)
  {
    && (forall k :: 0 <= k < |s| ==> s[k].size > 0)
    && (forall j, k :: 0 <= j < k < |s| ==> End(s[j]) < s[k].addr)
  }

  /** The range [addr, addr+size) overlaps no free extent. */
  ghost predicate Disjoint(s: seq<Extent>, addr: nat, size: nat)
  {
    forall k :: 0 <= k < |s| ==> addr + size <= s[k].addr || End(s[k]) <= addr
  }

  /** Index of the first extent large enough for `size`, or |s| if none. */
  function FirstFit(s: seq<Extent>, size: nat): (k: nat)
    ensures k <= |s|
    ensures forall j :: 0 <= j < k ==> s[j].size < size
    ensures k < |s| ==> s[k].size >= size
  {
    if |s| == 0 then 0
    else if s[0].size >= size then 0
    else 1 + FirstFit(s[1..], size)
  }

  /** First-fit allocation on the table, returning the address handed out
      (0 when nothing fits) and the new table. */
  function AllocSpec(s: seq<Extent>, size: nat): (nat, seq<Extent>)
  {
    var k := FirstFit(s, size);
    if k == |s| then (0, s)
    else if s[k].size == size then (s[k].addr, s[..k] + s[k + 1..])
    else (s[k].addr, s[k := Extent(s[k].addr + size, s[k].size - size)])
  }

  /** Index of the first extent whose address lies above `addr`, or |s|. */
  function FirstAbove(s: seq<Extent>, addr: nat): (k: nat)
    ensures k <= |s|
    ensures forall j :: 0 <= j < k ==> s[j].addr <= addr
    ensures k < |s| ==> s[k].addr > addr
  {
    if |s| == 0 then 0
    else if s[0].addr > addr then 0
    else 1 + FirstAbove(s[1..], addr)
  }

  /** FirstAbove is the index that splits the table into the entries at
      or below addr and the one above it. */
  lemma {:induction false} FirstAboveIs(s: seq<Extent>, addr: nat, i: nat)
    requires i <= |s| && (forall k :: 0 <= k < i ==> s[k].addr <= addr)
    requires i < |s| ==> s[i].addr > addr
    ensures FirstAbove(s, addr) == i
  {
    if i > 0 {
      FirstAboveIs(s[1..], addr, i - 1);
    }
  }

  /** Releasing [addr, addr+size) into the table, returning the status
      (0 or -1) and the new table: merge with the predecessor (and then
      possibly also the successor), else merge with the successor, else
      insert if there is room, else fail. */
  function FreeSpec(s: seq<Extent>, addr: nat, size: nat): (int, seq<Extent>)
  {
    var i := FirstAbove(s, addr);
    if i > 0 && End(s[i - 1]) == addr then
      if i < |s| && addr + size == s[i].addr then
        (0, s[..i - 1] + [Extent(s[i - 1].addr, s[i - 1].size + size + s[i].size)] + s[i + 1..])
      else
        (0, s[i - 1 := Extent(s[i - 1].addr, s[i - 1].size + size)])
    else if i < |s| && addr + size == s[i].addr then
      (0, s[i := Extent(addr, s[i].size + size)])
    else if |s| < MEMMAN_FREES then
      (0, s[..i] + [Extent(addr, size)] + s[i..])
    else
      (-1, s)
  }

  // ---------------------------------------------------------------------
  // Properties of the table operations
  // ---------------------------------------------------------------------

  lemma {:induction false} SumSizesConcat(a: seq<Extent>, b: seq<Extent>)
    ensures SumSizes(a + b) == SumSizes(a) + SumSizes(b)
    decreases |b|
  {
    if |b| == 0 {
      assert a + b == a;
    } else {
      assert (a + b)[..|a + b| - 1] == a + b[..|b| - 1];
      SumSizesConcat(a, b[..|b| - 1]);
    }
  }

  /** Replacing the window s[i..j] by `mid` changes the total by the
      difference of the window sums. */
  lemma SumSizesSplice(s: seq<Extent>, i: nat, j: nat, mid: seq<Extent>)
    requires i <= j <= |s|
    ensures SumSizes(s[..i] + mid + s[j..]) + SumSizes(s[i..j]) == SumSizes(s) + SumSizes(mid)
  {
    SumSizesConcat(s[..i] + mid, s[j..]);
    SumSizesConcat(s[..i], mid);
    SumSizesConcat(s[..i], s[i..j]);
    SumSizesConcat(s[..i] + s[i..j], s[j..]);
    assert s[..i] + s[i..j] + s[j..] == s;
  }

  lemma SumSizesOne(e: Extent)
    ensures SumSizes([e]) == e.size
  {
    assert [e][..0] == [];
  }

  lemma SumSizesTwo(d: Extent, e: Extent)
    ensures SumSizes([d, e]) == d.size + e.size
  {
    assert [d, e][..1] == [d];
    SumSizesOne(d);
  }

  /** A successful allocation of n lowers the free total by exactly n; a
      failed one leaves the table as it was. */
  lemma AllocTotal(s: seq<Extent>, n: nat)
    ensures var (a, t) := AllocSpec(s, n);
      if FirstFit(s, n) < |s| then SumSizes(t) + n == SumSizes(s) else t == s && a == 0
  {
    var k := FirstFit(s, n);
    if k < |s| {
      var (_, t) := AllocSpec(s, n);
      assert s[k..k + 1] == [s[k]];
      SumSizesOne(s[k]);
      if s[k].size == n {
        SumSizesSplice(s, k, k + 1, []);
        assert s[..k] + [] + s[k + 1..] == t;
      } else {
        var e := Extent(s[k].addr + n, s[k].size - n);
        SumSizesSplice(s, k, k + 1, [e]);
        SumSizesOne(e);
        assert s[..k] + [e] + s[k + 1..] == t;
      }
    }
  }

  /** A successful release of n raises the free total by exactly n; a
      failed one (-1) leaves the table unchanged. */
  lemma FreeTotal(s: seq<Extent>, addr: nat, n: nat)
    ensures FreeSpec(s, addr, n).0 == 0 ==> SumSizes(FreeSpec(s, addr, n).1) == SumSizes(s) + n
    ensures FreeSpec(s, addr, n).0 == -1 ==> FreeSpec(s, addr, n).1 == s
  {
    var i := FirstAbove(s, addr);
    var r := FreeSpec(s, addr, n);
    if i > 0 && End(s[i - 1]) == addr {
      var p := s[i - 1];
      if i < |s| && addr + n == s[i].addr {
        var m := Extent(p.addr, p.size + n + s[i].size);
        assert r == (0, s[..i - 1] + [m] + s[i + 1..]);
        SpliceTotal(s, i - 1, i + 1, m);
      } else {
        var m := Extent(p.addr, p.size + n);
        assert s[i - 1 := m] == s[..i - 1] + [m] + s[i..];
        assert r == (0, s[..i - 1] + [m] + s[i..]);
        SpliceTotal(s, i - 1, i, m);
      }
    } else if i < |s| && addr + n == s[i].addr {
      var m := Extent(addr, s[i].size + n);
      assert s[i := m] == s[..i] + [m] + s[i + 1..];
      assert r == (0, s[..i] + [m] + s[i + 1..]);
      SpliceTotal(s, i, i + 1, m);
    } else if |s| < MEMMAN_FREES {
      assert r == (0, s[..i] + [Extent(addr, n)] + s[i..]);
      SpliceTotal(s, i, i, Extent(addr, n));
    } else {
      assert r == (-1, s);
    }
  }

  /** Replacing one or two extents (or none) by a single extent. */
  lemma SpliceTotal(s: seq<Extent>, i: nat, j: nat, m: Extent)
    requires i <= j <= |s| && j <= i + 2
    ensures SumSizes(s[..i] + [m] + s[j..]) + WindowSize(s, i, j) == SumSizes(s) + m.size
  {
    SumSizesSplice(s, i, j, [m]);
    SumSizesOne(m);
    WindowSum(s, i, j);
  }

  function WindowSize(s: seq<Extent>, i: nat, j: nat): nat
    requires i <= j <= |s| && j <= i + 2
  {
    if j == i then 0 else if j == i + 1 then s[i].size else s[i].size + s[i + 1].size
  }

  lemma WindowSum(s: seq<Extent>, i: nat, j: nat)
    requires i <= j <= |s| && j <= i + 2
    ensures SumSizes(s[i..j]) == WindowSize(s, i, j)
  {
    if j == i + 1 {
      assert s[i..j] == [s[i]];
      SumSizesOne(s[i]);
    } else if j == i + 2 {
      assert s[i..j] == [s[i], s[i + 1]];
      SumSizesTwo(s[i], s[i + 1]);
    }
  }

  /** memman_free fails exactly when no merge applies and the table is full. */
  lemma FreeFails(s: seq<Extent>, addr: nat, n: nat)
    requires |s| <= MEMMAN_FREES
    ensures var i := FirstAbove(s, addr);
      FreeSpec(s, addr, n).0 == -1 <==>
        && !(i > 0 && End(s[i - 1]) == addr)
        && !(i < |s| && addr + n == s[i].addr)
        && |s| == MEMMAN_FREES
  {
  }

  /** Removing an extent from a well-formed table keeps it well formed. */
  lemma WellFormedRemove(s: seq<Extent>, k: nat)
    requires WellFormed(s) && k < |s|
    ensures WellFormed(s[..k] + s[k + 1..])
  {
    var t := s[..k] + s[k + 1..];
    forall a, b | 0 <= a < b < |t| ensures End(t[a]) < t[b].addr {
      var a' := if a < k then a else a + 1;
      var b' := if b < k then b else b + 1;
      assert t[a] == s[a'] && t[b] == s[b'];
    }
  }

  /** Inserting a non-empty extent with a gap on each side keeps the table
      well formed. */
  lemma WellFormedInsert(s: seq<Extent>, i: nat, e: Extent)
    requires WellFormed(s) && i <= |s| && e.size > 0
    requires i > 0 ==> End(s[i - 1]) < e.addr
    requires i < |s| ==> End(e) < s[i].addr
    ensures WellFormed(s[..i] + [e] + s[i..])
  {
    var t := s[..i] + [e] + s[i..];
    forall a, b | 0 <= a < b < |t| ensures End(t[a]) < t[b].addr {
      InsertOrdered(s, i, e, a, b);
    }
    forall k | 0 <= k < |t| ensures t[k].size > 0 {
      InsertIndex(s, i, e, k);
    }
  }

  /** Entry k of the table with e inserted at i. */
  lemma InsertIndex(s: seq<Extent>, i: nat, e: Extent, k: nat)
    requires i <= |s| && k <= |s|
    ensures (s[..i] + [e] + s[i..])[k] == if k < i then s[k] else if k == i then e else s[k - 1]
  {
  }

  /** Two entries of the table with e inserted, in order. */
  lemma InsertOrdered(s: seq<Extent>, i: nat, e: Extent, a: nat, b: nat)
    requires WellFormed(s) && i <= |s| && e.size > 0
    requires i > 0 ==> End(s[i - 1]) < e.addr
    requires i < |s| ==> End(e) < s[i].addr
    requires a < b <= |s|
    ensures var t := s[..i] + [e] + s[i..]; End(t[a]) < t[b].addr
  {
    InsertIndex(s, i, e, a);
    InsertIndex(s, i, e, b);
    if b == i && a < i - 1 {
      assert End(s[a]) < s[i - 1].addr;
    } else if a == i && b - 1 > i {
      assert End(s[i]) < s[b - 1].addr;
    }
  }

  /** Replacing extent k by one that starts no earlier after the
      predecessor's gap and ends no later than the successor's gap keeps
      the table well formed. */
  lemma WellFormedReplace(s: seq<Extent>, k: nat, e: Extent)
    requires WellFormed(s) && k < |s| && e.size > 0
    requires k > 0 ==> End(s[k - 1]) < e.addr
    requires k + 1 < |s| ==> End(e) < s[k + 1].addr
    ensures WellFormed(s[k := e])
  {
    var r := s[..k] + s[k + 1..];
    assert WellFormed(r) by { WellFormedRemove(s, k); }
    ReplaceSplit(s, k, e);
    WellFormedInsert(r, k, e);
  }

  /** Replacing entry k is removing it and inserting the new one at k. */
  lemma ReplaceSplit(s: seq<Extent>, k: nat, e: Extent)
    requires k < |s|
    ensures var r := s[..k] + s[k + 1..];
            r[..k] == s[..k] && r[k..] == s[k + 1..] && r[..k] + [e] + r[k..] == s[k := e]
  {
    var r := s[..k] + s[k + 1..];
    assert r[..k] == s[..k] && r[k..] == s[k + 1..];
  }

  /** Allocation keeps the table well formed. */
  lemma AllocWellFormed(s: seq<Extent>, n: nat)
    requires WellFormed(s)
    ensures WellFormed(AllocSpec(s, n).1)
  {
    var k := FirstFit(s, n);
    if k < |s| {
      if s[k].size == n {
        WellFormedRemove(s, k);
      } else {
        WellFormedReplace(s, k, Extent(s[k].addr + n, s[k].size - n));
      }
    }
  }

  /** Releasing a non-empty range that overlaps no free extent keeps the
      table well formed: sorted by address, with no two extents touching. */
  lemma FreeWellFormed(s: seq<Extent>, addr: nat, n: nat)
    requires WellFormed(s) && Disjoint(s, addr, n) && n > 0
    ensures WellFormed(FreeSpec(s, addr, n).1)
  {
    var i := FirstAbove(s, addr);
    var t := FreeSpec(s, addr, n).1;
    if i > 0 {
      // the predecessor starts at or below addr, so it must end at or below it
      assert s[i - 1].addr <= addr;
      assert End(s[i - 1]) <= addr;
    }
    if i < |s| {
      assert addr + n <= s[i].addr;
    }
    if i > 0 && End(s[i - 1]) == addr {
      var p := s[i - 1];
      if i < |s| && addr + n == s[i].addr {
        var m := Extent(p.addr, p.size + n + s[i].size);
        assert t == s[..i - 1] + [m] + s[i + 1..];
        FreeWellFormedMergeBoth(s, i, m);
      } else {
        var m := Extent(p.addr, p.size + n);
        assert t == s[i - 1 := m];
        if i > 1 { assert End(s[i - 2]) < p.addr; }
        WellFormedReplace(s, i - 1, m);
      }
    } else if i < |s| && addr + n == s[i].addr {
      var m := Extent(addr, s[i].size + n);
      assert t == s[i := m];
      WellFormedReplace(s, i, m);
    } else if |s| < MEMMAN_FREES {
      assert t == s[..i] + [Extent(addr, n)] + s[i..];
      WellFormedInsert(s, i, Extent(addr, n));
    } else {
      assert t == s;
    }
  }

  /** Collapsing neighbours i-1 and i into one extent m that spans both. */
  lemma FreeWellFormedMergeBoth(s: seq<Extent>, i: nat, m: Extent)
    requires WellFormed(s) && 0 < i < |s|
    requires m.addr == s[i - 1].addr && End(m) == End(s[i]) && m.size > 0
    ensures WellFormed(s[..i - 1] + [m] + s[i + 1..])
  {
    WellFormedRemove(s, i);
    var r := s[..i] + s[i + 1..];
    assert r[i - 1] == s[i - 1];
    if i + 1 < |s| { assert End(s[i]) < s[i + 1].addr; assert r[i] == s[i + 1]; }
    if i > 1 { assert End(s[i - 2]) < s[i - 1].addr; assert r[i - 2] == s[i - 2]; }
    WellFormedReplace(r, i - 1, m);
    assert r[i - 1 := m] == s[..i - 1] + [m] + s[i + 1..];
  }

  /** The alloc/free round trip: on a well-formed table, releasing the
      block a successful allocation of n > 0 handed out restores exactly
      the table that was there before. */
  lemma AllocFreeRoundTrip(s: seq<Extent>, n: nat)
    requires WellFormed(s) && |s| <= MEMMAN_FREES && n > 0
    requires FirstFit(s, n) < |s|
    ensures var (a, t) := AllocSpec(s, n); FreeSpec(t, a, n) == (0, s)
  {
    var k := FirstFit(s, n);
    BeforeK(s, k);
    if k + 1 < |s| { assert End(s[k]) < s[k + 1].addr; }
    if s[k].size == n {
      assert AllocSpec(s, n) == (s[k].addr, s[..k] + s[k + 1..]);
      RoundTripDrained(s, k);
    } else {
      assert AllocSpec(s, n) == (s[k].addr, s[k := Extent(s[k].addr + n, s[k].size - n)]);
      RoundTripShrunk(s, k, n);
    }
  }

  /** Below index k of a well-formed table every extent ends before s[k]
      begins, so no extent before k touches s[k].addr. */
  lemma BeforeK(s: seq<Extent>, k: nat)
    requires WellFormed(s) && k < |s|
    ensures forall j :: 0 <= j < k ==> s[j].addr < s[k].addr
    ensures k > 0 ==> End(s[k - 1]) < s[k].addr
  {
    forall j | 0 <= j < k ensures s[j].addr < s[k].addr {
      assert End(s[j]) < s[k].addr;
    }
  }

  lemma RoundTripDrained(s: seq<Extent>, k: nat)
    requires |s| <= MEMMAN_FREES && k < |s|
    requires forall j :: 0 <= j < k ==> s[j].addr < s[k].addr
    requires k > 0 ==> End(s[k - 1]) < s[k].addr
    requires k + 1 < |s| ==> End(s[k]) < s[k + 1].addr
    ensures var a, n, t := s[k].addr, s[k].size, s[..k] + s[k + 1..];
      FreeSpec(t, a, n) == (0, s)
  {
    var a, n, t := s[k].addr, s[k].size, s[..k] + s[k + 1..];
    assert t[..k] == s[..k] && t[k..] == s[k + 1..];
    assert forall j :: 0 <= j < k ==> t[j].addr <= a by {
      forall j | 0 <= j < k ensures t[j].addr <= a {
        assert t[j] == s[j];
      }
    }
    if k < |t| {
      assert t[k] == s[k + 1];
    }
    FirstAboveIs(t, a, k);
    if k > 0 { assert t[k - 1] == s[k - 1]; }
    assert FreeSpec(t, a, n) == (0, t[..k] + [Extent(a, n)] + t[k..]);
    assert s == s[..k] + [s[k]] + s[k + 1..];
  }

  lemma RoundTripShrunk(s: seq<Extent>, k: nat, n: nat)
    requires k < |s| && 0 < n < s[k].size
    requires forall j :: 0 <= j < k ==> s[j].addr < s[k].addr
    requires k > 0 ==> End(s[k - 1]) < s[k].addr
    ensures var a, t := s[k].addr, s[k := Extent(s[k].addr + n, s[k].size - n)];
      FreeSpec(t, a, n) == (0, s)
  {
    var a, t := s[k].addr, s[k := Extent(s[k].addr + n, s[k].size - n)];
    assert forall j :: 0 <= j < k ==> t[j].addr <= a;
    assert k < |t| ==> t[k].addr > a;
    assert FirstAbove(t, a) == k;
    if k > 0 { assert t[k - 1] == s[k - 1]; }
    assert t[k := Extent(a, t[k].size + n)] == s;
  }

  /** With no merge possible and room in the table, the extent is inserted
      at its sorted position. */
  lemma FreeInsertsSorted(s: seq<Extent>, addr: nat, n: nat)
    requires WellFormed(s) && |s| < MEMMAN_FREES
    requires forall k :: 0 <= k < |s| ==> End(s[k]) != addr && addr + n != s[k].addr
    ensures var (r, t) := FreeSpec(s, addr, n);
      && r == 0 && |t| == |s| + 1
      && exists i :: 0 <= i <= |s| && t == s[..i] + [Extent(addr, n)] + s[i..]
                     && (forall j :: 0 <= j < i ==> s[j].addr <= addr)
                     && (forall j :: i <= j < |s| ==> s[j].addr > addr)
  {
    var i := FirstAbove(s, addr);
    forall j | i <= j < |s| ensures s[j].addr > addr {
      if j > i { assert End(s[i]) < s[j].addr; }
    }
    assert FreeSpec(s, addr, n).1 == s[..i] + [Extent(addr, n)] + s[i..];
  }

  // ---------------------------------------------------------------------
  // The allocator object: memman_t
  // ---------------------------------------------------------------------

  class MemMan {
    var free: array<Extent>
    var frees: nat

    ghost predicate Valid()
      reads this
    {
      free.Length == MEMMAN_FREES && frees <= MEMMAN_FREES
    }

    /** The live part of the table. */
    ghost function Extents(): seq<Extent>
      reads this, free
      requires Valid()
    {
      free[..frees]
    }

    /** memman_init: an empty table. */
    constructor ()
      ensures Valid() && fresh(free) && Extents() == []
    {
      free := new Extent[MEMMAN_FREES](_ => Extent(0, 0));
      frees := 0;
    }

    /** memman_total: the number of free bytes. */
    method Total() returns (t: nat)
      requires Valid()
      ensures t == SumSizes(Extents())
    {
      t := 0;
      var i := 0;
      while i < frees
        invariant i <= frees
        invariant t == SumSizes(free[..i])
      {
        assert free[..i + 1][..i] == free[..i];
        t := t + free[i].size;
        i := i + 1;
      }
      assert free[..frees] == Extents();
    }

    /** The shift-left loop: drops entry i, moving the later entries down. */
    method RemoveAt(i: nat)
      requires Valid() && i < frees
      modifies this, free
      ensures Valid() && free == old(free)
      ensures Extents() == old(Extents()[..i] + Extents()[i + 1..])
    {
      ghost var s := Extents();
      frees := frees - 1;
      var j := i;
      while j < frees
        invariant i <= j <= frees && free == old(free) && frees + 1 == |s|
        invariant forall k :: 0 <= k < i ==> free[k] == s[k]
        invariant forall k :: i <= k < j ==> free[k] == s[k + 1]
        invariant forall k :: j < k <= frees ==> free[k] == s[k]
      {
        free[j] := free[j + 1];
        j := j + 1;
      }
      assert Extents() == s[..i] + s[i + 1..];
    }

    /** The shift-right loop followed by the store: inserts `e` at index i. */
    method InsertAt(i: nat, e: Extent)
      requires Valid() && i <= frees < MEMMAN_FREES
      modifies this, free
      ensures Valid() && free == old(free)
      ensures Extents() == old(Extents()[..i] + [e] + Extents()[i..])
    {
      ghost var s := Extents();
      var j := frees;
      while j > i
        invariant i <= j <= frees && free == old(free) && frees == |s|
        invariant forall k :: 0 <= k < j ==> free[k] == s[k]
        invariant forall k :: j < k <= frees ==> free[k] == s[k - 1]
      {
        free[j] := free[j - 1];
        j := j - 1;
      }
      frees := frees + 1;
      free[i] := e;
      assert Extents() == s[..i] + [e] + s[i..];
    }

    /** memman_alloc, with its scan bounded by the live entries (see
        AllocAsWritten for the scan the source performs). */
    method Alloc(size: nat) returns (a: nat)
      requires Valid()
      modifies this, free
      ensures Valid() && free == old(free)
      ensures (a, Extents()) == AllocSpec(old(Extents()), size)
    {
      ghost var s := Extents();
      var i := 0;
      while i < frees
        invariant i <= frees
        invariant forall k :: 0 <= k < i ==> free[k].size < size
      {
        if free[i].size >= size {
          assert FirstFit(s, size) == i;
          a := free[i].addr;
          free[i] := Extent(free[i].addr + size, free[i].size - size);
          assert Extents() == s[i := free[i]];
          if free[i].size == 0 {
            RemoveAt(i);
            assert s[i := free[i]][..i] == s[..i];
            assert s[i := free[i]][i + 1..] == s[i + 1..];
          }
          return;
        }
        i := i + 1;
      }
      assert FirstFit(s, size) == |s|;
      a := 0;
    }

    /** Both neighbours touch the released range: entry i-1 absorbs the
        range and entry i, and entry i goes. */
    method MergeBoth(i: nat, size: nat)
      requires Valid() && 0 < i < frees
      modifies this, free
      ensures Valid() && free == old(free)
      ensures Extents() == old(Extents()[..i - 1]
        + [Extent(free[i - 1].addr, free[i - 1].size + size + free[i].size)] + Extents()[i + 1..])
    {
      ghost var s := Extents();
      var p := free[i - 1];
      var q := free[i];
      var e := Extent(p.addr, p.size + size + q.size);
      free[i - 1] := e;
      ghost var u := Extents();
      assert u == s[i - 1 := e];
      RemoveAt(i);
      assert u[..i] == s[..i - 1] + [e];
      assert u[i + 1..] == s[i + 1..];
    }

    /** The scan of memman_free: the first entry above addr. */
    method Above(addr: nat) returns (i: nat)
      requires Valid()
      ensures i == FirstAbove(Extents(), addr)
    {
      i := 0;
      while i < frees && free[i].addr <= addr
        invariant i <= frees
        invariant forall k :: 0 <= k < i ==> free[k].addr <= addr
      {
        i := i + 1;
      }
      assert FirstAbove(Extents(), addr) == i by {
        FirstAboveIs(Extents(), addr, i);
      }
    }

    /** memman_free. */
    method Free(addr: nat, size: nat) returns (r: int)
      requires Valid()
      modifies this, free
      ensures Valid() && free == old(free)
      ensures (r, Extents()) == FreeSpec(old(Extents()), addr, size)
    {
      var i := Above(addr);
      if i > 0 && free[i - 1].addr + free[i - 1].size == addr {
        if i < frees && addr + size == free[i].addr {
          MergeBoth(i, size);
        } else {
          var p := free[i - 1];
          free[i - 1] := Extent(p.addr, p.size + size);
        }
        return 0;
      }
      if i < frees && addr + size == free[i].addr {
        free[i] := Extent(addr, free[i].size + size);
        return 0;
      }
      if frees < MEMMAN_FREES {
        InsertAt(i, Extent(addr, size));
        return 0;
      }
      return -1;
    }
  }

  // ---------------------------------------------------------------------
  // memman_alloc as written: the loop guard tests `frees`, not `i < frees`
  // ---------------------------------------------------------------------

  /** The scan memman_alloc performs on the whole table `cells` (live
      entries are cells[..frees]): while frees is non-zero it keeps going
      past the live entries into stale ones, up to the table's end (beyond
      which the C code reads out of bounds; here the scan then gives 0). */
  function AllocAsWritten(cells: seq<Extent>, frees: nat, size: nat): (r: (nat, seq<Extent>, nat))
    requires frees <= |cells|
    ensures |r.1| == |cells|
  {
    if frees == 0 then (0, cells, frees)
    else
      var k := FirstFit(cells, size);
      if k == |cells| then (0, cells, frees)
      else
        var e := Extent(cells[k].addr + size, cells[k].size - size);
        var c := cells[k := e];
        if e.size != 0 then (cells[k].addr, c, frees)
        else if k < frees then (cells[k].addr, c[..k] + c[k + 1..frees] + c[frees - 1..], frees - 1)
        else (cells[k].addr, c, frees - 1)
  }

  /** A reachable table on which the scan as written hands out a block that
      is already in use. Starting from [(A,100),(B,200)]: alloc(100) drains
      the first extent (leaving a stale copy of (B,200) past the live
      entry), alloc(150) shrinks the live copy to (B+150,50), and then
      alloc(100) finds nothing live but allocates B again from the stale
      copy, while the intended first fit returns 0. */
  lemma AllocAsWrittenDoubleAllocates()
    ensures var A, B := 0x400000, 0x500000;
      var c0 := [Extent(A, 100), Extent(B, 200)] + seq(MEMMAN_FREES - 2, _ => Extent(0, 0));
      var (a1, c1, f1) := AllocAsWritten(c0, 2, 100);
      var (a2, c2, f2) := AllocAsWritten(c1, f1, 150);
      var (a3, c3, f3) := AllocAsWritten(c2, f2, 100);
      && a1 == A && a2 == B && a3 == B
      && f2 == 1 && c2[..f2] == [Extent(B + 150, 50)]
      && AllocSpec(c2[..f2], 100) == (0, c2[..f2])
  {
    var A, B := 0x400000, 0x500000;
    var c0 := [Extent(A, 100), Extent(B, 200)] + seq(MEMMAN_FREES - 2, _ => Extent(0, 0));
    assert FirstFit(c0, 100) == 0;
    var (a1, c1, f1) := AllocAsWritten(c0, 2, 100);
    var c := c0[0 := Extent(A + 100, 0)];
    assert c[1] == Extent(B, 200);
    assert c1 == c[..0] + c[1..2] + c[1..];
    assert c1[0] == c[1] && c1[1] == c[1] && f1 == 1;
    assert FirstFit(c1, 150) == 0;
    var (a2, c2, f2) := AllocAsWritten(c1, f1, 150);
    assert c2[0] == Extent(B + 150, 50) && c2[1] == Extent(B, 200);
    assert FirstFit(c2, 100) == 1;
    assert FirstFit(c2[..f2], 100) == 1;
  }

  // ---------------------------------------------------------------------
  // Physical memory and the kmalloc layer
  // ---------------------------------------------------------------------

  /** Physical memory: bytes never written read as 0. */
  type Memory = map<nat, Byte>

  function Load(m: Memory, a: nat): Byte
  {
    if a in m then m[a] else 0
  }

  /** memset(a, 0, n): a forward fill of n zero bytes. */
  function ZeroFill(m: Memory, a: nat, n: nat): (r: Memory)
    ensures forall k :: a <= k < a + n ==> Load(r, k) == 0
    ensures forall k: nat :: (k < a || a + n <= k) ==> Load(r, k) == Load(m, k)
    decreases n
  {
    if n == 0 then m else ZeroFill(m[a := 0], a + 1, n - 1)
  }

  /** Stores a 32-bit word little-endian at a..a+3. */
  function StoreWord(m: Memory, a: nat, w: Word32): Memory
  {
    m[a := w % 256][a + 1 := (w / 0x100) % 256][a + 2 := (w / 0x1_0000) % 256][a + 3 := w / 0x100_0000]
  }

  /** Loads the little-endian 32-bit word at a..a+3. */
  function LoadWord(m: Memory, a: nat): Word32
  {
    Load(m, a) + 0x100 * Load(m, a + 1) + 0x1_0000 * Load(m, a + 2) + 0x100_0000 * Load(m, a + 3)
  }

  lemma StoreLoadWord(m: Memory, a: nat, w: Word32)
    ensures LoadWord(StoreWord(m, a, w), a) == w
    ensures forall k: nat :: (k < a || a + 4 <= k) ==> Load(StoreWord(m, a, w), k) == Load(m, k)
  {
    var m' := StoreWord(m, a, w);
    assert Load(m', a) == w % 256 && Load(m', a + 1) == (w / 0x100) % 256;
    assert Load(m', a + 2) == (w / 0x1_0000) % 256 && Load(m', a + 3) == w / 0x100_0000;
    WordBytes(w);
  }

  /** A 32-bit word is the sum of its four bytes at their weights. */
  lemma WordBytes(w: Word32)
    ensures w == w % 256 + 0x100 * ((w / 0x100) % 256) + 0x1_0000 * ((w / 0x1_0000) % 256)
      + 0x100_0000 * (w / 0x100_0000)
  {
    var q1 := w / 0x100;
    var q2 := q1 / 0x100;
    var q3 := q2 / 0x100;
    assert w == w % 256 + 0x100 * q1;
    assert q1 == q1 % 256 + 0x100 * q2;
    assert q2 == q2 % 256 + 0x100 * q3;
    assert q2 == w / 0x1_0000;
    assert q3 == w / 0x100_0000;
  }

  /** memcpy: a forward byte-by-byte copy of n bytes from src to dst. */
  function CopyForward(m: Memory, dst: nat, src: nat, n: nat): Memory
    decreases n
  {
    if n == 0 then m else CopyForward(m[dst := Load(m, src)], dst + 1, src + 1, n - 1)
  }

  /** When source and destination do not overlap, the copy puts the source
      bytes at the destination and leaves every other byte alone. */
  lemma {:induction false} CopyForwardDisjoint(m: Memory, dst: nat, src: nat, n: nat)
    requires src + n <= dst || dst + n <= src
    ensures forall j :: dst <= j < dst + n ==> Load(CopyForward(m, dst, src, n), j) == Load(m, src + (j - dst))
    ensures forall j: nat :: (j < dst || dst + n <= j) ==> Load(CopyForward(m, dst, src, n), j) == Load(m, j)
    decreases n
  {
    if n > 0 {
      var m' := m[dst := Load(m, src)];
      var c := CopyForward(m', dst + 1, src + 1, n - 1);
      assert c == CopyForward(m, dst, src, n);
      CopyForwardDisjoint(m', dst + 1, src + 1, n - 1);
      forall j | dst <= j < dst + n ensures Load(c, j) == Load(m, src + (j - dst)) {
        if j == dst {
          assert Load(c, j) == Load(m', dst);
        } else {
          assert Load(c, j) == Load(m', src + 1 + (j - (dst + 1)));
          assert src + (j - dst) != dst;
        }
      }
    }
  }

  /** Outcome of kmalloc: the pointer returned, the new memory and table. */
  datatype Outcome = Outcome(ptr: nat, mem: Memory, exts: seq<Extent>)

  /** kmalloc(size): allocate size+16 bytes (32-bit sum), zero them (also
      when the allocation failed and the address is 0), then on success
      store the size in the first word and return the address past the
      header. */
  function KMallocSpec(m: Memory, s: seq<Extent>, size: Word32): Outcome
  {
    var n := (size + HEADER) % U32;
    var (a, t) := AllocSpec(s, n);
    var z := ZeroFill(m, a, n);
    if a != 0 then Outcome(a + HEADER, StoreWord(z, a, size), t) else Outcome(0, z, t)
  }

  /** The header address of block p: 16 bytes below it (wrapping below 0
      as 32-bit pointer arithmetic does), and 0 for a NULL pointer. */
  function HeaderOf(p: nat): nat
  {
    if p == 0 then 0 else if p >= HEADER then p - HEADER else p - HEADER + U32
  }

  /** kfree(p): read the size from the header 16 bytes below p and release
      size+16 bytes from there; for p == 0 it releases 16 bytes at 0. */
  function KFreeSpec(m: Memory, s: seq<Extent>, p: nat): seq<Extent>
  {
    var q := HeaderOf(p);
    var size := if p != 0 then LoadWord(m, q) else 0;
    FreeSpec(s, q, (size + HEADER) % U32).1
  }

  /** krealloc(buffer, size): as kmalloc for a NULL buffer, as kfree plus
      NULL for size 0, otherwise kmalloc(size), copy `size` bytes from the
      old buffer (the new size, whatever the old one was), kfree(buffer). */
  function KReallocSpec(m: Memory, s: seq<Extent>, buffer: nat, size: Word32): Outcome
  {
    if buffer == 0 then KMallocSpec(m, s, size)
    else if size == 0 then Outcome(0, m, KFreeSpec(m, s, buffer))
    else
      var o := KMallocSpec(m, s, size);
      var m' := CopyForward(o.mem, o.ptr, buffer, size);
      Outcome(o.ptr, m', KFreeSpec(m', o.exts, buffer))
  }

  /** A successful kmalloc returns a block 16 bytes into a fresh extent
      carved out by first fit, whose header word holds the size and whose
      body reads as zero. */
  lemma KMallocBlock(m: Memory, s: seq<Extent>, size: Word32)
    requires WellFormed(s) && size + HEADER < U32
    requires KMallocSpec(m, s, size).ptr != 0
    ensures var o := KMallocSpec(m, s, size);
      && o.ptr - HEADER == AllocSpec(s, size + HEADER).0
      && LoadWord(o.mem, o.ptr - HEADER) == size
      && (forall k :: o.ptr <= k < o.ptr + size ==> Load(o.mem, k) == 0)
      && SumSizes(o.exts) + size + HEADER == SumSizes(s)
  {
    var n := size + HEADER;
    assert n % U32 == n;
    var r := AllocSpec(s, n);
    var a := r.0;
    var z := ZeroFill(m, a, n);
    var o := KMallocSpec(m, s, size);
    assert o == Outcome(a + HEADER, StoreWord(z, a, size), r.1);
    StoreLoadWord(z, a, size);
    AllocTotal(s, n);
    assert FirstFit(s, n) < |s|;
  }

  /** kmalloc on failure still zeroes size+16 bytes at address 0. */
  lemma KMallocFailureClearsLowMemory(m: Memory, s: seq<Extent>, size: Word32)
    requires FirstFit(s, (size + HEADER) % U32) == |s|
    ensures var o := KMallocSpec(m, s, size);
      o.ptr == 0 && o.exts == s && forall k :: 0 <= k < (size + HEADER) % U32 ==> Load(o.mem, k) == 0
  {
  }

  /** kfree(kmalloc(size)) restores the free table it started from. */
  lemma KMallocKFree(m: Memory, s: seq<Extent>, size: Word32)
    requires WellFormed(s) && |s| <= MEMMAN_FREES && size + HEADER < U32
    requires KMallocSpec(m, s, size).ptr != 0
    ensures var o := KMallocSpec(m, s, size); KFreeSpec(o.mem, o.exts, o.ptr) == s
  {
    var n := size + HEADER;
    assert n % U32 == n;
    var r := AllocSpec(s, n);
    var a := r.0;
    var z := ZeroFill(m, a, n);
    var o := KMallocSpec(m, s, size);
    assert o == Outcome(a + HEADER, StoreWord(z, a, size), r.1);
    StoreLoadWord(z, a, size);
    assert HeaderOf(o.ptr) == a;
    assert KFreeSpec(o.mem, o.exts, o.ptr) == FreeSpec(r.1, a, n).1;
    assert FirstFit(s, n) < |s|;
    AllocFreeRoundTrip(s, n);
  }

  /** kfree(NULL) is not a no-op: it releases the 16 bytes at address 0. */
  lemma KFreeNull(m: Memory, s: seq<Extent>)
    ensures KFreeSpec(m, s, 0) == FreeSpec(s, 0, HEADER).1
  {
  }

  /** When both blocks are real and apart, krealloc copies the first
      `size` bytes of the old block into the new one. */
  lemma KReallocCopies(m: Memory, s: seq<Extent>, buffer: nat, size: Word32)
    requires buffer != 0 && size != 0
    requires var o := KMallocSpec(m, s, size);
      o.ptr != 0 && (buffer + size <= o.ptr || o.ptr + size <= buffer)
    ensures var o := KMallocSpec(m, s, size);
      var r := KReallocSpec(m, s, buffer, size);
      r.ptr == o.ptr && forall j :: r.ptr <= j < r.ptr + size ==> Load(r.mem, j) == Load(o.mem, buffer + (j - r.ptr))
  {
    var o := KMallocSpec(m, s, size);
    CopyForwardDisjoint(o.mem, o.ptr, buffer, size);
  }

  /** The heap object: the allocator table plus physical memory. */
  class Heap {
    var man: MemMan
    var mem: Memory

    ghost predicate Valid()
      reads this, man
    {
      man.Valid()
    }

    /** init_memory: an empty table, then memtotal-0x400000 bytes (32-bit
        difference) released at 0x400000; the probe result is an input. */
    constructor (memtotal: Word32)
      ensures Valid() && fresh(man) && fresh(man.free)
      ensures man.Extents() == FreeSpec([], HEAP_START, (memtotal - HEAP_START) % U32).1
      ensures memtotal >= HEAP_START ==> man.Extents() == [Extent(HEAP_START, memtotal - HEAP_START)]
      ensures mem == map[]
    {
      man := new MemMan();
      mem := map[];
      new;
      var _ := man.Free(HEAP_START, (memtotal - HEAP_START) % U32);
    }

    method KMalloc(size: Word32) returns (p: nat)
      requires Valid()
      modifies this, man, man.free
      ensures Valid() && man == old(man) && man.free == old(man.free)
      ensures Outcome(p, mem, man.Extents()) == KMallocSpec(old(mem), old(man.Extents()), size)
    {
      var n := (size + HEADER) % U32;
      var a := man.Alloc(n);
      mem := ZeroFill(mem, a, n);
      if a != 0 {
        mem := StoreWord(mem, a, size);
        p := a + HEADER;
      } else {
        p := 0;
      }
    }

    method KFree(p: nat)
      requires Valid()
      modifies man, man.free
      ensures Valid() && man.free == old(man.free)
      ensures man.Extents() == KFreeSpec(mem, old(man.Extents()), p)
    {
      var q := HeaderOf(p);
      var size := if p != 0 then LoadWord(mem, q) else 0;
      var _ := man.Free(q, (size + HEADER) % U32);
    }

    method KRealloc(buffer: nat, size: Word32) returns (res: nat)
      requires Valid()
      modifies this, man, man.free
      ensures Valid() && man == old(man) && man.free == old(man.free)
      ensures Outcome(res, mem, man.Extents()) == KReallocSpec(old(mem), old(man.Extents()), buffer, size)
    {
      if buffer == 0 {
        res := KMalloc(size);
        return;
      }
      if size == 0 {
        KFree(buffer);
        return 0;
      }
      res := KMalloc(size);
      mem := CopyForward(mem, res, buffer, size);
      KFree(buffer);
    }
  }
}
