/** tools/make-fuchsia-vol: where partitions are placed, and which bytes are written into them. */
module BlockMath {

  lemma MulMonotone(a: nat, x: int, y: int)
    requires x <= y
    ensures a * x <= a * y
  {
  }

  /** A multiple leaves no remainder, and only multiples do. */
  lemma ModOfMultiple(a: nat, k: int)
    requires a > 0
    ensures (a * k) % a == 0
  {
    var x := a * k;
    var q, r := x / a, x % a;
    assert x == a * q + r;
    assert a * (q + 1) == a * q + a && a * (k + 1) == a * k + a;
    if q < k { MulMonotone(a, q + 1, k); } else if q > k { MulMonotone(a, k + 1, q); }
  }

  /** Blocks of `l` bytes needed for `size` bytes. */
  function BlocksFor(size: nat, l: nat): (n: nat)
    requires l > 0
  {
    size / l + (if size % l != 0 then 1 else 0)
  }

  /** The blocks hold the bytes, with less than a block to spare. */
  lemma BlocksHold(size: nat, l: nat)
    requires l > 0
    ensures size <= BlocksFor(size, l) * l < size + l
    ensures size > 0 ==> BlocksFor(size, l) > 0
  {
    var q, r := size / l, size % l;
    assert size == l * q + r;
    assert (q + 1) * l == l * q + l;
  }

  /** First multiple of `a` at or after `first`. */
  function AlignUp(first: nat, a: nat): nat
    requires a > 0
  {
    if first % a == 0 then first else first + a - first % a
  }

  lemma AlignUpIsLeast(first: nat, a: nat)
    requires a > 0
    ensures AlignUp(first, a) % a == 0 && first <= AlignUp(first, a) < first + a
    ensures forall y: nat :: y % a == 0 && y >= first ==> y >= AlignUp(first, a)
  {
    var q, d := first / a, first % a;
    assert first == a * q + d;
    if d != 0 {
      assert AlignUp(first, a) == a * (q + 1);
      ModOfMultiple(a, q + 1);
      forall y: nat | y % a == 0 && y >= first
        ensures y >= AlignUp(first, a)
      {
        var m := y / a;
        assert y == a * m;
        if m <= q { MulMonotone(a, m, q); } else { MulMonotone(a, q + 1, m); }
      }
    }
  }
}

module DiskLayout {
  import opened BlockMath

  newtype u64 = x: int | 0 <= x < 0x1_0000_0000_0000_0000

  /** Block sizes in bytes. */
  datatype Geometry = Geometry(logical: u64, physical: u64, optimal: u64) {
    ghost predicate Valid() { logical > 0 }

    /** The alignment, in logical blocks. */
    function Unit(): (a: nat)
      requires logical > 0
      ensures a > 0
    {
      var p := if physical > logical then physical else logical;
      var o := if optimal > p then optimal else p;
      UnitPositive(o as nat, logical as nat);
      o as nat / logical as nat
    }
  }

  lemma UnitPositive(o: nat, l: nat)
    requires o >= l > 0
    ensures o / l > 0
  {
    assert o == l * (o / l) + o % l;
  }

  /** Blocks `start` to `end`, both included. */
  datatype Extent = Extent(start: int, end: int)

  /** optimalBlockAlign in unbounded arithmetic. */
  function Place(first: nat, size: nat, g: Geometry): Extent
    requires g.Valid()
  {
    var start := AlignUp(first, g.Unit());
    Extent(start, start + BlocksFor(size, g.logical as nat) - 1)
  }

  const LIMIT := 0x1_0000_0000_0000_0000

  /** optimalBlockAlign. It computes the placement as long as the end fits with one alignment to spare. */
  method OptimalBlockAlign(first: u64, byteSize: u64, logical: u64, physical: u64, optimal: u64) returns (start: u64, end: u64)
    requires logical > 0
    requires var g := Geometry(logical, physical, optimal);
             first as int + g.Unit() + BlocksFor(byteSize as nat, logical as nat) < LIMIT
    requires byteSize > 0 || first > 0
    ensures Extent(start as int, end as int) == Place(first as nat, byteSize as nat, Geometry(logical, physical, optimal))
  {
    ghost var g := Geometry(logical, physical, optimal);
    var alignTo := logical;
    if physical > alignTo { alignTo := physical; }
    if optimal > alignTo { alignTo := optimal; }
    UnitPositive(alignTo as nat, logical as nat);
    var lAlign := alignTo / logical;
    assert lAlign as nat == g.Unit();
    start := first;
    var d := first % lAlign;
    assert d as nat == first as nat % lAlign as nat;
    if d != 0 { start := first + lAlign - d; }
    AlignUpIsLeast(first as nat, g.Unit());
    BlocksHold(byteSize as nat, logical as nat);
    var lSize := byteSize / logical;
    assert lSize as nat == byteSize as nat / logical as nat && (byteSize % logical) as nat == byteSize as nat % logical as nat;
    if byteSize % logical != 0 { lSize := lSize + 1; }
    end := start + lSize - 1;
  }

  /** sizeAlignment */
  const SIZE_ALIGNMENT := 32256

  /** fitFAT, on the non-negative sizes it is given. */
  function FitFAT(total: nat): nat { total - total % SIZE_ALIGNMENT }

  // ----------------------------------------------------------- a chain of placements

  predicate Positive(sizes: seq<nat>) { forall i :: 0 <= i < |sizes| ==> sizes[i] > 0 }

  /** Each partition is placed after the one before it. */
  function Layout(first: nat, sizes: seq<nat>, g: Geometry): (es: seq<Extent>)
    requires g.Valid() && Positive(sizes)
    ensures |es| == |sizes|
    decreases |sizes|
  {
    if sizes == [] then []
    else
      var e := Place(first, sizes[0], g);
      BlocksHold(sizes[0], g.logical as nat);
      AlignUpIsLeast(first, g.Unit());
      [e] + Layout(e.end + 1, sizes[1..], g)
  }

  /** Byte range of an extent. */
  function Bytes(e: Extent, g: Geometry): (int, int) { (e.start * g.logical as int, (e.end + 1) * g.logical as int) }

  /** What placing promises about one partition. */
  ghost predicate WellPlaced(e: Extent, after: nat, size: nat, g: Geometry)
    requires g.Valid()
  {
    && after <= e.start <= e.end
    && e.start % g.Unit() == 0
    && (forall y: nat :: y % g.Unit() == 0 && y >= after ==> y >= e.start)
    && size <= (e.end - e.start + 1) * g.logical as int < size + g.logical as int
  }

  lemma PlaceIsWell(first: nat, size: nat, g: Geometry)
    requires g.Valid() && size > 0
    ensures WellPlaced(Place(first, size, g), first, size, g)
  {
    AlignUpIsLeast(first, g.Unit());
    BlocksHold(size, g.logical as nat);
  }

  /** Every partition starts at the least aligned block after its predecessor and fits its size. */
  lemma {:induction false} LayoutIsWell(first: nat, sizes: seq<nat>, g: Geometry, i: nat)
    requires g.Valid() && Positive(sizes) && i < |sizes|
    ensures var es := Layout(first, sizes, g);
            && (i > 0 ==> es[i - 1].end + 1 >= 0)
            && WellPlaced(es[i], if i == 0 then first else es[i - 1].end + 1, sizes[i], g)
    decreases |sizes|
  {
    var e := Place(first, sizes[0], g);
    PlaceIsWell(first, sizes[0], g);
    if |sizes| > 1 { LayoutIsWell(e.end + 1, sizes[1..], g, if i == 0 then 0 else i - 1); }
  }

  /** Partitions are increasing and pairwise disjoint. */
  lemma {:induction false} LayoutIsDisjoint(first: nat, sizes: seq<nat>, g: Geometry, i: nat, j: nat)
    requires g.Valid() && Positive(sizes) && i < j < |sizes|
    ensures var es := Layout(first, sizes, g); first <= es[i].start <= es[i].end < es[j].start <= es[j].end
    decreases j
  {
    LayoutIsWell(first, sizes, g, j);
    LayoutIsWell(first, sizes, g, j - 1);
    if i < j - 1 { LayoutIsDisjoint(first, sizes, g, i, j - 1); }
    else { LayoutAfterFirst(first, sizes, g, i); }
  }

  lemma {:induction false} LayoutAfterFirst(first: nat, sizes: seq<nat>, g: Geometry, i: nat)
    requires g.Valid() && Positive(sizes) && i < |sizes|
    ensures first <= Layout(first, sizes, g)[i].start
    decreases i
  {
    LayoutIsWell(first, sizes, g, i);
    if i > 0 {
      LayoutIsWell(first, sizes, g, i - 1);
      LayoutAfterFirst(first, sizes, g, i - 1);
    }
  }

  /** Where the next partition may start. */
  function After(first: nat, sizes: seq<nat>, g: Geometry): nat
    requires g.Valid() && Positive(sizes)
  {
    if sizes == [] then first
    else
      LayoutIsWell(first, sizes, g, |sizes| - 1);
      Layout(first, sizes, g)[|sizes| - 1].end + 1
  }

  lemma LayoutCons(first: nat, sizes: seq<nat>, g: Geometry)
    requires g.Valid() && Positive(sizes) && sizes != []
    ensures var e := Place(first, sizes[0], g);
            e.end + 1 >= 0 && Layout(first, sizes, g) == [e] + Layout(e.end + 1, sizes[1..], g)
  {
    PlaceIsWell(first, sizes[0], g);
  }

  lemma AfterCons(first: nat, sizes: seq<nat>, g: Geometry)
    requires g.Valid() && Positive(sizes) && sizes != []
    ensures Place(first, sizes[0], g).end + 1 >= 0
    ensures After(first, sizes, g) == After(Place(first, sizes[0], g).end + 1, sizes[1..], g)
  {
    PlaceIsWell(first, sizes[0], g);
    var e := Place(first, sizes[0], g);
    var rest := Layout(e.end + 1, sizes[1..], g);
    assert Layout(first, sizes, g) == [e] + rest;
    assert ([e] + rest)[|sizes| - 1] == if |sizes| == 1 then e else rest[|sizes| - 2];
  }

  lemma {:induction false} LayoutSnoc(first: nat, sizes: seq<nat>, s: nat, g: Geometry)
    requires g.Valid() && Positive(sizes) && s > 0
    ensures Positive(sizes + [s])
    ensures Layout(first, sizes + [s], g) == Layout(first, sizes, g) + [Place(After(first, sizes, g), s, g)]
    decreases |sizes|
  {
    if sizes == [] {
      assert sizes + [s] == [s] && [s][1..] == [];
    } else {
      var e, x := Place(first, sizes[0], g), Place(After(first, sizes, g), s, g);
      AfterCons(first, sizes, g);
      LayoutSnoc(e.end + 1, sizes[1..], s, g);
      assert (sizes + [s])[0] == sizes[0] && (sizes + [s])[1..] == sizes[1..] + [s];
      LayoutCons(first, sizes + [s], g);
      LayoutCons(first, sizes, g);
      var rest := Layout(e.end + 1, sizes[1..], g);
      assert [e] + (rest + [x]) == ([e] + rest) + [x];
    }
  }

  lemma AfterSnoc(first: nat, sizes: seq<nat>, s: nat, g: Geometry)
    requires g.Valid() && Positive(sizes) && s > 0
    ensures Positive(sizes + [s])
    ensures After(first, sizes + [s], g) == Place(After(first, sizes, g), s, g).end + 1
    ensures After(first, sizes, g) + BlocksFor(s, g.logical as nat) <= After(first, sizes + [s], g)
                                                                    < After(first, sizes, g) + g.Unit() + BlocksFor(s, g.logical as nat)
  {
    LayoutSnoc(first, sizes, s, g);
    LayoutIsWell(first, sizes + [s], g, |sizes|);
    if sizes != [] { LayoutIsWell(first, sizes, g, |sizes| - 1); }
    var es, before := Layout(first, sizes + [s], g), Layout(first, sizes, g);
    assert es[|sizes|] == Place(After(first, sizes, g), s, g);
    AlignUpIsLeast(After(first, sizes, g), g.Unit());
  }

  // ----------------------------------------------------------------- what aligned means

  /** The largest of the three block sizes. */
  function Largest(g: Geometry): nat {
    var a, b, c := g.logical as nat, g.physical as nat, g.optimal as nat;
    if a >= b && a >= c then a else if b >= c then b else c
  }

  /** The alignment is the largest block size in whole logical blocks. */
  lemma UnitIs(g: Geometry)
    requires g.Valid()
    ensures g.Unit() * g.logical as nat <= Largest(g) < (g.Unit() + 1) * g.logical as nat
  {
    var l, big := g.logical as nat, Largest(g);
    assert big == l * (big / l) + big % l;
    assert g.Unit() == big / l;
    assert (big / l + 1) * l == l * (big / l) + l;
  }

  predicate Divides(d: nat, n: nat) { d > 0 && n % d == 0 }

  /** Each block size that is given divides the largest. */
  predicate Nested(g: Geometry) {
    && Divides(g.logical as nat, Largest(g))
    && (g.physical > 0 ==> Divides(g.physical as nat, Largest(g)))
    && (g.optimal > 0 ==> Divides(g.optimal as nat, Largest(g)))
  }

  /** A block at a byte offset that is a multiple of each block size given. */
  predicate AlignedBlock(y: nat, g: Geometry) {
    && (g.physical > 0 ==> Divides(g.physical as nat, y * g.logical as nat))
    && (g.optimal > 0 ==> Divides(g.optimal as nat, y * g.logical as nat))
  }

  lemma DividesIff(d: nat, n: nat)
    requires d > 0
    ensures Divides(d, n) <==> exists k: nat :: n == d * k
  {
    assert n == d * (n / d) + n % d;
    if k: nat :| n == d * k { ModOfMultiple(d, k); }
  }

  lemma DividesMultiple(d: nat, n: nat, k: nat)
    requires Divides(d, n)
    ensures Divides(d, n * k)
  {
    DividesIff(d, n);
    var q: nat :| n == d * q;
    assert n * k == d * (q * k);
    ModOfMultiple(d, q * k);
  }

  lemma MulCancel(a: nat, x: nat, y: nat)
    requires a > 0 && a * x == a * y
    ensures x == y
  {
    if x < y { MulMonotone(a, x + 1, y); } else if y < x { MulMonotone(a, y + 1, x); }
    assert a * (x + 1) == a * x + a && a * (y + 1) == a * y + a;
  }

  /** The bytes of whole alignments. */
  lemma AlignmentBytes(u: nat, l: nat, y: nat)
    requires u > 0 && l > 0
    ensures u * l > 0 && (y % u == 0 <==> Divides(u * l, y * l))
  {
    MulMonotone(l, 1, u);
    DividesIff(u, y);
    DividesIff(u * l, y * l);
    if k: nat :| y == u * k { MulShift(u, k, l); }
    if k: nat :| y * l == (u * l) * k { MulShift(u, k, l); MulCancel(l, y, u * k); }
  }

  lemma MulShift(u: nat, k: nat, l: nat)
    ensures (u * k) * l == (u * l) * k == l * (u * k)
  {
  }

  lemma DividesTransitive(d: nat, n: nat, m: nat)
    requires Divides(d, n) && Divides(n, m)
    ensures Divides(d, m)
  {
    DividesIff(n, m);
    var k: nat :| m == n * k;
    DividesMultiple(d, n, k);
  }

  /** Where block sizes divide the largest, being a multiple of the alignment is being aligned to each of them. */
  lemma AlignedIff(y: nat, g: Geometry)
    requires g.Valid() && Nested(g)
    ensures AlignedBlock(y, g) <==> y % g.Unit() == 0
  {
    var l, big := g.logical as nat, Largest(g);
    UnitExact(g);
    AlignmentBytes(g.Unit(), l, y);
    ModOfMultiple(l, 1);
    DividesMultiple(l, l, y);
    assert l * y == y * l;
    AllOrLargest(y * l, g);
  }

  /** A multiple of all is a multiple of the largest, and the other way round. */
  lemma AllOrLargest(n: nat, g: Geometry)
    requires g.Valid() && Nested(g) && Divides(g.logical as nat, n)
    ensures Divides(Largest(g), n) <==>
            (g.physical > 0 ==> Divides(g.physical as nat, n)) && (g.optimal > 0 ==> Divides(g.optimal as nat, n))
  {
    if Divides(Largest(g), n) {
      if g.physical > 0 { DividesTransitive(g.physical as nat, Largest(g), n); }
      if g.optimal > 0 { DividesTransitive(g.optimal as nat, Largest(g), n); }
    }
  }

  lemma UnitExact(g: Geometry)
    requires g.Valid() && Nested(g)
    ensures g.Unit() * g.logical as nat == Largest(g)
  {
    Quotient(Largest(g), g.logical as nat);
  }

  lemma Quotient(n: nat, d: nat)
    requires Divides(d, n)
    ensures (n / d) * d == n
  {
    assert n == d * (n / d) + n % d;
  }

  /** Every partition starts at a byte offset that is a multiple of each block size given, and at the least
      such block after its predecessor. */
  lemma LayoutIsAligned(first: nat, sizes: seq<nat>, g: Geometry, i: nat)
    requires g.Valid() && Nested(g) && Positive(sizes) && i < |sizes|
    ensures var es := Layout(first, sizes, g);
            var after := if i == 0 then first else es[i - 1].end + 1;
            && es[i].start >= after && es[i].start >= 0 && AlignedBlock(es[i].start, g)
            && forall y: nat :: AlignedBlock(y, g) && y >= after ==> y >= es[i].start
  {
    LayoutIsWell(first, sizes, g, i);
    LayoutAfterFirst(first, sizes, g, i);
    var es := Layout(first, sizes, g);
    AlignedIff(es[i].start, g);
    forall y: nat | AlignedBlock(y, g)
      ensures y % g.Unit() == 0
    {
      AlignedIff(y, g);
    }
  }

  function Pow2(k: nat): nat { if k == 0 then 1 else 2 * Pow2(k - 1) }

  predicate IsPow2(n: nat) { exists k: nat :: k <= n && n == Pow2(k) }

  lemma {:induction false} Pow2Divides(j: nat, k: nat)
    requires j <= k
    ensures Pow2(j) > 0 && Divides(Pow2(j), Pow2(k))
    decreases k
  {
    if j == k {
      Pow2Positive(j);
      ModOfMultiple(Pow2(j), 1);
    } else {
      Pow2Divides(j, k - 1);
      DividesMultiple(Pow2(j), Pow2(k - 1), 2);
    }
  }

  lemma {:induction false} Pow2Positive(j: nat)
    ensures Pow2(j) > 0
  {
    if j > 0 { Pow2Positive(j - 1); }
  }

  lemma Pow2DividesLarger(a: nat, b: nat)
    requires IsPow2(a) && IsPow2(b) && a <= b
    ensures Divides(a, b)
  {
    var j: nat :| j <= a && a == Pow2(j);
    var k: nat :| k <= b && b == Pow2(k);
    if j <= k {
      Pow2Divides(j, k);
    } else {
      Pow2Divides(k, j);
      DividesAtMost(b, a);
      ModOfMultiple(a, 1);
    }
  }

  lemma DividesAtMost(d: nat, n: nat)
    requires Divides(d, n) && n > 0
    ensures d <= n
  {
    DividesIff(d, n);
    var k: nat :| n == d * k;
    if k > 0 { MulMonotone(d, 1, k); }
  }

  /** Block sizes that are powers of two divide the largest of them. */
  lemma PowersAreNested(g: Geometry)
    requires IsPow2(g.logical as nat) && (g.physical > 0 ==> IsPow2(g.physical as nat)) && (g.optimal > 0 ==> IsPow2(g.optimal as nat))
    requires g.logical > 0
    ensures Nested(g)
  {
    Pow2DividesLarger(g.logical as nat, Largest(g));
    if g.physical > 0 { Pow2DividesLarger(g.physical as nat, Largest(g)); }
    if g.optimal > 0 { Pow2DividesLarger(g.optimal as nat, Largest(g)); }
  }

  /** fitFAT gives the greatest multiple of 63 sectors of 512 bytes that fits. */
  lemma FitIsGreatest(total: nat)
    ensures Divides(63 * 512, FitFAT(total)) && FitFAT(total) <= total
    ensures forall y: nat :: Divides(63 * 512, y) && y <= total ==> y <= FitFAT(total)
  {
  }
}
