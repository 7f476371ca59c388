/** tools/make-fuchsia-vol/disk.go: the partition table, and the byte ranges written afterwards. */
module PartitionTable {
  import opened BlockMath
  import opened DiskLayout

  datatype Entry = Entry(name: string, start: u64, end: u64)

  function ExtentOf(e: Entry): Extent { Extent(e.start as int, e.end as int) }

  function Extents(es: seq<Entry>): seq<Extent> { seq(|es|, i requires 0 <= i < |es| => ExtentOf(es[i])) }

  /** The sizes asked for, in table order, without the FVM. */
  function Requests(efi: u64, abrSize: u64, vbmeta: u64, abr: bool): seq<nat> {
    var a, v := abrSize as nat, vbmeta as nat;
    [efi as nat] + if abr then [a, v, a, v, a, v, v] else []
  }

  ghost predicate AbrRequests(requests: seq<nat>, abrSize: u64, vbmeta: u64) {
    && |requests| == 8
    && requests[1] == requests[3] == requests[5] == abrSize as nat
    && requests[2] == requests[4] == requests[6] == requests[7] == vbmeta as nat
  }

  const ABR_NAMES := ["ZIRCON-A", "VBMETA_A", "ZIRCON-B", "VBMETA_B", "ZIRCON-R", "VBMETA_R", "MISC"]

  function Names(es: seq<Entry>): seq<string> { seq(|es|, i requires 0 <= i < |es| => es[i].name) }

  function StartsOf(es: seq<Entry>): seq<u64> { seq(|es|, i requires 0 <= i < |es| => es[i].start) }

  /** The starts name the first blocks of the extents, in table order. */
  ghost predicate Describes(starts: seq<u64>, es: seq<Extent>) {
    |es| == |starts| && forall i :: 0 <= i < |es| ==> es[i].start == starts[i] as int
  }

  lemma StartsDescribe(ps: seq<Entry>)
    ensures Describes(StartsOf(ps), Extents(ps))
  {
  }

  lemma AppendTable(a: seq<Entry>, b: seq<Entry>)
    ensures Extents(a + b) == Extents(a) + Extents(b)
    ensures Names(a + b) == Names(a) + Names(b) && StartsOf(a + b) == StartsOf(a) + StartsOf(b)
  {
  }

  /** The A/B/R part of partitionLayout: first blocks, all 0 without A/B/R. */
  datatype Starts = Starts(a: u64, vbmetaA: u64, b: u64, vbmetaB: u64, r: u64, vbmetaR: u64, misc: u64) {
    function Abr(): seq<u64> { [a, vbmetaA, b, vbmetaB, r, vbmetaR, misc] }
  }

  /** What the command line asks for. Sizes come from signed 64-bit flags; an FVM of size 0 fills the disk. */
  datatype Job = Job(efi: u64, abrSize: u64, vbmeta: u64, fvm: u64, abr: bool, ramdiskOnly: bool, sparse: bool) {
    function Asked(): seq<nat> { Requests(efi, abrSize, vbmeta, abr) }

    ghost predicate Valid() {
      0 < efi as int < HALF && fvm as int < HALF && (abr ==> 0 < abrSize as int < HALF && 0 < vbmeta as int < HALF)
    }

    function TableStarts(efiStart: u64, starts: Starts, fvmStart: u64): seq<u64> {
      [efiStart] + (if abr then starts.Abr() else []) + (if ramdiskOnly then [] else [fvmStart])
    }
  }

  const HALF := 0x8000_0000_0000_0000

  /** The FVM partition: placed after all others, and ended at the last usable block if it fills the disk. */
  function FvmExtent(first: nat, last: int, job: Job, g: Geometry): Extent
    requires g.Valid() && job.Valid()
  {
    var placed := Place(After(first, job.Asked(), g), job.fvm as nat, g);
    if job.fvm == 0 then Extent(placed.start, last) else placed
  }

  /** The whole table. */
  function Table(first: nat, last: int, job: Job, g: Geometry): seq<Extent>
    requires g.Valid() && job.Valid()
  {
    Layout(first, job.Asked(), g) + if job.ramdiskOnly then [] else [FvmExtent(first, last, job, g)]
  }

  /** Length of a partition in bytes; negative if it ends before it starts. */
  function ByteLength(e: Extent, g: Geometry): int { (e.end + 1 - e.start) * g.logical as int }

  /** Everything up to the FVM's end stays below 2^64. */
  ghost predicate Fits(first: nat, sizes: seq<nat>, fvm: nat, g: Geometry)
    requires g.Valid() && Positive(sizes)
  {
    After(first, sizes, g) + g.Unit() + BlocksFor(fvm, g.logical as nat) < LIMIT
  }

  lemma {:induction false} FitsBefore(first: nat, sizes: seq<nat>, n: nat, g: Geometry)
    requires g.Valid() && Positive(sizes) && n < |sizes|
    ensures After(first, sizes[..n], g) + BlocksFor(sizes[n], g.logical as nat) <= After(first, sizes, g)
    decreases |sizes| - n
  {
    AfterSnoc(first, sizes[..n], sizes[n], g);
    assert sizes[..n] + [sizes[n]] == sizes[..n + 1];
    if n + 1 < |sizes| {
      FitsBefore(first, sizes, n + 1, g);
    } else {
      assert sizes[..n + 1] == sizes;
    }
  }

  /** Truncation to 64 bits. */
  function Wrap64(x: int): u64 { (x % LIMIT) as u64 }

  /** partitionSizes; createPartitionTable overwrites `fvm`. */
  class Sizes {
    var efi: u64
    var abr: u64
    var vbmeta: u64
    var fvm: u64
    constructor (efi: u64, abr: u64, vbmeta: u64, fvm: u64)
      ensures this.efi == efi && this.abr == abr && this.vbmeta == vbmeta && this.fvm == fvm
    {
      this.efi, this.abr, this.vbmeta, this.fvm := efi, abr, vbmeta, fvm;
    }
  }

  /** diskInfo, with the usable range that gpt.Update has computed. */
  class Disk {
    const g: Geometry
    const firstUsable: u64
    const lastUsable: u64
    var partitions: seq<Entry>

    constructor (g: Geometry, firstUsable: u64, lastUsable: u64)
      ensures this.g == g && this.firstUsable == firstUsable && this.lastUsable == lastUsable && partitions == []
    {
      this.g, this.firstUsable, this.lastUsable := g, firstUsable, lastUsable;
      partitions := [];
    }

    /** Align and append one partition. */
    method Add(name: string, first: u64, size: u64, ghost sizes: seq<nat>) returns (start: u64, end: u64)
      requires g.Valid() && size > 0 && Positive(sizes)
      requires Extents(partitions) == Layout(firstUsable as nat, sizes, g)
      requires first as nat == After(firstUsable as nat, sizes, g)
      requires Fits(firstUsable as nat, sizes, size as nat, g)
      modifies this`partitions
      ensures Extents(partitions) == Layout(firstUsable as nat, sizes + [size as nat], g)
      ensures partitions == old(partitions) + [Entry(name, start, end)]
      ensures end as nat + 1 == After(firstUsable as nat, sizes + [size as nat], g) < LIMIT
    {
      LayoutSnoc(firstUsable as nat, sizes, size as nat, g);
      AfterSnoc(firstUsable as nat, sizes, size as nat, g);
      start, end := OptimalBlockAlign(first, size, g.logical, g.physical, g.optimal);
      partitions := partitions + [Entry(name, start, end)];
      assert Extents(partitions) == Extents(old(partitions)) + [Extent(start as int, end as int)];
    }

    /** Append the next of the requested partitions. */
    method AddNext(name: string, first: u64, size: u64, ghost requests: seq<nat>, ghost n: nat) returns (start: u64, end: u64)
      requires g.Valid() && Positive(requests) && n < |requests| && size as nat == requests[n]
      requires Extents(partitions) == Layout(firstUsable as nat, requests[..n], g)
      requires first as nat == After(firstUsable as nat, requests[..n], g)
      requires Fits(firstUsable as nat, requests, 0, g)
      modifies this`partitions
      ensures Extents(partitions) == Layout(firstUsable as nat, requests[..n + 1], g)
      ensures partitions == old(partitions) + [Entry(name, start, end)]
      ensures end as nat + 1 == After(firstUsable as nat, requests[..n + 1], g) < LIMIT
    {
      FitsBefore(firstUsable as nat, requests, n, g);
      assert requests[..n] + [requests[n]] == requests[..n + 1];
      start, end := Add(name, first, size, requests[..n]);
    }

    /** One slot of A/B/R: its image and its vbmeta. */
    method AddSlot(image: string, meta: string, first: u64, abr: u64, vbmeta: u64, ghost requests: seq<nat>, ghost n: nat)
      returns (start: u64, metaStart: u64, end: u64)
      requires g.Valid() && Positive(requests) && n + 1 < |requests|
      requires abr as nat == requests[n] && vbmeta as nat == requests[n + 1]
      requires Extents(partitions) == Layout(firstUsable as nat, requests[..n], g)
      requires first as nat == After(firstUsable as nat, requests[..n], g)
      requires Fits(firstUsable as nat, requests, 0, g)
      modifies this`partitions
      ensures Extents(partitions) == Layout(firstUsable as nat, requests[..n + 2], g)
      ensures end as nat + 1 == After(firstUsable as nat, requests[..n + 2], g) < LIMIT
      ensures |partitions| == |old(partitions)| + 2 && partitions[..|old(partitions)|] == old(partitions)
      ensures partitions[|old(partitions)|].name == image && partitions[|old(partitions)|].start == start
      ensures partitions[|old(partitions)| + 1].name == meta && partitions[|old(partitions)| + 1].start == metaStart
    {
      start, end := AddNext(image, first, abr, requests, n);
      metaStart, end := AddNext(meta, end + 1, vbmeta, requests, n + 1);
    }

    /** The A/B/R partitions. */
    method AddAbr(first: u64, abr: u64, vbmeta: u64, ghost requests: seq<nat>) returns (starts: Starts, end: u64)
      requires g.Valid() && Positive(requests) && AbrRequests(requests, abr, vbmeta)
      requires Extents(partitions) == Layout(firstUsable as nat, requests[..1], g)
      requires first as nat == After(firstUsable as nat, requests[..1], g)
      requires Fits(firstUsable as nat, requests, 0, g)
      modifies this`partitions
      ensures Extents(partitions) == Layout(firstUsable as nat, requests, g)
      ensures end as nat + 1 == After(firstUsable as nat, requests, g)
      ensures exists added :: partitions == old(partitions) + added && Names(added) == ABR_NAMES && StartsOf(added) == starts.Abr()
    {
      ghost var before := partitions;
      var a, va, endA := AddSlot("ZIRCON-A", "VBMETA_A", first, abr, vbmeta, requests, 1);
      ghost var added := partitions[|before|..];
      var b, vb, endB := AddSlot("ZIRCON-B", "VBMETA_B", endA + 1, abr, vbmeta, requests, 3);
      var r, vr, endR := AddSlot("ZIRCON-R", "VBMETA_R", endB + 1, abr, vbmeta, requests, 5);
      var misc;
      misc, end := AddNext("MISC", endR + 1, vbmeta, requests, 7);
      starts := Starts(a, va, b, vb, r, vr, misc);
      added := partitions[|before|..];
      assert partitions == before + added;
      assert requests[..8] == requests;
    }

    /** All but the FVM. */
    method AddRequested(sizes: Sizes, abr: bool) returns (efiStart: u64, starts: Starts, end: u64)
      requires g.Valid() && sizes.efi > 0 && (abr ==> sizes.abr > 0 && sizes.vbmeta > 0)
      requires Fits(firstUsable as nat, Requests(sizes.efi, sizes.abr, sizes.vbmeta, abr), 0, g)
      modifies this`partitions
      ensures var requests := Requests(sizes.efi, sizes.abr, sizes.vbmeta, abr);
              && Extents(partitions) == Layout(firstUsable as nat, requests, g)
              && end as nat + 1 == After(firstUsable as nat, requests, g) < LIMIT
      ensures Names(partitions) == ["efi-system"] + if abr then ABR_NAMES else []
      ensures StartsOf(partitions) == [efiStart] + if abr then starts.Abr() else []
    {
      ghost var requests := Requests(sizes.efi, sizes.abr, sizes.vbmeta, abr);
      partitions := [];
      assert requests[..0] == [];
      efiStart, end := AddNext("efi-system", firstUsable, sizes.efi, requests, 0);
      starts := Starts(0, 0, 0, 0, 0, 0, 0);
      ghost var efiOnly := partitions;
      assert Names(efiOnly) == ["efi-system"] && StartsOf(efiOnly) == [efiStart];
      if abr {
        starts, end := AddAbr(end + 1, sizes.abr, sizes.vbmeta, requests);
        ghost var added :| partitions == efiOnly + added && Names(added) == ABR_NAMES && StartsOf(added) == starts.Abr();
        AppendTable(efiOnly, added);
      } else {
        assert requests[..1] == requests;
      }
    }

    /** createPartitionTable, without the GUIDs and the hybrid MBR record. The starts it returns are those of
        the table, and sizes.fvm becomes the byte length of the FVM partition, truncated to 64 bits. */
    method CreatePartitionTable(sizes: Sizes, abr: bool, ramdiskOnly: bool, sparseFvm: bool, ghost job: Job)
      returns (efiStart: u64, starts: Starts, fvmStart: u64)
      requires g.Valid() && job.Valid() && firstUsable > 0
      requires job == Job(sizes.efi, sizes.abr, sizes.vbmeta, sizes.fvm, abr, ramdiskOnly, sparseFvm)
      requires Fits(firstUsable as nat, job.Asked(), sizes.fvm as nat, g)
      modifies this`partitions, sizes`fvm
      ensures Extents(partitions) == Table(firstUsable as nat, lastUsable as int, job, g)
      ensures Names(partitions) == ["efi-system"] + (if abr then ABR_NAMES else []) +
                                   (if ramdiskOnly then [] else [if sparseFvm then "storage-sparse" else "FVM"])
      ensures Describes(job.TableStarts(efiStart, starts, fvmStart), Table(firstUsable as nat, lastUsable as int, job, g))
      ensures sizes.fvm == if ramdiskOnly then old(sizes.fvm)
                           else Wrap64(ByteLength(FvmExtent(firstUsable as nat, lastUsable as int, job, g), g))
    {
      var end;
      efiStart, starts, end := AddRequested(sizes, abr);
      ghost var placed := partitions;
      fvmStart, end := OptimalBlockAlign(end + 1, sizes.fvm, g.logical, g.physical, g.optimal);
      if !ramdiskOnly {
        if sizes.fvm == 0 {
          end := lastUsable;
        }
        sizes.fvm := Wrap64((end as int + 1 - fvmStart as int) * g.logical as int);
        var fvm := Entry(if sparseFvm then "storage-sparse" else "FVM", fvmStart, end);
        partitions := partitions + [fvm];
        AppendTable(placed, [fvm]);
        assert Extents([fvm]) == [ExtentOf(fvm)] && Names([fvm]) == [fvm.name] && StartsOf([fvm]) == [fvm.start];
        assert ExtentOf(fvm) == FvmExtent(firstUsable as nat, lastUsable as int, job, g);
      }
      StartsDescribe(partitions);
    }
  }

  // ------------------------------------------------------------- the table as a whole

  /** Partitions, the FVM included, are increasing and pairwise disjoint. */
  lemma TableIsDisjoint(first: nat, last: int, job: Job, g: Geometry, i: nat, j: nat)
    requires g.Valid() && job.Valid() && i < j < |Table(first, last, job, g)|
    ensures var es := Table(first, last, job, g); es[i].start <= es[i].end < es[j].start
  {
    var requests := job.Asked();
    if j < |requests| {
      LayoutIsDisjoint(first, requests, g, i, j);
    } else {
      AlignUpIsLeast(After(first, requests, g), g.Unit());
      LayoutIsWell(first, requests, g, i);
      if i < |requests| - 1 { LayoutIsDisjoint(first, requests, g, i, |requests| - 1); }
    }
  }

  /** Every partition of the table, the FVM included, starts at a byte offset that is a multiple of each block
      size given, and at the least such block after its predecessor. */
  lemma TableIsAligned(first: nat, last: int, job: Job, g: Geometry, i: nat)
    requires g.Valid() && Nested(g) && job.Valid() && i < |Table(first, last, job, g)|
    ensures var es := Table(first, last, job, g);
            var after := if i == 0 then first else es[i - 1].end + 1;
            && es[i].start >= after && es[i].start >= 0 && AlignedBlock(es[i].start, g)
            && forall y: nat :: AlignedBlock(y, g) && y >= after ==> y >= es[i].start
  {
    var requests := job.Asked();
    if i < |requests| {
      LayoutIsAligned(first, requests, g, i);
    } else {
      var after := After(first, requests, g);
      AlignUpIsLeast(after, g.Unit());
      AlignedIff(AlignUp(after, g.Unit()), g);
      forall y: nat | AlignedBlock(y, g)
        ensures y % g.Unit() == 0
      {
        AlignedIff(y, g);
      }
    }
  }

  /** NextAlignedLBA of the GPT library leaves every partition of the table where it is, so updating the table
      after laying it out does not move entries. */
  lemma PlacedStaysPut(first: nat, last: int, job: Job, g: Geometry, i: nat)
    requires g.Valid() && job.Valid() && i < |Table(first, last, job, g)|
    ensures var s := Table(first, last, job, g)[i].start; s >= first && AlignUp(s, g.Unit()) == s
  {
    var requests := job.Asked();
    if i < |requests| {
      LayoutIsWell(first, requests, g, i);
      LayoutAfterFirst(first, requests, g, i);
    } else {
      AlignUpIsLeast(After(first, requests, g), g.Unit());
      LayoutIsWell(first, requests, g, |requests| - 1);
      LayoutAfterFirst(first, requests, g, |requests| - 1);
    }
  }

  // -------------------------------------------------------------- what is written where

  /** A 64-bit number as the signed one with the same bits. */
  function AsInt64(x: u64): int { if x as int < HALF then x as int else x as int - LIMIT }

  /** The byte offset of a block, as writeDisk computes it: multiplied in 64 bits, then taken as signed. */
  function ByteOffset(start: u64, g: Geometry): int { AsInt64(Wrap64(start as int * g.logical as int)) }

  /** partitionCopy writes at most the size it is given, however long the input is. */
  function CopyLength(input: nat, size: nat): nat { if input > size then size else input }

  const ABR_RECORD := 32

  /** Lengths of the image files. */
  datatype Inputs = Inputs(zirconA: nat, vbmetaA: nat, zirconB: nat, vbmetaB: nat, zirconR: nat, vbmetaR: nat, sparseFvm: nat)

  /** One write into partition number `partition`. */
  datatype Write = Write(partition: nat, offset: int, length: int)

  /** The writes of writeDisk into partitions: the FAT volume; with A/B/R the six images and the boot record;
      and the FVM, whose length is `fvmSize` as createPartitionTable left it unless a sparse image is copied. */
  function DiskWrites(efiStart: u64, starts: Starts, fvmStart: u64, fvmSize: u64, job: Job, inputs: Inputs, g: Geometry): seq<Write> {
    var a, v := job.abrSize as nat, job.vbmeta as nat;
    var abr := [Write(1, ByteOffset(starts.a, g), CopyLength(inputs.zirconA, a)),
                Write(2, ByteOffset(starts.vbmetaA, g), CopyLength(inputs.vbmetaA, v)),
                Write(3, ByteOffset(starts.b, g), CopyLength(inputs.zirconB, a)),
                Write(4, ByteOffset(starts.vbmetaB, g), CopyLength(inputs.vbmetaB, v)),
                Write(5, ByteOffset(starts.r, g), CopyLength(inputs.zirconR, a)),
                Write(6, ByteOffset(starts.vbmetaR, g), CopyLength(inputs.vbmetaR, v)),
                Write(7, ByteOffset(starts.misc, g), ABR_RECORD)];
    var fvm := Write(if job.abr then 8 else 1, ByteOffset(fvmStart, g),
                     if job.sparse then CopyLength(inputs.sparseFvm, job.fvm as nat) else AsInt64(fvmSize));
    [Write(0, ByteOffset(efiStart, g), AsInt64(job.efi))] + (if job.abr then abr else []) + (if job.ramdiskOnly then [] else [fvm])
  }

  /** Bytes [offset, offset + length) lie in the partition. */
  ghost predicate Inside(offset: int, length: int, e: Extent, g: Geometry) {
    var (lo, hi) := Bytes(e, g);
    0 <= length && lo <= offset && offset + length <= hi
  }

  predicate IsMisc(job: Job, k: nat) { job.abr && k == 7 }

  predicate IsFvm(job: Job, k: nat) { k == |job.Asked()| }

  /** What a write should do: stay in its partition, and for an FVM that is not copied, take up all of it. */
  ghost predicate RightWrite(job: Job, k: nat, w: Write, e: Extent, g: Geometry) {
    && w.partition == k
    && Inside(w.offset, w.length, e, g)
    && (IsFvm(job, k) && !job.sparse ==> w.length == ByteLength(e, g))
  }

  /** When it does: the offset does not overflow; the boot record fits the blocks of the vbmeta size; and the
      FVM does not end before it starts, nor overflow the length handed on. */
  ghost predicate CanWrite(job: Job, k: nat, e: Extent, g: Geometry)
    requires g.Valid()
  {
    && e.start * g.logical as int < HALF
    && (IsMisc(job, k) ==> ABR_RECORD <= BlocksFor(job.vbmeta as nat, g.logical as nat) * g.logical as int)
    && (IsFvm(job, k) ==> e.start <= e.end + 1 && (!job.sparse ==> ByteLength(e, g) < HALF))
  }

  /** The truncated offset is never beyond the true one, and is the true one exactly below 2^63. */
  lemma OffsetIff(start: u64, g: Geometry)
    ensures var p := start as int * g.logical as int;
            ByteOffset(start, g) <= p && (ByteOffset(start, g) == p <==> p < HALF)
  {
    MulMonotone(g.logical as nat, 0, start as int);
  }

  lemma BytesOf(e: Extent, g: Geometry)
    ensures Bytes(e, g).1 == Bytes(e, g).0 + ByteLength(e, g)
  {
    assert (e.end + 1) * g.logical as int == e.start * g.logical as int + (e.end + 1 - e.start) * g.logical as int;
  }

  /** A write at the start of a partition is inside exactly if its offset is right and its length fits. */
  lemma InsideIff(start: u64, length: nat, e: Extent, g: Geometry)
    requires e.start == start as int
    ensures Inside(ByteOffset(start, g), length, e, g) <==> e.start * g.logical as int < HALF && length <= ByteLength(e, g)
  {
    OffsetIff(start, g);
    BytesOf(e, g);
  }

  /** Which write goes where, and how long it is. */
  lemma WritesAre(efiStart: u64, starts: Starts, fvmStart: u64, fvmSize: u64, job: Job, inputs: Inputs, g: Geometry, k: nat)
    requires job.Valid() && k < |job.TableStarts(efiStart, starts, fvmStart)|
    ensures |DiskWrites(efiStart, starts, fvmStart, fvmSize, job, inputs, g)| == |job.TableStarts(efiStart, starts, fvmStart)|
    ensures var w := DiskWrites(efiStart, starts, fvmStart, fvmSize, job, inputs, g)[k];
            && w.partition == k && w.offset == ByteOffset(job.TableStarts(efiStart, starts, fvmStart)[k], g)
            && k <= |job.Asked()|
            && (k < |job.Asked()| && !IsMisc(job, k) ==> 0 <= w.length <= job.Asked()[k])
            && (IsMisc(job, k) ==> w.length == ABR_RECORD)
            && (IsFvm(job, k) ==> w.length == if job.sparse then CopyLength(inputs.sparseFvm, job.fvm as nat) else AsInt64(fvmSize))
  {
  }

  /** Everything that writeDisk writes into the table of createPartitionTable goes where it should, write by
      write, exactly if it can. */
  lemma WritesConfined(first: nat, last: int, efiStart: u64, starts: Starts, fvmStart: u64, fvmSize: u64,
                       job: Job, inputs: Inputs, g: Geometry, k: nat)
    requires g.Valid() && job.Valid() && k < |Table(first, last, job, g)|
    requires Describes(job.TableStarts(efiStart, starts, fvmStart), Table(first, last, job, g))
    requires !job.ramdiskOnly ==> fvmSize == Wrap64(ByteLength(FvmExtent(first, last, job, g), g))
    ensures var ws := DiskWrites(efiStart, starts, fvmStart, fvmSize, job, inputs, g);
            |ws| == |Table(first, last, job, g)| &&
            var e := Table(first, last, job, g)[k];
            RightWrite(job, k, ws[k], e, g) <==> CanWrite(job, k, e, g)
  {
    var all, es := job.TableStarts(efiStart, starts, fvmStart), Table(first, last, job, g);
    WritesAre(efiStart, starts, fvmStart, fvmSize, job, inputs, g, k);
    var w := DiskWrites(efiStart, starts, fvmStart, fvmSize, job, inputs, g)[k];
    if IsFvm(job, k) {
      if job.sparse { FvmCopied(first, last, fvmStart, job, w.length, g); } else { FvmBuilt(fvmStart, es[k], g); }
    } else {
      InsideIff(all[k], w.length, es[k], g);
      PartitionHolds(first, job.Asked(), g, k);
    }
  }

  /** A placed partition is as long as its blocks. */
  lemma {:induction false} PartitionHolds(first: nat, requests: seq<nat>, g: Geometry, k: nat)
    requires g.Valid() && Positive(requests) && k < |requests|
    ensures ByteLength(Layout(first, requests, g)[k], g) == BlocksFor(requests[k], g.logical as nat) * g.logical as int >= requests[k]
    decreases |requests|
  {
    LayoutCons(first, requests, g);
    BlocksHold(requests[k], g.logical as nat);
    if k > 0 { PartitionHolds(Place(first, requests[0], g).end + 1, requests[1..], g, k - 1); }
  }

  /** A length survives truncation and the change of sign exactly in the range of signed numbers. */
  lemma LengthSurvivesIff(b: int)
    ensures AsInt64(Wrap64(b)) == b <==> -HALF <= b < HALF
  {
  }

  lemma ByteLengthSign(e: Extent, g: Geometry)
    requires g.Valid()
    ensures ByteLength(e, g) >= 0 <==> e.start <= e.end + 1
  {
    var n := e.end + 1 - e.start;
    if n >= 0 { MulMonotone(g.logical as nat, 0, n); } else { MulMonotone(g.logical as nat, n, -1); }
  }

  /** An FVM with a size of its own holds it. */
  lemma FvmHolds(first: nat, last: int, job: Job, g: Geometry)
    requires g.Valid() && job.Valid() && job.fvm > 0
    ensures var e := FvmExtent(first, last, job, g); e.start <= e.end && job.fvm as int <= ByteLength(e, g)
  {
    PlaceIsWell(After(first, job.Asked(), g), job.fvm as nat, g);
  }

  /** A copied FVM image, no longer than the size asked for. */
  lemma FvmCopied(first: nat, last: int, fvmStart: u64, job: Job, length: nat, g: Geometry)
    requires g.Valid() && job.Valid() && length <= job.fvm as int
    requires fvmStart as int == FvmExtent(first, last, job, g).start
    ensures var e := FvmExtent(first, last, job, g);
            Inside(ByteOffset(fvmStart, g), length, e, g) <==> e.start * g.logical as int < HALF && e.start <= e.end + 1
  {
    var e := FvmExtent(first, last, job, g);
    InsideIff(fvmStart, length, e, g);
    ByteLengthSign(e, g);
    if job.fvm > 0 { FvmHolds(first, last, job, g); }
  }

  /** A volume that is built with the length createPartitionTable computed, truncated and taken as signed. */
  lemma FvmBuilt(start: u64, e: Extent, g: Geometry)
    requires g.Valid() && e.start == start as int
    ensures var length := AsInt64(Wrap64(ByteLength(e, g)));
            Inside(ByteOffset(start, g), length, e, g) && length == ByteLength(e, g) <==>
            e.start * g.logical as int < HALF && e.start <= e.end + 1 && ByteLength(e, g) < HALF
  {
    LengthSurvivesIff(ByteLength(e, g));
    ByteLengthSign(e, g);
    if ByteLength(e, g) >= 0 { InsideIff(start, ByteLength(e, g), e, g); }
  }

  /** Ranges inside extents that follow each other do not touch. */
  lemma InsideApart(a: Extent, b: Extent, g: Geometry, o1: int, n1: int, o2: int, n2: int)
    requires a.end < b.start && Inside(o1, n1, a, g) && Inside(o2, n2, b, g)
    ensures o1 + n1 <= o2
  {
    MulMonotone(g.logical as nat, a.end + 1, b.start);
  }

  /** No write of writeDisk touches what another one wrote. */
  lemma WritesApart(first: nat, last: int, job: Job, g: Geometry, i: nat, j: nat, v: Write, w: Write)
    requires g.Valid() && job.Valid() && i < j < |Table(first, last, job, g)|
    requires RightWrite(job, i, v, Table(first, last, job, g)[i], g) && RightWrite(job, j, w, Table(first, last, job, g)[j], g)
    ensures v.offset + v.length <= w.offset
  {
    var es := Table(first, last, job, g);
    TableIsDisjoint(first, last, job, g, i, j);
    InsideApart(es[i], es[j], g, v.offset, v.length, w.offset, w.length);
  }

  // ------------------------------------------------------------------ FAT geometry

  /** efiEnd in createPartitionTable: the last block of the FAT geometry fitted into the EFI partition. */
  function FatEnd(e: Extent, g: Geometry): int
    requires g.Valid() && e.start <= e.end
  {
    MulMonotone(g.logical as nat, 0, e.end - e.start);
    e.start + FitFAT((e.end - e.start) * g.logical as int) / g.logical as int - 1
  }

  /** The fitted geometry ends before the partition does, and it is not empty exactly if it has a block. */
  lemma FatEndsInside(e: Extent, g: Geometry)
    requires g.Valid() && e.start <= e.end
    ensures FatEnd(e, g) < e.end
    ensures e.start <= FatEnd(e, g) <==> FitFAT((e.end - e.start) * g.logical as int) >= g.logical as int
  {
    var l, n := g.logical as int, e.end - e.start;
    MulMonotone(g.logical as nat, 0, n);
    var fit := FitFAT(n * l);
    var q, r := fit / l, fit % l;
    assert fit == l * q + r;
    assert l * (n + 1) == n * l + l;
    if q > n { MulMonotone(g.logical as nat, n + 1, q); }
    if q <= 0 { MulMonotone(g.logical as nat, q, 0); } else { MulMonotone(g.logical as nat, 1, q); }
  }
}
