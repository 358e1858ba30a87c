/** The block driver: requests cut at segment and at page boundaries, and teardown. */
module DiskDriver {
  import opened Base
  import opened DiskStore

  const SECTOR_SIZE: nat := 512

  /** The kernel services that can fail a request. */
  datatype Failure = NoPages | NoSlot | NoMapping

  /** The direction of a bio; anything but the four known values is refused. */
  datatype Rw = Read | ReadAhead | Write | Unknown

  /** One piece of a bio's memory: `len` bytes of a page from `offset` on. */
  datatype BioVec = BioVec(page: array<Byte>, offset: nat, len: nat)

  ghost predicate WellFormed(vecs: seq<BioVec>)
  {
    forall i :: 0 <= i < |vecs| ==> vecs[i].offset + vecs[i].len <= vecs[i].page.Length
  }

  ghost function Pages(vecs: seq<BioVec>): set<object>
  {
    set i | 0 <= i < |vecs| :: vecs[i].page
  }

  /** No byte of memory belongs to two pieces. */
  ghost predicate Disjoint(vecs: seq<BioVec>)
  {
    forall i, j :: 0 <= i < j < |vecs| ==>
      || vecs[i].page != vecs[j].page
      || vecs[i].offset + vecs[i].len <= vecs[j].offset
      || vecs[j].offset + vecs[j].len <= vecs[i].offset
  }

  ghost function Pieces(vecs: seq<BioVec>): (p: seq<seq<Byte>>)
    requires WellFormed(vecs)
    reads Pages(vecs)
    ensures |p| == |vecs| && forall i :: 0 <= i < |p| ==> |p[i]| == vecs[i].len
  {
    seq(|vecs|, i requires 0 <= i < |vecs| reads Pages(vecs) =>
      vecs[i].page[vecs[i].offset..vecs[i].offset + vecs[i].len])
  }

  /** The whole memory of a bio, as one contiguous buffer. */
  ghost function Payload(vecs: seq<BioVec>): seq<Byte>
    requires WellFormed(vecs)
    reads Pages(vecs)
  {
    Concat(Pieces(vecs))
  }

  function Total(vecs: seq<BioVec>): nat
  {
    if vecs == [] then 0 else Total(vecs[..|vecs| - 1]) + vecs[|vecs| - 1].len
  }

  /** The range check of simp_blkdev_make_request, in 64-bit arithmetic. */
  predicate RangeOk(sector: nat, size: nat, capacity: nat)
  {
    ((sector * SECTOR_SIZE) % TWO64 + size) % TWO64 <= capacity
  }

  /**
   * The check keeps requests inside the device, except that the sum may wrap around;
   * it goes wrong exactly for a wrapped sum that is small enough.
   */
  lemma RangeCheckExact(sector: nat, size: nat, capacity: nat)
    requires capacity < TWO64
    ensures (RangeOk(sector, size, capacity) <==> sector * SECTOR_SIZE + size <= capacity)
       <==> (sector * SECTOR_SIZE + size < TWO64 || (sector * SECTOR_SIZE + size) % TWO64 > capacity)
  {
    var t := sector * SECTOR_SIZE;
    assert (t % TWO64 + size) % TWO64 == (t + size) % TWO64;
  }

  lemma RangeInside(sector: nat, size: nat, capacity: nat)
    requires sector * SECTOR_SIZE + size < TWO64
    ensures (sector * SECTOR_SIZE) % TWO64 == sector * SECTOR_SIZE
    ensures RangeOk(sector, size, capacity) <==> sector * SECTOR_SIZE + size <= capacity
  {
  }

  /** If the end does not wrap around, an access from the last position on to the first is a plain one. */
  lemma Straight(write: bool, s: Store, s': Store, sector: nat, size: nat, capacity: nat,
    b: seq<Byte>, b': seq<Byte>, n: nat)
    requires n <= size && MovedAround(write, s, s', (sector * SECTOR_SIZE) % TWO64, b, b', 0, n)
    ensures sector * SECTOR_SIZE + size < TWO64 ==>
      && Moved(write, s, s', sector * SECTOR_SIZE, b, b', 0, n)
      && (RangeOk(sector, size, capacity) ==> sector * SECTOR_SIZE + size <= capacity)
  {
    hide Moved;
    if sector * SECTOR_SIZE + size < TWO64 {
      RangeInside(sector, size, capacity);
    }
  }

  /** Sectors are of 512 bytes: one for sector `k` and one for the next are one of 1024 bytes for sector `k`. */
  lemma SectorsInARow(write: bool, s: Store, s': Store, s'': Store, k: nat,
    b: seq<Byte>, b': seq<Byte>, b'': seq<Byte>, p: nat)
    requires MovedAround(write, s, s', (k * SECTOR_SIZE) % TWO64, b, b', p, 512)
    requires MovedAround(write, s', s'', ((k + 1) * SECTOR_SIZE) % TWO64, b', b'', p + 512, 512)
    ensures MovedAround(write, s, s'', (k * SECTOR_SIZE) % TWO64, b, b'', p, 1024)
  {
    hide MovedAround;
    assert ((k * SECTOR_SIZE) % TWO64 + 512) % TWO64 == ((k + 1) * SECTOR_SIZE) % TWO64;
    AroundJoin(write, s, s', s'', (k * SECTOR_SIZE) % TWO64, b, b', b'', p, 512, 512);
  }

  /** Sector 2^55 lies outside every device, and passes the check of each. */
  lemma OutsideAccepted(size: nat, capacity: nat)
    requires size <= capacity < TWO64
    ensures var sector := 0x80_0000_0000_0000;
            RangeOk(sector, size, capacity) && sector * SECTOR_SIZE > capacity
  {
    assert 0x80_0000_0000_0000 * SECTOR_SIZE == TWO64;
  }

  /** All of the bytes, none, or a prefix that ends with a page of 4096. */
  predicate EndsAPage(at: nat, did: nat, len: nat)
  {
    did == 0 || did == len || (at + did) % 4096 == 0
  }

  lemma AllOfThem(at: nat, len: nat)
    ensures EndsAPage(at, len, len)
  {
  }

  lemma WholeSegments(k: nat, y: nat)
    ensures (16384 * k + y) % 16384 == y % 16384
  {
  }

  lemma WholePages(k: nat, y: nat)
    ensures (4096 * k + y) % 4096 == y % 4096
  {
  }

  /** Wrapping around at the last position keeps the places in segments and pages. */
  lemma WrapKeepsPlace(x: nat, n: nat)
    ensures (x % TWO64) % SEG_SIZE == x % SEG_SIZE
    ensures (x % TWO64 + n) % 4096 == (x + n) % 4096
  {
    var j, r := x / TWO64, x % TWO64;
    var k := 0x4_0000_0000_0000 * j;
    assert x == 16384 * k + r;
    WholeSegments(k, r);
    WholePages(4 * k, r + n);
  }

  lemma SamePlaceInPage(x: nat, n: nat)
    ensures (x % SEG_SIZE + n) % 4096 == (x + n) % 4096
  {
    var k, r := x / SEG_SIZE, x % SEG_SIZE;
    assert x == 16384 * k + r;
    WholePages(4 * k, r + n);
  }

  lemma SegmentEnd(x: nat, n: nat)
    requires x % SEG_SIZE + n == SEG_SIZE
    ensures (x + n) % SEG_SIZE == 0
  {
  }

  lemma PageInSegment(x: nat)
    requires x % SEG_SIZE == 0
    ensures x % 4096 == 0
  {
    var k := x / SEG_SIZE;
    assert x == 4096 * (4 * k) + 0;
    WholePages(4 * k, 0);
  }

  /** Pages lie within segments, and segments within the positions. */
  lemma PagesOn(dskOffset: nat, done: nat, len: nat, n: nat)
    requires dskOffset < TWO64 && done < len && (done == 0 || (dskOffset + done) % SEG_SIZE == 0)
    requires var at := (dskOffset + done) % TWO64;
             n <= ChunkLen(at, len - done) && EndsAPage(at, n, ChunkLen(at, len - done))
    ensures EndsAPage(dskOffset, done + n, len)
    ensures n == ChunkLen((dskOffset + done) % TWO64, len - done) ==>
      done + n == len || (dskOffset + done + n) % SEG_SIZE == 0
  {
    var x := dskOffset + done;
    WrapKeepsPlace(x, n);
    if n == ChunkLen(x % TWO64, len - done) {
      if n < len - done {
        SegmentEnd(x, n);
        PageInSegment(x + n);
      }
    } else if n == 0 && done > 0 {
      PageInSegment(x);
    }
  }

  /** The last position ends a segment. */
  lemma ChunkFits(at: nat, cnt: nat)
    requires at < TWO64 && at % SEG_SIZE + cnt <= SEG_SIZE
    ensures at + cnt <= TWO64
  {
  }

  /**
   * Piece `k` lies inside a page that cannot be mapped: the driver tests the sum of the null
   * pointer and the offset, takes it for a mapping, and uses it.
   */
  predicate Missed(vecs: seq<BioVec>, pageMaps: nat -> bool, k: nat)
    requires k < |vecs|
  {
    !pageMaps(k) && vecs[k].offset > 0 && vecs[k].len > 0
  }

  /** One byte at offset 1 of a page that cannot be mapped is missed. */
  lemma MissedMapping(page: array<Byte>)
    requires page.Length >= 2
    ensures WellFormed([BioVec(page, 1, 1)]) && Missed([BioVec(page, 1, 1)], _ => false, 0)
  {
  }

  /** How many of the first `n` pages could not be mapped. */
  function Unmapped(pageMaps: nat -> bool, n: nat): nat
  {
    if n == 0 then 0 else Unmapped(pageMaps, n - 1) + if pageMaps(n - 1) then 0 else 1
  }

  /** The pages of the first `n` pieces were mapped, or not looked at for an empty piece. */
  ghost predicate PassedBy(vecs: seq<BioVec>, pageMaps: nat -> bool, n: nat)
    requires n <= |vecs|
  {
    forall k: nat :: k < n ==> pageMaps(k) || (vecs[k].len == 0 && vecs[k].offset > 0)
  }

  /**
   * The pieces before `at` went through; piece `at` did not, after a prefix of it.
   */
  ghost predicate EndsAt(vecs: seq<BioVec>, pageMaps: nat -> bool, ret: int, did: nat, crashed: bool, at: nat)
  {
    && at <= |vecs| && (ret == 0 <==> at == |vecs|) && PassedBy(vecs, pageMaps, at)
    && (crashed <==> at < |vecs| && Missed(vecs, pageMaps, at))
    && Total(vecs[..at]) <= did && (at < |vecs| ==> did <= Total(vecs[..at]) + vecs[at].len)
  }

  /** The contents of the page of each piece. */
  ghost function Memory(vecs: seq<BioVec>): (p: seq<seq<Byte>>)
    reads Pages(vecs)
    ensures |p| == |vecs|
  {
    seq(|vecs|, i requires 0 <= i < |vecs| reads Pages(vecs) => vecs[i].page[..])
  }

  ghost predicate Fits(vecs: seq<BioVec>, mem: seq<seq<Byte>>)
  {
    |mem| == |vecs| && forall i :: 0 <= i < |vecs| ==> vecs[i].offset + vecs[i].len <= |mem[i]|
  }

  /** Byte `i` of piece `j` is a byte of a later piece before `upTo` as well. */
  ghost predicate SharedLater(vecs: seq<BioVec>, j: nat, i: nat, upTo: nat)
    requires j < |vecs| && upTo <= |vecs|
  {
    exists m: nat :: j < m < upTo &&
      vecs[m].page == vecs[j].page && vecs[m].offset <= vecs[j].offset + i < vecs[m].offset + vecs[m].len
  }

  predicate Shows(s: Store, vecs: seq<BioVec>, mem: seq<seq<Byte>>, pos: nat, j: nat, i: nat)
    requires Fits(vecs, mem) && j < |vecs| && i < vecs[j].len
  {
    mem[j][vecs[j].offset + i] == ByteAt(s, (pos + Total(vecs[..j]) + i) % TWO64)
  }

  /** Of the first `n` pieces, each byte not shared with a later one before `upTo` is that of the disk. */
  ghost predicate LastPieceShows(s: Store, vecs: seq<BioVec>, mem: seq<seq<Byte>>, pos: nat, n: nat, upTo: nat)
    requires Fits(vecs, mem) && n <= upTo <= |vecs|
  {
    forall j: nat, i: nat :: j < n && i < vecs[j].len && !SharedLater(vecs, j, i, upTo) ==>
      Shows(s, vecs, mem, pos, j, i)
  }

  ghost predicate MemoryShows(s: Store, vecs: seq<BioVec>, pos: nat, n: nat, upTo: nat)
    requires WellFormed(vecs) && n <= upTo <= |vecs|
    reads Pages(vecs)
  {
    LastPieceShows(s, vecs, Memory(vecs), pos, n, upTo)
  }

  /** Reading `did` bytes into piece `k`, all of them or not. */
  lemma PieceShows(s: Store, vecs: seq<BioVec>, mem: seq<seq<Byte>>, mem': seq<seq<Byte>>, pos: nat, k: nat, did: nat)
    requires Fits(vecs, mem) && k < |vecs| && did <= vecs[k].len && LastPieceShows(s, vecs, mem, pos, k, k)
    requires |mem'| == |mem| && forall j :: 0 <= j < |vecs| ==> |mem'[j]| == |mem[j]|
    requires forall j :: 0 <= j < |vecs| && vecs[j].page != vecs[k].page ==> mem'[j] == mem[j]
    requires forall j :: 0 <= j < |vecs| && vecs[j].page == vecs[k].page ==> mem[j] == mem[k] && mem'[j] == mem'[k]
    requires mem'[k] ==
      Splice(mem[k], vecs[k].offset, ReadAround(s, (pos + Total(vecs[..k])) % TWO64, did))
    ensures Fits(vecs, mem') && LastPieceShows(s, vecs, mem', pos, k, k + 1)
    ensures did == vecs[k].len ==> LastPieceShows(s, vecs, mem', pos, k + 1, k + 1)
  {
    hide ByteAt, Total, Splice, ReadAround;
    forall j: nat, i: nat | j < k && i < vecs[j].len && !SharedLater(vecs, j, i, k + 1)
      ensures Shows(s, vecs, mem', pos, j, i)
    {
      assert Shows(s, vecs, mem, pos, j, i);
      Outside(vecs, mem, mem', k, j, i, ReadAround(s, (pos + Total(vecs[..k])) % TWO64, did));
    }
    if did == vecs[k].len {
      forall i: nat | i < vecs[k].len
        ensures Shows(s, vecs, mem', pos, k, i)
      {
        Inside(s, mem[k], vecs[k].offset, pos + Total(vecs[..k]), did, i);
      }
    }
  }

  /** What is laid over piece `k` leaves byte `i` of piece `j` alone, if that is not shared. */
  lemma Outside(vecs: seq<BioVec>, mem: seq<seq<Byte>>, mem': seq<seq<Byte>>, k: nat, j: nat, i: nat, b: seq<Byte>)
    requires Fits(vecs, mem) && Fits(vecs, mem') && j < k < |vecs| && i < vecs[j].len && |b| <= vecs[k].len
    requires !SharedLater(vecs, j, i, k + 1)
    requires vecs[j].page != vecs[k].page ==> mem'[j] == mem[j]
    requires vecs[j].page == vecs[k].page ==> mem[j] == mem[k] && mem'[j] == Splice(mem[k], vecs[k].offset, b)
    ensures mem'[j][vecs[j].offset + i] == mem[j][vecs[j].offset + i]
  {
  }

  lemma Inside(s: Store, page: seq<Byte>, offset: nat, at: nat, n: nat, i: nat)
    requires offset + n <= |page| && i < n
    ensures Splice(page, offset, ReadAround(s, at % TWO64, n))[offset + i] == ByteAt(s, (at + i) % TWO64)
  {
    hide ByteAt;
    assert (at % TWO64 + i) % TWO64 == (at + i) % TWO64;
  }

  lemma TotalSplit(vecs: seq<BioVec>, k: nat)
    requires k < |vecs|
    ensures Total(vecs[..k + 1]) == Total(vecs[..k]) + vecs[k].len
    ensures Total(vecs[..k + 1]) <= Total(vecs)
    decreases |vecs|
  {
    assert vecs[..k + 1][..k] == vecs[..k];
    if k + 1 == |vecs| {
      assert vecs[..k + 1] == vecs;
    } else {
      var front := vecs[..|vecs| - 1];
      assert front[..k] == vecs[..k] && front[..k + 1] == vecs[..k + 1];
      TotalSplit(front, k);
    }
  }

  lemma TotalStart(vecs: seq<BioVec>)
    ensures Total(vecs[..0]) == 0 && Total(vecs[..|vecs|]) == Total(vecs)
  {
    assert vecs[..|vecs|] == vecs;
  }

  lemma {:induction false} PiecesFront(vecs: seq<BioVec>, k: nat)
    requires WellFormed(vecs) && k <= |vecs|
    ensures |Concat(Pieces(vecs)[..k])| == Total(vecs[..k])
  {
    if k != 0 {
      PiecesFront(vecs, k - 1);
      assert vecs[..k][..k - 1] == vecs[..k - 1];
      assert Pieces(vecs)[..k][..k - 1] == Pieces(vecs)[..k - 1];
    }
  }

  /** What one piece received lies outside every other piece. */
  lemma OthersUntouched(write: bool, vecs: seq<BioVec>, k: nat, j: nat, p0: seq<seq<Byte>>, page0: seq<Byte>)
    requires WellFormed(vecs) && k < |vecs| && j < |vecs| && j != k && j < |p0| && |page0| == vecs[k].page.Length
    requires !write ==> Disjoint(vecs)
    requires vecs[j].page != vecs[k].page ==> Pieces(vecs)[j] == p0[j]
    requires vecs[j].page == vecs[k].page ==> p0[j] == page0[vecs[j].offset..vecs[j].offset + vecs[j].len]
    requires write ==> vecs[k].page[..] == page0
    requires forall i :: 0 <= i < |page0| && !(vecs[k].offset <= i < vecs[k].offset + vecs[k].len) ==>
      vecs[k].page[..][i] == page0[i]
    ensures Pieces(vecs)[j] == p0[j]
  {
  }

  lemma NothingShown(s: Store, vecs: seq<BioVec>, pos: nat)
    requires WellFormed(vecs)
    ensures MemoryShows(s, vecs, pos, 0, 0)
  {
  }

  // ARRAY_SIZE(seglist) in free_diskmem
  const GANG: nat := 64

  predicate Ascending(keys: seq<nat>)
  {
    forall i, j :: 0 <= i < j < |keys| ==> keys[i] < keys[j]
  }

  /** What a gang lookup promises: nothing is skipped below the last key returned. */
  predicate IsGang(all: set<nat>, from: nat, max: nat, keys: seq<nat>)
  {
    && |keys| <= max && Ascending(keys)
    && (forall k :: k in keys ==> k in all && from <= k)
    && (forall k :: k in all && from <= k && k !in keys ==>
          |keys| == max && forall i :: 0 <= i < |keys| ==> keys[i] < k)
  }

  predicate NoDuplicates(s: seq<nat>)
  {
    forall i, j :: 0 <= i < j < |s| ==> s[i] != s[j]
  }

  /** Of the groups `all`, those in `freed` were given back once each, the others are live. */
  ghost predicate FreedOnce(all: set<nat>, live: set<nat>, freed: seq<nat>)
  {
    && NoDuplicates(freed)
    && (forall g :: g in freed ==> g !in live)
    && (forall g :: g in all <==> g in freed || g in live)
  }

  lemma FreeOne(all: set<nat>, live: set<nat>, freed: seq<nat>, g: nat)
    requires FreedOnce(all, live, freed) && g in live
    ensures FreedOnce(all, live - {g}, freed + [g])
  {
  }

  lemma NoneFreed(all: set<nat>)
    ensures FreedOnce(all, all, [])
  {
  }

  lemma AllFreed(all: set<nat>, freed: seq<nat>)
    requires FreedOnce(all, {}, freed)
    ensures NoDuplicates(freed) && forall g :: g in freed <==> g in all
  {
  }

  class RamDisk {
    var store: Store
    var nextGroup: nat
    var kmaps: int // mappings made and not yet undone
    ghost var failures: seq<Failure> // services that have failed, in order

    ghost predicate Valid()
      reads `store, `nextGroup
    {
      && DiskStore.Valid(store)
      && (forall g :: g in store.mem ==> g < nextGroup)
    }

    constructor ()
      ensures Valid() && store == Store(map[], map[]) && kmaps == 0 && failures == []
    {
      store, nextGroup, kmaps, failures := Store(map[], map[]), 0, 0, [];
    }

    // The kernel services that may fail, without saying why.

    method Kmap() returns (mapped: bool)
      modifies `kmaps, `failures
      ensures kmaps == old(kmaps) + if mapped then 1 else 0
      ensures failures == old(failures) + if mapped then [] else [NoMapping]
    {
      mapped := *;
      if mapped {
        kmaps := kmaps + 1;
      } else {
        failures := failures + [NoMapping];
      }
    }

    method Kunmap()
      modifies `kmaps
      ensures kmaps == old(kmaps) - 1
    {
      kmaps := kmaps - 1;
    }

    /** alloc_pages with __GFP_ZERO: a group of four zeroed pages, or none. */
    method AllocPages(index: nat) returns (group: Option<nat>)
      requires forall g :: g in store.mem ==> g < nextGroup
      modifies `store, `nextGroup, `failures
      ensures failures == old(failures) + if group.None? then [NoPages] else []
      ensures forall g :: g in store.mem ==> g < nextGroup
      ensures group.None? ==> store == old(store)
      ensures group.Some? ==> group.value !in old(store.mem)
      ensures group.Some? ==>
        store == old(store).(mem := old(store.mem)[group.value := Group(index, seq(SEG_SIZE, _ => 0))])
    {
      var available: bool := *;
      if available {
        store := store.(mem := store.mem[nextGroup := Group(index, seq(SEG_SIZE, _ => 0))]);
        group := Some(nextGroup);
        nextGroup := nextGroup + 1;
      } else {
        group := None;
        failures := failures + [NoPages];
      }
    }

    method FreePages(g: nat)
      requires g in store.mem
      modifies `store
      ensures store == old(store).(mem := old(store.mem) - {g})
    {
      store := store.(mem := store.mem - {g});
    }

    method RadixTreeInsert(key: nat, g: nat) returns (ok: bool)
      modifies `store, `failures
      ensures failures == old(failures) + if ok then [] else [NoSlot]
      ensures ok ==> key !in old(store.tree) && store == old(store).(tree := old(store.tree)[key := g])
      ensures !ok ==> store == old(store)
    {
      ok := *;
      if key in store.tree {
        ok := false;
      }
      if ok {
        store := store.(tree := store.tree[key := g]);
      } else {
        failures := failures + [NoSlot];
      }
    }

    /** The code 0 says that no service has failed; otherwise it tells which one was the first and only one. */
    ghost predicate FailedWith(before: seq<Failure>, ret: int)
      reads `failures
    {
      if ret == 0 then failures == before
      else if ret == -ENOMEM then failures == before + [NoPages]
      else ret == -EIO && (failures == before + [NoSlot] || failures == before + [NoMapping])
    }

    /** simp_blkdev_trans_oneseg: exchange bytes of the buffer and one group, page by page. */
    method TransOneSeg(g: nat, offset: nat, buf: array<Byte>, bufOff: nat, len: nat, write: bool)
      returns (ret: int, ghost did: nat)
      requires g in store.mem && |store.mem[g].data| == SEG_SIZE
      requires offset + len <= SEG_SIZE && bufOff + len <= buf.Length
      modifies `store, `kmaps, `failures, buf
      ensures failures == old(failures) + if ret == 0 then [] else [NoMapping]
      ensures kmaps == old(kmaps) && did <= len && (ret == 0 || ret == -ENOMEM) && (ret == 0 <==> did == len)
      ensures EndsAPage(offset, did, len)
      ensures var r := Carried(write, old(store.mem[g].data), offset, old(buf[..]), bufOff, did);
              store == WithData(old(store), g, r.0) && buf[..] == r.1
    {
      hide Splice, Carried;
      ghost var group0, buf0 := store.mem[g], buf[..];
      CarriedNothing(write, group0.data, offset, buf0, bufOff);
      var doneCnt := 0;
      while doneCnt < len
        invariant doneCnt <= len && kmaps == old(kmaps) && failures == old(failures)
        invariant EndsAPage(offset, doneCnt, len)
        invariant var r := Carried(write, group0.data, offset, buf0, bufOff, doneCnt);
                  store == WithData(old(store), g, r.0) && buf[..] == r.1
      {
        var page := (offset + doneCnt) / PAGE_SIZE;
        var thisOff := (offset + doneCnt) % PAGE_SIZE;
        var thisCnt := Min(len - doneCnt, PAGE_SIZE - thisOff);
        var mapped := Kmap();
        if !mapped {
          return -ENOMEM, doneCnt;
        }
        var dskMem := page * PAGE_SIZE + thisOff;
        CarriedOn(write, group0.data, offset, buf0, bufOff, doneCnt, thisCnt);
        Memcpy(g, dskMem, buf, bufOff + doneCnt, thisCnt, write);
        Kunmap();
        doneCnt := doneCnt + thisCnt;
      }
      return 0, doneCnt;
    }

    /** The copy within one mapped page, in the direction of the request. */
    method Memcpy(g: nat, dskMem: nat, buf: array<Byte>, at: nat, cnt: nat, write: bool)
      requires g in store.mem && dskMem + cnt <= |store.mem[g].data| && at + cnt <= buf.Length
      modifies `store, buf
      ensures var r := Carried(write, old(store.mem[g].data), dskMem, old(buf[..]), at, cnt);
              store == WithData(old(store), g, r.0) && buf[..] == r.1
    {
      if !write {
        forall i | 0 <= i < cnt {
          buf[at + i] := store.mem[g].data[dskMem + i];
        }
        assert store.mem == store.mem[g := store.mem[g]];
      } else {
        var data := Splice(store.mem[g].data, dskMem, buf[at..at + cnt]);
        store := store.(mem := store.mem[g := store.mem[g].(data := data)]);
      }
    }

    /** memset of a stretch of the caller's buffer to zero. */
    method ClearBuf(buf: array<Byte>, to: nat, cnt: nat)
      requires to + cnt <= buf.Length
      modifies buf
      ensures buf[..] == Splice(old(buf[..]), to, seq(cnt, _ => 0))
    {
      forall i | 0 <= i < cnt {
        buf[to + i] := 0;
      }
    }

    /**
     * One pass of simp_blkdev_trans under the data lock: `cnt` bytes at `pos`, all in
     * one segment. `did` bytes were moved before a failure, all of them otherwise.
     */
    method TransSegment(pos: nat, buf: array<Byte>, bufOff: nat, cnt: nat, write: bool)
      returns (ret: int, ghost did: nat)
      requires Valid()
      requires 0 < cnt && pos % SEG_SIZE + cnt <= SEG_SIZE && bufOff + cnt <= buf.Length
      modifies `store, `nextGroup, `kmaps, `failures, buf
      ensures FailedWith(old(failures), ret)
      ensures Valid() && did <= cnt && kmaps == old(kmaps)
      ensures (ret == 0 || ret == -ENOMEM || ret == -EIO) && (ret == 0 <==> did == cnt)
      ensures Moved(write, old(store), store, pos, old(buf[..]), buf[..], bufOff, did)
      ensures Grew(old(store), store, pos / SEG_SIZE) && EndsAPage(pos, did, cnt)
    {
      hide Moved, Carried, Splice, Wrote, ByteAt;
      ghost var s0, buf0 := store, buf[..];
      var seg := pos / SEG_SIZE;
      if seg !in store.tree && !write {
        HoleMoved(store, pos, buf[..], bufOff, cnt);
        ClearBuf(buf, bufOff, cnt);
        return 0, cnt;
      }
      MovedNothing(write, store, pos, buf[..], bufOff);
      if seg !in store.tree {
        ret := AddSegment(seg);
        if ret != 0 {
          return ret, 0;
        }
      }
      ghost var s1 := store;
      var g := store.tree[seg];
      var err: int;
      err, did := TransOneSeg(g, pos % SEG_SIZE, buf, bufOff, cnt, write);
      SegmentMoved(write, s1, pos, buf0, bufOff, did);
      if seg !in s0.tree {
        NewThenMoved(s0, s1, store, pos, buf0, buf[..], bufOff, did);
      }
      SamePlaceInPage(pos, did);
      ret := if err != 0 then -EIO else 0;
    }

    /** A write to a segment without pages: allocate zeroed pages and link them in the tree. */
    method AddSegment(seg: nat) returns (ret: int)
      requires Valid() && seg !in store.tree
      modifies `store, `nextGroup, `failures
      ensures FailedWith(old(failures), ret)
      ensures Valid() && (ret == 0 || ret == -ENOMEM || ret == -EIO)
      ensures ret == 0 ==> Grew(old(store), store, seg) && seg in store.tree && Wrote(old(store), store, 0, [])
      ensures ret != 0 ==> store == old(store)
    {
      ghost var s0 := store;
      var group := AllocPages(seg);
      if group.None? {
        return -ENOMEM;
      }
      var inserted := RadixTreeInsert(seg, group.value);
      if !inserted {
        FreePages(group.value);
        assert store.mem == s0.mem;
        return -EIO;
      }
      NewSegment(s0, seg, group.value);
      return 0;
    }

    /** simp_blkdev_trans: move `len` bytes at `dskOffset`, one locked segment at a time. */
    method Trans(dskOffset: nat, buf: array<Byte>, bufOff: nat, len: nat, write: bool)
      returns (ret: int, ghost did: nat)
      requires Valid() && bufOff + len <= buf.Length
      requires dskOffset < TWO64 && len < TWO32
      modifies `store, `nextGroup, `kmaps, `failures, buf
      ensures FailedWith(old(failures), ret)
      ensures Valid() && did <= len && kmaps == old(kmaps)
      ensures (ret == 0 || ret == -ENOMEM || ret == -EIO) && (ret == 0 <==> did == len)
      ensures EndsAPage(dskOffset, did, len)
      ensures MovedAround(write, old(store), store, dskOffset, old(buf[..]), buf[..], bufOff, did)
    {
      hide Moved, MovedAround, Grew, ChunkLen, DiskStore.Valid, Valid, EndsAPage;
      ghost var s0, buf0 := store, buf[..];
      NotMoved(write, s0, dskOffset, buf0, bufOff);
      var doneCnt := 0;
      while doneCnt < len
        invariant Valid() && doneCnt <= len && kmaps == old(kmaps) && failures == old(failures)
        invariant doneCnt == 0 || doneCnt == len || (dskOffset + doneCnt) % SEG_SIZE == 0
        invariant MovedAround(write, s0, store, dskOffset, buf0, buf[..], bufOff, doneCnt)
      {
        var at := (dskOffset + doneCnt) % TWO64;
        var thisCnt := ChunkLen(at, len - doneCnt);
        ghost var s1, buf1 := store, buf[..];
        assert MovedAround(write, s0, s1, dskOffset, buf0, buf1, bufOff, doneCnt);
        var err, n := TransSegment(at, buf, bufOff + doneCnt, thisCnt, write);
        ChunkFits(at, n);
        PagesOn(dskOffset, doneCnt, len, n);
        AroundOn(write, s0, s1, store, dskOffset, buf0, buf1, buf[..], bufOff, doneCnt, n);
        if err != 0 {
          return err, doneCnt + n;
        }
        doneCnt := doneCnt + thisCnt;
      }
      AllOfThem(dskOffset, len);
      return 0, doneCnt;
    }

    /** simp_blkdev_trans on the mapped page of piece `k`, seen from the page and from the whole bio. */
    method TransMapped(vecs: seq<BioVec>, k: nat, dskOffset: nat, write: bool) returns (ret: int, ghost did: nat)
      requires Valid() && WellFormed(vecs) && k < |vecs|
      requires dskOffset < TWO64 && vecs[k].len < TWO32
      modifies `store, `nextGroup, `kmaps, `failures, vecs[k].page
      ensures Valid() && did <= vecs[k].len && (ret == 0 <==> did == vecs[k].len) && kmaps == old(kmaps)
      ensures FailedWith(old(failures), ret)
      ensures !write ==> store == old(store) && PieceRead(old(vecs[k].page[..]), vecs[k], dskOffset, did)
      ensures write || Disjoint(vecs) ==>
        MovedAround(write, old(store), store, dskOffset, old(Payload(vecs)), Payload(vecs), Total(vecs[..k]), did)
    {
      hide Concat, Moved, MovedAround, Total, DiskStore.Valid, Disjoint, Splice;
      var v := vecs[k];
      ghost var s0, p0, page0 := store, Pieces(vecs), v.page[..];
      PiecesFront(vecs, k);
      ret, did := Trans(dskOffset, v.page, v.offset, v.len, write);
      if !write {
        AroundRead(s0, store, dskOffset, page0, v.page[..], v.offset, did);
      }
      ghost var x := v.page[..][v.offset..v.offset + v.len];
      PieceAround(write, s0, store, dskOffset, page0, v.page[..], v.offset, v.len, did);
      AroundInside(write, s0, store, dskOffset, page0, v.page[..], v.offset, did);
      assert write || Disjoint(vecs) ==> Pieces(vecs) == p0[k := x] by {
        forall j | 0 <= j < |vecs| && j != k && (write || Disjoint(vecs))
          ensures Pieces(vecs)[j] == p0[j]
        {
          OthersUntouched(write, vecs, k, j, p0, page0);
        }
      }
      ConcatAround(write, s0, store, dskOffset, p0, k, x, did);
    }

    /** The page of piece `v` after a read of `did` bytes into it. */
    ghost predicate PieceRead(page0: seq<Byte>, v: BioVec, dskOffset: nat, did: nat)
      reads `store, v.page
    {
      && v.offset + did <= |page0|
      && v.page[..] == Splice(page0, v.offset, ReadAround(store, dskOffset, did))
    }

    /** No byte of piece `k` is moved. */
    lemma NothingMoved(vecs: seq<BioVec>, k: nat, dskOffset: nat, write: bool)
      requires WellFormed(vecs) && k < |vecs| && dskOffset < TWO64
      ensures PieceRead(vecs[k].page[..], vecs[k], dskOffset, 0)
      ensures MovedAround(write, store, store, dskOffset, Payload(vecs), Payload(vecs), Total(vecs[..k]), 0)
    {
      hide Concat, Moved, MovedAround, Total;
      PiecesFront(vecs, k);
      ConcatUpdate(Pieces(vecs), k, Pieces(vecs)[k]);
      NotMoved(write, store, dskOffset, Payload(vecs), Total(vecs[..k]));
      assert ReadAround(store, dskOffset, 0) == [];
    }

    /**
     * The pass of simp_blkdev_make_request over piece `k`. `crashed` says that the driver went on
     * with a stray pointer; what follows is not modelled. The page stays mapped if the transfer
     * fails.
     */
    method TransPiece(vecs: seq<BioVec>, k: nat, dskOffset: nat, write: bool, pageMaps: nat -> bool)
      returns (ret: int, ghost did: nat, crashed: bool)
      requires Valid() && WellFormed(vecs) && k < |vecs|
      requires dskOffset < TWO64 && vecs[k].len < TWO32
      modifies `store, `nextGroup, `kmaps, `failures, vecs[k].page
      ensures crashed <==> Missed(vecs, pageMaps, k)
      ensures Valid() && did <= vecs[k].len && (ret == 0 || ret == -EIO) && (ret == 0 ==> did == vecs[k].len)
      ensures !pageMaps(k) ==> did == 0 && (ret == 0 <==> vecs[k].len == 0 && vecs[k].offset > 0)
      ensures kmaps == old(kmaps) + (if pageMaps(k) then 1 else 0) - (if ret == 0 then 1 else 0)
      ensures ret != 0 && pageMaps(k) <==> failures != old(failures)
      ensures !write ==> store == old(store) && PieceRead(old(vecs[k].page[..]), vecs[k], dskOffset, did)
      ensures write || Disjoint(vecs) ==>
        MovedAround(write, old(store), store, dskOffset, old(Payload(vecs)), Payload(vecs), Total(vecs[..k]), did)
    {
      hide MovedAround, Concat, Total, DiskStore.Valid, Disjoint, PieceRead;
      var v := vecs[k];
      NothingMoved(vecs, k, dskOffset, write);
      if pageMaps(k) {
        kmaps := kmaps + 1;
      } else if v.offset == 0 {
        return -EIO, 0, false;
      } else if v.len > 0 {
        return -EIO, 0, true;
      }
      assert Pieces(vecs) == old(Pieces(vecs));
      var err: int;
      err, did := TransMapped(vecs, k, dskOffset, write);
      if err != 0 {
        return -EIO, did, false;
      }
      ghost var pieces := Pieces(vecs);
      Kunmap();
      assert Pieces(vecs) == pieces;
      return 0, did, false;
    }

    /** The same, with what a read has left in memory so far. */
    method PieceShown(vecs: seq<BioVec>, k: nat, pos: nat, dskOffset: nat, write: bool, pageMaps: nat -> bool)
      returns (ret: int, ghost did: nat, crashed: bool)
      requires Valid() && WellFormed(vecs) && k < |vecs| && pos < TWO64 && vecs[k].len < TWO32
      requires dskOffset == (pos + Total(vecs[..k])) % TWO64
      requires !write ==> MemoryShows(store, vecs, pos, k, k)
      modifies `store, `nextGroup, `kmaps, `failures, vecs[k].page
      ensures crashed <==> Missed(vecs, pageMaps, k)
      ensures Valid() && did <= vecs[k].len && (ret == 0 || ret == -EIO) && (ret == 0 ==> did == vecs[k].len)
      ensures !pageMaps(k) ==> did == 0 && (ret == 0 <==> vecs[k].len == 0 && vecs[k].offset > 0)
      ensures kmaps == old(kmaps) + (if pageMaps(k) then 1 else 0) - (if ret == 0 then 1 else 0)
      ensures ret != 0 && pageMaps(k) <==> failures != old(failures)
      ensures !write ==>
        store == old(store) && MemoryShows(store, vecs, pos, if ret == 0 then k + 1 else k, k + 1)
      ensures write || Disjoint(vecs) ==>
        MovedAround(write, old(store), store, dskOffset, old(Payload(vecs)), Payload(vecs), Total(vecs[..k]), did)
    {
      hide MovedAround, Payload, Total, Disjoint, DiskStore.Valid, ByteAt, Missed, LastPieceShows, Splice;
      ghost var mem := Memory(vecs);
      ret, did, crashed := TransPiece(vecs, k, dskOffset, write, pageMaps);
      if !write {
        PieceShows(store, vecs, mem, Memory(vecs), pos, k, did);
      }
    }

    /**
     * The loop of simp_blkdev_make_request over the pieces, which ends before piece `at`: what
     * it moved, what stays mapped, and what a read leaves in memory.
     */
    method TransPieces(vecs: seq<BioVec>, pos: nat, write: bool, pageMaps: nat -> bool)
      returns (ret: int, ghost did: nat, crashed: bool, ghost at: nat)
      requires Valid() && WellFormed(vecs) && pos < TWO64 && Total(vecs) < TWO32
      modifies `store, `nextGroup, `kmaps, `failures, Pages(vecs)
      ensures Valid() && (ret == 0 || ret == -EIO) && did <= Total(vecs) && (ret == 0 ==> did == Total(vecs))
      ensures EndsAt(vecs, pageMaps, ret, did, crashed, at)
      ensures kmaps == old(kmaps) + (if at < |vecs| && pageMaps(at) then 1 else 0) - Unmapped(pageMaps, at)
      ensures at < |vecs| && pageMaps(at) <==> failures != old(failures)
      ensures !write ==>
        store == old(store) && MemoryShows(store, vecs, pos, at, if at < |vecs| then at + 1 else at)
      ensures write || Disjoint(vecs) ==>
        MovedAround(write, old(store), store, pos, old(Payload(vecs)), Payload(vecs), 0, did)
    {
      hide MovedAround, Payload, Total, Disjoint, DiskStore.Valid, MemoryShows, WellFormed, Missed;
      ghost var s0, b0 := store, Payload(vecs);
      NotMoved(write, s0, pos, b0, 0);
      var dskOffset := pos;
      TotalStart(vecs);
      NothingShown(store, vecs, pos);
      for k := 0 to |vecs|
        invariant Valid() && Total(vecs[..k]) <= Total(vecs) && dskOffset == (pos + Total(vecs[..k])) % TWO64
        invariant write || Disjoint(vecs) ==>
          MovedAround(write, s0, store, pos, b0, Payload(vecs), 0, Total(vecs[..k]))
        invariant !write ==> store == s0 && MemoryShows(s0, vecs, pos, k, k)
        invariant PassedBy(vecs, pageMaps, k)
        invariant kmaps == old(kmaps) - Unmapped(pageMaps, k) && failures == old(failures)
      {
        TotalSplit(vecs, k);
        did, at := Total(vecs[..k]), k;
        ghost var s1, b1 := store, Payload(vecs);
        var err, n, stray := PieceShown(vecs, k, pos, dskOffset, write, pageMaps);
        if write || Disjoint(vecs) {
          AroundJoin(write, s0, s1, store, pos, b0, b1, Payload(vecs), 0, did, n);
        }
        if err != 0 {
          return -EIO, did + n, stray, k;
        }
        dskOffset := (dskOffset + vecs[k].len) % TWO64;
      }
      return 0, Total(vecs), false, |vecs|;
    }

    /**
     * simp_blkdev_make_request: the value handed to bio_endio, and how many bytes moved;
     * `pageMaps(k)` says whether the page of piece `k` can be mapped. Positions are 64-bit
     * words, sizes 32-bit words.
     */
    method MakeRequest(capacity: nat, rw: Rw, sector: nat, size: nat, vecs: seq<BioVec>, pageMaps: nat -> bool)
      returns (status: int, ghost did: nat, crashed: bool, ghost at: nat)
      requires Valid()
      requires size < TWO32 && WellFormed(vecs) && Total(vecs) == size
      modifies `store, `nextGroup, `kmaps, `failures, Pages(vecs)
      ensures Valid() && (status == 0 || status == -EIO)
      // refused: nothing happens
      ensures rw.Unknown? || !RangeOk(sector, size, capacity) ==>
        && status == -EIO && did == 0 && !crashed && kmaps == old(kmaps) && failures == old(failures)
        && store == old(store) && Pieces(vecs) == old(Pieces(vecs))
      // otherwise it ends before piece `at`, whose page stays mapped if it was
      ensures !rw.Unknown? && RangeOk(sector, size, capacity) ==>
        && EndsAt(vecs, pageMaps, status, did, crashed, at)
        && kmaps == old(kmaps) + (if at < |vecs| && pageMaps(at) then 1 else 0) - Unmapped(pageMaps, at)
        && (at < |vecs| && pageMaps(at) <==> failures != old(failures))
      // the bytes: one contiguous access, from the last position on to the first
      ensures did <= size && (status == 0 ==> did == size)
      ensures rw.Write? || Disjoint(vecs) ==>
        MovedAround(rw.Write?, old(store), store, (sector * SECTOR_SIZE) % TWO64,
                    old(Payload(vecs)), Payload(vecs), 0, did)
      // a read into memory that pieces share: the last piece shows
      ensures !rw.Write? ==> store == old(store)
      ensures !rw.Write? && !rw.Unknown? && RangeOk(sector, size, capacity) ==>
        MemoryShows(store, vecs, (sector * SECTOR_SIZE) % TWO64, at, if at < |vecs| then at + 1 else at)
      // for an end that does not wrap around, inside the device
      ensures sector * SECTOR_SIZE + size < TWO64 ==>
        && (rw.Write? || Disjoint(vecs) ==>
              Moved(rw.Write?, old(store), store, sector * SECTOR_SIZE, old(Payload(vecs)), Payload(vecs), 0, did))
        && (status == 0 || did > 0 ==> sector * SECTOR_SIZE + size <= capacity)
    {
      hide Moved, MovedAround, Payload, Total, RangeOk, Disjoint, DiskStore.Valid, WellFormed, Missed, EndsAt;
      hide MemoryShows, Unmapped;
      var pos := (sector * SECTOR_SIZE) % TWO64;
      ghost var s0, b0 := store, Payload(vecs);
      NotMoved(rw.Write?, s0, pos, b0, 0);
      Straight(rw.Write?, s0, s0, sector, size, capacity, b0, b0, 0);
      if rw.Unknown? || !RangeOk(sector, size, capacity) {
        return -EIO, 0, false, 0;
      }
      status, did, crashed, at := TransPieces(vecs, pos, rw.Write?, pageMaps);
      if rw.Write? || Disjoint(vecs) {
        Straight(rw.Write?, s0, store, sector, size, capacity, b0, Payload(vecs), did);
      }
    }

    /** radix_tree_gang_lookup: the smallest keys from `from` on, ascending, `max` at most. */
    method RadixTreeGangLookup(from: nat, max: nat) returns (keys: seq<nat>)
      ensures IsGang(store.tree.Keys, from, max, keys)
    {
      keys := [];
      var rest := set k | k in store.tree && from <= k;
      while |keys| < max && rest != {}
        invariant |keys| <= max && Ascending(keys)
        invariant forall k :: k in keys ==> k in store.tree && from <= k
        invariant forall k :: k in rest <==> k in store.tree && from <= k && k !in keys
        invariant forall i, k :: 0 <= i < |keys| && k in rest ==> keys[i] < k
        decreases rest
      {
        var least :| least in rest;
        var todo := rest - {least};
        while todo != {}
          invariant todo <= rest && least in rest
          invariant forall k :: k in rest && k !in todo ==> least <= k
          decreases todo
        {
          var k :| k in todo;
          least := if k < least then k else least;
          todo := todo - {k};
        }
        keys := keys + [least];
        rest := rest - {least};
      }
    }

    /** Unlink a segment by the index in its first page, and give its pages back. */
    method DropSegment(key: nat) returns (index: nat, g: nat)
      requires DiskStore.Valid(store) && key in store.tree
      modifies `store
      ensures index == key && g == old(store.tree)[key] && g in old(store.mem)
      ensures DiskStore.Valid(store)
      ensures store == Store(old(store.mem) - {g}, old(store.tree) - {key})
    {
      g := store.tree[key];
      index := store.mem[g].index;
      RemoveSegment(store, key);
      store := store.(tree := store.tree - {index});
      FreePages(g);
    }

    /** The inner loop of free_diskmem: the segments that a lookup has found. */
    method FreeGang(seglist: seq<nat>, ghost all: set<nat>, ghost before: seq<nat>)
      returns (last: nat, ghost freed: seq<nat>)
      requires DiskStore.Valid(store) && Ascending(seglist) && forall k :: k in seglist ==> k in store.tree
      requires FreedOnce(all, store.mem.Keys, before)
      modifies `store
      ensures DiskStore.Valid(store) && FreedOnce(all, store.mem.Keys, freed)
      ensures forall k :: k in store.tree <==> k in old(store.tree) && k !in seglist
      ensures seglist != [] ==> last == seglist[|seglist| - 1]
    {
      hide FreedOnce, DiskStore.Valid;
      freed, last := before, 0;
      for i := 0 to |seglist|
        invariant DiskStore.Valid(store) && FreedOnce(all, store.mem.Keys, freed)
        invariant forall k :: k in store.tree <==> k in old(store.tree) && k !in seglist[..i]
        invariant i > 0 ==> last == seglist[i - 1]
      {
        ghost var live := store.mem.Keys;
        var index, g := DropSegment(seglist[i]);
        FreeOne(all, live, freed, g);
        last := index;
        freed := freed + [g];
      }
    }

    /** free_diskmem: `freed` lists the groups given back, in order. */
    method FreeDiskmem() returns (ghost freed: seq<nat>)
      requires Valid()
      modifies `store
      ensures store == Store(map[], map[])
      ensures NoDuplicates(freed) && (forall g :: g in freed <==> g in old(store.mem))
    {
      hide FreedOnce, NoDuplicates, DiskStore.Valid;
      freed := [];
      NoneFreed(store.mem.Keys);
      var nextSeg := 0;
      var listcnt := GANG;
      while listcnt == GANG
        invariant DiskStore.Valid(store) && FreedOnce(old(store.mem).Keys, store.mem.Keys, freed)
        invariant forall k :: k in store.tree ==> nextSeg <= k
        invariant listcnt <= GANG && (listcnt < GANG ==> store.tree == map[])
        decreases store.tree.Keys, listcnt == GANG
      {
        var seglist := RadixTreeGangLookup(nextSeg, GANG);
        listcnt := |seglist|;
        ghost var keys0 := store.tree.Keys;
        var last;
        last, freed := FreeGang(seglist, old(store.mem).Keys, freed);
        if listcnt > 0 {
          assert seglist[0] in keys0 && seglist[0] !in store.tree;
          nextSeg := last;
        }
        nextSeg := nextSeg + 1;
      }
      NoTreeNoGroups(store);
      assert store.mem.Keys == {};
      AllFreed(old(store.mem).Keys, freed);
    }
  }
}
