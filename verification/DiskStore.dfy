/**
 * The storage of the RAM disk: page groups of four pages, found through a radix
 * tree by segment number, and the flat byte array that they stand for.
 */
module DiskStore {
  import opened Base

  const PAGE_SIZE: nat := 4096
  const SEG_SIZE: nat := 16384 // PAGE_SIZE << SIMP_BLKDEV_DATASEGORDER
  const TWO64: nat := 0x1_0000_0000_0000_0000

  /** A page group: the segment number kept in its first page, and its bytes. */
  datatype Group = Group(index: nat, data: seq<Byte>)

  /** `mem` holds the live page groups by identity, `tree` the radix tree. */
  datatype Store = Store(mem: map<nat, Group>, tree: map<nat, nat>)

  /**
   * Every tree entry leads to a live group that carries its key, and every live
   * group is found under its own index: no group is leaked, and no segment has two.
   */
  ghost predicate Valid(s: Store)
  {
    && (forall k :: k in s.tree ==> s.tree[k] in s.mem && s.mem[s.tree[k]].index == k)
    && (forall g :: g in s.mem ==> s.mem[g].index in s.tree && s.tree[s.mem[g].index] == g)
    && (forall g :: g in s.mem ==> |s.mem[g].data| == SEG_SIZE)
  }

  /** The flat view: an unallocated segment reads as zeros. */
  function ByteAt(s: Store, i: nat): Byte
  {
    var k := i / SEG_SIZE;
    if k in s.tree && s.tree[k] in s.mem && i % SEG_SIZE < |s.mem[s.tree[k]].data| then
      s.mem[s.tree[k]].data[i % SEG_SIZE]
    else
      0
  }

  function ReadBack(s: Store, pos: nat, n: nat): (r: seq<Byte>)
    ensures |r| == n
    ensures forall i :: 0 <= i < n ==> r[i] == ByteAt(s, pos + i)
  {
    seq<Byte>(n, i requires 0 <= i < n => ByteAt(s, pos + i))
  }

  /** `b` laid over `d` from offset `o` on. */
  function Splice(d: seq<Byte>, o: nat, b: seq<Byte>): (r: seq<Byte>)
    requires o + |b| <= |d|
    ensures |r| == |d|
  {
    d[..o] + b + d[o + |b|..]
  }

  /** Copying two consecutive stretches is copying both at once. */
  lemma SpliceOn(d: seq<Byte>, o: nat, from: seq<Byte>, p: nat, done: nat, more: nat)
    requires o + done + more <= |d| && p + done + more <= |from|
    ensures Splice(Splice(d, o, from[p..p + done]), o + done, from[p + done..p + done + more])
         == Splice(d, o, from[p..p + done + more])
  {
  }

  /** `n` bytes exchanged between pages `d` at `o` and a buffer `b` at `p`: both afterwards. */
  function Carried(write: bool, d: seq<Byte>, o: nat, b: seq<Byte>, p: nat, n: nat): (r: (seq<Byte>, seq<Byte>))
    requires o + n <= |d| && p + n <= |b|
    ensures |r.0| == |d| && |r.1| == |b|
  {
    if write then (Splice(d, o, b[p..p + n]), b) else (d, Splice(b, p, d[o..o + n]))
  }

  lemma CarriedNothing(write: bool, d: seq<Byte>, o: nat, b: seq<Byte>, p: nat)
    requires o <= |d| && p <= |b|
    ensures Carried(write, d, o, b, p, 0) == (d, b)
  {
    assert Splice(d, o, b[p..p]) == d;
    assert Splice(b, p, d[o..o]) == b;
  }

  lemma CarriedOn(write: bool, d: seq<Byte>, o: nat, b: seq<Byte>, p: nat, done: nat, more: nat)
    requires o + done + more <= |d| && p + done + more <= |b|
    ensures var r := Carried(write, d, o, b, p, done);
            Carried(write, r.0, o + done, r.1, p + done, more) == Carried(write, d, o, b, p, done + more)
  {
    if write {
      SpliceOn(d, o, b, p, done, more);
    } else {
      SpliceOn(b, p, d, o, done, more);
    }
  }

  /** `s'` is `s` with exactly the bytes from `pos` on replaced by `bytes`. */
  ghost predicate Wrote(s: Store, s': Store, pos: nat, bytes: seq<Byte>)
  {
    forall i: nat :: ByteAt(s', i) == if pos <= i < pos + |bytes| then bytes[i - pos] else ByteAt(s, i)
  }

  /**
   * A request moved `n` bytes between the disk at `pos` and a buffer at `p`. A write
   * changes exactly those bytes of the flat view; a read changes no part of the store.
   */
  ghost predicate Moved(write: bool, s: Store, s': Store, pos: nat, b: seq<Byte>, b': seq<Byte>, p: nat, n: nat)
  {
    && p + n <= |b|
    && (if write then b' == b && Wrote(s, s', pos, b[p..p + n]) else s' == s && b' == Splice(b, p, ReadBack(s, pos, n)))
  }

  lemma MovedNothing(write: bool, s: Store, pos: nat, b: seq<Byte>, p: nat)
    requires p <= |b|
    ensures Moved(write, s, s, pos, b, b, p, 0)
  {
  }

  lemma MovedInside(write: bool, s: Store, s': Store, pos: nat, b: seq<Byte>, b': seq<Byte>, p: nat, n: nat)
    requires Moved(write, s, s', pos, b, b', p, n)
    ensures |b'| == |b| && (write ==> b' == b)
    ensures forall i :: 0 <= i < |b| && !(p <= i < p + n) ==> b'[i] == b[i]
  {
  }

  /** Reading two consecutive stretches into a buffer is reading both at once. */
  lemma ReadOn(s: Store, pos: nat, b: seq<Byte>, p: nat, done: nat, more: nat)
    requires p + done + more <= |b|
    ensures Splice(Splice(b, p, ReadBack(s, pos, done)), p + done, ReadBack(s, pos + done, more))
         == Splice(b, p, ReadBack(s, pos, done + more))
  {
    var all := ReadBack(s, pos, done + more);
    assert ReadBack(s, pos, done) == all[0..0 + done];
    assert ReadBack(s, pos + done, more) == all[0 + done..0 + done + more];
    assert all[0..0 + done + more] == all;
    SpliceOn(b, p, all, 0, done, more);
  }

  lemma MovedOn(write: bool, s: Store, s': Store, s'': Store, pos: nat,
    b: seq<Byte>, b': seq<Byte>, b'': seq<Byte>, p: nat, done: nat, more: nat)
    requires Moved(write, s, s', pos, b, b', p, done)
    requires Moved(write, s', s'', pos + done, b', b'', p + done, more)
    ensures Moved(write, s, s'', pos, b, b'', p, done + more)
  {
    if !write {
      ReadOn(s, pos, b, p, done, more);
    }
  }

  /** As `Moved`, for positions that are 64-bit words: from the last one it goes on at 0. */
  ghost predicate MovedAround(write: bool, s: Store, s': Store, pos: nat, b: seq<Byte>, b': seq<Byte>, p: nat, n: nat)
    requires pos < TWO64
  {
    if pos + n <= TWO64 then
      Moved(write, s, s', pos, b, b', p, n)
    else
      exists sm: Store, bm: seq<Byte> :: MovedPast(write, s, sm, s', pos, b, bm, b', p, n)
  }

  /** Up to the last position, and from 0 on. */
  ghost predicate MovedPast(write: bool, s: Store, sm: Store, s': Store, pos: nat,
    b: seq<Byte>, bm: seq<Byte>, b': seq<Byte>, p: nat, n: nat)
    requires pos < TWO64 < pos + n
  {
    && Moved(write, s, sm, pos, b, bm, p, TWO64 - pos)
    && Moved(write, sm, s', 0, bm, b', p + (TWO64 - pos), pos + n - TWO64)
  }

  lemma NotMoved(write: bool, s: Store, pos: nat, b: seq<Byte>, p: nat)
    requires pos < TWO64 && p <= |b|
    ensures MovedAround(write, s, s, pos, b, b, p, 0)
  {
    MovedNothing(write, s, pos, b, p);
  }

  lemma MovedNowhere(write: bool, s: Store, s': Store, pos: nat, pos': nat, b: seq<Byte>, b': seq<Byte>, p: nat)
    requires Moved(write, s, s', pos, b, b', p, 0)
    ensures Moved(write, s, s', pos', b, b', p, 0)
  {
    assert ReadBack(s, pos, 0) == ReadBack(s, pos', 0);
  }

  /** A stretch within the positions, added to what went before. */
  lemma AroundOn(write: bool, s: Store, s': Store, s'': Store, pos: nat,
    b: seq<Byte>, b': seq<Byte>, b'': seq<Byte>, p: nat, done: nat, more: nat)
    requires pos < TWO64 && done + more <= TWO64 && (pos + done) % TWO64 + more <= TWO64
    requires MovedAround(write, s, s', pos, b, b', p, done)
    requires Moved(write, s', s'', (pos + done) % TWO64, b', b'', p + done, more)
    ensures MovedAround(write, s, s'', pos, b, b'', p, done + more)
  {
    hide Moved;
    if pos + done < TWO64 {
      MovedOn(write, s, s', s'', pos, b, b', b'', p, done, more);
    } else if pos + done == TWO64 {
      if more > 0 {
        assert MovedPast(write, s, s', s'', pos, b, b', b'', p, done + more);
      } else {
        MovedNowhere(write, s', s'', 0, pos + done, b', b'', p + done);
        MovedOn(write, s, s', s'', pos, b, b', b'', p, done, 0);
      }
    } else {
      var sm, bm :| MovedPast(write, s, sm, s', pos, b, bm, b', p, done);
      MovedOn(write, sm, s', s'', 0, bm, b', b'', p + (TWO64 - pos), pos + done - TWO64, more);
      assert MovedPast(write, s, sm, s'', pos, b, bm, b'', p, done + more);
    }
  }

  /** Requests on consecutive stretches of positions are one request. */
  lemma AroundJoin(write: bool, s: Store, s': Store, s'': Store, pos: nat,
    b: seq<Byte>, b': seq<Byte>, b'': seq<Byte>, p: nat, done: nat, more: nat)
    requires pos < TWO64 && done + more <= TWO64
    requires MovedAround(write, s, s', pos, b, b', p, done)
    requires MovedAround(write, s', s'', (pos + done) % TWO64, b', b'', p + done, more)
    ensures MovedAround(write, s, s'', pos, b, b'', p, done + more)
  {
    hide Moved;
    var at := (pos + done) % TWO64;
    if at + more <= TWO64 {
      AroundOn(write, s, s', s'', pos, b, b', b'', p, done, more);
    } else {
      var first := TWO64 - at;
      var sm, bm :| MovedPast(write, s', sm, s'', at, b', bm, b'', p + done, more);
      AroundOn(write, s, s', sm, pos, b, b', bm, p, done, first);
      assert (pos + (done + first)) % TWO64 == 0;
      AroundOn(write, s, sm, s'', pos, b, bm, b'', p, done + first, more - first);
    }
  }

  lemma AroundInside(write: bool, s: Store, s': Store, pos: nat, b: seq<Byte>, b': seq<Byte>, p: nat, n: nat)
    requires pos < TWO64 && MovedAround(write, s, s', pos, b, b', p, n)
    ensures |b'| == |b| && (write ==> b' == b)
    ensures forall i :: 0 <= i < |b| && !(p <= i < p + n) ==> b'[i] == b[i]
  {
    hide Moved;
    if pos + n <= TWO64 {
      MovedInside(write, s, s', pos, b, b', p, n);
    } else {
      var sm, bm :| MovedPast(write, s, sm, s', pos, b, bm, b', p, n);
      MovedInside(write, s, sm, pos, b, bm, p, TWO64 - pos);
      MovedInside(write, sm, s', 0, bm, b', p + (TWO64 - pos), pos + n - TWO64);
    }
  }

  /** What a read finds from `pos` on, past the last position from 0 on. */
  function ReadAround(s: Store, pos: nat, n: nat): (r: seq<Byte>)
    ensures |r| == n
    ensures forall i :: 0 <= i < n ==> r[i] == ByteAt(s, (pos + i) % TWO64)
  {
    seq<Byte>(n, i requires 0 <= i < n => ByteAt(s, (pos + i) % TWO64))
  }

  lemma AroundRead(s: Store, s': Store, pos: nat, b: seq<Byte>, b': seq<Byte>, p: nat, n: nat)
    requires pos < TWO64 && n <= TWO64 && MovedAround(false, s, s', pos, b, b', p, n)
    ensures s' == s && p + n <= |b| && b' == Splice(b, p, ReadAround(s, pos, n))
  {
    hide ByteAt, Splice;
    var all := ReadAround(s, pos, n);
    if pos + n <= TWO64 {
      if pos + n < TWO64 || n > 0 {
        assert all == ReadBack(s, pos, n);
      }
    } else {
      var first := TWO64 - pos;
      var sm, bm :| MovedPast(false, s, sm, s', pos, b, bm, b', p, n);
      assert ReadBack(s, pos, first) == all[0..0 + first];
      assert ReadBack(s, 0, n - first) == all[0 + first..0 + first + (n - first)];
      assert all[0..0 + first + (n - first)] == all;
      SpliceOn(b, p, all, 0, first, n - first);
    }
  }

  /** Groups stay where they are, and at most segment `k` is new. */
  ghost predicate Grew(s: Store, s': Store, k: nat)
  {
    && (forall j :: j in s.tree ==> j in s'.tree && s'.tree[j] == s.tree[j])
    && s'.tree.Keys <= s.tree.Keys + {k}
  }

  /** The first chunk of a request of `len` bytes at `pos`: it ends at the segment's end. */
  function ChunkLen(pos: nat, len: nat): (c: nat)
    ensures c <= len && (len > 0 ==> c > 0)
    ensures pos % SEG_SIZE + c <= SEG_SIZE
  {
    Min(len, SEG_SIZE - pos % SEG_SIZE)
  }

  lemma WithinSegment(pos: nat, j: nat)
    requires pos % SEG_SIZE + j < SEG_SIZE
    ensures (pos + j) / SEG_SIZE == pos / SEG_SIZE
    ensures (pos + j) % SEG_SIZE == pos % SEG_SIZE + j
  {
  }

  lemma SamePlace(i: nat, pos: nat)
    requires i / SEG_SIZE == pos / SEG_SIZE
    ensures i - pos == i % SEG_SIZE - pos % SEG_SIZE
  {
  }

  function WithData(s: Store, g: nat, data: seq<Byte>): Store
    requires g in s.mem
  {
    s.(mem := s.mem[g := s.mem[g].(data := data)])
  }

  /** New bytes in a segment's pages are new bytes of the flat view, at the segment's place. */
  lemma SegmentWritten(s: Store, pos: nat, bytes: seq<Byte>)
    requires Valid(s) && pos / SEG_SIZE in s.tree && pos % SEG_SIZE + |bytes| <= SEG_SIZE
    ensures var g := s.tree[pos / SEG_SIZE];
            var s' := WithData(s, g, Splice(s.mem[g].data, pos % SEG_SIZE, bytes));
            Valid(s') && Wrote(s, s', pos, bytes)
  {
    var g := s.tree[pos / SEG_SIZE];
    var s' := WithData(s, g, Splice(s.mem[g].data, pos % SEG_SIZE, bytes));
    forall i: nat
      ensures ByteAt(s', i) == if pos <= i < pos + |bytes| then bytes[i - pos] else ByteAt(s, i)
    {
      if i / SEG_SIZE == pos / SEG_SIZE {
        SamePlace(i, pos);
      }
    }
  }

  /** What a segment's pages hold is what the flat view shows there. */
  lemma SegmentRead(s: Store, pos: nat, n: nat)
    requires Valid(s) && pos / SEG_SIZE in s.tree && pos % SEG_SIZE + n <= SEG_SIZE
    ensures var o := pos % SEG_SIZE;
            ReadBack(s, pos, n) == s.mem[s.tree[pos / SEG_SIZE]].data[o..o + n]
  {
    var d, o := s.mem[s.tree[pos / SEG_SIZE]].data, pos % SEG_SIZE;
    forall i | 0 <= i < n
      ensures ReadBack(s, pos, n)[i] == d[o..o + n][i]
    {
      WithinSegment(pos, i);
    }
  }

  /** Exchanging bytes with the pages of a segment moves exactly those bytes of the flat view. */
  lemma SegmentMoved(write: bool, s: Store, pos: nat, b: seq<Byte>, p: nat, n: nat)
    requires Valid(s) && pos / SEG_SIZE in s.tree
    requires pos % SEG_SIZE + n <= SEG_SIZE && p + n <= |b|
    ensures var g := s.tree[pos / SEG_SIZE];
            var r := Carried(write, s.mem[g].data, pos % SEG_SIZE, b, p, n);
            Valid(WithData(s, g, r.0)) && Moved(write, s, WithData(s, g, r.0), pos, b, r.1, p, n)
  {
    hide Wrote, Splice, ByteAt;
    var g := s.tree[pos / SEG_SIZE];
    if write {
      SegmentWritten(s, pos, b[p..p + n]);
    } else {
      SegmentRead(s, pos, n);
      assert WithData(s, g, s.mem[g].data) == s by {
        assert s.mem[g := s.mem[g]] == s.mem;
      }
    }
  }

  /** A read of a segment that was never written gives zeros. */
  lemma HoleReadsZero(s: Store, pos: nat, n: nat)
    requires pos / SEG_SIZE !in s.tree && pos % SEG_SIZE + n <= SEG_SIZE
    ensures ReadBack(s, pos, n) == seq(n, _ => 0)
  {
  }

  /** Linking a zeroed group under a new segment leaves the flat view as it was. */
  lemma NewSegment(s: Store, k: nat, g: nat)
    requires Valid(s) && k !in s.tree && g !in s.mem
    ensures var s' := Store(s.mem[g := Group(k, seq(SEG_SIZE, _ => 0))], s.tree[k := g]);
            Valid(s') && Grew(s, s', k) && Wrote(s, s', 0, [])
  {
  }

  /** A read of such a segment clears the buffer. */
  lemma HoleMoved(s: Store, pos: nat, b: seq<Byte>, p: nat, n: nat)
    requires pos / SEG_SIZE !in s.tree && pos % SEG_SIZE + n <= SEG_SIZE && p + n <= |b|
    ensures Moved(false, s, s, pos, b, Splice(b, p, seq(n, _ => 0)), p, n)
  {
    hide ByteAt, Splice;
    HoleReadsZero(s, pos, n);
  }

  /** A write after a new segment was linked, seen from before. */
  lemma NewThenMoved(s: Store, s': Store, s'': Store, pos: nat, b: seq<Byte>, b': seq<Byte>, p: nat, n: nat)
    requires Wrote(s, s', 0, []) && Moved(true, s', s'', pos, b, b', p, n)
    ensures Moved(true, s, s'', pos, b, b', p, n)
  {
    hide ByteAt;
  }

  /** Unlinking a segment and freeing its group keeps the rest intact. */
  lemma RemoveSegment(s: Store, k: nat)
    requires Valid(s) && k in s.tree
    ensures Valid(Store(s.mem - {s.tree[k]}, s.tree - {k}))
  {
  }

  lemma NoTreeNoGroups(s: Store)
    requires Valid(s) && s.tree == map[]
    ensures s.mem == map[]
  {
    assert s.mem.Keys == {};
  }

  function Concat(p: seq<seq<Byte>>): seq<Byte>
  {
    if p == [] then [] else Concat(p[..|p| - 1]) + p[|p| - 1]
  }

  lemma SpliceFront(a: seq<Byte>, b: seq<Byte>, at: nat, x: seq<Byte>)
    requires at + |x| <= |a|
    ensures Splice(a + b, at, x) == Splice(a, at, x) + b
    ensures (a + b)[at..at + |x|] == a[at..at + |x|]
  {
  }

  lemma SpliceBack(a: seq<Byte>, b: seq<Byte>, x: seq<Byte>)
    requires |x| == |b|
    ensures Splice(a + b, |a|, x) == a + x
    ensures (a + b)[|a|..|a| + |x|] == b
  {
  }

  /** Replacing a piece by one of its size replaces those bytes of the whole. */
  lemma {:induction false} ConcatUpdate(p: seq<seq<Byte>>, k: nat, x: seq<Byte>)
    requires k < |p| && |x| == |p[k]|
    ensures var at := |Concat(p[..k])|;
            && at + |x| <= |Concat(p)|
            && Concat(p)[at..at + |x|] == p[k]
            && Concat(p[k := x]) == Splice(Concat(p), at, x)
    decreases |p|
  {
    hide Splice;
    var front, last := p[..|p| - 1], p[|p| - 1];
    if k + 1 < |p| {
      ConcatUpdate(front, k, x);
      assert front[..k] == p[..k];
      assert p[k := x][..|p| - 1] == front[k := x];
      SpliceFront(Concat(front), last, |Concat(p[..k])|, x);
    } else {
      assert p[k := x][..|p| - 1] == front == p[..k];
      SpliceBack(Concat(front), last, x);
    }
  }

  lemma SliceOfSlice(d: seq<Byte>, o: nat, len: nat, q: nat, n: nat)
    requires o + len <= |d| && q + n <= len
    ensures d[o..o + len][q..q + n] == d[o + q..o + q + n]
  {
    var slice := d[o..o + len];
    forall i | q <= i < q + n
      ensures slice[i] == d[o + i]
    {
    }
  }

  /** A request on part of a page, seen from the piece that the page contributes. */
  lemma PieceMoved(write: bool, s: Store, s': Store, pos: nat,
    b: seq<Byte>, b': seq<Byte>, o: nat, len: nat, q: nat, n: nat)
    requires o + len <= |b| && q + n <= len && Moved(write, s, s', pos, b, b', o + q, n)
    ensures |b'| == |b| && Moved(write, s, s', pos, b[o..o + len], b'[o..o + len], q, n)
  {
    SliceOfSlice(b, o, len, q, n);
    if !write {
      SpliceWithin(b, o, len, q, ReadBack(s, pos, n));
    }
  }

  lemma SpliceWithin(d: seq<Byte>, o: nat, len: nat, q: nat, r: seq<Byte>)
    requires q + |r| <= len && o + len <= |d|
    ensures Splice(d, o + q, r)[o..o + len] == Splice(d[o..o + len], q, r)
  {
    var whole, part := Splice(d, o + q, r), Splice(d[o..o + len], q, r);
    forall i | 0 <= i < len
      ensures whole[o + i] == part[i]
    {
    }
    assert |whole[o..o + len]| == |part|;
  }

  lemma PieceAround(write: bool, s: Store, s': Store, pos: nat,
    b: seq<Byte>, b': seq<Byte>, o: nat, len: nat, n: nat)
    requires pos < TWO64 && o + len <= |b| && n <= len && MovedAround(write, s, s', pos, b, b', o, n)
    ensures |b'| == |b| && MovedAround(write, s, s', pos, b[o..o + len], b'[o..o + len], 0, n)
  {
    hide Moved;
    if pos + n <= TWO64 {
      PieceMoved(write, s, s', pos, b, b', o, len, 0, n);
    } else {
      var first := TWO64 - pos;
      var sm, bm :| MovedPast(write, s, sm, s', pos, b, bm, b', o, n);
      PieceMoved(write, s, sm, pos, b, bm, o, len, 0, first);
      PieceMoved(write, sm, s', 0, bm, b', o, len, first, n - first);
      assert MovedPast(write, s, sm, s', pos, b[o..o + len], bm[o..o + len], b'[o..o + len], 0, n);
    }
  }

  /** A request on one piece, seen from the whole. */
  lemma ConcatMoved(write: bool, s: Store, s': Store, pos: nat, p: seq<seq<Byte>>, k: nat, x: seq<Byte>, q: nat, n: nat)
    requires k < |p| && |x| == |p[k]| && Moved(write, s, s', pos, p[k], x, q, n)
    ensures Moved(write, s, s', pos, Concat(p), Concat(p[k := x]), |Concat(p[..k])| + q, n)
  {
    hide Splice, Concat, ByteAt;
    ConcatUpdate(p, k, x);
    var at, whole := |Concat(p[..k])|, Concat(p);
    SliceOfSlice(whole, at, |x|, q, n);
    if write {
      assert p[k := x] == p;
    } else {
      SpliceTwice(whole, at, p[k], q, ReadBack(s, pos, n));
    }
  }

  lemma SpliceTwice(d: seq<Byte>, at: nat, x: seq<Byte>, q: nat, r: seq<Byte>)
    requires q + |r| <= |x| && at + |x| <= |d| && d[at..at + |x|] == x
    ensures Splice(d, at, Splice(x, q, r)) == Splice(d, at + q, r)
  {
  }

  lemma ConcatAround(write: bool, s: Store, s': Store, pos: nat, p: seq<seq<Byte>>, k: nat, x: seq<Byte>, n: nat)
    requires pos < TWO64 && k < |p| && |x| == |p[k]| && MovedAround(write, s, s', pos, p[k], x, 0, n)
    ensures MovedAround(write, s, s', pos, Concat(p), Concat(p[k := x]), |Concat(p[..k])|, n)
  {
    hide Moved, Concat;
    var at := |Concat(p[..k])|;
    if pos + n <= TWO64 {
      ConcatMoved(write, s, s', pos, p, k, x, 0, n);
    } else {
      var first := TWO64 - pos;
      var sm, bm :| MovedPast(write, s, sm, s', pos, p[k], bm, x, 0, n);
      MovedInside(write, s, sm, pos, p[k], bm, 0, first);
      ConcatMoved(write, s, sm, pos, p, k, bm, 0, first);
      var p' := p[k := bm];
      assert p'[k := x] == p[k := x] && p'[..k] == p[..k];
      ConcatMoved(write, sm, s', 0, p', k, x, first, n - first);
      assert MovedPast(write, s, sm, s', pos, Concat(p), Concat(p'), Concat(p[k := x]), at, n);
    }
  }
}
