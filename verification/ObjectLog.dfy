/**
 * The object log of src/objectlog.c, on top of the ring buffer. It refines a
 * sequence of byte strings: writing drops the oldest objects and appends one.
 */
module ObjectLog {
  import opened Bytes
  import opened Common
  import opened Ring
  import opened ObjectLogLayout

  // ------------------------------------------------------ sequences of objects

  function Objects(entries: seq<Entry>): (r: seq<seq<byte>>)
    ensures |r| == |entries| && forall i :: 0 <= i < |r| ==> r[i] == Data(entries[i])
  {
    seq(|entries|, i requires 0 <= i < |entries| => Data(entries[i]))
  }

  /** The bytes free in a ring after the first `k` entries have been dropped. */
  function FreeWithout(entries: seq<Entry>, k: nat, size: nat): int
    requires k <= |entries|
  {
    size - TotalFootprint(entries[k..])
  }

  /** `k` is the shortest prefix whose removal frees `needed` bytes, or all entries but the last. */
  ghost predicate ShortestDrop(entries: seq<Entry>, k: nat, needed: nat, size: nat) {
    && (if entries == [] then k == 0 else k < |entries|)
    && (needed <= FreeWithout(entries, k, size) || k == |entries| - 1)
    && forall j :: 0 <= j < k ==> FreeWithout(entries, j, size) < needed
  }

  /** The new entry leaves the last one alone, which is never dropped. */
  predicate FitsBesideLast(entries: seq<Entry>, e: Entry, size: nat) {
    entries == [] || Footprint(entries[|entries| - 1]) + Footprint(e) <= size
  }

  /** After the drop, the kept entries and the new one fit the ring exactly when the last entry and the new one do. */
  lemma FitsIffBesideLast(entries: seq<Entry>, k: nat, needed: nat, e: Entry, size: nat)
    requires ShortestDrop(entries, k, needed, size) && Footprint(e) <= needed <= size
    ensures TotalFootprint(entries[k..]) + Footprint(e) <= size <==> FitsBesideLast(entries, e, size)
    ensures k <= |entries| && (!FitsBesideLast(entries, e, size) ==> entries != [] && k == |entries| - 1)
  {
    if entries != [] {
      var kept := entries[k..];
      LastIsCounted(kept);
      assert kept[|kept| - 1] == entries[|entries| - 1];
      if k == |entries| - 1 {
        TotalOfShort(kept);
      }
    }
  }

  lemma {:induction false} LastIsCounted(entries: seq<Entry>)
    requires entries != []
    ensures Footprint(entries[|entries| - 1]) <= TotalFootprint(entries)
  {
    if |entries| > 1 {
      LastIsCounted(entries[1..]);
    }
  }

  lemma StartOfFirst(p: nat, entries: seq<Entry>, size: nat)
    ensures EndAll(p, entries[..0], size) == p
  {
  }

  lemma {:induction false} DataOfPrefix(e: Entry, j: nat)
    requires j <= |e|
    ensures |Data(e[..j])| <= |Data(e)|
    decreases |e| - j
  {
    if j < |e| {
      DataStep(e, j);
      DataOfPrefix(e, j + 1);
    } else {
      assert e[..j] == e;
    }
  }

  // ------------------------------------------------------ the empty, zeroed log

  /** Zeroed storage reads as empty fragments, none of them final, all the way round. */
  function Zeros(n: nat): Entry {
    if n == 0 then [] else [Fragment([], false)] + Zeros(n - 1)
  }

  lemma {:induction false} ZerosStored(buf: seq<byte>, p: nat)
    requires p < |buf| && forall i :: 0 <= i < |buf| ==> buf[i] == 0
    ensures var e := Zeros(|buf| - p);
      Stored(buf, p, e) && Footprint(e) == |e| == |buf| - p && (forall i :: 0 <= i < |e| ==> !e[i].final)
    decreases |buf| - p
  {
    var e := Zeros(|buf| - p);
    assert e[0] == Fragment([], false) && e[1..] == Zeros(|buf| - p - 1);
    if p + 1 < |buf| {
      ZerosStored(buf, p + 1);
    }
  }

  /**
   * The test of `get_next_entry` for a walk that has come back to its start: it
   * fires at the fragment that completes a full turn, and at no other one,
   * except that a single fragment as long as the ring goes unnoticed.
   */
  lemma WrapDetection(offset: nat, x: nat, y: nat, size: nat)
    requires offset < size && x < y <= size
    requires Forward(offset, x, size) + (y - x) <= size
    ensures var hdrPos := Forward(offset, x, size);
      var next := if hdrPos + (y - x) == size then 0 else hdrPos + (y - x);
      && next == Forward(offset, y, size)
      && (((hdrPos < offset && next >= offset) || (hdrPos > offset && next >= offset && next < hdrPos))
          <==> (y == size && x > 0))
  {
  }

  // --------------------------------------------------------- steps of a write

  /** A write in progress: the buffer before it, where it starts, and the fragments it has to store. */
  datatype Job = Job(buf0: seq<byte>, start: nat, e: Entry)

  /** How far it has come: the fragments `done` are complete, and those in `rest` follow from position `h` on. */
  datatype Cursor = Cursor(h: nat, done: Entry, rest: Entry)

  /** Nothing has changed but the `n` bytes from `start` on. */
  ghost predicate Untouched(buf0: seq<byte>, buf: seq<byte>, start: nat, n: nat) {
    |buf| == |buf0| && forall x :: 0 <= x < |buf| && Dist(start, x, |buf|) >= n ==> buf[x] == buf0[x]
  }

  ghost predicate Written(job: Job, buf: seq<byte>, cur: Cursor) {
    && job.start < |buf| && cur.h < |buf| && Footprint(job.e) <= |buf|
    && Stored(buf, job.start, cur.done) && cur.h == End(job.start, cur.done, |buf|)
    && job.e == cur.done + cur.rest
    && Untouched(job.buf0, buf, job.start, Footprint(job.e))
  }

  lemma {:induction false} FootprintConcat(a: Entry, b: Entry)
    ensures Footprint(a + b) == Footprint(a) + Footprint(b)
  {
    if a == [] {
      assert a + b == b;
    } else {
      assert (a + b)[1..] == a[1..] + b;
      FootprintConcat(a[1..], b);
    }
  }

  /** Filling in the next fragment touches neither the finished ones nor anything outside the object. */
  lemma WriteInside(job: Job, buf: seq<byte>, buf': seq<byte>, cur: Cursor)
    requires Written(job, buf, cur) && cur.rest != [] && |buf'| == |buf|
    requires cur.h + 1 + |cur.rest[0].data| <= |buf|
    requires forall x :: 0 <= x < |buf| && !(cur.h <= x <= cur.h + |cur.rest[0].data|) ==> buf'[x] == buf[x]
    ensures Written(job, buf', cur)
  {
    FootprintConcat(cur.done, cur.rest);
    EndIsForward(buf, job.start, cur.done);
    forall x | 0 <= x < |buf| && Dist(job.start, x, |buf|) < Footprint(cur.done)
      ensures buf'[x] == buf[x]
    {
    }
    StoredFrame(buf, buf', job.start, cur.done);
    forall x | 0 <= x < |buf| && Dist(job.start, x, |buf|) >= Footprint(job.e)
      ensures buf'[x] == job.buf0[x]
    {
    }
  }

  /** The cursor behind the next fragment. */
  function Advance(cur: Cursor, size: nat): Cursor
    requires cur.rest != []
  {
    Cursor(After(cur.h, cur.rest[0], size), cur.done + [cur.rest[0]], cur.rest[1..])
  }

  /** A completed fragment joins the finished ones. */
  lemma CloseFragment(job: Job, buf: seq<byte>, cur: Cursor)
    requires Written(job, buf, cur) && cur.rest != [] && FragmentAt(buf, cur.h, cur.rest[0])
    ensures Written(job, buf, Advance(cur, |buf|))
  {
    StoredSnoc(buf, job.start, cur.done, cur.rest[0]);
    assert cur.rest == [cur.rest[0]] + cur.rest[1..];
  }

  /** The header of fragment `f` and its first `n` bytes are in place at `h`. */
  ghost predicate OpenAt(buf: seq<byte>, h: nat, f: Fragment, n: nat) {
    && h + 1 + |f.data| <= |buf| && n <= |f.data| <= MAX_FRAGMENT_LEN
    && buf[h] == Header(|f.data|, f.final)
    && buf[h + 1..h + 1 + n] == f.data[..n]
  }

  /** The next bytes of an open fragment. */
  lemma ExtendOpen(buf: seq<byte>, buf': seq<byte>, h: nat, f: Fragment, n: nat, piece: seq<byte>)
    requires OpenAt(buf, h, f, n) && n + |piece| <= |f.data| && piece == f.data[n..n + |piece|]
    requires buf' == if piece == [] then buf else buf[..h + 1 + n] + piece + buf[h + 1 + n + |piece|..]
    ensures OpenAt(buf', h, f, n + |piece|)
  {
  }

  /** The write pointer behind `n` bytes of the fragment at `h`. */
  function Behind(h: nat, n: nat, size: nat): nat {
    if h + 1 + n == size then 0 else h + 1 + n
  }

  /**
   * Between turns, with the write pointer at `wp`: either no fragment is open,
   * or `fo` bytes of the next one are written.
   */
  ghost predicate Writing(job: Job, buf: seq<byte>, wp: nat, cur: Cursor, fo: nat, fl: nat) {
    && Written(job, buf, cur)
    && (fo == 0 ==> wp == cur.h)
    && (fo > 0 ==>
          && cur.rest != [] && fo < fl == Capacity(|buf|, cur.h)
          && wp == Behind(cur.h, fo, |buf|)
          && OpenAt(buf, cur.h, cur.rest[0], fo))
  }

  /** What is left of a scatter list from byte `off` of chunk `j` on. */
  function Remaining(scatter: seq<seq<byte>>, j: nat, off: nat): seq<byte>
    requires j <= |scatter| && (j < |scatter| ==> off <= |scatter[j]|)
  {
    if j == |scatter| then [] else scatter[j][off..] + Concat(scatter[j + 1..])
  }

  lemma RemainingNextChunk(scatter: seq<seq<byte>>, j: nat)
    requires j < |scatter|
    ensures Remaining(scatter, j, |scatter[j]|) == Remaining(scatter, j + 1, 0)
  {
  }

  lemma RemainingAtStart(scatter: seq<seq<byte>>)
    ensures Remaining(scatter, 0, 0) == Concat(scatter)
  {
  }

  lemma RemainingAtEnd(scatter: seq<seq<byte>>)
    ensures Remaining(scatter, |scatter|, 0) == []
  {
  }

  lemma StartWriting(job: Job, data: seq<byte>)
    requires 2 <= |job.buf0| && job.start < |job.buf0| && Footprint(job.e) <= |job.buf0|
    requires job.e == Split(|job.buf0|, job.start, data)
    ensures Writing(job, job.buf0, job.start, Cursor(job.start, [], job.e), 0, 0)
    ensures Planned(|job.buf0|, Cursor(job.start, [], job.e), 0, data)
  {
  }

  /** What is copied of a chunk continues the fragment. */
  lemma PieceOfFragment(data: seq<byte>, fo: nat, left: seq<byte>, chunk: seq<byte>, wl: nat)
    requires fo + wl <= |data| && data[fo..] <= left && chunk <= left && wl <= |chunk|
    ensures chunk[..wl] == data[fo..fo + wl]
  {
  }

  /** The first `wl` bytes left are taken from the current chunk. */
  lemma TakeFromChunk(scatter: seq<seq<byte>>, j: nat, off: nat, wl: nat)
    requires j < |scatter| && off + wl <= |scatter[j]|
    ensures scatter[j][off..] <= Remaining(scatter, j, off)
    ensures wl <= |Remaining(scatter, j, off)| && Remaining(scatter, j, off + wl) == Remaining(scatter, j, off)[wl..]
  {
    var chunk, tail := scatter[j], Concat(scatter[j + 1..]);
    assert chunk[off..] == chunk[off..off + wl] + chunk[off + wl..];
    assert Remaining(scatter, j, off) == chunk[off..off + wl] + (chunk[off + wl..] + tail);
  }

  /**
   * The planned fragments are those of the data left, of which `fo` bytes of the
   * first fragment are already written.
   */
  ghost predicate Planned(size: nat, cur: Cursor, fo: nat, left: seq<byte>) {
    && 2 <= size && cur.h < size
    && (fo == 0 ==> cur.rest == Split(size, cur.h, left))
    && (fo > 0 ==>
          && cur.rest != [] && fo <= |cur.rest[0].data|
          && cur.rest == Split(size, cur.h, cur.rest[0].data[..fo] + left))
  }

  /** The fragment that the next turn fills. */
  lemma PlannedFragment(size: nat, cur: Cursor, fo: nat, left: seq<byte>)
    requires Planned(size, cur, fo, left) && left != [] && fo <= Capacity(size, cur.h)
    ensures cur.rest != [] && fo <= |cur.rest[0].data|
    ensures var f := cur.rest[0];
      && |f.data| == (if |left| + fo > Capacity(size, cur.h) then Capacity(size, cur.h) else |left| + fo)
      && |f.data| - fo <= |left| && f.data[fo..] == left[..|f.data| - fo]
      && (f.final <==> |f.data| == |left| + fo)
  {
  }

  /** After a turn that stores `wl` bytes. */
  lemma PlannedAfter(size: nat, cur: Cursor, fo: nat, left: seq<byte>, wl: nat)
    requires Planned(size, cur, fo, left) && left != [] && fo <= Capacity(size, cur.h)
    requires cur.rest != [] && fo + wl <= |cur.rest[0].data| && wl <= |left|
    ensures fo + wl < Capacity(size, cur.h) ==> Planned(size, cur, fo + wl, left[wl..])
    ensures fo + wl >= Capacity(size, cur.h) ==>
      && fo + wl == |cur.rest[0].data| && After(cur.h, cur.rest[0], size) < size
      && Planned(size, Advance(cur, size), 0, left[wl..])
  {
    PlannedFragment(size, cur, fo, left);
    var f := cur.rest[0];
    var whole := if fo == 0 then left else f.data[..fo] + left;
    assert f.data[..fo + wl] + left[wl..] == whole;
    if fo + wl >= Capacity(size, cur.h) {
      assert whole[|f.data|..] == left[wl..];
      assert Split(size, cur.h, whole)[1..] == Split(size, After(cur.h, f, size), whole[|f.data|..]);
    } else if fo + wl == 0 {
      assert left[0..] == left;
    }
  }

  /** The end of a turn: the fragment stays open, or it is complete and the cursor moves behind it. */
  lemma FinishPiece(job: Job, buf: seq<byte>, wp: nat, cur: Cursor, fo: nat, fl: nat)
    requires Written(job, buf, cur) && cur.rest != [] && OpenAt(buf, cur.h, cur.rest[0], fo)
    requires wp == Behind(cur.h, fo, |buf|) && fl == Capacity(|buf|, cur.h)
    ensures 0 < fo < fl ==> Writing(job, buf, wp, cur, fo, fl)
    ensures fo == |cur.rest[0].data| ==> Writing(job, buf, wp, Advance(cur, |buf|), 0, fl)
  {
    if fo == |cur.rest[0].data| {
      assert cur.rest[0].data[..fo] == cur.rest[0].data;
      CloseFragment(job, buf, cur);
    }
  }

  /** When no data is left, the last fragment is complete. */
  lemma FinishObject(job: Job, buf: seq<byte>, wp: nat, cur: Cursor, fo: nat, fl: nat)
    requires Writing(job, buf, wp, cur, fo, fl) && Planned(|buf|, cur, fo, [])
    ensures Stored(buf, job.start, job.e) && wp == End(job.start, job.e, |buf|)
    ensures Untouched(job.buf0, buf, job.start, Footprint(job.e))
  {
    if fo == 0 {
      assert job.e == cur.done;
    } else {
      var f := cur.rest[0];
      assert f.data[..fo] + [] == f.data[..fo];
      assert f == FirstFragment(|buf|, cur.h, f.data[..fo]);
      assert f.data[..fo] == f.data;
      CloseFragment(job, buf, cur);
      assert f.data[|f.data|..] == [];
      assert Split(|buf|, cur.h, f.data)[1..] == Split(|buf|, After(cur.h, f, |buf|), f.data[|f.data|..]);
      assert Advance(cur, |buf|).rest == [];
      assert job.e == Advance(cur, |buf|).done;
    }
  }

  lemma WriteNothing(buf: seq<byte>, w: nat)
    requires w <= |buf|
    ensures buf[..w] + [] + buf[w..] == buf
  {
  }

  /** A new entry behind the kept ones leaves them as they are. */
  lemma AppendEntry(buf: seq<byte>, buf': seq<byte>, p: nat, kept: seq<Entry>, w: nat, e: Entry)
    requires StoredAll(buf, p, kept) && w == EndAll(p, kept, |buf|) && w < |buf|
    requires TotalFootprint(kept) + Footprint(e) <= |buf| && e != []
    requires Stored(buf', w, e) && Untouched(buf, buf', w, Footprint(e))
    ensures StoredAll(buf', p, kept + [e]) && EndAll(p, kept + [e], |buf|) == End(w, e, |buf|)
    ensures TotalFootprint(kept + [e]) == TotalFootprint(kept) + Footprint(e)
  {
    EndAllIsForward(buf, p, kept);
    EndIsForward(buf', w, e);
    forall x | 0 <= x < |buf| && Dist(p, x, |buf|) < TotalFootprint(kept)
      ensures buf'[x] == buf[x]
    {
      assert Dist(w, x, |buf|) >= Footprint(e);
    }
    StoredAllFrame(buf, buf', p, kept);
    StoredAllSnoc(buf', p, kept, e);
  }

  /** An empty object has no fragments, and nothing is written for it. */
  lemma NothingWritten(buf: seq<byte>, buf': seq<byte>, w: nat, size: nat)
    requires 2 <= size && w < size == |buf|
    ensures Split(size, w, []) == [] && End(w, [], size) == w
    ensures Untouched(buf, buf', w, Footprint([])) ==> buf' == buf
  {
  }

  /** For an empty object nothing has to go. */
  lemma NothingDropped(entries: seq<Entry>, k: nat, size: nat)
    requires ShortestDrop(entries, k, 0, size) && TotalFootprint(entries) <= size
    ensures k == 0
  {
    assert entries[0..] == entries;
    assert FreeWithout(entries, 0, size) >= 0;
  }

  lemma NothingNeeded(w: nat, size: nat)
    requires w < size
    ensures TotalLen(0, w, size) == 0
  {
  }

  lemma ObjectsAfterWrite(entries: seq<Entry>, k: nat, e: Entry)
    requires k <= |entries|
    ensures Objects(entries[k..] + [e]) == Objects(entries)[k..] + [Data(e)]
  {
  }

  lemma ObjectIsNonEmpty(e: Entry)
    requires IsObject(e)
    ensures e != [] && Footprint(e) > 0
  {
  }

  lemma TotalOfShort(entries: seq<Entry>)
    requires |entries| <= 1
    ensures TotalFootprint(entries) == if entries == [] then 0 else Footprint(entries[0])
  {
  }

  // --------------------------------------------------------------- the overlap

  /** The bytes of an entry as they lie in the ring. */
  function Image(e: Entry): (r: seq<byte>)
    ensures |r| == Footprint(e)
  {
    if e == [] then [] else [Header(|e[0].data|, e[0].final)] + e[0].data + Image(e[1..])
  }

  lemma ImageAt(e: Entry)
    requires e != []
    ensures var f, n := e[0], |e[0].data|;
      && Footprint(e) == 1 + n + Footprint(e[1..])
      && Image(e)[0] == Header(n, f.final)
      && (forall i :: 0 <= i < n ==> Image(e)[1 + i] == f.data[i])
      && (forall i :: 0 <= i < Footprint(e[1..]) ==> Image(e)[1 + n + i] == Image(e[1..])[i])
  {
  }

  lemma {:induction false} StoredImage(buf: seq<byte>, p: nat, e: Entry, x: nat)
    requires Stored(buf, p, e) && Footprint(e) <= |buf| && x < |buf| && Dist(p, x, |buf|) < Footprint(e)
    ensures buf[x] == Image(e)[Dist(p, x, |buf|)]
    decreases |e|
  {
    hide Image, Header, Footprint;
    if e == [] {
      NothingStored();
    } else {
      var f, d := e[0], Dist(p, x, |buf|);
      ImageAt(e);
      if 0 < d <= |f.data| {
        assert x == p + d;
        assert buf[x] == buf[p + 1..p + 1 + |f.data|][d - 1];
        assert Image(e)[1 + (d - 1)] == f.data[d - 1];
      } else if d > 0 {
        var p' := After(p, f, |buf|);
        assert Dist(p', x, |buf|) == d - 1 - |f.data|;
        StoredImage(buf, p', e[1..], x);
        assert Image(e)[1 + |f.data| + Dist(p', x, |buf|)] == Image(e[1..])[Dist(p', x, |buf|)];
      }
    }
  }

  lemma NothingStored()
    ensures Footprint([]) == 0
  {
  }

  /** An entry that does not fit the ring together with the one before it reaches round to the header of that. */
  lemma HeaderIsHit(buf: seq<byte>, buf': seq<byte>, p: nat, last: Entry, e: Entry)
    requires Stored(buf, p, last) && Footprint(last) <= |buf| == |buf'| && Footprint(e) <= |buf|
    requires Stored(buf', End(p, last, |buf|), e) && Footprint(last) + Footprint(e) > |buf|
    ensures var w := End(p, last, |buf|);
      Dist(w, p, |buf|) < Footprint(e) && buf'[p] == Image(e)[Dist(w, p, |buf|)]
  {
    EndIsForward(buf, p, last);
    StoredImage(buf', End(p, last, |buf|), e, p);
  }

  lemma StartsInRing(buf: seq<byte>, p: nat, entries: seq<Entry>)
    requires StoredAll(buf, p, entries)
    ensures p < |buf|
  {
  }

  lemma OneKept(buf: seq<byte>, p: nat, kept: seq<Entry>, size: nat)
    requires |kept| == 1 && StoredAll(buf, p, kept)
    ensures Stored(buf, p, kept[0]) && EndAll(p, kept, size) == End(p, kept[0], size) && EndAll(p, kept[..0], size) == p
    ensures TotalFootprint(kept) == Footprint(kept[0])
  {
    assert kept[1..] == [];
  }

  /** Five bytes at the end of a ring of eight lie over four bytes at its start. */
  lemma FiveOverFour(buf: seq<byte>, buf': seq<byte>)
    requires |buf| == |buf'| == 8
    requires Stored(buf, 0, [Fragment([1, 2, 3, 4], true)]) && Stored(buf', 5, Split(8, 5, [5, 6, 7, 8, 9]))
    ensures !FitsBesideLast([[Fragment([1, 2, 3, 4], true)]], Split(8, 5, [5, 6, 7, 8, 9]), 8)
    ensures !Stored(buf', 0, [Fragment([1, 2, 3, 4], true)]) && Stored(buf', 0, [Fragment([7, 8, 9], true)])
  {
    var data: seq<byte> := [5, 6, 7, 8, 9];
    var last := Fragment([1, 2, 3, 4], true);
    var e := Split(8, 5, data);
    assert data[2..] == [7, 8, 9] && data[2..][3..] == [] && data[..2] == [5, 6] && data[2..][..3] == [7, 8, 9];
    assert FirstFragment(8, 5, data) == Fragment([5, 6], false);
    assert Split(8, 0, data[2..]) == [Fragment([7, 8, 9], true)] + Split(8, 4, data[2..][3..]);
    assert e == [Fragment([5, 6], false)] + Split(8, 0, data[2..]);
    assert e[1..] == [Fragment([7, 8, 9], true)];
    assert Footprint([last]) == 5 && Footprint(e[1..]) == 4;
    assert [last][0] == last;
  }

  lemma ConcatOne(chunk: seq<byte>)
    ensures Concat([chunk]) == chunk
  {
    assert [chunk][1..] == [];
  }

  lemma FourAtStart()
    ensures Split(8, 0, [1, 2, 3, 4]) == [Fragment([1, 2, 3, 4], true)]
    ensures End(0, Split(8, 0, [1, 2, 3, 4]), 8) == 5 && TotalLen(4, 0, 8) == 5 && TotalLen(5, 5, 8) == 7
    ensures FitsBesideLast([], Split(8, 0, [1, 2, 3, 4]), 8)
  {
    var data: seq<byte> := [1, 2, 3, 4];
    assert data[..4] == data && data[4..] == [];
    assert [Fragment(data, true)][1..] == [];
  }

  // ------------------------------------------------------------------ the log

  /** `objectlog_t`. */
  class ObjectLog {
    const ring: RingBuffer
    var ptrFirst: uint16
    var ptrLast: uint16
    var numEntries: nat
    ghost var entries: seq<Entry>

    ghost predicate Valid()
      reads this, ring, ring.buffer
    {
      && ring.Valid() && 2 <= ring.size
      && numEntries == |entries|
      && (forall e :: e in entries ==> IsObject(e))
      && TotalFootprint(entries) <= ring.size
      && StoredAll(ring.buffer[..], ptrFirst, entries)
      && (entries == [] ==>
            ptrFirst == ptrLast == ring.writePtr == 0 && forall i :: 0 <= i < ring.size ==> ring.buffer[i] == 0)
      && (entries != [] ==>
            && ptrLast == EndAll(ptrFirst, entries[..|entries| - 1], ring.size)
            && ring.writePtr == EndAll(ptrFirst, entries, ring.size))
    }

    /** `objectlog_init`, on zero-filled storage. */
    constructor (storage: array<byte>)
      requires 2 <= storage.Length < 65536 && forall i :: 0 <= i < storage.Length ==> storage[i] == 0
      ensures Valid() && entries == [] && ring.buffer == storage && fresh(ring)
    {
      ring := new RingBuffer(storage);
      ptrFirst, ptrLast, numEntries := 0, 0, 0;
      entries := [];
    }

    /** Reads the header at `readPtr` and moves behind the fragment. */
    method SkipFragment(ghost f: Fragment) returns (hdr: byte)
      requires ring.Valid() && FragmentAt(ring.buffer[..], ring.readPtr, f)
      modifies ring`readPtr
      ensures ring.Valid() && hdr == Header(|f.data|, f.final)
      ensures ring.readPtr == After(old(ring.readPtr), f, ring.size)
    {
      hide Contents;
      HeaderOfFragment(ring.buffer[..], ring.readPtr, f);
      hdr := ring.ReadOne();
      ring.AdvanceRead(FragmentLen(hdr));
    }

    /** `get_next_entry`: the position behind the entry `e` at `offset`. */
    method GetNextEntry(offset: uint16, ghost e: Entry) returns (next: uint16)
      requires ring.Valid() && offset < ring.size && Stored(ring.buffer[..], offset, e)
      requires e != [] && Footprint(e) <= ring.size
      requires forall i :: 0 <= i < |e| - 1 ==> !e[i].final
      requires e[|e| - 1].final || (Footprint(e) == ring.size && |e| >= 2)
      requires Footprint(e) == ring.size ==> ptrFirst == offset
      modifies ring`readPtr
      ensures ring.Valid() && next == End(offset, e, ring.size)
    {
      hide Stored, Footprint, End;
      ghost var j: nat, x: nat := 0, 0;
      EndIsForward(ring.buffer[..], offset, e);
      assert e[0..] == e;
      ring.readPtr := offset;
      while true
        invariant ring.Valid() && j < |e| && Stored(ring.buffer[..], ring.readPtr, e[j..])
        invariant x + Footprint(e[j..]) == Footprint(e) && ring.readPtr == Forward(offset, x, ring.size)
        invariant End(ring.readPtr, e[j..], ring.size) == End(offset, e, ring.size)
        invariant x == 0 <==> j == 0
        decreases |e| - j
      {
        var hdrPos := ring.readPtr;
        ghost var f := e[j];
        StoredStep(ring.buffer[..], hdrPos, e, j);
        var hdr := SkipFragment(f);
        WrapDetection(offset, x, x + 1 + |f.data|, ring.size);
        j, x := j + 1, x + 1 + |f.data|;
        if (hdrPos < offset && ring.readPtr >= offset) ||
           (hdrPos > offset && ring.readPtr >= offset && ring.readPtr < hdrPos)
        {
          return ptrFirst;
        }
        if IsFinal(hdr) {
          return ring.readPtr;
        }
      }
    }

    /** `objectlog_write_fragment_hdr` */
    method WriteFragmentHdr(len: nat, final: bool)
      requires ring.Valid() && len <= MAX_FRAGMENT_LEN
      modifies ring`writePtr, ring.buffer
      ensures ring.Valid() && ring.writePtr == Next(old(ring.writePtr), ring.size)
      ensures ring.buffer[..] == old(ring.buffer[..])[old(ring.writePtr) := Header(len, final)]
    {
      var hdr: byte := len % 128;
      if final {
        hdr := hdr + FRAGMENT_FINAL;
      }
      ring.WriteOne(hdr);
    }

    /** `objectlog_write_fragment_data`, for a block that does not cross the end. */
    method WriteFragmentData(data: seq<byte>)
      requires ring.Valid() && ring.writePtr + |data| <= ring.size
      modifies ring`writePtr, ring.buffer
      ensures ring.Valid()
      ensures ring.writePtr == if old(ring.writePtr) + |data| == ring.size then 0 else old(ring.writePtr) + |data|
      ensures ring.buffer[..] ==
        old(ring.buffer[..])[..old(ring.writePtr)] + data + old(ring.buffer[..])[old(ring.writePtr) + |data|..]
    {
      WriteBlock(ring.buffer[..], ring.writePtr, data);
      ring.Write(data);
    }

    /** The size limits of one turn, and the header when the turn starts a fragment. */
    method OpenFragment(ghost job: Job, ghost cur: Cursor, ghost left: seq<byte>, fragmentOffset: nat,
                        fragmentLen0: nat,
                        dataLen: nat)
      returns (writeLen: nat, fragmentLen: nat)
      requires ring.Valid() && Writing(job, ring.buffer[..], ring.writePtr, cur, fragmentOffset, fragmentLen0)
      requires Planned(ring.size, cur, fragmentOffset, left) && 0 < dataLen == |left|
      modifies ring`writePtr, ring.buffer
      ensures ring.Valid() && Written(job, ring.buffer[..], cur) && cur.rest != []
      ensures fragmentLen == Capacity(ring.size, cur.h) && fragmentOffset <= fragmentLen
      ensures fragmentOffset + writeLen == |cur.rest[0].data|
      ensures OpenAt(ring.buffer[..], cur.h, cur.rest[0], fragmentOffset)
      ensures ring.writePtr == Behind(cur.h, fragmentOffset, ring.size)
    {
      PlannedFragment(ring.size, cur, fragmentOffset, left);
      fragmentLen := fragmentLen0;
      if fragmentOffset == 0 {
        fragmentLen := MAX_FRAGMENT_LEN;
        if fragmentLen > ring.size - ring.writePtr - 1 {
          fragmentLen := ring.size - ring.writePtr - 1;
        }
      }
      writeLen := dataLen;
      if writeLen + fragmentOffset > fragmentLen {
        writeLen := fragmentLen - fragmentOffset;
      }
      if fragmentOffset == 0 {
        ghost var before := ring.buffer[..];
        WriteFragmentHdr(writeLen, dataLen == writeLen);
        WriteInside(job, before, ring.buffer[..], cur);
      }
    }

    /** The copy of one turn: `piece` continues the open fragment. */
    method CopyPiece(ghost job: Job, ghost cur: Cursor, ghost fo: nat, piece: seq<byte>)
      requires ring.Valid() && Written(job, ring.buffer[..], cur) && cur.rest != []
      requires OpenAt(ring.buffer[..], cur.h, cur.rest[0], fo)
      requires fo + |piece| <= |cur.rest[0].data| && piece == cur.rest[0].data[fo..fo + |piece|]
      requires ring.writePtr == Behind(cur.h, fo, ring.size)
      modifies ring`writePtr, ring.buffer
      ensures ring.Valid() && Written(job, ring.buffer[..], cur)
      ensures OpenAt(ring.buffer[..], cur.h, cur.rest[0], fo + |piece|)
      ensures ring.writePtr == Behind(cur.h, fo + |piece|, ring.size)
    {
      ghost var before := ring.buffer[..];
      WriteNothing(before, ring.writePtr);
      WriteFragmentData(piece);
      ExtendOpen(before, ring.buffer[..], cur.h, cur.rest[0], fo, piece);
      WriteInside(job, before, ring.buffer[..], cur);
    }

    /** One turn of the write loop: at most the rest of a chunk, and at most the rest of a fragment. */
    method WriteTurn(ghost job: Job, ghost cur0: Cursor, ghost left: seq<byte>, chunk: seq<byte>,
                     dataLen: nat, fo: nat, fl: nat)
      returns (writeLen: nat, fragmentOffset: nat, fragmentLen: nat, ghost cur: Cursor)
      requires ring.Valid() && Writing(job, ring.buffer[..], ring.writePtr, cur0, fo, fl)
      requires Planned(ring.size, cur0, fo, left) && 0 < dataLen == |left|
      requires chunk != [] && chunk <= left
      modifies ring`writePtr, ring.buffer
      ensures ring.Valid() && Writing(job, ring.buffer[..], ring.writePtr, cur, fragmentOffset, fragmentLen)
      ensures writeLen <= |chunk| && Planned(ring.size, cur, fragmentOffset, left[writeLen..])
      ensures writeLen == 0 ==> fo == fragmentOffset == 0 && old(ring.writePtr) == ring.size - 1 && ring.writePtr == 0
    {
      hide Written, Planned, OpenAt;
      writeLen, fragmentLen := OpenFragment(job, cur0, left, fo, fl, dataLen);
      PlannedFragment(ring.size, cur0, fo, left);
      if writeLen > |chunk| {
        writeLen := |chunk|;
      }
      PieceOfFragment(cur0.rest[0].data, fo, left, chunk, writeLen);
      var piece := chunk[..writeLen];
      CopyPiece(job, cur0, fo, piece);
      fragmentOffset := fo + |piece|;
      PlannedAfter(ring.size, cur0, fo, left, writeLen);
      FinishPiece(job, ring.buffer[..], ring.writePtr, cur0, fragmentOffset, fragmentLen);
      cur := cur0;
      if fragmentOffset >= fragmentLen {
        fragmentOffset := 0;
        cur := Advance(cur0, ring.size);
      }
    }

    /** The loop of `objectlog_write_scattered_object` that writes the fragments. */
    method WriteFragments(scatter: seq<seq<byte>>, len: nat)
      requires ring.Valid() && 2 <= ring.size
      requires (forall i :: 0 <= i < |scatter| ==> scatter[i] != []) && len == |Concat(scatter)|
      requires Footprint(Split(ring.size, ring.writePtr, Concat(scatter))) <= ring.size
      modifies ring`writePtr, ring.buffer
      ensures ring.Valid()
      ensures var e := Split(ring.size, old(ring.writePtr), Concat(scatter));
        && Stored(ring.buffer[..], old(ring.writePtr), e)
        && ring.writePtr == End(old(ring.writePtr), e, ring.size)
        && Untouched(old(ring.buffer[..]), ring.buffer[..], old(ring.writePtr), Footprint(e))
    {
      hide Writing, Planned, Split, Footprint, Stored, End, Untouched, Concat, Remaining;
      ghost var e := Split(ring.size, ring.writePtr, Concat(scatter));
      ghost var job := Job(ring.buffer[..], ring.writePtr, e);
      ghost var cur, left := Cursor(ring.writePtr, [], e), Concat(scatter);
      var j, off: nat, dataLen := 0, 0, len;
      var fragmentOffset: nat, fragmentLen: nat := 0, 0;
      StartWriting(job, left);
      RemainingAtStart(scatter);
      while j < |scatter|
        invariant 0 <= j <= |scatter| && (if j < |scatter| then off < |scatter[j]| else off == 0)
        invariant left == Remaining(scatter, j, off) && dataLen == |left|
        invariant ring.Valid() && Writing(job, ring.buffer[..], ring.writePtr, cur, fragmentOffset, fragmentLen)
        invariant Planned(ring.size, cur, fragmentOffset, left)
        decreases dataLen, if fragmentOffset == 0 && ring.writePtr == ring.size - 1 then 1 else 0
      {
        var writeLen;
        TakeFromChunk(scatter, j, off, 0);
        writeLen, fragmentOffset, fragmentLen, cur :=
          WriteTurn(job, cur, left, scatter[j][off..], dataLen, fragmentOffset, fragmentLen);
        TakeFromChunk(scatter, j, off, writeLen);
        left := left[writeLen..];
        dataLen := dataLen - writeLen;
        off := off + writeLen;
        if off >= |scatter[j]| {
          RemainingNextChunk(scatter, j);
          j, off := j + 1, 0;
        }
      }
      RemainingAtEnd(scatter);
      FinishObject(job, ring.buffer[..], ring.writePtr, cur, fragmentOffset, fragmentLen);
    }

    // ------------------------------------------------------------- the objects

    /** `objectlog_space_between` */
    function SpaceBetween(first: uint16, second: uint16): int
      reads ring
    {
      if second >= first then second - first else ring.size - first + second
    }

    /** `objectlog_free_space` */
    function FreeSpace(from: uint16): int
      reads this, ring
    {
      SpaceBetween(from, ptrFirst)
    }

    /** What `objectlog_free_space` computes, and what the comparison of the two pointers means. */
    lemma PointersMeasureEntries()
      requires Valid() && entries != []
      ensures FreeSpace(ring.writePtr) == ring.size - TotalFootprint(entries)
      ensures ptrFirst != ptrLast <==> |entries| >= 2
    {
      hide Stored, StoredAll, End, EndAll, IsObject, TotalFootprint, Footprint;
      var front, last := entries[..|entries| - 1], entries[|entries| - 1];
      assert entries == front + [last];
      StoredAllPrefix(ring.buffer[..], ptrFirst, front, last);
      EndAllIsForward(ring.buffer[..], ptrFirst, entries);
      EndAllIsForward(ring.buffer[..], ptrFirst, front);
      if front == [] {
        StartOfFirst(ptrFirst, entries, ring.size);
        TotalOfShort(front);
      } else {
        assert front[|front| - 1] in entries;
        ObjectIsNonEmpty(front[|front| - 1]);
        LastIsCounted(front);
      }
      assert last in entries;
      ObjectIsNonEmpty(last);
    }

    /** `drop_first_entry` */
    method DropFirstEntry()
      requires Valid() && |entries| >= 2
      modifies this`ptrFirst, this`numEntries, this`entries, ring`readPtr
      ensures Valid() && entries == old(entries)[1..] && ptrLast == old(ptrLast)
      ensures ptrFirst == End(old(ptrFirst), old(entries)[0], ring.size)
    {
      ghost var first := entries[0];
      assert first in entries;
      var next := GetNextEntry(ptrFirst, first);
      assert entries[..|entries| - 1][1..] == entries[1..][..|entries| - 2];
      EndIsForward(ring.buffer[..], ptrFirst, first);
      ptrFirst := next;
      numEntries := numEntries - 1;
      entries := entries[1..];
    }

    /** The deletion loop of the writer: drops objects until `totalLen` bytes are free, but never the last one. */
    method MakeRoom(totalLen: nat) returns (ghost dropped: nat)
      requires Valid() && totalLen <= ring.size
      modifies this`ptrFirst, this`numEntries, this`entries, ring`readPtr
      ensures Valid() && ptrLast == old(ptrLast)
      ensures ShortestDrop(old(entries), dropped, totalLen, ring.size) && entries == old(entries)[dropped..]
      ensures old(entries) != [] ==> entries != []
      ensures ptrFirst == EndAll(old(ptrFirst), old(entries)[..dropped], ring.size)
    {
      hide End;
      hide StoredAll, EndAll, IsObject, TotalFootprint, Footprint;
      dropped := 0;
      assert entries[0..] == entries;
      StartOfFirst(ptrFirst, entries, ring.size);
      if entries != [] {
        PointersMeasureEntries();
      }
      var freeSpace := FreeSpace(ring.writePtr);
      while freeSpace < totalLen && ptrFirst != ptrLast
        invariant Valid() && ptrLast == old(ptrLast)
        invariant dropped <= |old(entries)| && entries == old(entries)[dropped..]
        invariant old(entries) != [] ==> entries != []
        invariant ptrFirst == EndAll(old(ptrFirst), old(entries)[..dropped], ring.size)
        invariant forall j :: 0 <= j < dropped ==> FreeWithout(old(entries), j, ring.size) < totalLen
        invariant entries != [] ==> freeSpace == ring.size - TotalFootprint(entries)
        invariant ptrFirst != ptrLast <==> |entries| >= 2
        decreases |entries|
      {
        assert old(entries)[dropped..][1..] == old(entries)[dropped + 1..];
        StoredAllAt(old(ring.buffer[..]), old(ptrFirst), old(entries), dropped);
        DropFirstEntry();
        dropped := dropped + 1;
        PointersMeasureEntries();
        freeSpace := FreeSpace(ring.writePtr);
      }
      if |entries| <= 1 {
        TotalOfShort(entries);
      }
    }

    /** The last entry as `get_next_entry` needs it. */
    lemma LastIsStored()
      requires Valid() && entries != []
      ensures var e := entries[|entries| - 1];
        && IsObject(e) && ptrLast < ring.size && Stored(ring.buffer[..], ptrLast, e)
        && End(ptrLast, e, ring.size) == ring.writePtr
        && Footprint(e) <= ring.size && (Footprint(e) == ring.size ==> ptrFirst == ptrLast)
    {
      hide StoredAll, Stored, End, EndAll, IsObject, Footprint;
      var front, e := entries[..|entries| - 1], entries[|entries| - 1];
      assert e in entries && entries == front + [e];
      StoredAllPrefix(ring.buffer[..], ptrFirst, front, e);
      EndAllIsForward(ring.buffer[..], ptrFirst, front);
    }

    /** Zeroed storage, likewise. */
    lemma ZerosAreStored()
      requires Valid() && entries == []
      ensures var e := Zeros(ring.size);
        && e != [] && Stored(ring.buffer[..], 0, e) && End(0, e, ring.size) == 0
        && Footprint(e) == |e| == ring.size && forall i :: 0 <= i < |e| ==> !e[i].final
    {
      hide Stored, End, Footprint, IsObject;
      ZerosStored(ring.buffer[..], 0);
      EndIsForward(ring.buffer[..], 0, Zeros(ring.size));
    }

    /** The position behind the last entry, which is where the next one is written. */
    method LogEnd() returns (logEnd: uint16)
      requires Valid()
      modifies ring`readPtr
      ensures Valid() && logEnd == ring.writePtr
    {
      hide StoredAll, Stored, End, EndAll, Footprint, TotalFootprint;
      ghost var e: Entry;
      if numEntries == 0 {
        e := Zeros(ring.size);
        ZerosAreStored();
      } else {
        e := entries[|entries| - 1];
        LastIsStored();
      }
      logEnd := GetNextEntry(ptrLast, e);
    }

    /** Nothing has been written, and yet one more object is counted. */
    twostate predicate CountedOnly()
      reads this, ring, ring.buffer
    {
      && ring.buffer[..] == old(ring.buffer[..]) && ring.writePtr == old(ring.writePtr)
      && ptrFirst == old(ptrFirst) && ptrLast == ring.writePtr
      && entries == old(entries) && numEntries == old(numEntries) + 1
    }

    /**
     * The rest of the writer: writes the fragments behind the kept entries and
     * counts the object. The log stays valid exactly when there was room, and
     * there was an object.
     */
    method AppendObject(scatter: seq<seq<byte>>, dataLen: nat)
      requires Valid() && forall i :: 0 <= i < |scatter| ==> scatter[i] != []
      requires dataLen == |Concat(scatter)|
      requires TotalLen(dataLen, ring.writePtr, ring.size) <= ring.size
      modifies this`ptrLast, this`numEntries, this`entries, ring`writePtr, ring.buffer
      ensures scatter == [] ==> CountedOnly()
      ensures ring.Valid() && ptrLast == old(ring.writePtr) && numEntries == old(numEntries) + 1
      ensures scatter != [] ==>
        var e := Split(ring.size, old(ring.writePtr), Concat(scatter));
        && entries == old(entries) + [e]
        && Stored(ring.buffer[..], old(ring.writePtr), e)
        && ring.writePtr == End(old(ring.writePtr), e, ring.size)
        && Untouched(old(ring.buffer[..]), ring.buffer[..], old(ring.writePtr), Footprint(e))
        && (Valid() <==> TotalFootprint(old(entries)) + Footprint(e) <= ring.size)
    {
      hide Footprint, TotalLen, Split, IsObject, Stored, End, Untouched;
      var newLast := ring.writePtr;
      ghost var data := Concat(scatter);
      ghost var before, e := ring.buffer[..], Split(ring.size, newLast, data);
      SplitFitsTotalLen(ring.size, newLast, data);
      WriteFragments(scatter, dataLen);
      ptrLast := newLast;
      numEntries := numEntries + 1;
      if scatter == [] {
        NothingWritten(before, ring.buffer[..], newLast, ring.size);
      } else {
        assert data == scatter[0] + Concat(scatter[1..]);
        SplitIsObject(ring.size, newLast, data);
        ObjectIsNonEmpty(e);
        TotalFootprintSnoc(entries, e);
        if TotalFootprint(entries) + Footprint(e) <= ring.size {
          AppendEntry(before, ring.buffer[..], ptrFirst, entries, newLast, e);
        }
        entries := entries + [e];
        assert entries[..|entries| - 1] == old(entries);
      }
    }

    /** The sum of the lengths in the scatter list. */
    method Measure(scatter: seq<seq<byte>>) returns (dataLen: nat)
      ensures dataLen == |Concat(scatter)|
    {
      dataLen := 0;
      var i := 0;
      assert scatter[0..] == scatter;
      while i < |scatter|
        invariant 0 <= i <= |scatter| && dataLen + |Concat(scatter[i..])| == |Concat(scatter)|
      {
        assert scatter[i..][1..] == scatter[i + 1..];
        dataLen := dataLen + |scatter[i]|;
        i := i + 1;
      }
    }

    /**
     * The object is stored at `w`, behind the last entry, after the shortest
     * prefix of the others has been dropped that makes room. The log holds the
     * kept objects and the new one exactly when the last entry and the new one
     * fit the ring together. Otherwise the byte at `ptrFirst`, where the header
     * of the last entry was, belongs to the new object.
     */
    twostate predicate StoredAfter(dropped: nat, total: nat, data: seq<byte>)
      requires old(Valid())
      reads this, ring, ring.buffer
    {
      var before, w := old(entries), old(ring.writePtr);
      var e := Split(ring.size, w, data);
      && ring.Valid() && ptrFirst < ring.size
      && ShortestDrop(before, dropped, total, ring.size) && dropped <= |before|
      && entries == before[dropped..] + [e] && numEntries == |entries|
      && ptrFirst == EndAll(old(ptrFirst), before[..dropped], ring.size)
      && ptrLast == w && ring.writePtr == End(w, e, ring.size)
      && Stored(ring.buffer[..], w, e)
      && Untouched(old(ring.buffer[..]), ring.buffer[..], w, Footprint(e))
      && Objects(entries) == Objects(before)[dropped..] + [data]
      && (Valid() <==> FitsBesideLast(before, e, ring.size))
      && (!Valid() ==>
            && dropped == |before| - 1 && ptrFirst == old(ptrLast)
            && Dist(w, ptrFirst, ring.size) < Footprint(e)
            && ring.buffer[ptrFirst] == Image(e)[Dist(w, ptrFirst, ring.size)])
    }

    /** The second half of the writer, for an object that is not refused. */
    method StoreObject(scatter: seq<seq<byte>>, dataLen: nat, totalLen: nat) returns (ghost dropped: nat)
      requires Valid() && forall i :: 0 <= i < |scatter| ==> scatter[i] != []
      requires dataLen == |Concat(scatter)| && totalLen == TotalLen(dataLen, ring.writePtr, ring.size) <= ring.size
      modifies this`ptrFirst, this`ptrLast, this`numEntries, this`entries, ring`readPtr, ring`writePtr, ring.buffer
      ensures if scatter == [] then CountedOnly() else StoredAfter(dropped, totalLen, Concat(scatter))
    {
      hide StoredAll, EndAll, End, IsObject, TotalFootprint, Footprint, ShortestDrop;
      hide FitsBesideLast, Stored, Image, Untouched;
      hide TotalLen, Split;
      dropped := MakeRoom(totalLen);
      ghost var before, kept, first := ring.buffer[..], entries, ptrFirst;
      ghost var w, data := ring.writePtr, Concat(scatter);
      if scatter == [] {
        NothingNeeded(w, ring.size);
        NothingDropped(old(entries), dropped, ring.size);
        StartOfFirst(old(ptrFirst), old(entries), ring.size);
        AppendObject(scatter, dataLen);
        return;
      }
      ghost var e := Split(ring.size, w, data);
      SplitFitsTotalLen(ring.size, w, data);
      FitsIffBesideLast(old(entries), dropped, totalLen, e, ring.size);
      StartsInRing(before, first, kept);
      if |kept| == 1 {
        OneKept(before, first, kept, ring.size);
        assert first == old(ptrLast) && w == End(first, kept[0], ring.size);
      }
      AppendObject(scatter, dataLen);
      if !FitsBesideLast(old(entries), e, ring.size) {
        HeaderIsHit(before, ring.buffer[..], first, kept[0], e);
      }
      assert data == scatter[0] + Concat(scatter[1..]);
      SplitIsObject(ring.size, w, data);
      ObjectsAfterWrite(old(entries), dropped, e);
    }

    /**
     * `objectlog_write_scattered_object`: appends the concatenation of the
     * chunks. An object that can never fit is refused; what is returned is then
     * 2^16 less the number of bytes missing. An empty object is counted but not
     * stored. `dropped` counts the objects lost.
     */
    method WriteScatteredObject(scatter: seq<seq<byte>>) returns (missing: uint16, ghost dropped: nat)
      requires Valid() && forall i :: 0 <= i < |scatter| ==> scatter[i] != []
      requires TotalLen(|Concat(scatter)|, ring.writePtr, ring.size) < 0x1_0000
      modifies this`ptrFirst, this`ptrLast, this`numEntries, this`entries, ring`readPtr, ring`writePtr, ring.buffer
      ensures var total := TotalLen(|Concat(scatter)|, old(ring.writePtr), ring.size);
        if total > ring.size then
          Valid() && entries == old(entries) && missing > 0 && missing + (total - ring.size) == 0x1_0000
        else
          missing == 0 && if scatter == [] then CountedOnly() else StoredAfter(dropped, total, Concat(scatter))
    {
      hide StoredAll, EndAll, End, IsObject, TotalFootprint, ShortestDrop, FitsBesideLast, Stored;
      hide Image, Untouched, Split, Objects;
      var logEnd := LogEnd();
      var dataLen := Measure(scatter);
      var numFragments := CeilDiv(dataLen, MAX_FRAGMENT_LEN);
      var totalLen := dataLen + numFragments;
      if logEnd + totalLen > ring.size {
        totalLen := totalLen + 1;
      }
      if totalLen > ring.size {
        return 0x1_0000 + ring.size - totalLen, 0;
      }
      dropped := StoreObject(scatter, dataLen, totalLen);
      missing := 0;
    }

    // ----------------------------------------------------------------- reading

    /** Object `i` starts at position `p`. */
    ghost predicate StartsAt(i: nat, p: int)
      reads this, ring, ring.buffer
    {
      && ring.Valid() && i < |entries|
      && 0 <= p < ring.size && p == EndAll(ptrFirst, entries[..i], ring.size)
      && Stored(ring.buffer[..], p, entries[i])
    }

    lemma ObjectPosition(k: nat)
      requires Valid() && k < |entries|
      ensures var p := EndAll(ptrFirst, entries[..k], ring.size);
        && StartsAt(k, p) && IsObject(entries[k]) && Footprint(entries[k]) <= ring.size
        && EndAll(ptrFirst, entries[..k + 1], ring.size) == End(p, entries[k], ring.size)
        && (Footprint(entries[k]) == ring.size ==> p == ptrFirst)
    {
      StoredAllAt(ring.buffer[..], ptrFirst, entries, k);
      EndAllIsForward(ring.buffer[..], ptrFirst, entries[..k]);
      assert entries[k] in entries;
    }

    /** `objectlog_iterator`: the position of an object, counted from either end, or -1. */
    method Iterator(objectIdx: int) returns (iter: int)
      requires Valid()
      modifies ring`readPtr
      ensures Valid()
      ensures 0 <= objectIdx < |entries| ==> StartsAt(objectIdx, iter)
      ensures 0 < -objectIdx < |entries| ==> StartsAt(|entries| + objectIdx, iter)
      ensures objectIdx >= |entries| || (objectIdx < 0 && -objectIdx >= |entries|) ==> iter == -1
    {
      hide Stored, StoredAll, EndAll, End, Footprint, TotalFootprint;
      var idx := objectIdx;
      if idx < 0 {
        idx := -idx;
        if idx >= numEntries {
          return -1;
        }
        idx := numEntries - idx;
      } else if idx >= numEntries {
        return -1;
      }
      ghost var k, i: nat := 0, idx;
      var stringPtr := ptrFirst;
      ObjectPosition(0);
      StartOfFirst(ptrFirst, entries, ring.size);
      while idx > 0
        invariant Valid() && 0 <= idx && 0 <= k && k + idx == i
        invariant StartsAt(k, stringPtr)
        decreases idx
      {
        ObjectPosition(k);
        ObjectPosition(k + 1);
        stringPtr := GetNextEntry(stringPtr, entries[k]);
        k, idx := k + 1, idx - 1;
      }
      iter := stringPtr;
    }

    /** `objectlog_get_fragment`: where the data of the fragment starts, and its length. */
    function GetFragment(iter: int): Option<(nat, nat)>
      reads this, ring, ring.buffer
      requires ring.Valid() && iter != ring.size
    {
      if iter < 0 || iter > ring.size then None
      else Some((iter + 1, FragmentLen(ring.buffer[iter])))
    }

    /** `objectlog_next`: the next fragment of the object, -2 after the last one, -1 for a bad iter. */
    function NextFragment(iter: int): int
      reads this, ring, ring.buffer
      requires ring.Valid() && iter != ring.size
    {
      if iter < 0 || iter > ring.size then -1
      else
        var len := FragmentLen(ring.buffer[iter]);
        if IsFinal(ring.buffer[iter]) then -2 else (iter + 1 + len) % ring.size
    }

    /** What the two functions find at fragment `j` of an object: the data in one piece, and the way to the next one. */
    lemma FragmentOfObject(p: nat, e: Entry, j: nat)
      requires ring.Valid() && IsObject(e) && j < |e| && p < ring.size && Stored(ring.buffer[..], p, e[j..])
      ensures GetFragment(p) == Some((p + 1, |e[j].data|)) && p + 1 + |e[j].data| <= ring.size
      ensures ring.buffer[p + 1..p + 1 + |e[j].data|] == e[j].data
      ensures j + 1 == |e| ==> NextFragment(p) == -2
      ensures j + 1 < |e| ==> NextFragment(p) == After(p, e[j], ring.size)
      ensures Stored(ring.buffer[..], After(p, e[j], ring.size), e[j + 1..])
    {
      hide Stored, FragmentAt, Contents, Data;
      StoredStep(ring.buffer[..], p, e, j);
      HeaderOfFragment(ring.buffer[..], p, e[j]);
      WrapPointer(p + 1 + |e[j].data|, ring.size);
      assert ring.buffer[p + 1..p + 1 + |e[j].data|] == ring.buffer[..][p + 1..p + 1 + |e[j].data|];
    }

    /**
     * The reading loop of src/ui.c:148-162: follows the fragments of an object
     * and collects their data. It returns the object that was written.
     */
    method ReadObject(objectIdx: int) returns (r: Option<seq<byte>>)
      requires Valid()
      modifies ring`readPtr
      ensures Valid()
      ensures 0 <= objectIdx < |entries| ==> r == Some(Objects(entries)[objectIdx])
      ensures 0 < -objectIdx < |entries| ==> r == Some(Objects(entries)[|entries| + objectIdx])
      ensures objectIdx >= |entries| || (objectIdx < 0 && -objectIdx >= |entries|) ==> r == None
    {
      hide Stored, StoredAll, EndAll, Footprint, TotalFootprint;
      var iter := Iterator(objectIdx);
      if iter < 0 {
        return None;
      }
      ghost var i, j := if objectIdx < 0 then |entries| + objectIdx else objectIdx, 0;
      ghost var e := entries[i];
      assert IsObject(e) by { assert e in entries; }
      assert e[0..] == e;
      var data := [];
      while iter >= 0
        invariant Valid() && entries == old(entries) && 0 <= j <= |e| && data == Data(e[..j])
        invariant if j < |e| then 0 <= iter < ring.size && Stored(ring.buffer[..], iter, e[j..]) else iter < 0
        decreases |e| - j
      {
        FragmentOfObject(iter, e, j);
        var (start, len) := GetFragment(iter).value;
        DataStep(e, j);
        data := data + ring.buffer[start..start + len];
        iter := NextFragment(iter);
        j := j + 1;
      }
      assert e[..j] == e;
      r := Some(data);
    }

    /** `objectlog_get_object_size` */
    method GetObjectSize(objectIdx: int) returns (size: int)
      requires Valid()
      modifies ring`readPtr
      ensures Valid()
      ensures 0 <= objectIdx < |entries| ==> size == |Objects(entries)[objectIdx]|
      ensures 0 < -objectIdx < |entries| ==> size == |Objects(entries)[|entries| + objectIdx]|
      ensures objectIdx >= |entries| || (objectIdx < 0 && -objectIdx >= |entries|) ==> size == -1
    {
      hide Stored, StoredAll, EndAll, Footprint, TotalFootprint;
      var iter := Iterator(objectIdx);
      if iter < 0 {
        return -1;
      }
      ghost var i, j := if objectIdx < 0 then |entries| + objectIdx else objectIdx, 0;
      ghost var e := entries[i];
      ObjectPosition(i);
      DataFits(e);
      assert e[0..] == e;
      var len: uint16 := 0;
      while iter >= 0
        invariant Valid() && entries == old(entries) && 0 <= j <= |e| && len == |Data(e[..j])|
        invariant if j < |e| then 0 <= iter < ring.size && Stored(ring.buffer[..], iter, e[j..]) else iter < 0
        decreases |e| - j
      {
        FragmentOfObject(iter, e, j);
        DataStep(e, j);
        DataOfPrefix(e, j + 1);
        var (_, fragmentSize) := GetFragment(iter).value;
        len := len + fragmentSize;
        iter := NextFragment(iter);
        j := j + 1;
      }
      assert e[..j] == e;
      size := len;
    }
  }

  /** A ring of eight bytes with an object of four bytes at its start. */
  method LogOfFour(storage: array<byte>) returns (log: ObjectLog)
    requires storage.Length == 8 && forall i :: 0 <= i < 8 ==> storage[i] == 0
    modifies storage
    ensures fresh(log) && fresh(log.ring) && log.ring.buffer == storage && log.Valid()
    ensures log.entries == [[Fragment([1, 2, 3, 4], true)]] && log.ptrFirst == 0 && log.ring.writePtr == 5
  {
    hide Split, Stored, StoredAll, Image, Untouched, TotalFootprint, Footprint, ShortestDrop, End;
    hide FitsBesideLast, TotalLen, IsObject, Data, EndAll, Concat, Objects;
    log := new ObjectLog(storage);
    ConcatOne([1, 2, 3, 4]);
    FourAtStart();
    StartOfFirst(0, log.entries, 8);
    var missing, dropped := log.WriteScatteredObject([[1, 2, 3, 4]]);
  }

  /**
   * A log overwritten: an object of five bytes is accepted behind the one of
   * four. It is written over that one, and the first of the two entries of the
   * log now reads as the end of the second.
   */
  method OverwriteLastEntry(storage: array<byte>) returns (log: ObjectLog)
    requires storage.Length == 8 && forall i :: 0 <= i < 8 ==> storage[i] == 0
    modifies storage
    ensures fresh(log) && log.ring.buffer == storage && !log.Valid()
    ensures log.ptrFirst == 0 && log.numEntries == |log.entries| == 2
    ensures log.entries[0] == [Fragment([1, 2, 3, 4], true)] && Data(log.entries[1]) == [5, 6, 7, 8, 9]
    ensures !Stored(storage[..], 0, log.entries[0]) && Stored(storage[..], 0, [Fragment([7, 8, 9], true)])
  {
    hide Split, Stored, StoredAll, Image, Untouched, TotalFootprint, Footprint, ShortestDrop, End;
    hide FitsBesideLast, TotalLen, IsObject, Data, EndAll, Concat, Objects;
    log := LogOfFour(storage);
    ghost var before := storage[..];
    FirstIsStored(before, log.entries);
    ConcatOne([5, 6, 7, 8, 9]);
    FourAtStart();
    StartOfFirst(0, log.entries, 8);
    SplitIsObject(8, 5, [5, 6, 7, 8, 9]);
    var missing, dropped := log.WriteScatteredObject([[5, 6, 7, 8, 9]]);
    FiveOverFour(before, storage[..]);
  }

  lemma FirstIsStored(buf: seq<byte>, entries: seq<Entry>)
    requires entries != [] && StoredAll(buf, 0, entries)
    ensures Stored(buf, 0, entries[0])
  {
  }
}
