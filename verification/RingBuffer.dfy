/**
 * The ring buffer of src/ringbuffer.h. `read_ptr == write_ptr` means empty, so
 * a ring of `size` bytes holds at most `size - 1`.
 */
module Ring {
  import opened Bytes

  /** A position one further, modulo the size of the ring. */
  function Next(p: nat, size: nat): (q: nat)
    requires p < size
    ensures q < size && q == (p + 1) % size
  {
    if p + 1 == size then 0 else p + 1
  }

  /** `ringbuffer_available`. */
  function Used(size: nat, r: nat, w: nat): int {
    if w >= r then w - r else size - r + w
  }

  /** The bytes waiting to be read, oldest first. */
  function Contents(buf: seq<byte>, r: nat, w: nat): (s: seq<byte>)
    requires r < |buf| && w < |buf|
    ensures |s| == Used(|buf|, r, w) < |buf|
  {
    if w >= r then buf[r..w] else buf[r..] + buf[..w]
  }

  /** Bytes written one at a time with `ringbuffer_write_one`: the buffer and the write pointer. */
  function WriteSeq(buf: seq<byte>, w: nat, data: seq<byte>): (res: (seq<byte>, nat))
    requires w < |buf|
    ensures |res.0| == |buf| && res.1 < |buf|
    decreases |data|
  {
    if data == [] then (buf, w) else WriteSeq(buf[w := data[0]], Next(w, |buf|), data[1..])
  }

  lemma {:induction false} WriteSeqConcat(buf: seq<byte>, w: nat, a: seq<byte>, b: seq<byte>)
    requires w < |buf|
    ensures var (buf1, w1) := WriteSeq(buf, w, a);
      WriteSeq(buf, w, a + b) == WriteSeq(buf1, w1, b)
    decreases |a|
  {
    if a == [] {
      assert a + b == b;
    } else {
      assert (a + b)[1..] == a[1..] + b;
      WriteSeqConcat(buf[w := a[0]], Next(w, |buf|), a[1..], b);
    }
  }

  /** A run of bytes that does not cross the end lands in one block. */
  lemma {:induction false} WriteBlock(buf: seq<byte>, w: nat, data: seq<byte>)
    requires w < |buf| && w + |data| <= |buf|
    ensures WriteSeq(buf, w, data)
         == (buf[..w] + data + buf[w + |data|..], if w + |data| == |buf| then 0 else w + |data|)
    decreases |data|
  {
    if data == [] {
      assert buf[..w] + data + buf[w..] == buf;
    } else if |data| == 1 {
      assert data == [data[0]];
      assert buf[w := data[0]] == buf[..w] + data + buf[w + 1..];
      assert WriteSeq(buf, w, data) == WriteSeq(buf[w := data[0]], Next(w, |buf|), []);
    } else {
      var buf1 := buf[w := data[0]];
      WriteBlock(buf1, w + 1, data[1..]);
      assert buf1[..w + 1] + data[1..] + buf1[w + |data|..] == buf[..w] + data + buf[w + |data|..];
    }
  }

  /** Writing one byte appends it, unless the ring already holds `size - 1` bytes. */
  lemma WriteOneAppends(buf: seq<byte>, r: nat, w: nat, b: byte)
    requires r < |buf| && w < |buf| && Used(|buf|, r, w) + 1 < |buf|
    ensures Contents(buf[w := b], r, Next(w, |buf|)) == Contents(buf, r, w) + [b]
  {
  }

  lemma ReadOneTakesFirst(buf: seq<byte>, r: nat, w: nat)
    requires r < |buf| && w < |buf| && Used(|buf|, r, w) > 0
    ensures Contents(buf, r, w) == [buf[r]] + Contents(buf, Next(r, |buf|), w)
  {
  }

  lemma {:induction false} WriteSeqAppends(buf: seq<byte>, r: nat, w: nat, data: seq<byte>)
    requires r < |buf| && w < |buf| && Used(|buf|, r, w) + |data| < |buf|
    ensures var (buf', w') := WriteSeq(buf, w, data);
      Contents(buf', r, w') == Contents(buf, r, w) + data
    decreases |data|
  {
    if data == [] {
      assert Contents(buf, r, w) + data == Contents(buf, r, w);
    } else {
      WriteOneAppends(buf, r, w, data[0]);
      var buf1, w1 := buf[w := data[0]], Next(w, |buf|);
      WriteSeqAppends(buf1, r, w1, data[1..]);
      assert Contents(buf, r, w) + [data[0]] + data[1..] == Contents(buf, r, w) + data;
    }
  }

  /** The ring is a queue exactly while the bytes kept in it stay below its size. */
  lemma QueueIffBelowSize(buf: seq<byte>, r: nat, w: nat, data: seq<byte>)
    requires r < |buf| && w < |buf|
    ensures var (buf', w') := WriteSeq(buf, w, data);
      Contents(buf', r, w') == Contents(buf, r, w) + data <==> Used(|buf|, r, w) + |data| < |buf|
  {
    if Used(|buf|, r, w) + |data| < |buf| {
      WriteSeqAppends(buf, r, w, data);
    } else {
      var (buf', w') := WriteSeq(buf, w, data);
      assert |Contents(buf', r, w')| < |buf| <= |Contents(buf, r, w) + data|;
    }
  }

  lemma {:induction false} WriteSeqPointer(buf: seq<byte>, w: nat, data: seq<byte>)
    requires w < |buf|
    ensures WriteSeq(buf, w, data).1 == (w + |data|) % |buf|
    decreases |data|
  {
    if data != [] {
      var size := |buf|;
      WriteSeqPointer(buf[w := data[0]], Next(w, size), data[1..]);
      if w + 1 == size {
        ModPlusSize(|data| - 1, size);
        assert (0 + |data[1..]|) % size == (w + |data|) % size;
      }
    }
  }

  lemma ModPlusSize(x: nat, size: nat)
    requires 0 < size
    ensures (x + size) % size == x % size
  {
    var q, m := x / size, x % size;
    assert x + size == (q + 1) * size + m;
    ModUnique(x + size, q + 1, m, size);
  }

  lemma ModUnique(x: nat, q: nat, m: nat, size: nat)
    requires m < size && x == q * size + m
    ensures x % size == m && x / size == q
  {
    var q' := x / size;
    assert x == q' * size + x % size;
    if q' < q {
      MulSpread(q', q, size);
    } else if q < q' {
      MulSpread(q, q', size);
    }
  }

  lemma MulSpread(a: nat, b: nat, size: nat)
    requires a < b
    ensures a * size + size <= b * size
  {
    var k := b - a - 1;
    assert (a + 1 + k) * size == a * size + size + k * size;
  }

  /** The `%=` that ends every pointer update. */
  lemma WrapPointer(p: nat, size: nat)
    requires 0 < size && p <= size
    ensures p % size == if p == size then 0 else p
  {
  }

  /** Exactly filling the ring makes it look empty: everything in it is lost. */
  lemma ExactFillLooksEmpty(buf: seq<byte>, r: nat, w: nat, data: seq<byte>)
    requires r < |buf| && w < |buf| && Used(|buf|, r, w) + |data| == |buf|
    ensures var (buf', w') := WriteSeq(buf, w, data); Contents(buf', r, w') == []
  {
    WriteSeqPointer(buf, w, data);
    if w + |data| != r {
      ModPlusSize(r, |buf|);
    }
    assert r % |buf| == r by { ModUnique(r, 0, r, |buf|); }
  }

  /** The bytes that `ringbuffer_write` really stores: the last `size` of a longer block. */
  function Kept(data: seq<byte>, size: nat): seq<byte> {
    if |data| > size then data[|data| - size..] else data
  }

  /** Writing as many bytes as the ring has replaces whatever was in it. */
  lemma {:induction false} FullWriteForgets(buf1: seq<byte>, buf2: seq<byte>, w: nat, data: seq<byte>)
    requires |buf1| == |buf2| == |data| && w < |buf1|
    ensures WriteSeq(buf1, w, data) == WriteSeq(buf2, w, data)
  {
    var high, low := data[..|data| - w], data[|data| - w..];
    assert data == high + low;
    WriteSeqConcat(buf1, w, high, low);
    WriteSeqConcat(buf2, w, high, low);
    WriteBlock(buf1, w, high);
    WriteBlock(buf2, w, high);
    var (a, _) := WriteSeq(buf1, w, high);
    var (b, _) := WriteSeq(buf2, w, high);
    WriteBlock(a, 0, low);
    WriteBlock(b, 0, low);
    assert a[..0] + low + a[w..] == b[..0] + low + b[w..];
  }

  /**
   * The two-part bulk write equals byte-by-byte writes exactly when the block
   * fits the ring or is a whole number of turns: for a longer block the write
   * pointer stays where it was.
   */
  lemma BulkEqualsBytewise(buf: seq<byte>, w: nat, data: seq<byte>)
    requires w < |buf|
    ensures WriteSeq(buf, w, Kept(data, |buf|)) == WriteSeq(buf, w, data) <==> |data| <= |buf| || |data| % |buf| == 0
  {
    var size := |buf|;
    if |data| > size {
      var dropped, kept := data[..|data| - size], data[|data| - size..];
      WriteSeqPointer(buf, w, kept);
      WriteSeqPointer(buf, w, data);
      WriteSeqPointer(buf, w, dropped);
      ModPlusSize(w, size);
      ModUnique(w, 0, w, size);
      SameModIffMultiple(w, |data|, size);
      if |data| % size == 0 {
        ModPlusSize(w + |dropped|, size);
        assert data == dropped + kept;
        WriteSeqConcat(buf, w, dropped, kept);
        FullWriteForgets(WriteSeq(buf, w, dropped).0, buf, w, kept);
      }
    }
  }

  lemma SameModIffMultiple(w: nat, n: nat, size: nat)
    requires w < size
    ensures (w + n) % size == w <==> n % size == 0
  {
    var q, m := n / size, n % size;
    assert w + n == q * size + (w + m);
    if w + m < size {
      ModUnique(w + n, q, w + m, size);
    } else {
      assert w + n == (q + 1) * size + (w + m - size);
      ModUnique(w + n, q + 1, w + m - size, size);
    }
  }

  /** `ringbuffer_t`. */
  class RingBuffer {
    const buffer: array<byte>
    const size: uint16
    var readPtr: uint16
    var writePtr: uint16

    predicate Valid()
      reads this
    {
      0 < size == buffer.Length && readPtr < size && writePtr < size
    }

    ghost function View(): seq<byte>
      reads this, buffer
      requires Valid()
    {
      Contents(buffer[..], readPtr, writePtr)
    }

    /** `ringbuffer_init` */
    constructor (storage: array<byte>)
      requires 0 < storage.Length < 65536
      ensures Valid() && buffer == storage && size == storage.Length
      ensures readPtr == 0 && writePtr == 0
    {
      buffer, size := storage, storage.Length;
      readPtr, writePtr := 0, 0;
    }

    /** `ringbuffer_available` */
    function Available(): (n: nat)
      reads this, buffer
      requires Valid()
      ensures n == |View()|
    {
      if writePtr >= readPtr then writePtr - readPtr else size - readPtr + writePtr
    }

    /** `ringbuffer_read_one`; on an empty ring it returns a stale byte and the ring looks full. */
    method ReadOne() returns (b: byte)
      requires Valid()
      modifies this`readPtr
      ensures Valid() && b == buffer[old(readPtr)] && readPtr == Next(old(readPtr), size)
      ensures old(View()) != [] ==> old(View()) == [b] + View()
    {
      if Available() > 0 {
        ReadOneTakesFirst(buffer[..], readPtr, writePtr);
      }
      b := buffer[readPtr];
      readPtr := (readPtr + 1) % size;
    }

    /** `ringbuffer_write_one` */
    method WriteOne(b: byte)
      requires Valid()
      modifies this`writePtr, buffer
      ensures Valid() && buffer[..] == old(buffer[..])[old(writePtr) := b] && writePtr == Next(old(writePtr), size)
      ensures |old(View())| + 1 < size ==> View() == old(View()) + [b]
    {
      if Available() + 1 < size {
        WriteOneAppends(buffer[..], readPtr, writePtr, b);
      }
      buffer[writePtr] := b;
      writePtr := (writePtr + 1) % size;
    }

    /** memcpy of `data` to &buffer[at] */
    method Copy(at: nat, data: seq<byte>)
      requires at + |data| <= buffer.Length
      modifies buffer
      ensures buffer[..] == old(buffer[..at]) + data + old(buffer[at + |data|..])
    {
      forall i | 0 <= i < |data| {
        buffer[at + i] := data[i];
      }
    }

    /** The branch of `ringbuffer_write` for a block that does not fit before the end. */
    method WriteAcrossEnd(data: seq<byte>)
      requires Valid() && size - writePtr < |data|
      modifies this`writePtr, buffer
      ensures Valid()
      ensures (buffer[..], writePtr as nat) == WriteSeq(old(buffer[..]), old(writePtr), Kept(data, size))
    {
      ghost var buf0, w0, kept := buffer[..], writePtr, Kept(data, size);
      var data8, len := data, |data|;
      if len > size {
        data8 := data8[len - size..];
        len := size;
      }
      var n := size - writePtr;
      ghost var high, low := kept[..n], kept[n..];
      assert kept == high + low;
      WriteSeqConcat(buf0, w0, high, low);
      WriteBlock(buf0, w0, high);
      Copy(writePtr, data8[..n]);
      data8 := data8[n..];
      len := len - n;
      writePtr := 0;
      assert data8 == low && (buffer[..], 0) == WriteSeq(buf0, w0, high);
      WriteBlock(buffer[..], 0, low);
      Copy(0, data8);
      writePtr := writePtr + len;
    }

    /** `ringbuffer_write` */
    method Write(data: seq<byte>)
      requires Valid() && |data| < 65536
      modifies this`writePtr, buffer
      ensures Valid()
      ensures (buffer[..], writePtr as nat) == WriteSeq(old(buffer[..]), old(writePtr), Kept(data, size))
      ensures |old(View())| + |data| < size ==> View() == old(View()) + data
    {
      ghost var buf0, w0 := buffer[..], writePtr;
      if size - writePtr < |data| {
        WriteAcrossEnd(data);
      } else {
        WriteBlock(buf0, w0, data);
        Copy(writePtr, data);
        writePtr := writePtr + |data|;
      }
      WrapPointer(writePtr, size);
      writePtr := writePtr % size;
      assert (buffer[..], writePtr as nat) == WriteSeq(buf0, w0, Kept(data, size));
      if Used(size, readPtr, w0) + |data| < size {
        WriteSeqAppends(buf0, readPtr, w0, data);
      }
    }

    /** `ringbuffer_advance_read`, with its sum taken in 16 bits. */
    method AdvanceRead(len: uint16)
      requires Valid()
      modifies this`readPtr
      ensures Valid() && readPtr == (old(readPtr) + (if len > size then len - size else len)) % 0x1_0000 % size
      ensures old(readPtr) + len <= size ==> readPtr == if old(readPtr) + len == size then 0 else old(readPtr) + len
    {
      var n: uint16 := if len > size then len - size else len;
      if readPtr + n <= size {
        WrapPointer(readPtr + n, size);
      }
      readPtr := (readPtr + n) % 0x1_0000;
      readPtr := readPtr % size;
    }
  }
}
