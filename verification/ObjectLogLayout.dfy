/**
 * How src/objectlog.c lays objects out in its ring: each object is a run of
 * fragments, each fragment a length-prefixed block that does not cross the end
 * of the buffer, and the last fragment of an object carries the FINAL flag.
 */
module ObjectLogLayout {
  import opened Bytes

  const MAX_FRAGMENT_LEN := 0x7f
  const FRAGMENT_FINAL := 0x80

  datatype Fragment = Fragment(data: seq<byte>, final: bool)

  /** An object as stored: its fragments in order. */
  type Entry = seq<Fragment>

  /** The FRAGMENT_LEN macro. */
  function FragmentLen(hdr: byte): nat {
    hdr % 128
  }

  function IsFinal(hdr: byte): bool {
    hdr >= FRAGMENT_FINAL
  }

  /** The header byte that `objectlog_write_fragment_hdr` writes. */
  function Header(len: nat, final: bool): byte {
    len % 128 + (if final then FRAGMENT_FINAL else 0)
  }

  /** The contents of an entry. */
  function Data(e: Entry): seq<byte> {
    if e == [] then [] else Data(e[..|e| - 1]) + e[|e| - 1].data
  }

  /** The bytes an entry takes in the ring, headers included. */
  function Footprint(e: Entry): nat {
    if e == [] then 0 else 1 + |e[0].data| + Footprint(e[1..])
  }

  function TotalFootprint(entries: seq<Entry>): nat {
    if entries == [] then 0 else Footprint(entries[0]) + TotalFootprint(entries[1..])
  }

  /** The position after a fragment stored at `p`. */
  function After(p: nat, f: Fragment, size: nat): nat {
    if p + 1 + |f.data| == size then 0 else p + 1 + |f.data|
  }

  function End(p: nat, e: Entry, size: nat): nat
    decreases |e|
  {
    if e == [] then p else End(After(p, e[0], size), e[1..], size)
  }

  function EndAll(p: nat, entries: seq<Entry>, size: nat): nat
    decreases |entries|
  {
    if entries == [] then p else EndAll(End(p, entries[0], size), entries[1..], size)
  }

  /** A fragment is stored at `p`, header and data in one piece. */
  ghost predicate FragmentAt(buf: seq<byte>, p: nat, f: Fragment) {
    && |f.data| <= MAX_FRAGMENT_LEN
    && p + 1 + |f.data| <= |buf|
    && buf[p] == Header(|f.data|, f.final)
    && buf[p + 1..p + 1 + |f.data|] == f.data
  }

  /** The header gives back the length and the flag. */
  lemma HeaderOfFragment(buf: seq<byte>, p: nat, f: Fragment)
    requires FragmentAt(buf, p, f)
    ensures buf[p] == Header(|f.data|, f.final)
    ensures FragmentLen(buf[p]) == |f.data| && IsFinal(buf[p]) == f.final
    ensures p + 1 + |f.data| <= |buf| && buf[p + 1..p + 1 + |f.data|] == f.data
  {
  }

  ghost predicate Stored(buf: seq<byte>, p: nat, e: Entry)
    decreases |e|
  {
    p < |buf| && (e != [] ==> FragmentAt(buf, p, e[0]) && Stored(buf, After(p, e[0], |buf|), e[1..]))
  }

  ghost predicate StoredAll(buf: seq<byte>, p: nat, entries: seq<Entry>)
    decreases |entries|
  {
    && p < |buf|
    && (entries != [] ==>
          Stored(buf, p, entries[0]) && StoredAll(buf, End(p, entries[0], |buf|), entries[1..]))
  }

  /** Only the last fragment is final. */
  ghost predicate IsObject(e: Entry) {
    e != [] && e[|e| - 1].final && forall i :: 0 <= i < |e| - 1 ==> !e[i].final
  }

  // ------------------------------------------------------------- footprints

  /** How far `x` lies behind `p`, going round the ring. */
  function Dist(p: nat, x: nat, size: nat): int {
    if x >= p then x - p else x - p + size
  }

  /** The position `n` bytes behind `p`. */
  function Forward(p: nat, n: nat, size: nat): int {
    if p + n < size then p + n else p + n - size
  }

  lemma {:induction false} EndIsForward(buf: seq<byte>, p: nat, e: Entry)
    requires Stored(buf, p, e) && Footprint(e) <= |buf|
    ensures End(p, e, |buf|) == Forward(p, Footprint(e), |buf|) < |buf|
    decreases |e|
  {
    if e != [] {
      EndIsForward(buf, After(p, e[0], |buf|), e[1..]);
    }
  }

  lemma {:induction false} EndAllIsForward(buf: seq<byte>, p: nat, entries: seq<Entry>)
    requires StoredAll(buf, p, entries) && TotalFootprint(entries) <= |buf|
    ensures EndAll(p, entries, |buf|) == Forward(p, TotalFootprint(entries), |buf|) < |buf|
    decreases |entries|
  {
    if entries != [] {
      EndIsForward(buf, p, entries[0]);
      EndAllIsForward(buf, End(p, entries[0], |buf|), entries[1..]);
    }
  }

  /** What is stored depends only on the bytes of its footprint. */
  lemma {:induction false} StoredFrame(buf: seq<byte>, buf': seq<byte>, p: nat, e: Entry)
    requires Stored(buf, p, e) && Footprint(e) <= |buf| == |buf'|
    requires forall x :: 0 <= x < |buf| && Dist(p, x, |buf|) < Footprint(e) ==> buf'[x] == buf[x]
    ensures Stored(buf', p, e)
    decreases |e|
  {
    if e != [] {
      var f, q := e[0], After(p, e[0], |buf|);
      assert Dist(p, p, |buf|) < Footprint(e);
      assert buf'[p + 1..p + 1 + |f.data|] == buf[p + 1..p + 1 + |f.data|];
      forall x | 0 <= x < |buf| && Dist(q, x, |buf|) < Footprint(e[1..])
        ensures buf'[x] == buf[x]
      {
        assert Dist(p, x, |buf|) < Footprint(e);
      }
      StoredFrame(buf, buf', q, e[1..]);
    }
  }

  lemma {:induction false} StoredAllFrame(buf: seq<byte>, buf': seq<byte>, p: nat, entries: seq<Entry>)
    requires StoredAll(buf, p, entries) && TotalFootprint(entries) <= |buf| == |buf'|
    requires forall x :: 0 <= x < |buf| && Dist(p, x, |buf|) < TotalFootprint(entries) ==> buf'[x] == buf[x]
    ensures StoredAll(buf', p, entries)
    decreases |entries|
  {
    if entries != [] {
      var q := End(p, entries[0], |buf|);
      EndIsForward(buf, p, entries[0]);
      StoredFrame(buf, buf', p, entries[0]);
      forall x | 0 <= x < |buf| && Dist(q, x, |buf|) < TotalFootprint(entries[1..])
        ensures buf'[x] == buf[x]
      {
        assert Dist(p, x, |buf|) < TotalFootprint(entries);
      }
      StoredAllFrame(buf, buf', q, entries[1..]);
    }
  }

  /** Fragment `j` of an entry, and the fragments behind it. */
  lemma StoredStep(buf: seq<byte>, p: nat, e: Entry, j: nat)
    requires j < |e| && Stored(buf, p, e[j..])
    ensures FragmentAt(buf, p, e[j]) && Stored(buf, After(p, e[j], |buf|), e[j + 1..])
    ensures Footprint(e[j..]) == 1 + |e[j].data| + Footprint(e[j + 1..])
    ensures End(p, e[j..], |buf|) == End(After(p, e[j], |buf|), e[j + 1..], |buf|)
    ensures j + 1 == |e| ==> Footprint(e[j + 1..]) == 0 && End(p, e[j..], |buf|) == After(p, e[j], |buf|)
  {
  }

  // --------------------------------------------------------------- appending

  lemma {:induction false} FootprintSnoc(e: Entry, f: Fragment)
    ensures Footprint(e + [f]) == Footprint(e) + 1 + |f.data|
    ensures Data(e + [f]) == Data(e) + f.data
  {
    assert (e + [f])[..|e|] == e;
    if e != [] {
      FootprintSnoc(e[1..], f);
      assert (e + [f])[1..] == e[1..] + [f];
    }
  }

  lemma {:induction false} StoredSnoc(buf: seq<byte>, p: nat, e: Entry, f: Fragment)
    requires Stored(buf, p, e) && End(p, e, |buf|) < |buf| && FragmentAt(buf, End(p, e, |buf|), f)
    ensures Stored(buf, p, e + [f])
    ensures End(p, e + [f], |buf|) == After(End(p, e, |buf|), f, |buf|)
    decreases |e|
  {
    if e == [] {
      assert [f][1..] == [] && ([] + [f])[1..] == [];
    } else {
      assert (e + [f])[1..] == e[1..] + [f];
      StoredSnoc(buf, After(p, e[0], |buf|), e[1..], f);
    }
  }

  lemma {:induction false} TotalFootprintSnoc(entries: seq<Entry>, e: Entry)
    ensures TotalFootprint(entries + [e]) == TotalFootprint(entries) + Footprint(e)
  {
    if entries == [] {
      assert [] + [e] == [e] && [e][1..] == [];
    } else {
      assert (entries + [e])[1..] == entries[1..] + [e];
      TotalFootprintSnoc(entries[1..], e);
    }
  }

  lemma {:induction false} StoredAllSnoc(buf: seq<byte>, p: nat, entries: seq<Entry>, e: Entry)
    requires StoredAll(buf, p, entries) && Stored(buf, EndAll(p, entries, |buf|), e)
    requires End(EndAll(p, entries, |buf|), e, |buf|) < |buf|
    ensures StoredAll(buf, p, entries + [e])
    ensures EndAll(p, entries + [e], |buf|) == End(EndAll(p, entries, |buf|), e, |buf|)
    ensures TotalFootprint(entries + [e]) == TotalFootprint(entries) + Footprint(e)
    decreases |entries|
  {
    if entries == [] {
      var one := [] + [e];
      assert one[1..] == [] && one[0] == e;
      assert TotalFootprint(one) == Footprint(e) + TotalFootprint(one[1..]);
      assert EndAll(p, one, |buf|) == EndAll(End(p, e, |buf|), one[1..], |buf|);
    } else {
      assert (entries + [e])[1..] == entries[1..] + [e];
      StoredAllSnoc(buf, End(p, entries[0], |buf|), entries[1..], e);
    }
  }

  /** The entries before the last one, and the last one behind them. */
  lemma {:induction false} StoredAllPrefix(buf: seq<byte>, p: nat, front: seq<Entry>, last: Entry)
    requires StoredAll(buf, p, front + [last])
    ensures StoredAll(buf, p, front) && Stored(buf, EndAll(p, front, |buf|), last)
    ensures TotalFootprint(front + [last]) == TotalFootprint(front) + Footprint(last)
    ensures EndAll(p, front + [last], |buf|) == End(EndAll(p, front, |buf|), last, |buf|)
    decreases |front|
  {
    var all := front + [last];
    if front == [] {
      assert all[1..] == [] && all[0] == last;
      assert TotalFootprint(all) == Footprint(last) + TotalFootprint(all[1..]);
      assert EndAll(p, all, |buf|) == EndAll(End(p, last, |buf|), all[1..], |buf|);
    } else {
      assert all[1..] == front[1..] + [last] && all[0] == front[0];
      StoredAllPrefix(buf, End(p, front[0], |buf|), front[1..], last);
    }
  }

  /** Where entry `k` is stored, and where the next one starts. */
  lemma {:induction false} StoredAllAt(buf: seq<byte>, p: nat, entries: seq<Entry>, k: nat)
    requires StoredAll(buf, p, entries) && k < |entries|
    ensures Stored(buf, EndAll(p, entries[..k], |buf|), entries[k])
    ensures EndAll(p, entries[..k + 1], |buf|) == End(EndAll(p, entries[..k], |buf|), entries[k], |buf|)
    ensures TotalFootprint(entries[..k]) + Footprint(entries[k]) <= TotalFootprint(entries)
    ensures StoredAll(buf, p, entries[..k])
    decreases k
  {
    if k == 0 {
      var one := entries[..1];
      assert one[1..] == [] && one[0] == entries[0];
      assert EndAll(p, one, |buf|) == EndAll(End(p, entries[0], |buf|), one[1..], |buf|);
    } else {
      StoredAllAt(buf, End(p, entries[0], |buf|), entries[1..], k - 1);
      assert entries[..k][1..] == entries[1..][..k - 1] && entries[..k + 1][1..] == entries[1..][..k];
    }
  }

  lemma {:induction false} DataFits(e: Entry)
    ensures |Data(e)| <= Footprint(e)
    decreases |e|
  {
    if e != [] {
      assert e == e[..|e| - 1] + [e[|e| - 1]];
      FootprintSnoc(e[..|e| - 1], e[|e| - 1]);
      DataFits(e[..|e| - 1]);
    }
  }

  /** The contents of one more fragment. */
  lemma DataStep(e: Entry, j: nat)
    requires j < |e|
    ensures Data(e[..j + 1]) == Data(e[..j]) + e[j].data
  {
    assert e[..j + 1][..j] == e[..j];
  }

  // ------------------------------------------------------------- fragmenting

  /** The largest fragment that may start at `w`: it must not cross the end. */
  function Capacity(size: nat, w: nat): nat
    requires w < size
  {
    if MAX_FRAGMENT_LEN > size - w - 1 then size - w - 1 else MAX_FRAGMENT_LEN
  }

  function FirstFragment(size: nat, w: nat, data: seq<byte>): Fragment
    requires w < size
  {
    var n := if |data| <= Capacity(size, w) then |data| else Capacity(size, w);
    Fragment(data[..n], n == |data|)
  }

  /** The fragments of an object written at `w`. One of length 0 fills the last byte of the ring. */
  function Split(size: nat, w: nat, data: seq<byte>): Entry
    requires 2 <= size && w < size
    decreases |data|, if w == size - 1 then 1 else 0
  {
    if data == [] then []
    else
      var f := FirstFragment(size, w, data);
      [f] + Split(size, After(w, f, size), data[|f.data|..])
  }

  function CeilDiv(x: nat, y: nat): nat
    requires y > 0
  {
    (x + (y - 1)) / y
  }

  /** The length of `n` bytes with a header for every 127 of them. */
  function WithHeaders(n: nat): nat {
    n + CeilDiv(n, MAX_FRAGMENT_LEN)
  }

  /** `total_len` as computed by the writer. */
  function TotalLen(n: nat, logEnd: nat, size: nat): nat {
    WithHeaders(n) + (if logEnd + WithHeaders(n) > size then 1 else 0)
  }

  /** `total_len` in the 16 bits that the writer has for it. */
  function TotalLen16(n: nat, logEnd: nat, size: nat): nat {
    var total := WithHeaders(n % 0x1_0000) % 0x1_0000;
    if logEnd + total > size then (total + 1) % 0x1_0000 else total
  }

  /**
   * The sixteen bits are enough exactly for the totals below 2^16. The lengths
   * from 65024 on wrap, and any ring of 517 bytes or more then seems to have
   * room for them.
   */
  lemma LengthWrapsIff(n: nat, logEnd: nat, size: nat)
    requires logEnd < size < 0x1_0000
    ensures TotalLen16(n, logEnd, size) == TotalLen(n, logEnd, size) <==> TotalLen(n, logEnd, size) < 0x1_0000
    ensures n <= 65022 ==> TotalLen(n, logEnd, size) < 0x1_0000
    ensures 65024 <= n < 0x1_0000 && 517 <= size ==> TotalLen16(n, logEnd, size) <= size < TotalLen(n, logEnd, size)
  {
    hide WithHeaders;
    HeaderBounds(n);
    if n < 0x1_0000 {
      assert n % 0x1_0000 == n;
      Wrapped(WithHeaders(n));
    }
  }

  lemma Wrapped(total: nat)
    requires total < 2 * 0x1_0000
    ensures total % 0x1_0000 == if total < 0x1_0000 then total else total - 0x1_0000
  {
  }

  lemma HeaderBounds(n: nat)
    ensures n <= WithHeaders(n)
    ensures n <= 65022 ==> WithHeaders(n) <= 65534
    ensures 65024 <= n < 0x1_0000 ==> 0x1_0000 <= WithHeaders(n)
    ensures n < 0x1_0000 ==> WithHeaders(n) <= 0x1_0000 + 516
  {
    hide CeilDiv;
    CeilDivBounds(n);
  }

  lemma CeilDivBounds(n: nat)
    ensures n <= 127 * CeilDiv(n, MAX_FRAGMENT_LEN) < n + 127
  {
  }

  lemma WithHeadersStep(n: nat)
    ensures 0 < n <= MAX_FRAGMENT_LEN ==> WithHeaders(n) == n + 1
    ensures n >= MAX_FRAGMENT_LEN ==> WithHeaders(n) == MAX_FRAGMENT_LEN + 1 + WithHeaders(n - MAX_FRAGMENT_LEN)
    ensures WithHeaders(0) == 0
  {
  }

  lemma WithHeadersMonotone(m: nat, n: nat)
    requires m <= n
    ensures n - m + WithHeaders(m) <= WithHeaders(n)
  {
  }

  lemma SplitStep(size: nat, w: nat, data: seq<byte>)
    requires 2 <= size && w < size && data != []
    ensures var f := FirstFragment(size, w, data);
      var rest := Split(size, After(w, f, size), data[|f.data|..]);
      Footprint(Split(size, w, data)) == 1 + |f.data| + Footprint(rest)
  {
  }

  /** An object that ends before the end of the ring has no shortened fragment. */
  lemma {:induction false} SplitWithoutWrap(size: nat, w: nat, data: seq<byte>)
    requires 2 <= size && w < size && w + WithHeaders(|data|) <= size
    ensures Footprint(Split(size, w, data)) == WithHeaders(|data|)
    decreases |data|
  {
    if data != [] {
      WithHeadersStep(|data|);
      SplitStep(size, w, data);
      if |data| > MAX_FRAGMENT_LEN {
        SplitWithoutWrap(size, w + MAX_FRAGMENT_LEN + 1, data[MAX_FRAGMENT_LEN..]);
      }
    }
  }

  /** Wrapping costs at most one extra header: the computed length is never too small. */
  lemma {:induction false} SplitFitsTotalLen(size: nat, w: nat, data: seq<byte>)
    requires 2 <= size && w < size && TotalLen(|data|, w, size) <= size
    ensures Footprint(Split(size, w, data)) <= TotalLen(|data|, w, size)
    decreases |data|
  {
    WithHeadersStep(|data|);
    if w + WithHeaders(|data|) <= size {
      SplitWithoutWrap(size, w, data);
    } else {
      SplitStep(size, w, data);
      var f := FirstFragment(size, w, data);
      var rest := data[|f.data|..];
      WithHeadersMonotone(|rest|, |data|);
      if After(w, f, size) == 0 {
        SplitWithoutWrap(size, 0, rest);
      } else {
        SplitFitsTotalLen(size, After(w, f, size), rest);
      }
    }
  }

  lemma OneHeaderMore(n: nat, k: nat)
    requires k <= n && k <= MAX_FRAGMENT_LEN
    ensures WithHeaders(n) <= 1 + k + WithHeaders(n - k)
  {
    CeilDivBounds(n);
    CeilDivBounds(n - k);
    hide CeilDiv;
  }

  lemma {:induction false} SplitNeedsHeaders(size: nat, w: nat, data: seq<byte>)
    requires 2 <= size && w < size
    ensures WithHeaders(|data|) <= Footprint(Split(size, w, data))
    decreases |data|, if w == size - 1 then 1 else 0
  {
    hide WithHeaders;
    if data == [] {
      WithHeadersStep(0);
    } else {
      var f := FirstFragment(size, w, data);
      SplitStep(size, w, data);
      SplitNeedsHeaders(size, After(w, f, size), data[|f.data|..]);
      OneHeaderMore(|data|, |f.data|);
    }
  }

  /**
   * The computed length is not too large either: it is exact for an object that
   * does not wrap, and at most one too much for one that does.
   */
  lemma TotalLenIsTight(size: nat, w: nat, data: seq<byte>)
    requires 2 <= size && w < size
    ensures TotalLen(|data|, w, size) <= Footprint(Split(size, w, data)) + 1
    ensures w + Footprint(Split(size, w, data)) <= size ==> TotalLen(|data|, w, size) == Footprint(Split(size, w, data))
  {
    hide WithHeaders, Split, Footprint;
    SplitNeedsHeaders(size, w, data);
    if w + WithHeaders(|data|) <= size {
      SplitWithoutWrap(size, w, data);
    }
  }

  /** Splitting keeps the data and makes an object. */
  lemma {:induction false} SplitIsObject(size: nat, w: nat, data: seq<byte>)
    requires 2 <= size && w < size && data != []
    ensures IsObject(Split(size, w, data)) && Data(Split(size, w, data)) == data
    decreases |data|, if w == size - 1 then 1 else 0
  {
    var f := FirstFragment(size, w, data);
    var rest := data[|f.data|..];
    var e := Split(size, After(w, f, size), rest);
    DataCons(f, e);
    if rest != [] {
      SplitIsObject(size, After(w, f, size), rest);
      assert data == f.data + rest;
    }
  }

  lemma {:induction false} DataCons(f: Fragment, e: Entry)
    ensures Data([f] + e) == f.data + Data(e)
    decreases |e|
  {
    if e == [] {
      assert [f] + e == [f] && [f][..0] == [];
      assert Data([f]) == Data([f][..0]) + f.data;
    } else {
      assert ([f] + e)[..|e|] == [f] + e[..|e| - 1];
      DataCons(f, e[..|e| - 1]);
    }
  }
}
