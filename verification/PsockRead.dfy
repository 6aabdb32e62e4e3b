/**
 * Reading lines from a protosocket (`psock_readto` in src/uip/psock.c). The
 * protothread is resumed once per callback of the TCP engine; its resume point
 * is the explicit field `lc`.
 */
module PsockRead {
  import opened Bytes
  import Common

  // ------------------------------------------------------- lines of a stream

  /** The position of the first end marker, or the length of `s`. */
  function FirstMarker(s: seq<byte>, c: byte): (k: nat)
    ensures k <= |s| && forall i :: 0 <= i < k ==> s[i] != c
    ensures k < |s| ==> s[k] == c
  {
    if s == [] || s[0] == c then 0 else 1 + FirstMarker(s[1..], c)
  }

  function Prepend(line: seq<byte>, lines: seq<seq<byte>>): seq<seq<byte>> {
    [line] + lines
  }

  /** The complete lines of `s`, each with its end marker. */
  function Lines(s: seq<byte>, c: byte): seq<seq<byte>>
    decreases |s|
  {
    var k := FirstMarker(s, c);
    if k < |s| then Prepend(s[..k + 1], Lines(s[k + 1..], c)) else []
  }

  /** What follows the last end marker. */
  function Rest(s: seq<byte>, c: byte): seq<byte>
    decreases |s|
  {
    var k := FirstMarker(s, c);
    if k < |s| then Rest(s[k + 1..], c) else s
  }

  /** What a buffer of `n` bytes keeps of a line. */
  function Truncate(line: seq<byte>, n: nat): (kept: seq<byte>)
    ensures kept <= line && |kept| <= n && (kept == line || |kept| == n)
  {
    if |line| <= n then line else line[..n]
  }

  function TruncateAll(lines: seq<seq<byte>>, n: nat): seq<seq<byte>> {
    if lines == [] then [] else TruncateAll(lines[..|lines| - 1], n) + [Truncate(lines[|lines| - 1], n)]
  }

  lemma TruncateAllSnoc(lines: seq<seq<byte>>, line: seq<byte>, n: nat)
    ensures TruncateAll(lines + [line], n) == TruncateAll(lines, n) + [Truncate(line, n)]
  {
  }

  lemma NothingTruncated(n: nat)
    ensures TruncateAll([], n) == []
  {
  }

  lemma Regroup(a: seq<byte>, b: seq<byte>, c: seq<byte>)
    ensures a + (b + c) == a + b + c
  {
  }

  lemma TakeOne(a: seq<byte>, s: seq<byte>)
    requires s != []
    ensures a + s == a + [s[0]] + s[1..]
  {
  }

  lemma {:induction false} TruncateAllConcat(a: seq<seq<byte>>, b: seq<seq<byte>>, n: nat)
    ensures TruncateAll(a + b, n) == TruncateAll(a, n) + TruncateAll(b, n)
    decreases |b|
  {
    if b == [] {
      assert a + b == a;
    } else {
      assert (a + b)[..|a + b| - 1] == a + b[..|b| - 1];
      TruncateAllConcat(a, b[..|b| - 1], n);
    }
  }

  /** A sequence has one first marker. */
  lemma FirstMarkerIs(s: seq<byte>, c: byte, k: nat)
    requires k < |s| && s[k] == c && forall i :: 0 <= i < k ==> s[i] != c
    ensures FirstMarker(s, c) == k
  {
  }

  /** A line: nothing but its last byte is an end marker. */
  ghost predicate IsLine(l: seq<byte>, c: byte) {
    l != [] && l[|l| - 1] == c && c !in l[..|l| - 1]
  }

  lemma LineBehind(a: seq<byte>, l: seq<byte>, c: byte)
    requires c !in a
    ensures IsLine(l, c) ==> IsLine(a + l, c)
  {
  }

  /** One more byte ends the line exactly if it is the end marker. */
  lemma EndsLine(before: seq<byte>, b: byte, c: byte)
    requires c !in before
    ensures if b == c then IsLine(before + [b], c) else c !in before + [b]
  {
    assert (before + [b])[..|before|] == before;
  }

  lemma LineIsNotEmpty(l: seq<byte>, c: byte)
    requires IsLine(l, c)
    ensures l != []
  {
  }

  lemma {:induction false} LinesAreLines(s: seq<byte>, c: byte)
    ensures forall i :: 0 <= i < |Lines(s, c)| ==> IsLine(Lines(s, c)[i], c)
    decreases |s|
  {
    var k := FirstMarker(s, c);
    if k < |s| {
      LinesAreLines(s[k + 1..], c);
      assert s[..k + 1][..k] == s[..k];
      assert IsLine(s[..k + 1], c);
    }
  }

  lemma LinesUnfold(s: seq<byte>, c: byte)
    ensures var k := FirstMarker(s, c);
      if k < |s| then
        Lines(s, c) == [s[..k + 1]] + Lines(s[k + 1..], c) && Rest(s, c) == Rest(s[k + 1..], c)
      else Lines(s, c) == [] && Rest(s, c) == s
  {
    hide FirstMarker, Lines, Rest, Prepend;
    LinesOf(s, c);
    RestOf(s, c);
    var k := FirstMarker(s, c);
    if k < |s| {
      PrependIs(s[..k + 1], Lines(s[k + 1..], c));
    }
  }

  lemma PrependIs(line: seq<byte>, lines: seq<seq<byte>>)
    ensures Prepend(line, lines) == [line] + lines
  {
  }

  lemma RestOf(s: seq<byte>, c: byte)
    ensures var k := FirstMarker(s, c); Rest(s, c) == if k < |s| then Rest(s[k + 1..], c) else s
  {
    hide FirstMarker, Lines, Prepend;
  }

  lemma LinesOf(s: seq<byte>, c: byte)
    ensures var k := FirstMarker(s, c);
      Lines(s, c) == if k < |s| then Prepend(s[..k + 1], Lines(s[k + 1..], c)) else []
  {
    hide FirstMarker, Rest, Prepend;
  }

  lemma JoinCons(line: seq<byte>, lines: seq<seq<byte>>)
    ensures Common.Concat([line] + lines) == line + Common.Concat(lines)
  {
  }

  /** Splitting loses nothing, and no end marker is left over. */
  lemma {:induction false} LinesPartition(s: seq<byte>, c: byte)
    ensures Common.Concat(Lines(s, c)) + Rest(s, c) == s && c !in Rest(s, c)
    decreases |s|
  {
    hide Lines, Rest, Common.Concat;
    var k := FirstMarker(s, c);
    LinesUnfold(s, c);
    if k < |s| {
      var line, later := s[..k + 1], s[k + 1..];
      LinesPartition(later, c);
      JoinCons(line, Lines(later, c));
      assert line + Common.Concat(Lines(later, c)) + Rest(later, c)
          == line + (Common.Concat(Lines(later, c)) + Rest(later, c));
      assert s == line + later;
    } else {
      NothingJoins();
    }
  }

  lemma NothingJoins()
    ensures Common.Concat([]) == []
  {
  }

  /** The lines of a stream that arrives in two parts. */
  lemma {:induction false} LinesConcat(a: seq<byte>, b: seq<byte>, c: byte)
    ensures Lines(a + b, c) == Lines(a, c) + Lines(Rest(a, c) + b, c)
    ensures Rest(a + b, c) == Rest(Rest(a, c) + b, c)
    decreases |a|
  {
    hide Lines, Rest;
    var k := FirstMarker(a, c);
    LinesUnfold(a, c);
    LinesUnfold(a + b, c);
    if k < |a| {
      FirstMarkerIs(a + b, c, k);
      assert (a + b)[..k + 1] == a[..k + 1];
      assert (a + b)[k + 1..] == a[k + 1..] + b;
      LinesConcat(a[k + 1..], b, c);
      assert [a[..k + 1]] + Lines(a[k + 1..], c) + Lines(Rest(a, c) + b, c)
          == [a[..k + 1]] + (Lines(a[k + 1..], c) + Lines(Rest(a, c) + b, c));
    }
  }

  lemma FirstMarkerIsAbsent(s: seq<byte>, c: byte)
    requires c !in s
    ensures Lines(s, c) == [] && Rest(s, c) == s
  {
  }

  /** A pending line completed by `consumed` is the first line of the stream. */
  lemma FirstLine(pending: seq<byte>, consumed: seq<byte>, later: seq<byte>, c: byte)
    requires c !in pending && IsLine(consumed, c)
    ensures Lines(pending + consumed + later, c) == [pending + consumed] + Lines(later, c)
    ensures Rest(pending + consumed + later, c) == Rest(later, c)
  {
    var s, k := pending + consumed + later, |pending| + |consumed| - 1;
    assert s[..k] == pending + consumed[..|consumed| - 1];
    assert forall i :: 0 <= i < k ==> s[i] == s[..k][i];
    FirstMarkerIs(s, c, k);
    assert s[..k + 1] == pending + consumed && s[k + 1..] == later;
  }

  /** Progress of a loop that takes the lines of a stream one by one. */
  lemma TakeLine(stream: seq<byte>, complete: seq<seq<byte>>, pending: seq<byte>, consumed: seq<byte>, later: seq<byte>,
                 c: byte, n: nat)
    requires c !in pending && IsLine(consumed, c)
    requires Lines(stream, c) == complete + Lines(pending + (consumed + later), c)
    requires Rest(stream, c) == Rest(pending + (consumed + later), c)
    ensures Lines(stream, c) == (complete + [pending + consumed]) + Lines([] + later, c)
    ensures Rest(stream, c) == Rest([] + later, c)
    ensures TruncateAll(complete + [pending + consumed], n)
         == TruncateAll(complete, n) + [Truncate(pending + consumed, n)]
  {
    hide Lines, Rest, TruncateAll, Truncate;
    var line := pending + consumed;
    TruncateAllSnoc(complete, line, n);
    assert pending + (consumed + later) == line + later && [] + later == later;
    FirstLine(pending, consumed, later, c);
    assert complete + ([line] + Lines(later, c)) == (complete + [line]) + Lines(later, c);
  }

  /** One callback: whether the UIP_NEWDATA flag is set, and the data at uip_appdata. */
  datatype Callback = Callback(newdata: bool, data: seq<byte>) {
    function Fresh(): seq<byte> {
      if newdata then data else []
    }
  }

  function Stream(callbacks: seq<Callback>): seq<byte> {
    if callbacks == [] then [] else Stream(callbacks[..|callbacks| - 1]) + callbacks[|callbacks| - 1].Fresh()
  }

  /** The lines completed by each callback in turn. */
  function LinesPerCallback(callbacks: seq<Callback>, c: byte): seq<seq<byte>> {
    if callbacks == [] then []
    else
      var before := callbacks[..|callbacks| - 1];
      LinesPerCallback(before, c) + Lines(Rest(Stream(before), c) + callbacks[|callbacks| - 1].Fresh(), c)
  }

  /** However the stream is cut into segments, the lines are those of the whole stream. */
  lemma {:induction false} SegmentationDoesNotMatter(callbacks: seq<Callback>, c: byte)
    ensures LinesPerCallback(callbacks, c) == Lines(Stream(callbacks), c)
  {
    if callbacks != [] {
      var before := callbacks[..|callbacks| - 1];
      SegmentationDoesNotMatter(before, c);
      LinesConcat(Stream(before), callbacks[|callbacks| - 1].Fresh(), c);
    }
  }

  // ----------------------------------------------------------- the protosocket

  datatype SockState = None | Acked | Read | BlockedNewdata | BlockedClose | BlockedSend | DataSent

  /** The resume point of the inner protothread. */
  datatype Lc = Start | AtNewdata

  /** The fields of `struct psock` that reading uses. */
  class Psock {
    const bufptr: array<byte>
    const bufsize: nat
    var ptr: nat            // buf.ptr, as an index
    var left: uint16        // buf.left
    var unread: seq<byte>   // the `readlen` bytes at `readptr`
    var state: SockState
    var lc: Lc
    ghost var line: seq<byte> // every byte of the current line that has been consumed

    ghost predicate Valid()
      reads this, bufptr
    {
      && 0 < bufsize == bufptr.Length < 65536
      && ptr + left == bufsize
      && bufptr[..ptr] == Truncate(line, bufsize)
      && (state != Read ==> unread == [])
      && (lc == Start ==> unread == [] || state == Read)
    }

    /** Between callbacks: nothing of the last segment is left, and the line is unfinished. */
    ghost predicate Waiting(c: byte)
      reads this, bufptr
    {
      Valid() && unread == [] && state != Read && c !in line && (lc == Start ==> line == [])
    }

    /** The bytes still to be consumed during this callback. */
    ghost function Input(now: Callback): seq<byte>
      reads this
    {
      if state == Read then unread else now.Fresh()
    }

    /** `psock_init` */
    constructor (buffer: array<byte>)
      requires 0 < buffer.Length < 65536
      ensures Valid() && bufptr == buffer && bufsize == buffer.Length
      ensures line == [] && forall c :: Waiting(c)
    {
      bufptr, bufsize := buffer, buffer.Length;
      ptr, left := 0, buffer.Length;
      unread, state, lc := [], None, Start;
      line := [];
    }

    /** `psock_datalen` */
    function DataLen(): (n: nat)
      reads this, bufptr
      requires Valid()
      ensures n == if |line| < bufsize then |line| else bufsize
    {
      assert ptr == |bufptr[..ptr]|;
      bufsize - left
    }

    /** A byte into the buffer. */
    method Store() returns (b: byte)
      requires Valid() && state == Read && unread != [] && left > 0
      modifies this`ptr, this`left, this`unread, this`line, bufptr
      ensures Valid() && b == old(unread[0]) && unread == old(unread[1..]) && line == old(line) + [b]
    {
      b := unread[0];
      ghost var kept := bufptr[..ptr];
      bufptr[ptr] := b;
      unread := unread[1..];
      ptr, left := ptr + 1, left - 1;
      line := line + [b];
      assert bufptr[..ptr] == kept + [b];
    }

    /** A byte that no longer fits. */
    method Discard() returns (b: byte)
      requires Valid() && state == Read && unread != [] && left == 0
      modifies this`unread, this`line
      ensures Valid() && b == old(unread[0]) && unread == old(unread[1..]) && line == old(line) + [b]
    {
      b := unread[0];
      unread := unread[1..];
      line := line + [b];
    }

    /**
     * `buf_bufto`: moves bytes to the buffer up to the end marker, and discards
     * the surplus of a line that does not fit.
     */
    method BufTo(c: byte) returns (found: bool, ghost consumed: seq<byte>)
      requires Valid() && state == Read
      modifies this`ptr, this`left, this`unread, this`line, bufptr
      ensures Valid() && line == old(line) + consumed
      ensures old(unread) == consumed + unread
      ensures found ==> IsLine(consumed, c)
      ensures !found ==> c !in consumed && unread == []
    {
      hide Truncate, IsLine;
      consumed := [];
      while left > 0 && unread != []
        invariant Valid() && line == old(line) + consumed
        invariant old(unread) == consumed + unread && c !in consumed
        decreases |unread|
      {
        ghost var before, input := consumed, unread;
        var b := Store();
        TakeOne(before, input);
        Regroup(old(line), before, [b]);
        consumed := before + [b];
        EndsLine(before, b, c);
        if b == c {
          return true, consumed;
        }
      }
      while unread != []
        invariant Valid() && line == old(line) + consumed
        invariant left == 0 || unread == []
        invariant old(unread) == consumed + unread && c !in consumed
        decreases |unread|
      {
        ghost var before, input := consumed, unread;
        var b := Discard();
        TakeOne(before, input);
        Regroup(old(line), before, [b]);
        consumed := before + [b];
        EndsLine(before, b, c);
        if b == c {
          return true, consumed;
        }
      }
      found := false;
    }

    /** `psock_newdata` */
    method NewData(now: Callback) returns (ready: bool)
      requires Valid()
      modifies this`state
      ensures Valid() && ready == (unread != [] || (old(state) != Read && now.newdata))
      ensures state == if unread == [] && old(state) == Read then BlockedNewdata else old(state)
    {
      if unread != [] {
        return true;
      } else if state == Read {
        state := BlockedNewdata;
        return false;
      }
      ready := now.newdata;
    }

    /**
     * `psock_readto`: true when the thread ends with a line, false when it
     * waits for another callback.
     */
    method ReadTo(c: byte, now: Callback) returns (ended: bool, ghost consumed: seq<byte>)
      requires Valid() && (lc == Start || (unread == [] && state != Read && c !in line))
      modifies this, bufptr
      ensures Valid() && (ended <==> lc == Start)
      ensures line == (if old(lc) == Start then [] else old(line)) + consumed
      ensures ended ==> old(Input(now)) == consumed + Input(now) && state == Read
      ensures ended ==> IsLine(consumed, c)
      ensures !ended ==> old(Input(now)) == consumed && Waiting(c)
    {
      hide IsLine;
      consumed := [];
      if lc == Start {
        // buf_setup
        ptr, left := 0, bufsize;
        line := [];
        lc := AtNewdata;
      }
      hide Truncate;
      ghost var line0 := line;
      ended := false;
      while !ended
        invariant Valid() && line == line0 + consumed && lc == AtNewdata
        invariant old(Input(now)) == consumed + Input(now)
        invariant !ended ==> c !in line
        invariant ended ==> state == Read
        invariant ended ==> IsLine(consumed, c)
        decreases !ended, state != Read, |unread|
      {
        ghost var sofar := consumed;
        if unread == [] {
          var ready := NewData(now);
          if !ready {
            return false, consumed;
          }
          state := Read;
          unread := now.data;
        }
        ghost var part;
        ended, part := BufTo(c);
        consumed := sofar + part;
        Regroup(line0, sofar, part);
        Regroup(sofar, part, unread);
        LineBehind(sofar, part, c);
      }
      LineIsNotEmpty(consumed, c);
      if DataLen() == 0 {
        // the thread would restart; a line is never empty and the buffer has room
        assert false;
      }
      lc := Start;
    }

    /**
     * One callback of a thread that loops on `psock_readto`. It returns the
     * buffer contents at the end of each line, and leaves the rest of the
     * stream pending.
     */
    method Resume(c: byte, now: Callback) returns (lines: seq<seq<byte>>)
      requires Waiting(c)
      modifies this, bufptr
      ensures Waiting(c)
      ensures lines == TruncateAll(Lines(old(line) + now.Fresh(), c), bufsize)
      ensures line == Rest(old(line) + now.Fresh(), c)
    {
      NothingTruncated(bufsize);
      hide Lines, Rest, TruncateAll, Truncate, IsLine;
      ghost var stream := line + now.Fresh();
      ghost var pending := line;
      ghost var complete := [];
      lines := [];
      while true
        invariant Valid() && c !in pending
        invariant if lc == Start then pending == [] else Waiting(c) && pending == line
        invariant lines == TruncateAll(complete, bufsize)
        invariant Lines(stream, c) == complete + Lines(pending + Input(now), c)
        invariant Rest(stream, c) == Rest(pending + Input(now), c)
        decreases |Input(now)|
      {
        ghost var input := Input(now);
        var ended, consumed := ReadTo(c, now);
        if !ended {
          assert pending + input == line;
          FirstMarkerIsAbsent(line, c);
          assert Lines(stream, c) == complete;
          return;
        }
        LineIsNotEmpty(consumed, c);
        lines := lines + [bufptr[..DataLen()]];
        TakeLine(stream, complete, pending, consumed, Input(now), c, bufsize);
        complete := complete + [line];
        pending := [];
      }
    }

    /**
     * A whole connection: for any sequence of callbacks, the lines read are the
     * lines of the stream, truncated to the buffer, each of them once.
     */
    method ReadStream(c: byte, callbacks: seq<Callback>) returns (lines: seq<seq<byte>>)
      requires Waiting(c) && line == []
      modifies this, bufptr
      ensures lines == TruncateAll(Lines(Stream(callbacks), c), bufsize)
      ensures line == Rest(Stream(callbacks), c)
    {
      lines := [];
      for i := 0 to |callbacks|
        invariant Waiting(c) && line == Rest(Stream(callbacks[..i]), c)
        invariant lines == TruncateAll(Lines(Stream(callbacks[..i]), c), bufsize)
      {
        LinesConcat(Stream(callbacks[..i]), callbacks[i].Fresh(), c);
        assert callbacks[..i + 1][..i] == callbacks[..i];
        ghost var complete := Lines(Stream(callbacks[..i]), c);
        TruncateAllConcat(complete, Lines(line + callbacks[i].Fresh(), c), bufsize);
        var more := Resume(c, callbacks[i]);
        lines := lines + more;
      }
      assert callbacks[..|callbacks|] == callbacks;
    }
  }
}
