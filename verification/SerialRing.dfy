/**
 * The transmit ring of src/scif.c, shared by the main program (`scif_write`)
 * and the transmit half of the interrupt handler (`scif_interrupt`).
 *
 * The handler runs to completion and may start between any two accesses of the
 * main program to the volatile pointers. The main program is a state machine
 * with one step per such access.
 */
module SerialRing {
  import opened Bytes
  import opened Ring

  const RING_BUF_SIZE := 2048
  // Room in the transmit FIFO of the hardware.
  const FIFO_SIZE := 16

  /** Where the main program is inside `scif_write(data, len)`. */
  datatype Pc =
    | Idle
    | Waiting(data: seq<byte>)                  // about to compare write_ptr with read_ptr
    | Compared(data: seq<byte>, ordered: bool)  // about to read read_ptr again and subtract
    | Entered(data: seq<byte>)                  // in ringbuffer_write
    | Copied(data: seq<byte>)                   // copied in one block, write_ptr not yet moved
    | CopiedHigh(high: seq<byte>, low: seq<byte>) // first block copied up to the end
    | AtZero(low: seq<byte>)                    // write_ptr set to 0
    | CopiedLow(low: seq<byte>)                 // second block copied
    | Bumped                                    // write_ptr advanced, `%=` still to come

  /** `w` may be RING_BUF_SIZE in state Bumped. `accepted` and `sent` are histories. */
  datatype State = State(buf: seq<byte>, r: nat, w: nat, pc: Pc, accepted: seq<byte>, sent: seq<byte>)

  ghost predicate Shape(s: State) {
    && |s.buf| == RING_BUF_SIZE && s.r < RING_BUF_SIZE && s.w <= RING_BUF_SIZE
    && (s.w == RING_BUF_SIZE ==> s.pc == Bumped)
    && match s.pc {
         case Idle => true
         case Waiting(_) => true
         case Compared(_, ordered) => ordered ==> s.w >= s.r
         case Entered(data) => |data| <= RING_BUF_SIZE
         case Copied(data) => s.w + |data| <= RING_BUF_SIZE && s.buf[s.w..s.w + |data|] == data
         case CopiedHigh(high, low) => s.w + |high| == RING_BUF_SIZE && 0 < |low| <= s.w && s.buf[s.w..] == high
         case AtZero(low) => s.w == 0 && |low| < RING_BUF_SIZE
         case CopiedLow(low) => s.w == 0 && |low| < RING_BUF_SIZE && s.buf[..|low|] == low
         case Bumped => true
       }
  }

  /**
   * The published bytes that the handler has not taken yet. With `read_ptr` at 0
   * and `write_ptr` at the unwrapped end the pointers do not tell a full ring
   * from an empty one; the histories do.
   */
  ghost function Pending(s: State): seq<byte>
    requires Shape(s)
  {
    if s.w < RING_BUF_SIZE then Contents(s.buf, s.r, s.w)
    else if s.r == 0 && |s.sent| == |s.accepted| then [] else s.buf[s.r..]
  }

  /** The bytes of the current `scif_write` that write_ptr does not cover yet. */
  ghost function Unpublished(pc: Pc): seq<byte> {
    match pc
    case Idle => []
    case Waiting(data) => data
    case Compared(data, _) => data
    case Entered(data) => data
    case Copied(data) => data
    case CopiedHigh(high, low) => high + low
    case AtZero(low) => low
    case CopiedLow(low) => low
    case Bumped => []
  }

  /** The wait loop has made sure that the bytes of the current call fit beside the pending ones. */
  ghost predicate RoomLeft(s: State)
    requires Shape(s)
  {
    s.pc.Entered? || s.pc.Copied? || s.pc.CopiedHigh? || s.pc.AtZero? || s.pc.CopiedLow? ==>
      |Pending(s)| + |Unpublished(s.pc)| <= RING_BUF_SIZE
  }

  /** Bytes leave in the order written: sent, then pending, then the rest of the current call. */
  ghost predicate InOrder(s: State)
    requires Shape(s)
  {
    s.sent + Pending(s) + Unpublished(s.pc) == s.accepted
  }

  ghost predicate Fifo(s: State) {
    && Shape(s)
    && RoomLeft(s)
    && InOrder(s)
  }

  // ------------------------------------------------------------- the writer

  /** A new call of `scif_write`. */
  function Call(s: State, data: seq<byte>): State
    requires s.pc.Idle?
  {
    s.(pc := Waiting(data), accepted := s.accepted + data)
  }

  /** What `ringbuffer_available` returns when its comparison and its subtraction read different `read_ptr`s. */
  function Available(s: State): int
    requires s.pc.Compared?
  {
    if s.pc.ordered then s.w - s.r else RING_BUF_SIZE - s.r + s.w
  }

  /** The next step of the main program inside a call. */
  function Advance(s: State): State
    requires Shape(s) && !s.pc.Idle?
  {
    match s.pc
    case Waiting(data) => s.(pc := Compared(data, s.w >= s.r))
    case Compared(data, _) =>
      if RING_BUF_SIZE - Available(s) < |data| then s.(pc := Waiting(data)) else s.(pc := Entered(data))
    case Entered(data) =>
      var n := RING_BUF_SIZE - s.w;
      if n < |data| then
        s.(buf := s.buf[..s.w] + data[..n], pc := CopiedHigh(data[..n], data[n..]))
      else
        s.(buf := s.buf[..s.w] + data + s.buf[s.w + |data|..], pc := Copied(data))
    case Copied(data) => s.(w := s.w + |data|, pc := Bumped)
    case CopiedHigh(_, low) => s.(w := 0, pc := AtZero(low))
    case AtZero(low) => s.(buf := low + s.buf[|low|..], pc := CopiedLow(low))
    case CopiedLow(low) => s.(w := s.w + |low|, pc := Bumped)
    case Bumped => s.(w := s.w % RING_BUF_SIZE, pc := Idle)
  }

  /** The wait loop ended although the call will fill the ring exactly. */
  ghost predicate FillsExactly(s: State) {
    s.pc.Compared? && Available(s) + |s.pc.data| == RING_BUF_SIZE
  }

  /**
   * The step makes a full ring look empty: it moves write_ptr, or wraps it, onto
   * read_ptr.
   */
  ghost predicate LosesRing(s: State)
    requires Shape(s)
  {
    if s.pc.Copied? || s.pc.CopiedLow? then
      s.w + |Unpublished(s.pc)| < RING_BUF_SIZE && |Pending(s)| + |Unpublished(s.pc)| == RING_BUF_SIZE
    else s.pc.Bumped? && |Pending(s)| == RING_BUF_SIZE
  }

  // ------------------------------------------------------------ the handler

  /** One round of the handler's loop. */
  function Taken(s: State): State
    requires Shape(s) && s.r < |s.buf|
  {
    s.(r := Next(s.r, RING_BUF_SIZE), sent := s.sent + [s.buf[s.r]])
  }

  /** The transmit loop of `scif_interrupt` with room for `room` more bytes in the FIFO. */
  function Interrupt(s: State, room: nat): State
    requires Shape(s)
    decreases room
  {
    if room == 0 || Used(RING_BUF_SIZE, s.r, s.w) == 0 then s else Interrupt(Taken(s), room - 1)
  }

  /** `write_ptr` has reached the end but has not been wrapped, and the handler can take more than is pending. */
  ghost predicate OverrunsWindow(s: State, room: nat)
    requires Shape(s)
  {
    s.w == RING_BUF_SIZE && |Pending(s)| < room
  }

  // -------------------------------------------------------------- the proof

  /**
   * The writer never over-estimates the free space, even when the handler ran
   * between its two reads of `read_ptr`.
   */
  lemma FreeSpaceIsNotOverestimated(s: State)
    requires Fifo(s) && s.pc.Compared?
    ensures RING_BUF_SIZE - Available(s) <= RING_BUF_SIZE - |Pending(s)|
  {
  }

  /** The wait loop never makes a single byte wait, even in a ring that is full. */
  lemma GuardNeverBlocksOneByte(s: State, c: byte)
    requires Shape(s) && s.pc == Compared([c], s.w >= s.r)
    ensures Advance(s).pc == Entered([c])
    ensures |Pending(s)| == RING_BUF_SIZE - 1 ==> FillsExactly(s)
  {
  }

  lemma AdvanceKeepsShape(s: State)
    requires Shape(s) && !s.pc.Idle?
    ensures Shape(Advance(s))
  {
    if s.pc.Entered? {
      assert RING_BUF_SIZE - s.w < |s.pc.data| || Advance(s).buf[s.w..s.w + |s.pc.data|] == s.pc.data;
    }
  }

  /** The writer's next steps, until its call is over. */
  ghost function Finish(s: State, steps: nat): (f: State)
    requires Shape(s)
    ensures Shape(f)
    decreases steps
  {
    if steps == 0 || s.pc.Idle? then s
    else
      AdvanceKeepsShape(s);
      Finish(Advance(s), steps - 1)
  }

  /** Where the writer's steps leave the pointers. */
  lemma FinishPointers(s: State)
    requires Shape(s) && s.pc.Entered?
    ensures var f := Finish(s, 5);
      && f.pc.Idle? && f.r == s.r
      && f.w == if s.w + |s.pc.data| < RING_BUF_SIZE then s.w + |s.pc.data| else s.w + |s.pc.data| - RING_BUF_SIZE
  {
    hide Shape;
    AdvanceKeepsShape(s);
    var s1 := Advance(s);
    AdvanceKeepsShape(s1);
    var s2 := Advance(s1);
    AdvanceKeepsShape(s2);
    var s3 := Advance(s2);
    if s1.pc.CopiedHigh? {
      AdvanceKeepsShape(s3);
      var s4 := Advance(s3);
      AdvanceKeepsShape(s4);
      assert Finish(s4, 1) == Finish(Advance(s4), 0);
      assert Finish(s2, 3) == Finish(s3, 2) == Finish(s4, 1);
    }
    assert Finish(s, 5) == Finish(s1, 4) == Finish(s2, 3) == Finish(s3, 2);
  }

  /** A call that fills the ring exactly loses every byte of the ring, its own included. */
  lemma ExactFillLosesAll(s: State)
    requires Shape(s) && s.pc.Entered? && s.pc.data != [] && |Pending(s)| + |s.pc.data| == RING_BUF_SIZE
    ensures Finish(s, 5).pc.Idle? && Pending(Finish(s, 5)) == []
  {
    hide Finish;
    FinishPointers(s);
  }

  lemma CallKeepsFifo(s: State, data: seq<byte>)
    requires Fifo(s) && s.pc.Idle?
    ensures Fifo(Call(s, data))
  {
  }

  /** Copying into the free part leaves the pending bytes alone. */
  lemma CopyKeepsPending(s: State, buf': seq<byte>)
    requires Shape(s) && s.w < RING_BUF_SIZE && |buf'| == RING_BUF_SIZE
    requires s.r <= s.w ==> buf'[s.r..s.w] == s.buf[s.r..s.w]
    requires s.w < s.r ==> buf'[s.r..] == s.buf[s.r..] && buf'[..s.w] == s.buf[..s.w]
    ensures Contents(buf', s.r, s.w) == Pending(s)
  {
  }

  lemma EnteredKeepsFifo(s: State)
    requires Fifo(s) && s.pc.Entered?
    ensures Fifo(Advance(s))
  {
    var data, s' := s.pc.data, Advance(s);
    var n := RING_BUF_SIZE - s.w;
    if n < |data| {
      assert s'.buf[s.w..] == data[..n];
      assert data[..n] + data[n..] == data;
    } else {
      assert s'.buf[s.w..s.w + |data|] == data;
      assert s.w < s.r ==> s'.buf[s.r..] == s.buf[s.r..];
    }
    CopyKeepsPending(s, s'.buf);
  }

  /** Moving write_ptr forward over free space appends the bytes it passes. */
  lemma ContentsExtend(buf: seq<byte>, r: nat, w: nat, w': nat)
    requires r < |buf| && w < |buf| && w <= w' <= |buf|
    requires w < r ==> w' < r
    ensures w' < |buf| ==> Contents(buf, r, w') == Contents(buf, r, w) + buf[w..w']
    ensures w' == |buf| ==> buf[r..] == Contents(buf, r, w) + buf[w..w']
    ensures w' == |buf| && r > 0 ==> Contents(buf, r, 0) == buf[r..]
  {
    var more := buf[w..w'];
    if w < r {
      assert buf[..w'] == buf[..w] + more;
      assert buf[r..] + (buf[..w] + more) == (buf[r..] + buf[..w]) + more;
    } else {
      assert buf[r..w'] == buf[r..w] + more;
    }
  }

  lemma CountsBytes(s: State)
    requires Fifo(s)
    ensures |s.sent| + |Pending(s)| + |Unpublished(s.pc)| == |s.accepted|
  {
  }

  /** Moving write_ptr publishes the block. */
  lemma BlockBecomesPending(s: State)
    requires Shape(s) && (s.pc.Copied? || s.pc.CopiedLow?) && !LosesRing(s)
    requires |Pending(s)| + |Unpublished(s.pc)| <= RING_BUF_SIZE
    requires |s.sent| + |Pending(s)| + |Unpublished(s.pc)| == |s.accepted|
    ensures Shape(Advance(s)) && Pending(Advance(s)) == Pending(s) + Unpublished(s.pc)
  {
    var data := Unpublished(s.pc);
    ContentsExtend(s.buf, s.r, s.w, s.w + |data|);
    assert s.buf[s.w..s.w + |data|] == data;
  }

  lemma Regroup(a: seq<byte>, b: seq<byte>, c: seq<byte>)
    ensures a + (b + c) + [] == a + b + c
  {
  }

  lemma PublishBlock(s: State)
    requires Fifo(s) && (s.pc.Copied? || s.pc.CopiedLow?) && !LosesRing(s)
    ensures Fifo(Advance(s))
  {
    CountsBytes(s);
    hide Pending, Shape, LosesRing;
    BlockBecomesPending(s);
    Regroup(s.sent, Pending(s), Unpublished(s.pc));
  }

  lemma PublishHighBlock(s: State)
    requires Fifo(s) && s.pc.CopiedHigh?
    ensures Fifo(Advance(s))
  {
    var high, low := s.pc.high, s.pc.low;
    ContentsExtend(s.buf, s.r, s.w, RING_BUF_SIZE);
    assert s.buf[s.w..RING_BUF_SIZE] == high;
    assert Pending(Advance(s)) == Pending(s) + high;
    assert s.sent + (Pending(s) + high) + low == s.sent + Pending(s) + (high + low);
  }

  lemma LowCopyKeepsFifo(s: State)
    requires Fifo(s) && s.pc.AtZero?
    ensures Fifo(Advance(s))
  {
    var s' := Advance(s);
    assert s'.buf[..|s.pc.low|] == s.pc.low;
    CopyKeepsPending(s, s'.buf);
  }

  lemma WrapKeepsFifo(s: State)
    requires Fifo(s) && s.pc.Bumped? && !LosesRing(s)
    ensures Fifo(Advance(s))
  {
    assert Pending(Advance(s)) == Pending(s);
  }

  /** A losing step leaves nothing pending, and so the bytes in the ring will never be sent. */
  lemma LosingStep(s: State)
    requires Fifo(s) && LosesRing(s)
    ensures Shape(Advance(s)) && Pending(Advance(s)) == [] && Unpublished(Advance(s).pc) == []
  {
    AdvanceKeepsShape(s);
  }

  /** A step of the writer keeps the order if and only if it does not move write_ptr onto read_ptr in a full ring. */
  lemma WriterKeepsFifoIff(s: State)
    requires Fifo(s) && !s.pc.Idle?
    ensures Shape(Advance(s))
    ensures InOrder(Advance(s)) <==> !LosesRing(s)
    ensures Fifo(Advance(s)) <==> !LosesRing(s)
  {
    hide Pending, LosesRing, Shape;
    AdvanceKeepsShape(s);
    if LosesRing(s) {
      LosingStep(s);
      LosesBytes(s);
    } else {
      match s.pc {
        case Entered(_) => EnteredKeepsFifo(s);
        case Copied(_) => PublishBlock(s);
        case CopiedHigh(_, _) => PublishHighBlock(s);
        case AtZero(_) => LowCopyKeepsFifo(s);
        case CopiedLow(_) => PublishBlock(s);
        case Bumped => WrapKeepsFifo(s);
        case Waiting(_) => WaitKeepsFifo(s);
        case Compared(_, _) => WaitKeepsFifo(s);
      }
    }
  }

  lemma LosesBytes(s: State)
    requires Fifo(s) && LosesRing(s)
    ensures |Pending(s)| + |Unpublished(s.pc)| == RING_BUF_SIZE
    ensures Advance(s).sent == s.sent && Advance(s).accepted == s.accepted
    ensures |s.sent| < |s.accepted|
  {
  }

  lemma WaitKeepsFifo(s: State)
    requires Fifo(s) && (s.pc.Waiting? || s.pc.Compared?)
    ensures Fifo(Advance(s))
  {
  }

  lemma {:induction false} FinishKeepsFifo(s: State, steps: nat)
    requires Fifo(s) && !s.pc.Waiting? && !s.pc.Compared? && |s.accepted| - |s.sent| < RING_BUF_SIZE
    ensures Fifo(Finish(s, steps))
    decreases steps
  {
    hide Pending, LosesRing, Fifo;
    FifoHasShape(s);
    CountsBytes(s);
    if steps > 0 && !s.pc.Idle? {
      if LosesRing(s) {
        LosesBytes(s);
      }
      WriterKeepsFifoIff(s);
      FinishKeepsFifo(Advance(s), steps - 1);
    }
  }

  /**
   * Left alone by the handler, a call that has passed the wait loop keeps the
   * order if and only if it does not fill the ring.
   */
  lemma UndisturbedCallIff(s: State)
    requires Fifo(s) && s.pc.Entered?
    ensures Fifo(Finish(s, 5)) <==> |Pending(s)| + |s.pc.data| < RING_BUF_SIZE
  {
    hide Finish;
    CountsBytes(s);
    if |Pending(s)| + |s.pc.data| < RING_BUF_SIZE {
      FinishKeepsFifo(s, 5);
    } else {
      ExactFillLosesAll(s);
      FinishSends(s, 5);
    }
  }

  lemma {:induction false} FinishSends(s: State, steps: nat)
    requires Shape(s)
    ensures Finish(s, steps).sent == s.sent && Finish(s, steps).accepted == s.accepted
    decreases steps
  {
    hide Shape;
    if steps > 0 && !s.pc.Idle? {
      AdvanceKeepsShape(s);
      FinishSends(Advance(s), steps - 1);
    }
  }

  /** A single byte taken by the handler after the wait loop makes an exact fill harmless. */
  lemma RelievedFill(s: State)
    requires Fifo(s) && s.pc.Entered? && |Pending(s)| + |s.pc.data| == RING_BUF_SIZE && Pending(s) != []
    ensures Fifo(Taken(s)) && Fifo(Finish(Taken(s), 5))
  {
    TakeKeepsFifo(s);
    CountsBytes(s);
    FinishKeepsFifo(Taken(s), 5);
  }

  lemma TakesFirst(s: State)
    requires Shape(s) && (s.w < RING_BUF_SIZE ==> s.r != s.w) && (s.w == RING_BUF_SIZE ==> Pending(s) != [])
    requires |s.sent| + |Pending(s)| + |Unpublished(s.pc)| == |s.accepted|
    ensures Shape(Taken(s)) && Pending(s) == [s.buf[s.r]] + Pending(Taken(s))
  {
    hide Contents, Pending;
    if s.w < RING_BUF_SIZE {
      TakesFirstInside(s);
    } else {
      TakesFirstAtEnd(s);
    }
  }

  lemma TakesFirstInside(s: State)
    requires Shape(s) && s.w < RING_BUF_SIZE && s.r != s.w
    ensures Shape(Taken(s)) && Pending(s) == [s.buf[s.r]] + Pending(Taken(s))
  {
    ReadOneTakesFirst(s.buf, s.r, s.w);
    hide Contents;
  }

  /** At the unwrapped end, the handler is at 0 again just when everything has been sent. */
  lemma TakesFirstAtEnd(s: State)
    requires Shape(s) && s.w == RING_BUF_SIZE && Pending(s) != []
    requires |s.sent| + |Pending(s)| + |Unpublished(s.pc)| == |s.accepted|
    ensures Shape(Taken(s)) && Pending(s) == [s.buf[s.r]] + Pending(Taken(s))
  {
    hide Contents;
    FirstOfRest(s.buf, s.r);
    assert s.r + 1 == RING_BUF_SIZE <==> |s.sent| + 1 == |s.accepted|;
  }

  lemma FirstOfRest(buf: seq<byte>, r: nat)
    requires r < |buf|
    ensures buf[r..] == [buf[r]] + buf[r + 1..]
  {
  }

  lemma RegroupFirst(a: seq<byte>, b: byte, c: seq<byte>, d: seq<byte>)
    ensures a + [b] + c + d == a + ([b] + c) + d
  {
  }

  lemma TakeKeepsFifo(s: State)
    requires Fifo(s) && Used(RING_BUF_SIZE, s.r, s.w) != 0 && (s.w == RING_BUF_SIZE ==> Pending(s) != [])
    ensures Fifo(Taken(s)) && |Pending(Taken(s))| == |Pending(s)| - 1
  {
    CountsBytes(s);
    TakesFirst(s);
    hide Pending;
    RegroupFirst(s.sent, s.buf[s.r], Pending(Taken(s)), Unpublished(s.pc));
  }

  /** The handler takes the oldest pending bytes, and no others, unless it meets the unwrapped write_ptr. */
  lemma {:induction false} HandlerKeepsFifo(s: State, room: nat)
    requires Fifo(s) && !OverrunsWindow(s, room)
    ensures Fifo(Interrupt(s, room))
    decreases room
  {
    hide Fifo, Pending;
    FifoHasShape(s);
    if room != 0 && Used(RING_BUF_SIZE, s.r, s.w) != 0 {
      TakeKeepsFifo(s);
      FifoHasShape(Taken(s));
      HandlerKeepsFifo(Taken(s), room - 1);
    }
  }

  lemma FifoHasShape(s: State)
    requires Fifo(s)
    ensures Shape(s)
  {
  }

  lemma {:induction false} HandlerSends(s: State, room: nat)
    requires Shape(s)
    ensures Shape(Interrupt(s, room)) && Interrupt(s, room).pc == s.pc && Interrupt(s, room).accepted == s.accepted
    ensures s.w == RING_BUF_SIZE ==> |Interrupt(s, room).sent| == |s.sent| + room
    decreases room
  {
    if room != 0 && Used(RING_BUF_SIZE, s.r, s.w) != 0 {
      HandlerSends(Taken(s), room - 1);
    }
  }

  /**
   * Exactly when the handler overruns the window between `write_ptr += len` and
   * `write_ptr %= size`, it puts bytes on the line that were never written.
   */
  lemma HandlerKeepsFifoIff(s: State, room: nat)
    requires Fifo(s)
    ensures Fifo(Interrupt(s, room)) <==> !OverrunsWindow(s, room)
  {
    if OverrunsWindow(s, room) {
      HandlerSends(s, room);
      var s' := Interrupt(s, room);
      assert |s'.sent| > |s.sent + Pending(s) + Unpublished(s.pc)| == |s'.accepted|;
    } else {
      HandlerKeepsFifo(s, room);
    }
  }

  function Min(a: nat, b: nat): nat {
    if a <= b then a else b
  }

  /** What is pending, and whether anything is, as the pointers say it. */
  lemma PendingIffUsed(s: State)
    requires Shape(s) && s.w < RING_BUF_SIZE
    ensures Pending(s) == [] <==> Used(RING_BUF_SIZE, s.r, s.w) == 0
  {
  }

  lemma TakeMoves(s: State)
    requires Fifo(s) && Pending(s) != []
    ensures Used(RING_BUF_SIZE, s.r, s.w) != 0 && Fifo(Taken(s))
    ensures Taken(s).sent == s.sent + [Pending(s)[0]] && Pending(Taken(s)) == Pending(s)[1..]
  {
    CountsBytes(s);
    if s.w < RING_BUF_SIZE {
      PendingIffUsed(s);
    }
    TakesFirst(s);
    TakeKeepsFifo(s);
    hide Pending;
    assert ([s.buf[s.r]] + Pending(Taken(s)))[1..] == Pending(Taken(s));
  }

  /**
   * What the handler does: it sends the oldest pending bytes, as many as there
   * are and the FIFO has room for, and leaves the others pending.
   */
  lemma {:induction false} HandlerTakes(s: State, room: nat)
    requires Fifo(s) && !OverrunsWindow(s, room)
    ensures var s', k := Interrupt(s, room), Min(room, |Pending(s)|);
      && s' == s.(r := s'.r, sent := s.sent + Pending(s)[..k])
      && Shape(s') && Pending(s') == Pending(s)[k..]
    decreases room
  {
    hide Fifo, Pending;
    FifoHasShape(s);
    if room > 0 && Pending(s) != [] {
      TakeMoves(s);
      FifoHasShape(Taken(s));
      HandlerTakes(Taken(s), room - 1);
      var pending, k := Pending(s), Min(room, |Pending(s)|);
      assert [pending[0]] + pending[1..][..k - 1] == pending[..k];
      assert s.sent + [pending[0]] + pending[1..][..k - 1] == s.sent + ([pending[0]] + pending[1..][..k - 1]);
    } else {
      if s.w < RING_BUF_SIZE {
        PendingIffUsed(s);
      }
      assert s.sent + [] == s.sent;
    }
  }

  ghost function Sum(rooms: seq<nat>): nat {
    if rooms == [] then 0 else rooms[0] + Sum(rooms[1..])
  }

  /** One interrupt after the other, with room for that many bytes each time. */
  ghost function Interrupts(s: State, rooms: seq<nat>): State
    requires Fifo(s) && s.w < RING_BUF_SIZE
    decreases |rooms|
  {
    if rooms == [] then s
    else
      HandlerTakes(s, rooms[0]);
      HandlerKeepsFifo(s, rooms[0]);
      Interrupts(Interrupt(s, rooms[0]), rooms[1..])
  }

  lemma TakenInTwo(sent: seq<byte>, pending: seq<byte>, k1: nat, k2: nat)
    requires k1 + k2 <= |pending|
    ensures sent + pending[..k1] + pending[k1..][..k2] == sent + pending[..k1 + k2]
    ensures pending[k1..][k2..] == pending[k1 + k2..]
  {
    assert pending[..k1] + pending[k1..][..k2] == pending[..k1 + k2];
  }

  lemma {:induction false} InterruptsTake(s: State, rooms: seq<nat>)
    requires Fifo(s) && s.w < RING_BUF_SIZE
    ensures var s', k := Interrupts(s, rooms), Min(Sum(rooms), |Pending(s)|);
      && s' == s.(r := s'.r, sent := s.sent + Pending(s)[..k])
      && Fifo(s') && Pending(s') == Pending(s)[k..]
    decreases |rooms|
  {
    hide Fifo, Pending, Interrupt;
    FifoHasShape(s);
    if rooms == [] {
      assert s.sent + [] == s.sent;
    } else {
      HandlerTakes(s, rooms[0]);
      HandlerKeepsFifo(s, rooms[0]);
      var s1, pending, k1 := Interrupt(s, rooms[0]), Pending(s), Min(rooms[0], |Pending(s)|);
      InterruptsTake(s1, rooms[1..]);
      TakenInTwo(s.sent, pending, k1, Min(Sum(rooms[1..]), |pending| - k1));
    }
  }

  /** Behind an idle writer, enough interrupts send everything that was ever written. */
  lemma IdleRingDrains(s: State, rooms: seq<nat>)
    requires Fifo(s) && s.pc.Idle? && |Pending(s)| <= Sum(rooms)
    ensures Shape(Interrupts(s, rooms)) && Pending(Interrupts(s, rooms)) == []
    ensures Interrupts(s, rooms).sent == s.accepted
  {
    InterruptsTake(s, rooms);
    hide Pending;
    assert Pending(s)[..|Pending(s)|] == Pending(s) && s.sent + Pending(s) + [] == s.sent + Pending(s);
  }

  /** The wait loop lets a call through if and only if it fits beside what is pending. */
  lemma WaitEndsIff(s: State)
    requires Fifo(s) && s.pc.Waiting?
    ensures var s' := Advance(Advance(s));
      s' == s.(pc := if |Pending(s)| + |s.pc.data| <= RING_BUF_SIZE then Entered(s.pc.data) else s.pc)
  {
  }

  /** A call that fits with a byte to spare, left alone, is over after seven steps, and all of it is pending. */
  lemma CallPublishes(s: State)
    requires Fifo(s) && s.pc.Waiting? && |Pending(s)| + |s.pc.data| < RING_BUF_SIZE
    ensures var s' := Finish(s, 7);
      && Fifo(s') && s'.pc.Idle? && s'.sent == s.sent && s'.accepted == s.accepted
      && Pending(s') == Pending(s) + s.pc.data
  {
    FifoHasShape(s);
    AdvanceKeepsShape(s);
    AdvanceKeepsShape(Advance(s));
    WaitEndsIff(s);
    WriterKeepsFifoIff(s);
    WriterKeepsFifoIff(Advance(s));
    var s2 := Advance(Advance(s));
    assert Finish(s, 7) == Finish(Advance(s), 6) == Finish(s2, 5);
    hide Finish;
    FinishPointers(s2);
    FinishSends(s2, 5);
    UndisturbedCallIff(s2);
    assert InOrder(Finish(s2, 5)) && InOrder(s2);
    hide Pending;
    SameTail(s.sent, Pending(Finish(s2, 5)), Pending(s2), s.pc.data);
  }

  lemma SameTail(sent: seq<byte>, a: seq<byte>, b: seq<byte>, data: seq<byte>)
    requires sent + a + [] == sent + b + data
    ensures a == b + data
  {
    assert sent + a + [] == sent + a && sent + b + data == sent + (b + data);
    assert (sent + a)[|sent|..] == a && (sent + (b + data))[|sent|..] == b + data;
  }

  /**
   * Whatever is pending, a call of less than the ring's size gets through once
   * the handler has made room, and enough interrupts later all of it has left,
   * behind everything written before.
   */
  lemma CallIsSent(s: State, data: seq<byte>, before: seq<nat>, after: seq<nat>)
    requires Fifo(s) && s.pc.Idle? && |data| < RING_BUF_SIZE
    requires |Pending(s)| <= Sum(before) && |data| <= Sum(after)
    ensures Fifo(Call(s, data)) && Shape(Interrupts(Call(s, data), before))
    ensures var s' := Finish(Interrupts(Call(s, data), before), 7);
      Fifo(s') && s'.pc.Idle? && Interrupts(s', after).sent == s.accepted + data
  {
    hide Finish, Interrupts;
    CallKeepsFifo(s, data);
    var s1 := Call(s, data);
    assert Pending(s1) == Pending(s);
    InterruptsTake(s1, before);
    var s2 := Interrupts(s1, before);
    assert s2.pc == s1.pc && Pending(s2) == [];
    FifoHasShape(s2);
    CallPublishes(s2);
    IdleRingDrains(Finish(s2, 7), after);
  }

  /** One byte written at the end of an empty ring opens the window to a handler with room for two. */
  lemma WindowIsReached(s: State, c: byte)
    requires Fifo(s) && s.pc.Idle? && s.r == s.w == RING_BUF_SIZE - 1
    ensures var window := Advance(Advance(Advance(Advance(Call(s, [c])))));
      Fifo(window) && OverrunsWindow(window, 2) && !Fifo(Interrupt(window, 2))
  {
    CallKeepsFifo(s, [c]);
    var s1 := Advance(Call(s, [c]));
    WriterKeepsFifoIff(Call(s, [c]));
    WriterKeepsFifoIff(s1);
    WriterKeepsFifoIff(Advance(s1));
    WriterKeepsFifoIff(Advance(Advance(s1)));
    HandlerKeepsFifoIff(Advance(Advance(Advance(s1))), 2);
  }

  // ------------------------------------------------------------------- runs

  datatype Event = Write(data: seq<byte>) | Step | Tx(room: nat)

  ghost predicate Enabled(s: State, e: Event) {
    && Shape(s)
    && match e
       case Write(_) => s.pc.Idle?
       case Step => !s.pc.Idle? && !LosesRing(s)
       case Tx(room) => room <= FIFO_SIZE && !OverrunsWindow(s, room)
  }

  function Do(s: State, e: Event): State
    requires Enabled(s, e)
  {
    match e
    case Write(data) => Call(s, data)
    case Step => Advance(s)
    case Tx(room) => Interrupt(s, room)
  }

  /** `s'` is reached from `s` by the events, each of them enabled in turn. */
  ghost predicate Reaches(s: State, events: seq<Event>, s': State)
    decreases |events|
  {
    if events == [] then s' == s else Enabled(s, events[0]) && Reaches(Do(s, events[0]), events[1..], s')
  }

  /**
   * Over every interleaving in which no step moves write_ptr onto read_ptr in a
   * full ring and the handler does not overrun the window, bytes leave in the
   * order written:
   * what has been sent is a prefix of what has been accepted, and everything
   * has been sent once the writer is idle and the ring is empty.
   */
  lemma {:induction false} SerialRingIsFifo(s: State, events: seq<Event>, s': State)
    requires Fifo(s) && Reaches(s, events, s')
    ensures Fifo(s') && s'.sent <= s'.accepted
    ensures s'.pc.Idle? && Pending(s') == [] ==> s'.sent == s'.accepted
    decreases |events|
  {
    if events == [] {
      assert s.sent + Pending(s) + Unpublished(s.pc) == s.sent + (Pending(s) + Unpublished(s.pc));
    } else {
      match events[0] {
        case Write(data) => CallKeepsFifo(s, data);
        case Step => WriterKeepsFifoIff(s);
        case Tx(room) => HandlerKeepsFifo(s, room);
      }
      SerialRingIsFifo(Do(s, events[0]), events[1..], s');
    }
  }

  /** `scif_init` leaves the ring in such a state. */
  lemma InitiallyFifo(storage: seq<byte>)
    requires |storage| == RING_BUF_SIZE
    ensures Fifo(State(storage, 0, 0, Idle, [], []))
  {
  }
}
