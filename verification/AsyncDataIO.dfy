/** AsyncDataIO: bytes travel through a socket, commands through a locked queue, and the I/O thread splices them
    together again by stream position.  The two threads are interleaved at the granularity of their accesses to shared
    state. */
module AsyncSplicing {
  import opened Bytes

  datatype Command = Seek(offset: int, whence: int) | Truncate | Flush | Shutdown

  /** What the main thread asks for, in program order, and what the child DataIO sees. */
  datatype Op = Data(b: Byte) | Cmd(c: Command)

  /** A queued AsyncCommand with the stream location recorded for it. */
  datatype Queued = Queued(location: nat, cmd: Command)

  /** The main thread is between calls, or inside Write() between SendData() and the update of the byte counter. */
  datatype MainPC = Idle | Sent(n: nat)

  /** One turn of the I/O thread's loop: the check under the lock, then either one child write bounded by the
      (possibly already outdated) bytesUntilNextCommand and one read from the main thread, or one command. */
  datatype IoPC = Top | Limited(bytesUntilNextCommand: Option<nat>) | Reading | Execute(q: Queued) | Exited

  const BUFFER_SIZE: nat := 4096

  datatype State = State(
    prog: seq<Op>,        // everything the main thread has asked for so far
    mainPC: MainPC,
    mainCount: nat,       // _mainThreadBytesWritten
    queue: seq<Queued>,   // _asyncCommands
    socket: seq<Byte>,    // in flight between the threads
    ioPC: IoPC,
    buf: seq<Byte>,       // unread part of fromMainThreadBuf
    ioCount: nat,         // ioThreadBytesWritten
    exitWhenDone: bool,
    child: seq<Op>)       // everything applied to the child so far

  function DataOf(ops: seq<Op>): (r: seq<Byte>)
  {
    if |ops| == 0 then []
    else if ops[0].Data? then [ops[0].b] + DataOf(ops[1..])
    else DataOf(ops[1..])
  }

  /** The commands among ops, each with the number of data bytes ahead of it, counting from base. */
  function QueueOf(ops: seq<Op>, base: nat): seq<Queued>
    decreases ops
  {
    if |ops| == 0 then []
    else if ops[0].Data? then QueueOf(ops[1..], base + 1)
    else [Queued(base, ops[0].c)] + QueueOf(ops[1..], base)
  }

  function AsOps(bytes: seq<Byte>): (r: seq<Op>)
    ensures |r| == |bytes|
  {
    if |bytes| == 0 then [] else [Data(bytes[0])] + AsOps(bytes[1..])
  }

  // ---- the atomic steps ----

  /** Write(): the socket accepts some bytes. */
  predicate MainSend(s: State, t: State, bytes: seq<Byte>) {
    s.mainPC == Idle
    && t == s.(prog := s.prog + AsOps(bytes), socket := s.socket + bytes, mainPC := Sent(|bytes|))
  }

  /** Write(): the counter catches up. */
  predicate MainCount(s: State, t: State) {
    s.mainPC.Sent? && t == s.(mainCount := s.mainCount + s.mainPC.n, mainPC := Idle)
  }

  /** Seek(), Truncate(), FlushOutput() and Shutdown() append under the lock. */
  predicate MainEnqueue(s: State, t: State, cmd: Command) {
    s.mainPC == Idle
    && t == s.(prog := s.prog + [Cmd(cmd)], queue := s.queue + [Queued(s.mainCount, cmd)])
  }

  function Limit(s: State): IoPC {
    if |s.queue| == 0 then Limited(None)
    else if s.queue[0].location <= s.ioCount then Execute(s.queue[0])
    else Limited(Some(s.queue[0].location - s.ioCount))
  }

  predicate IoCheck(s: State, t: State) {
    s.ioPC == Top
    && t == s.(ioPC := Limit(s), queue := if Limit(s).Execute? then s.queue[1..] else s.queue)
  }

  predicate MayWrite(s: State, n: nat) {
    s.ioPC.Limited? && n <= |s.buf|
    && (s.ioPC.bytesUntilNextCommand.Some? ==> n <= s.ioPC.bytesUntilNextCommand.value)
  }

  /** The child accepts n of the bytes that it is offered; n == 0 also stands for a child that is not ready. */
  predicate IoWrite(s: State, t: State, n: nat) {
    MayWrite(s, n)
    && t == s.(child := s.child + AsOps(s.buf[..n]), buf := s.buf[n..], ioCount := s.ioCount + n, ioPC := Reading)
  }

  predicate IoRead(s: State, t: State, n: nat) {
    s.ioPC == Reading && n <= |s.socket| && |s.buf| + n <= BUFFER_SIZE
    && t == s.(buf := s.buf + s.socket[..n], socket := s.socket[n..], ioPC := Top)
  }

  /** The main thread's end of the socket is closed. */
  predicate IoReadError(s: State, t: State) {
    s.ioPC == Reading && t == s.(exitWhenDone := true, ioPC := Top)
  }

  predicate IoExecute(s: State, t: State) {
    s.ioPC.Execute?
    && t == s.(child := s.child + [Cmd(s.ioPC.q.cmd)], ioPC := if s.ioPC.q.cmd == Shutdown then Exited else Top)
  }

  /** The loop ends: an I/O error, a closed notify socket, or nothing left to do after the main thread has gone. */
  predicate IoExit(s: State, t: State) {
    !s.ioPC.Execute? && t == s.(ioPC := Exited)
  }

  ghost predicate Next(s: State, t: State) {
    || (exists bytes :: MainSend(s, t, bytes))
    || MainCount(s, t)
    || (exists cmd :: MainEnqueue(s, t, cmd))
    || IoCheck(s, t)
    || (exists n :: IoWrite(s, t, n))
    || (exists n :: IoRead(s, t, n))
    || IoReadError(s, t)
    || IoExecute(s, t)
    || IoExit(s, t)
  }

  predicate Init(s: State) {
    s == State([], Idle, 0, [], [], Top, [], 0, false, [])
  }

  // ---- the invariant ----

  /** What the main thread has asked for and the child has not seen yet. */
  function Remaining(s: State): seq<Op>
    requires s.child <= s.prog
  {
    s.prog[|s.child|..]
  }

  /** A command that has left the queue but has not run yet comes first. */
  function Waiting(s: State): seq<Queued> {
    if s.ioPC.Execute? then [s.ioPC.q] + s.queue else s.queue
  }

  predicate Inv(s: State) {
    && s.child <= s.prog
    && s.ioCount == |DataOf(s.child)|
    && DataOf(Remaining(s)) == s.buf + s.socket
    && QueueOf(Remaining(s), s.ioCount) == Waiting(s)
    && s.mainCount + (if s.mainPC.Sent? then s.mainPC.n else 0) == |DataOf(s.prog)|
    && (s.ioPC.Execute? ==> s.ioPC.q.location == s.ioCount)
    && (s.ioPC.Limited? && |s.queue| > 0 ==> s.ioCount + WriteLimit(s) <= s.queue[0].location)
  }

  /** How far the pending child write may go.  Commands that were queued after the check lie beyond every byte that was
      already buffered at the check, so an outdated "no command pending" is harmless. */
  function WriteLimit(s: State): nat
    requires s.ioPC.Limited?
  {
    match s.ioPC.bytesUntilNextCommand
    case None => |s.buf|
    case Some(k) => if k < |s.buf| then k else |s.buf|
  }

  // ---- arithmetic of streams ----

  lemma {:induction false} DataOfAppend(a: seq<Op>, b: seq<Op>)
    ensures DataOf(a + b) == DataOf(a) + DataOf(b)
  {
    hide DataOf;
    if |a| == 0 {
      DataOfNothing();
      assert a + b == b;
    } else {
      DataOfAppend(a[1..], b);
      DataOfHead(a);
      DataOfHead(a + b);
      assert (a + b)[0] == a[0] && (a + b)[1..] == a[1..] + b;
    }
  }

  lemma DataOfNothing()
    ensures DataOf([]) == []
  {
  }

  lemma DataOfHead(ops: seq<Op>)
    requires |ops| > 0
    ensures DataOf(ops) == (if ops[0].Data? then [ops[0].b] else []) + DataOf(ops[1..])
  {
  }

  lemma {:induction false} QueueOfAppend(a: seq<Op>, b: seq<Op>, base: nat)
    ensures QueueOf(a + b, base) == QueueOf(a, base) + QueueOf(b, base + |DataOf(a)|)
    decreases |a|
  {
    if |a| == 0 {
      assert a + b == b;
    } else {
      QueueOfAppend(a[1..], b, if a[0].Data? then base + 1 else base);
      assert (a + b)[1..] == a[1..] + b;
    }
  }

  lemma {:induction false} AsOpsStream(bytes: seq<Byte>, base: nat)
    ensures DataOf(AsOps(bytes)) == bytes
    ensures QueueOf(AsOps(bytes), base) == []
    decreases |bytes|
  {
    if |bytes| > 0 {
      AsOpsStream(bytes[1..], base + 1);
      assert AsOps(bytes)[1..] == AsOps(bytes[1..]);
    }
  }

  lemma OneCommand(cmd: Command, base: nat)
    ensures DataOf([Cmd(cmd)]) == []
    ensures QueueOf([Cmd(cmd)], base) == [Queued(base, cmd)]
  {
    assert [Cmd(cmd)][1..] == [];
  }

  /** As long as the first command is at least n bytes away, the next n operations are plain data. */
  lemma {:induction false} LeadingData(ops: seq<Op>, base: nat, n: nat)
    requires n <= |DataOf(ops)|
    requires |QueueOf(ops, base)| > 0 ==> base + n <= QueueOf(ops, base)[0].location
    ensures n <= |ops| && ops[..n] == AsOps(DataOf(ops)[..n])
    decreases n
  {
    if n > 0 {
      assert ops[0].Data?;
      LeadingData(ops[1..], base + 1, n - 1);
      assert DataOf(ops)[1..] == DataOf(ops[1..]);
      assert ops[..n] == [ops[0]] + ops[1..][..n - 1];
      assert DataOf(ops)[..n][1..] == DataOf(ops[1..])[..n - 1];
    }
  }

  /** No command lies behind the current position; one that lies at it is the very next operation. */
  lemma {:induction false} HeadOfQueue(ops: seq<Op>, base: nat)
    requires |QueueOf(ops, base)| > 0
    ensures QueueOf(ops, base)[0].location >= base
    ensures QueueOf(ops, base)[0].location == base ==>
      |ops| > 0 && ops[0] == Cmd(QueueOf(ops, base)[0].cmd) && QueueOf(ops[1..], base) == QueueOf(ops, base)[1..]
    decreases |ops|
  {
    if ops[0].Data? { HeadOfQueue(ops[1..], base + 1); }
  }

  // ---- every step keeps the invariant ----

  lemma InitInv(s: State)
    requires Init(s)
    ensures Inv(s)
  {
  }

  lemma MainSendInv(s: State, t: State, bytes: seq<Byte>)
    requires Inv(s) && MainSend(s, t, bytes)
    ensures Inv(t)
  {
    hide DataOf, QueueOf, AsOps;
    var ops := AsOps(bytes);
    AsOpsStream(bytes, s.ioCount + |DataOf(Remaining(s))|);
    assert Remaining(t) == Remaining(s) + ops;
    DataOfAppend(Remaining(s), ops);
    QueueOfAppend(Remaining(s), ops, s.ioCount);
    DataOfAppend(s.prog, ops);
    assert s.buf + s.socket + bytes == s.buf + (s.socket + bytes);
  }

  lemma MainEnqueueInv(s: State, t: State, cmd: Command)
    requires Inv(s) && MainEnqueue(s, t, cmd)
    ensures Inv(t)
  {
    hide DataOf, QueueOf;
    var ops := [Cmd(cmd)];
    OneCommand(cmd, s.ioCount + |DataOf(Remaining(s))|);
    assert Remaining(t) == Remaining(s) + ops;
    assert s.prog == s.child + Remaining(s);
    DataOfAppend(s.child, Remaining(s));
    DataOfAppend(Remaining(s), ops);
    QueueOfAppend(Remaining(s), ops, s.ioCount);
    DataOfAppend(s.prog, ops);
  }

  lemma IoCheckInv(s: State, t: State)
    requires Inv(s) && IoCheck(s, t)
    ensures Inv(t)
  {
    if |s.queue| > 0 { HeadOfQueue(Remaining(s), s.ioCount); }
  }

  lemma IoWriteInv(s: State, t: State, n: nat)
    requires Inv(s) && IoWrite(s, t, n)
    ensures Inv(t)
  {
    hide DataOf, QueueOf, AsOps;
    var rest := Remaining(s);
    LeadingData(rest, s.ioCount, n);
    var bytes := s.buf[..n];
    var ops := AsOps(bytes);
    assert DataOf(rest)[..n] == bytes;
    assert rest == ops + rest[n..];
    AsOpsStream(bytes, s.ioCount);
    DataOfAppend(ops, rest[n..]);
    QueueOfAppend(ops, rest[n..], s.ioCount);
    DataOfAppend(s.child, ops);
    assert s.prog == s.child + rest;
    assert t.child == s.prog[..|t.child|];
    assert Remaining(t) == rest[n..];
    assert s.buf + s.socket == bytes + (s.buf[n..] + s.socket);
  }

  lemma IoReadInv(s: State, t: State, n: nat)
    requires Inv(s) && IoRead(s, t, n)
    ensures Inv(t)
  {
    assert s.buf + s.socket == (s.buf + s.socket[..n]) + s.socket[n..];
  }

  /** A command runs exactly at its recorded location, and it is the next thing the main thread asked for. */
  lemma IoExecuteInv(s: State, t: State)
    requires Inv(s) && IoExecute(s, t)
    ensures s.ioPC.q.location == s.ioCount
    ensures Inv(t)
  {
    hide DataOf, QueueOf;
    var rest := Remaining(s);
    HeadOfQueue(rest, s.ioCount);
    var ops := [Cmd(s.ioPC.q.cmd)];
    OneCommand(s.ioPC.q.cmd, s.ioCount);
    assert rest == ops + rest[1..];
    DataOfAppend(ops, rest[1..]);
    DataOfAppend(s.child, ops);
    assert s.prog == s.child + rest;
    assert Remaining(t) == rest[1..];
  }

  lemma NextInv(s: State, t: State)
    requires Inv(s) && Next(s, t)
    ensures Inv(t)
    ensures s.child <= t.child && s.prog <= t.prog
  {
    hide Inv;
    if bytes :| MainSend(s, t, bytes) {
      MainSendInv(s, t, bytes);
    } else if MainCount(s, t) {
      MainCountInv(s, t);
    } else if cmd :| MainEnqueue(s, t, cmd) {
      MainEnqueueInv(s, t, cmd);
    } else if IoCheck(s, t) {
      IoCheckInv(s, t);
    } else if n :| IoWrite(s, t, n) {
      IoWriteInv(s, t, n);
    } else if n :| IoRead(s, t, n) {
      IoReadInv(s, t, n);
    } else if IoReadError(s, t) {
      IoStopInv(s, t);
    } else if IoExecute(s, t) {
      IoExecuteInv(s, t);
    } else {
      IoStopInv(s, t);
    }
  }

  lemma MainCountInv(s: State, t: State)
    requires Inv(s) && MainCount(s, t)
    ensures Inv(t)
  {
  }

  lemma IoStopInv(s: State, t: State)
    requires Inv(s) && (IoReadError(s, t) || IoExit(s, t))
    ensures Inv(t)
  {
    hide DataOf, QueueOf;
  }

  // ---- whole runs ----

  ghost predicate IsRun(run: seq<State>) {
    |run| > 0 && Init(run[0]) && forall i :: 0 <= i < |run| - 1 ==> Next(run[i], run[i + 1])
  }

  /** Under every interleaving, what has been applied to the child is a prefix of the main thread's program order. */
  lemma {:induction false} RunsSplice(run: seq<State>)
    requires IsRun(run)
    ensures forall i :: 0 <= i < |run| ==> Inv(run[i]) && run[i].child <= run[i].prog
    decreases |run|
  {
    hide Next, Inv;
    var n := |run| - 1;
    if n == 0 {
      InitInv(run[0]);
    } else {
      assert IsRun(run[..n]);
      RunsSplice(run[..n]);
      assert forall i :: 0 <= i < n ==> run[..n][i] == run[i];
      assert Next(run[n - 1], run[n]);
      NextInv(run[n - 1], run[n]);
    }
    forall i | 0 <= i < |run| ensures run[i].child <= run[i].prog { InvPrefix(run[i]); }
  }

  lemma InvPrefix(s: State)
    requires Inv(s)
    ensures s.child <= s.prog
  {
  }

  /** Whenever a command is run, exactly as many bytes have gone to the child as preceded it in program order. */
  lemma CommandsRunInPlace(run: seq<State>, i: nat)
    requires IsRun(run) && i + 1 < |run| && IoExecute(run[i], run[i + 1])
    ensures run[i].ioPC.q.location == run[i].ioCount == |DataOf(run[i].child)|
    ensures |run[i].child| < |run[i].prog| && run[i].prog[|run[i].child|] == Cmd(run[i].ioPC.q.cmd)
  {
    RunsSplice(run);
    HeadOfQueue(Remaining(run[i]), run[i].ioCount);
  }

  /** If the child has been shut down, that was the last thing it saw, and the thread has ended. */
  predicate ShutsDownLast(s: State) {
    forall j :: 0 <= j < |s.child| && s.child[j] == Cmd(Shutdown) ==> j == |s.child| - 1 && s.ioPC == Exited
  }

  lemma NextShutsDownLast(s: State, t: State)
    requires ShutsDownLast(s) && Next(s, t)
    ensures ShutsDownLast(t)
  {
    hide AsOps;
    if n: nat :| IoWrite(s, t, n) { BytesAreData(s.buf[..n]); }
  }

  lemma {:induction false} BytesAreData(bytes: seq<Byte>)
    ensures forall j :: 0 <= j < |bytes| ==> AsOps(bytes)[j] == Data(bytes[j])
  {
    if |bytes| > 0 { BytesAreData(bytes[1..]); }
  }

  /** In every run nothing reaches the child after a Shutdown, and the thread ends with it. */
  lemma {:induction false} ShutdownEndsTheRun(run: seq<State>)
    requires IsRun(run)
    ensures forall i :: 0 <= i < |run| ==> ShutsDownLast(run[i])
    decreases |run|
  {
    hide Next, ShutsDownLast;
    var n := |run| - 1;
    if n == 0 {
      NothingShutDown(run[0]);
    } else {
      assert IsRun(run[..n]);
      ShutdownEndsTheRun(run[..n]);
      assert forall i :: 0 <= i < n ==> run[..n][i] == run[i];
      assert Next(run[n - 1], run[n]);
      NextShutsDownLast(run[n - 1], run[n]);
    }
  }

  lemma NothingShutDown(s: State)
    requires Init(s)
    ensures ShutsDownLast(s)
  {
  }

  /** Once nothing is in flight, buffered, queued or about to run, the child has seen everything. */
  lemma QuietMeansComplete(s: State)
    requires Inv(s) && s.buf == [] && s.socket == [] && s.queue == [] && !s.ioPC.Execute?
    ensures s.child == s.prog
  {
    var rest := Remaining(s);
    if |rest| > 0 {
      NothingLeft(rest, s.ioCount);
    }
    assert s.prog == s.child + rest;
  }

  lemma NothingLeft(ops: seq<Op>, base: nat)
    requires DataOf(ops) == [] && QueueOf(ops, base) == []
    ensures ops == []
  {
  }

  // ---- progress ----

  function Least(a: nat, b: nat): (r: nat)
    ensures r <= a && r <= b && r in {a, b}
  {
    if a < b then a else b
  }

  /** One turn of the I/O thread's loop with a child and a socket that are ready: whoever is offered bytes takes
      some. */
  ghost predicate Turn(s: State, t: State) {
    exists c :: IoCheck(s, c) && (IoExecute(c, t) || ReadyTransfer(c, t))
  }

  predicate Transfer(c: State, w: State, t: State, n: nat, k: nat)
    requires c.ioPC.Limited?
  {
    && IoWrite(c, w, n) && (WriteLimit(c) > 0 ==> n > 0)
    && IoRead(w, t, k) && (w.buf == [] && w.socket != [] ==> k > 0)
  }

  ghost predicate ReadyTransfer(c: State, t: State) {
    c.ioPC.Limited?
    && exists w, n, k :: Transfer(c, w, t, n, k)
  }

  /** What is left to do; a byte in the socket still has two ways to go. */
  function Work(s: State): nat {
    2 * |s.socket| + |s.buf| + |s.queue|
  }

  lemma {:induction false} OnlyCommandsLeft(ops: seq<Op>, base: nat)
    requires DataOf(ops) == []
    ensures |QueueOf(ops, base)| > 0 ==> QueueOf(ops, base)[0].location == base
  {
  }

  /** With the main thread silent, every such turn leaves less to do, until there is nothing left. */
  lemma TurnProgress(s: State, t: State)
    requires Inv(s) && s.ioPC == Top && Turn(s, t)
    ensures Inv(t) && t.prog == s.prog && t.ioPC in {Top, Exited}
    ensures Work(t) < Work(s) || Work(t) == Work(s) == 0
    ensures t.ioPC == Exited ==> |t.child| > 0 && t.child[|t.child| - 1] == Cmd(Shutdown)
  {
    hide Inv, IoCheck, IoExecute, IoWrite, IoRead, WriteLimit;
    var c :| IoCheck(s, c) && (IoExecute(c, t) || ReadyTransfer(c, t));
    IoCheckInv(s, c);
    if IoExecute(c, t) {
      IoExecuteInv(c, t);
      ExecuteProgress(s, c, t);
    } else {
      var w, n, k :| Transfer(c, w, t, n, k);
      IoWriteInv(c, w, n);
      IoReadInv(w, t, k);
      DueWhenIdle(s);
      TransferProgress(s, c, w, t, n, k);
    }
  }

  /** When no data is left, the next command is due. */
  lemma DueWhenIdle(s: State)
    requires Inv(s) && s.ioPC == Top
    ensures s.buf == [] && s.socket == [] && |s.queue| > 0 ==> Limit(s).Execute?
  {
    hide DataOf, QueueOf;
    if s.buf == [] && s.socket == [] { OnlyCommandsLeft(Remaining(s), s.ioCount); }
  }

  lemma ExecuteProgress(s: State, c: State, t: State)
    requires IoCheck(s, c) && IoExecute(c, t)
    ensures t.prog == s.prog && t.ioPC in {Top, Exited} && Work(t) < Work(s)
    ensures t.ioPC == Exited ==> |t.child| > 0 && t.child[|t.child| - 1] == Cmd(Shutdown)
  {
  }

  lemma TransferProgress(s: State, c: State, w: State, t: State, n: nat, k: nat)
    requires c.ioPC.Limited? && IoCheck(s, c) && Transfer(c, w, t, n, k)
    requires s.buf == [] && s.socket == [] && |s.queue| > 0 ==> Limit(s).Execute?
    ensures t.prog == s.prog && t.ioPC == Top && (Work(t) < Work(s) || Work(t) == Work(s) == 0)
  {
    hide AsOps;
    assert |t.socket| == |s.socket| - k && |t.buf| == |s.buf| - n + k && t.queue == s.queue;
  }

  /** So as many turns as there is work to do bring the child everything that the main thread has asked for. */
  lemma {:induction false} TurnsComplete(run: seq<State>)
    requires |run| > 0 && Inv(run[0]) && run[0].ioPC == Top
    requires forall i :: 0 <= i < |run| - 1 ==> run[i].ioPC == Top && Turn(run[i], run[i + 1])
    ensures |run| > Work(run[0]) ==> run[|run| - 1].child == run[0].prog
    decreases |run|
  {
    hide Inv, Turn, Work;
    if |run| > 1 {
      TurnProgress(run[0], run[1]);
      assert forall i :: 0 <= i < |run| - 1 ==> run[1..][i] == run[i + 1];
      if run[1].ioPC == Top {
        TurnsComplete(run[1..]);
      }
    }
    if |run| > Work(run[0]) && (|run| == 1 || run[1].ioPC == Exited) {
      NoWorkLeft(run[|run| - 1]);
    }
  }

  lemma MayTake(s: State, willingness: nat)
    requires s.ioPC.Limited?
    ensures MayWrite(s, Offered(s, willingness))
  {
  }

  lemma Wrote(s: State, t: State, n: nat)
    requires MayWrite(s, n) && t.buf == s.buf[n..]
    requires t == s.(child := s.child + AsOps(s.buf[..n]), buf := t.buf, ioCount := s.ioCount + n, ioPC := Reading)
    ensures IoWrite(s, t, n)
  {
  }

  lemma OneTurn(s: State, c: State, t: State)
    requires IoCheck(s, c) && (IoExecute(c, t) || ReadyTransfer(c, t))
    ensures Turn(s, t)
  {
  }

  lemma Checked(s: State, c: State)
    requires IoCheck(s, c)
    ensures c.ioPC.Execute? || c.ioPC.Limited?
  {
  }

  /** How much a child or a socket with this willingness takes from what the loop offers. */
  function Offered(c: State, willingness: nat): nat
    requires c.ioPC.Limited?
  {
    var until := c.ioPC.bytesUntilNextCommand;
    Least(willingness, if until.Some? then Least(until.value, |c.buf|) else |c.buf|)
  }

  lemma Transferred(c: State, w: State, t: State, willingness: nat, room: nat)
    requires c.ioPC.Limited? && willingness > 0 && IoWrite(c, w, Offered(c, willingness))
    requires IoRead(w, t, Least(willingness, Least(|w.socket|, room))) && (w.buf == [] ==> room > 0)
    ensures ReadyTransfer(c, t)
  {
    hide IoWrite, IoRead;
    assert Transfer(c, w, t, Offered(c, willingness), Least(willingness, Least(|w.socket|, room)));
  }

  lemma NoWorkLeft(s: State)
    requires Inv(s) && !s.ioPC.Execute? && Work(s) == 0
    ensures s.child == s.prog
  {
    QuietMeansComplete(s);
  }

  // ---- the object ----

  /** The fields that the two threads share and the I/O thread's local state.  Each method is one atomic step. */
  class AsyncDataIO {
    var mainThreadBytesWritten: nat
    var mainPC: MainPC
    var asyncCommands: seq<Queued>
    var socket: seq<Byte>

    const fromMainThreadBuf: array<Byte>
    var readIdx: nat
    var numValid: nat
    var ioThreadBytesWritten: nat
    var ioPC: IoPC
    var exitWhenDoneWriting: bool

    ghost var prog: seq<Op>
    ghost var child: seq<Op>

    ghost predicate Valid()
      reads this, fromMainThreadBuf
    {
      && fromMainThreadBuf.Length == BUFFER_SIZE
      && readIdx <= numValid <= BUFFER_SIZE
      && (readIdx == numValid ==> numValid == 0)  // a drained buffer has room again
      && Inv(Abs())
    }

    ghost function Abs(): State
      requires readIdx <= numValid <= fromMainThreadBuf.Length
      reads this, fromMainThreadBuf
    {
      State(prog, mainPC, mainThreadBytesWritten, asyncCommands, socket, ioPC, fromMainThreadBuf[readIdx..numValid],
            ioThreadBytesWritten, exitWhenDoneWriting, child)
    }

    constructor ()
      ensures Valid() && fresh(fromMainThreadBuf) && Init(Abs())
    {
      mainThreadBytesWritten, mainPC, asyncCommands, socket := 0, Idle, [], [];
      fromMainThreadBuf := new Byte[BUFFER_SIZE];
      readIdx, numValid, ioThreadBytesWritten, ioPC, exitWhenDoneWriting := 0, 0, 0, Top, false;
      prog, child := [], [];
      new;
      InitInv(Abs());
    }

    /** The first half of Write(): the socket accepts a prefix of the buffer. */
    method SendData(buffer: seq<Byte>, accepted: nat)
      requires Valid() && mainPC == Idle && accepted <= |buffer|
      modifies this`socket, this`mainPC, this`prog
      ensures Valid() && MainSend(old(Abs()), Abs(), buffer[..accepted])
    {
      ghost var s := Abs();
      socket, mainPC, prog := socket + buffer[..accepted], Sent(accepted), prog + AsOps(buffer[..accepted]);
      MainSendInv(s, Abs(), buffer[..accepted]);
    }

    /** The second half of Write(). */
    method CountBytesWritten()
      requires Valid() && mainPC.Sent?
      modifies this`mainThreadBytesWritten, this`mainPC
      ensures Valid() && MainCount(old(Abs()), Abs())
    {
      ghost var s := Abs();
      mainThreadBytesWritten, mainPC := mainThreadBytesWritten + mainPC.n, Idle;
      MainCountInv(s, Abs());
    }

    method Enqueue(cmd: Command)
      requires Valid() && mainPC == Idle
      modifies this`asyncCommands, this`prog
      ensures Valid() && MainEnqueue(old(Abs()), Abs(), cmd)
    {
      ghost var s := Abs();
      asyncCommands, prog := asyncCommands + [Queued(mainThreadBytesWritten, cmd)], prog + [Cmd(cmd)];
      MainEnqueueInv(s, Abs(), cmd);
    }

    method CheckForCommand()
      requires Valid() && ioPC == Top
      modifies this`asyncCommands, this`ioPC
      ensures Valid() && IoCheck(old(Abs()), Abs())
    {
      ghost var s := Abs();
      if |asyncCommands| > 0 {
        var next := asyncCommands[0];
        if next.location <= ioThreadBytesWritten {
          asyncCommands, ioPC := asyncCommands[1..], Execute(next);
        } else {
          ioPC := Limited(Some(next.location - ioThreadBytesWritten));
        }
      } else {
        ioPC := Limited(None);
      }
      IoCheckInv(s, Abs());
    }

    /** The smaller of what is buffered and what precedes the next command, as far as the child is willing to take
        it. */
    method BytesTaken(willingness: nat) returns (n: nat)
      requires Valid() && ioPC.Limited?
      ensures n == Offered(Abs(), willingness) <= numValid - readIdx
    {
      hide Inv;
      n := numValid - readIdx;
      if ioPC.bytesUntilNextCommand.Some? && ioPC.bytesUntilNextCommand.value < n {
        n := ioPC.bytesUntilNextCommand.value;
      }
      if willingness < n { n := willingness; }
    }

    /** Offers the child as much as the check allows; the child takes as much of it as it is willing to. */
    method WriteToChild(willingness: nat)
      requires Valid() && ioPC.Limited?
      modifies this`readIdx, this`numValid, this`ioThreadBytesWritten, this`ioPC, this`child
      ensures Valid()
      ensures var b, until := old(fromMainThreadBuf[readIdx..numValid]), old(ioPC.bytesUntilNextCommand);
        var k := Least(willingness, if until.Some? then Least(until.value, |b|) else |b|);
        child == old(child) + AsOps(b[..k]) && ioPC == Reading
      ensures IoWrite(old(Abs()), Abs(), Offered(old(Abs()), willingness))
    {
      hide Inv, AsOps, IoWrite, MayWrite;
      ghost var s := Abs();
      var n := BytesTaken(willingness);
      SliceParts(fromMainThreadBuf[..], readIdx, numValid, n);
      child := child + AsOps(fromMainThreadBuf[readIdx..readIdx + n]);
      ioThreadBytesWritten := ioThreadBytesWritten + n;
      readIdx := readIdx + n;
      if readIdx == numValid { readIdx, numValid := 0, 0; }
      ioPC := Reading;
      MayTake(s, willingness);
      Wrote(s, Abs(), n);
      IoWriteInv(s, Abs(), n);
    }

    /** Reads what the socket has into the free tail of the buffer. */
    method ReadFromMainThread(willingness: nat)
      requires Valid() && ioPC == Reading
      modifies this`socket, this`numValid, this`ioPC, fromMainThreadBuf
      ensures Valid()
      ensures var n := Least(willingness, Least(|old(socket)|, BUFFER_SIZE - old(numValid)));
        && fromMainThreadBuf[readIdx..numValid] == old(fromMainThreadBuf[readIdx..numValid]) + old(socket)[..n]
        && socket == old(socket)[n..] && ioPC == Top
        && IoRead(old(Abs()), Abs(), n)
    {
      hide Inv;
      ghost var s := Abs();
      var n := BUFFER_SIZE - numValid;
      if |socket| < n { n := |socket|; }
      if willingness < n { n := willingness; }
      CopyBytes(fromMainThreadBuf, numValid, socket[..n]);
      socket, numValid, ioPC := socket[n..], numValid + n, Top;
      ghost var t := Abs();
      assert t.buf == s.buf + s.socket[..n];
      assert IoRead(s, t, n);
      IoReadInv(s, t, n);
    }

    method ExecuteCommand()
      requires Valid() && ioPC.Execute?
      modifies this`ioPC, this`child
      ensures Valid() && IoExecute(old(Abs()), Abs())
      ensures old(ioPC).q.location == ioThreadBytesWritten
    {
      ghost var s := Abs();
      child := child + [Cmd(ioPC.q.cmd)];
      ioPC := if ioPC.q.cmd == Shutdown then Exited else Top;
      IoExecuteInv(s, Abs());
    }

    /** The body of that loop. */
    method TakeTurn(willingness: nat)
      requires Valid() && ioPC == Top && willingness > 0
      modifies this`asyncCommands, this`ioPC, this`readIdx, this`numValid, this`ioThreadBytesWritten, this`child,
        this`socket, fromMainThreadBuf
      ensures Valid() && Turn(old(Abs()), Abs())
    {
      hide Inv, Turn, ReadyTransfer, IoCheck, IoExecute, IoWrite, IoRead, Least;
      ghost var s := Abs();
      CheckForCommand();
      ghost var c := Abs();
      Checked(s, c);
      if ioPC.Execute? {
        ExecuteCommand();
      } else {
        WriteToChild(willingness);
        ghost var w, room := Abs(), BUFFER_SIZE - numValid;
        ReadFromMainThread(willingness);
        Transferred(c, w, Abs(), willingness, room);
      }
      OneTurn(s, c, Abs());
    }

    /** InternalThreadEntry() with the main thread silent and a child that takes at least one byte whenever it is
        offered some: the loop comes to rest with nothing left to do, or when it has run a Shutdown command. */
    method RunInternalThread(willingness: nat)
      requires Valid() && ioPC == Top && willingness > 0
      modifies this`asyncCommands, this`ioPC, this`readIdx, this`numValid, this`ioThreadBytesWritten, this`child,
        this`socket, fromMainThreadBuf
      ensures Valid() && prog == old(prog)
      ensures if ioPC == Exited then |child| > 0 && child[|child| - 1] == Cmd(Shutdown) else child == prog
    {
      hide Inv, Turn;
      while ioPC == Top && (|socket| > 0 || readIdx < numValid || |asyncCommands| > 0)
        invariant Valid() && prog == old(prog) && ioPC in {Top, Exited}
        invariant ioPC == Exited ==> |child| > 0 && child[|child| - 1] == Cmd(Shutdown)
        decreases Work(Abs())
      {
        ghost var s := Abs();
        TakeTurn(willingness);
        TurnProgress(s, Abs());
      }
      if ioPC == Top { NoWorkLeft(Abs()); }
    }
  }

  // ---- the way back ----

  /** The fixed buffer between the child and the main thread, which compacts itself when its front half is used up. */
  class FromChildBuffer {
    const buf: array<Byte>
    var readIdx: nat
    var numValid: nat

    ghost predicate Valid()
      reads this
    {
      buf.Length == BUFFER_SIZE && readIdx <= numValid <= BUFFER_SIZE
    }

    ghost function Pending(): seq<Byte>
      requires Valid()
      reads this, buf
    {
      buf[readIdx..numValid]
    }

    constructor ()
      ensures Valid() && fresh(buf) && Pending() == []
    {
      buf := new Byte[BUFFER_SIZE];
      readIdx, numValid := 0, 0;
    }

    /** WriteToMainThread(): all of the bytes or none, unless a partial write is allowed. */
    method Append(bytes: seq<Byte>, allowPartial: bool) returns (n: nat)
      requires Valid()
      modifies this`numValid, buf
      ensures Valid() && n <= |bytes|
      ensures Pending() == old(Pending()) + bytes[..n]
      ensures n < |bytes| ==>
        if allowPartial then numValid == BUFFER_SIZE else n == 0 && old(numValid) + |bytes| > BUFFER_SIZE
    {
      var free := BUFFER_SIZE - numValid;
      if !allowPartial && free < |bytes| { return 0; }
      n := if |bytes| < free then |bytes| else free;
      CopyBytes(buf, numValid, bytes[..n]);
      numValid := numValid + n;
    }

    /** The main thread's socket takes n bytes from the front. */
    method Drain(n: nat) returns (bytes: seq<Byte>)
      requires Valid() && n <= numValid - readIdx
      modifies this, buf
      ensures Valid() && |bytes| == n
      ensures bytes + Pending() == old(Pending())
      ensures readIdx <= BUFFER_SIZE / 2
    {
      bytes := buf[readIdx..readIdx + n];
      ghost var rest := buf[readIdx + n..numValid];
      readIdx := readIdx + n;
      if readIdx == numValid {
        readIdx, numValid := 0, 0;
      } else if readIdx > BUFFER_SIZE / 2 {
        CopyBytes(buf, 0, buf[readIdx..numValid]);
        readIdx, numValid := 0, numValid - readIdx;
      }
    }
  }
}
