/** The driver: run_pipe creates a pipe, wraps both ends, moves the write
    end into move_and_close and the read end into move_and_throw, which
    throws `failed`; main maps that to exit status 1.  Exceptions are the
    Outcome values of module Handle, and leaving a scope is an explicit
    Destroy call on each handle still alive, in reverse order of
    construction.  By-value parameters are destroyed by the callee. */
module Scenario {
  import opened Ownership
  import opened System
  import opened Handle

  /** How the process ends: an exit status, or an abort (a failed assert,
      or an exception that escapes main). */
  datatype Termination = Exit(code: int) | Abort

  /** move_and_close(auto_fd fd): closes its parameter, then destroys it on
      return; a failed close aborts before anything else happens. */
  method MoveAndClose(fd: AutoFd, os: Os) returns (o: Outcome)
    requires os.Valid()
    modifies fd, os
    ensures os.Valid() && os.next == old(os.next)
    ensures o == if old(fd.fd >= 0 && !os.ClosesCleanly(fd.fd)) then Aborted else Returned
    ensures os.log == old(os.log) + Held(old(fd.fd))
    ensures os.open == old(os.open) - set x | x in Held(old(fd.fd))
    ensures fd.fd == if o == Returned then Empty else AfterClose(old(fd.fd))
  {
    o := fd.Close(os);
    if o == Aborted {
      return;
    }
    ghost var closed := os.log;
    fd.Destroy(os);
    assert os.log == closed + [];
  }

  /** move_and_throw(auto_fd fd): throws `failed` while still holding its
      parameter; unwinding destroys the parameter, which closes what it
      holds and cannot throw a second exception. */
  method MoveAndThrow(fd: AutoFd, os: Os) returns (o: Outcome)
    requires os.Valid()
    modifies fd, os
    ensures os.Valid() && os.next == old(os.next)
    ensures o == Threw(Failed)
    ensures fd.fd == Empty
    ensures os.log == old(os.log) + Held(old(fd.fd))
    ensures os.open == old(os.open) - set x | x in Held(old(fd.fd))
  {
    o := Threw(Failed);
    fd.Destroy(os);
  }

  /** The handle operations of run_pipe up to the close in move_and_close
      (pipe (rd, wr)): slots 0 and 1 are `in` and `out`, slot 2 the
      parameter of move_and_close. */
  function PipeSetupAndClose(rd: int, wr: int): seq<Op>
  {
    [Wrap(rd), Wrap(wr), Move(1), Close(2)]
  }

  /** The rest: move_and_close's parameter is destroyed, `in` is moved into
      move_and_throw's parameter (slot 3), which unwinding destroys, and
      leaving run_pipe destroys `out` and then `in`. */
  function ThrowAndUnwind(): seq<Op>
  {
    [Destroy(2), Move(0), Destroy(3), Destroy(1), Destroy(0)]
  }

  /** The unwinding part names only slots that exist once the first part
      has created three handles. */
  lemma ThrowAndUnwindFits()
    ensures Fits(3, ThrowAndUnwind())
  {
    var s5: seq<Op> := [];
    var s4 := [Destroy(0)] + s5;
    var s3 := [Destroy(1)] + s4;
    var s2 := [Destroy(3)] + s3;
    var s1 := [Move(0)] + s2;
    FitsCons(4, Destroy(0), s5);
    FitsCons(4, Destroy(1), s4);
    FitsCons(4, Destroy(3), s3);
    FitsCons(3, Move(0), s2);
    FitsCons(3, Destroy(2), s1);
    assert [Destroy(2)] + s1 == ThrowAndUnwind();
  }

  /** run_pipe's handle operations as one ledger program; it names only
      slots that exist. */
  function PipeScenario(rd: int, wr: int): (ops: seq<Op>)
    ensures |ops| == 9 && Fits(0, ops)
  {
    var s4 := ThrowAndUnwind();
    var s3 := [Close(2)] + s4;
    var s2 := [Move(1)] + s3;
    var s1 := [Wrap(wr)] + s2;
    ThrowAndUnwindFits();
    FitsCons(3, Close(2), s4);
    FitsCons(2, Move(1), s3);
    FitsCons(1, Wrap(wr), s2);
    FitsCons(0, Wrap(rd), s1);
    assert [Wrap(rd)] + s1 == PipeSetupAndClose(rd, wr) + ThrowAndUnwind();
    PipeSetupAndClose(rd, wr) + ThrowAndUnwind()
  }

  /** The ledger after the try block's first call: the write end was
      closed by the parameter of move_and_close. */
  function AfterMoveAndClose(rd: int, wr: int): Trace
  {
    Trace([rd, Empty, Empty], [rd, wr], [wr], [])
  }

  lemma PipeScenarioFirstHalf(rd: int, wr: int)
    requires 0 <= rd && 0 <= wr
    ensures Fits(0, PipeSetupAndClose(rd, wr))
    ensures Exec(Start, PipeSetupAndClose(rd, wr)) == AfterMoveAndClose(rd, wr)
  {
    var t0 := Trace([rd], [rd], [], []);
    var t1 := Trace([rd, wr], [rd, wr], [], []);
    var t2 := Trace([rd, Empty, wr], [rd, wr], [], []);
    var t3 := AfterMoveAndClose(rd, wr);
    var s4: seq<Op> := [];
    var s3 := [Close(2)] + s4;
    var s2 := [Move(1)] + s3;
    var s1 := [Wrap(wr)] + s2;
    var s0 := [Wrap(rd)] + s1;
    assert Step(t2, Close(2)) == t3;
    ExecCons(t2, Close(2), s4);
    assert Step(t1, Move(1)) == t2;
    ExecCons(t1, Move(1), s3);
    assert Step(t0, Wrap(wr)) == t1;
    ExecCons(t0, Wrap(wr), s2);
    assert Step(Start, Wrap(rd)) == t0;
    ExecCons(Start, Wrap(rd), s1);
    assert s0 == PipeSetupAndClose(rd, wr);
  }

  lemma PipeScenarioSecondHalf(rd: int, wr: int)
    requires 0 <= rd && 0 <= wr
    ensures Fits(3, ThrowAndUnwind())
    ensures Exec(AfterMoveAndClose(rd, wr), ThrowAndUnwind())
         == Trace([Empty, Empty, Empty, Empty], [rd, wr], [wr, rd], [])
  {
    var t3 := AfterMoveAndClose(rd, wr);
    var t5 := Trace([Empty, Empty, Empty, rd], [rd, wr], [wr], []);
    var t6 := Trace([Empty, Empty, Empty, Empty], [rd, wr], [wr, rd], []);
    var s5: seq<Op> := [];
    var s4 := [Destroy(0)] + s5;
    var s3 := [Destroy(1)] + s4;
    var s2 := [Destroy(3)] + s3;
    var s1 := [Move(0)] + s2;
    var s0 := [Destroy(2)] + s1;
    assert Step(t6, Destroy(0)) == t6;
    ExecCons(t6, Destroy(0), s5);
    assert Step(t6, Destroy(1)) == t6;
    ExecCons(t6, Destroy(1), s4);
    assert Step(t5, Destroy(3)) == t6;
    ExecCons(t5, Destroy(3), s3);
    assert Step(t3, Move(0)) == t5;
    ExecCons(t3, Move(0), s2);
    assert Step(t3, Destroy(2)) == t3;
    ExecCons(t3, Destroy(2), s1);
    assert s0 == ThrowAndUnwind();
  }

  /** In the ledger, the scenario closes the write end and then the read
      end, once each; the moved-from `in` and `out` close nothing, nothing
      is released, and every handle ends empty. */
  lemma PipeScenarioCloses(rd: int, wr: int)
    requires 0 <= rd && 0 <= wr && rd != wr
    ensures var t := Run(PipeScenario(rd, wr));
      t.closed == [wr, rd] && t.released == [] && t.adopted == [rd, wr] &&
      t.store == [Empty, Empty, Empty, Empty]
    ensures NoDup(Run(PipeScenario(rd, wr)).closed)
  {
    PipeScenarioFirstHalf(rd, wr);
    PipeScenarioSecondHalf(rd, wr);
    assert PipeScenario(rd, wr) == PipeSetupAndClose(rd, wr) + ThrowAndUnwind();
    ExecAppend(Start, PipeSetupAndClose(rd, wr), ThrowAndUnwind());
    SingleRelease(PipeScenario(rd, wr));
  }

  /** run_pipe(): if the pipe cannot be created the assert aborts; if
      closing the write end fails, close()'s assert aborts; otherwise
      `failed` escapes (the handler for `error` does not catch it), and the
      two ends have been closed exactly as the ledger program PipeScenario
      closes them: write end first, read end during unwinding. */
  method RunPipe(os: Os) returns (o: Outcome)
    requires os.Valid()
    modifies os
    ensures os.Valid()
    ensures os.next == old(os.next) + (if old(os.CanPipe()) then 2 else 0)
    ensures var rd, wr := old(os.next), old(os.next) + 1;
      if !old(os.CanPipe()) then
        o == Aborted && os.log == old(os.log) && os.open == old(os.open)
      else if wr in os.faulty then
        o == Aborted && os.log == old(os.log) + [wr] && os.open == old(os.open) + {rd}
      else
        o == Threw(Failed) && os.open == old(os.open) &&
        os.log == old(os.log) + Run(PipeScenario(rd, wr)).closed
  {
    var pd := os.Pipe();
    if pd.None? {
      // assert(r != -1 && "pipe failed")
      return Aborted;
    }
    var rd, wr := pd.value.read, pd.value.write;
    var inFd := new AutoFd(rd);
    var outFd := new AutoFd(wr);

    // try { move_and_close(move(out)); move_and_throw(move(in)); }
    var closeParam := new AutoFd.Move(outFd);
    o := MoveAndClose(closeParam, os);
    if o == Aborted {
      return;
    }
    if o == Returned {
      var throwParam := new AutoFd.Move(inFd);
      o := MoveAndThrow(throwParam, os);
    }
    // catch (const error&) { throw failed(); }
    if o == Threw(Error) {
      o := Threw(Failed);
    }

    // leaving run_pipe: out, then in, both moved from
    ghost var closed := os.log;
    outFd.Destroy(os);
    inFd.Destroy(os);
    assert os.log == closed + [] + [];
    PipeScenarioCloses(rd, wr);
  }

  /** main(): `failed` out of run_pipe gives exit status 1, a normal return
      0; anything else ends the process abnormally.  The only way to exit
      normally is status 1, after both pipe ends were closed once each. */
  method RunMain(os: Os) returns (status: Termination)
    requires os.Valid()
    modifies os
    ensures os.Valid()
    ensures os.next == old(os.next) + (if old(os.CanPipe()) then 2 else 0)
    ensures var rd, wr := old(os.next), old(os.next) + 1;
      if old(os.CanPipe()) && wr !in os.faulty then
        status == Exit(1) && os.log == old(os.log) + [wr, rd] && os.open == old(os.open)
      else
        status == Abort
  {
    var o := RunPipe(os);
    match o {
      case Returned => status := Exit(0);
      case Threw(Failed) => status := Exit(1);
      case Threw(Error) => status := Abort;
      case Aborted => status := Abort;
    }
    if o == Threw(Failed) {
      PipeScenarioCloses(old(os.next), old(os.next) + 1);
    }
  }
}
