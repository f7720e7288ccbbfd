/** The operating-system side that auto_fd relies on: pipe creation and the
    close primitive fdclose.  Only their effect on the descriptor table is
    modelled; every descriptor passed to fdclose is appended to a ghost log,
    which is what "closed at most once" and "release does not close" are
    stated against. */
module System {

  datatype Option<T> = None | Some(value: T)

  /** The two descriptors of a pipe: pd[0] (read end) and pd[1] (write end). */
  datatype PipeEnds = PipeEnds(read: int, write: int)

  class Os {
    /** Descriptors currently open. */
    var open: set<int>
    /** The next descriptor number to hand out; numbers are not reused. */
    var next: int
    /** Size of the descriptor table: pipe creation fails beyond it. */
    const limit: int
    /** Descriptors whose close reports an I/O error (they are released
        all the same). */
    const faulty: set<int>
    /** Every argument ever passed to fdclose, in call order. */
    ghost var log: seq<int>

    ghost predicate Valid()
      reads this
    {
      0 <= next && forall fd :: fd in open ==> 0 <= fd < next
    }

    constructor (limit: int, faulty: set<int>)
      ensures Valid()
      ensures open == {} && next == 0 && log == []
      ensures this.limit == limit && this.faulty == faulty
    {
      this.limit := limit;
      this.faulty := faulty;
      open := {};
      next := 0;
      log := [];
    }

    /** Room for two more descriptors. */
    predicate CanPipe()
      reads this
    {
      next + 2 <= limit
    }

    /** Whether closing fd now would report success. */
    predicate ClosesCleanly(fd: int)
      reads this
    {
      fd in open && fd !in faulty
    }

    /** _pipe: two fresh, distinct, open descriptors, or failure with the
        table unchanged; never closes anything. */
    method Pipe() returns (pd: Option<PipeEnds>)
      requires Valid()
      modifies this
      ensures Valid() && log == old(log)
      ensures pd.Some? <==> old(CanPipe())
      ensures pd.Some? ==>
        pd.value == PipeEnds(old(next), old(next) + 1) &&
        pd.value.read !in old(open) && pd.value.write !in old(open) &&
        open == old(open) + {pd.value.read, pd.value.write} &&
        next == old(next) + 2
      ensures pd.None? ==> open == old(open) && next == old(next)
    {
      if next + 2 <= limit {
        pd := Some(PipeEnds(next, next + 1));
        open := open + {next, next + 1};
        next := next + 2;
      } else {
        pd := None;
      }
    }

    /** fdclose: one call of the close primitive.  It succeeds exactly when
        fd is open and not faulty; fd is no longer open afterwards, and the
        call is logged whatever its result. */
    method FdClose(fd: int) returns (ok: bool)
      requires Valid()
      modifies this
      ensures Valid() && next == old(next)
      ensures ok == old(ClosesCleanly(fd))
      ensures open == old(open) - {fd}
      ensures log == old(log) + [fd]
    {
      ok := fd in open && fd !in faulty;
      open := open - {fd};
      log := log + [fd];
    }
  }
}
