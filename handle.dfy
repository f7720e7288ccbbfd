/** auto_fd: a move-only owner of one file descriptor.  Its only state is
    fd_ (here `fd`); any negative value means the handle owns nothing.  Each
    method's effect on fd and on the close log is stated with the functions
    of module Ownership.  Module Programs proves that any sequence of these
    calls changes the fd fields and the close log exactly as Ownership.Exec
    does, which carries the ledger lemmas over to the class. */
module Handle {
  import opened Ownership
  import opened System

  /** The exception types of the program: `struct error` and `struct failed`. */
  datatype Exception = Error | Failed

  /** How a call ends: normally, by throwing, or by a failed assert that
      aborts the process. */
  datatype Outcome = Returned | Threw(ex: Exception) | Aborted

  class AutoFd {
    var fd: int

    /** explicit auto_fd(int fd = -1): stores fd unchecked, closes nothing. */
    constructor (fd: int := Empty)
      ensures this.fd == fd
    {
      this.fd := fd;
    }

    /** auto_fd(auto_fd&&): takes over src's descriptor through
        src.release(); src is left empty and nothing is closed. */
    constructor Move(src: AutoFd)
      modifies src
      ensures fd == old(src.fd)
      ensures src.fd == Empty
    {
      var r := src.Release();
      fd := r;
    }

    /** release(): hands out what was held without closing it; the handle
        is empty afterwards.  It has no access to the Os, so the close log
        cannot change. */
    method Release() returns (r: int)
      modifies this
      ensures r == old(fd)
      ensures fd == Empty
    {
      r := fd;
      fd := Empty;
    }

    /** close(): if something is held, one fdclose call on it, then the
        handle is empty; the assert on fdclose's result aborts only after
        fd has been emptied.  An empty handle is left as it is and nothing
        is closed, so a second close() never closes again. */
    method Close(os: Os) returns (o: Outcome)
      requires os.Valid()
      modifies this, os
      ensures os.Valid() && os.next == old(os.next)
      ensures fd == AfterClose(old(fd))
      ensures os.log == old(os.log) + Held(old(fd))
      ensures os.open == old(os.open) - set x | x in Held(old(fd))
      ensures o == if old(fd >= 0 && !os.ClosesCleanly(fd)) then Aborted else Returned
    {
      o := Returned;
      if fd >= 0 {
        var r := os.FdClose(fd);
        fd := Empty;
        if !r {
          o := Aborted;
        }
      }
    }

    /** ~auto_fd() noexcept: if something is held, one fdclose call whose
        result is ignored; always ends empty and never throws or aborts. */
    method Destroy(os: Os)
      requires os.Valid()
      modifies this, os
      ensures os.Valid() && os.next == old(os.next)
      ensures fd == Empty
      ensures os.log == old(os.log) + Held(old(fd))
      ensures os.open == old(os.open) - set x | x in Held(old(fd))
    {
      if fd >= 0 {
        var _ := os.FdClose(fd);
      }
      fd := Empty;
    }
  }
}
