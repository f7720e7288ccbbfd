/** Programs over real auto_fd objects.  A sequence of ledger operations is
    carried out with the constructors and methods of Handle.AutoFd, and the
    methods below prove that the objects' fd fields and the close log
    follow Ownership.Step and Ownership.Exec exactly.  So single release, no
    leak and exactly-once closing, proved for the ledger, hold for every
    such run of the class. */
module Programs {
  import opened Ownership
  import opened System
  import opened Handle

  /** The fd fields of a sequence of handles, in order. */
  function Store(hs: seq<AutoFd>): (s: seq<int>)
    reads set h | h in hs
    ensures |s| == |hs| && forall i :: 0 <= i < |hs| ==> s[i] == hs[i].fd
  {
    if hs == [] then [] else Store(hs[..|hs| - 1]) + [hs[|hs| - 1].fd]
  }

  /** No handle object appears twice: each slot is its own auto_fd. */
  predicate Distinct(hs: seq<AutoFd>)
  {
    forall i, j :: 0 <= i < j < |hs| ==> hs[i] != hs[j]
  }

  /** A constructor call: `auto_fd(fd)` for Wrap, `auto_fd(move(hs[src]))`
      for Move.  The new handle is appended, and the fd fields afterwards
      are Step's store; nothing is closed. */
  method Construct(hs: seq<AutoFd>, op: Op, ghost t: Trace) returns (hs': seq<AutoFd>)
    requires (op.Wrap? || op.Move?) && Distinct(hs) && Applicable(|hs|, op)
    requires Store(hs) == t.store
    modifies if op.Move? then {hs[op.src]} else {}
    ensures |hs'| == |hs| + 1 && hs'[..|hs|] == hs && fresh(hs'[|hs|]) && Distinct(hs')
    ensures forall h :: h in hs' ==> h in hs || fresh(h)
    ensures Store(hs') == Step(t, op).store && Step(t, op).closed == t.closed
  {
    if op.Wrap? {
      var h := new AutoFd(op.fd);
      hs' := hs + [h];
      assert Store(hs') == t.store + [op.fd];
    } else {
      var h := new AutoFd.Move(hs[op.src]);
      hs' := hs + [h];
      assert forall i :: 0 <= i < |hs| && i != op.src ==> hs[i].fd == old(hs[i].fd);
      assert Store(hs') == t.store[op.src := Empty] + [t.store[op.src]];
    }
  }

  /** A method call on the handle in slot op.h: release(), close() or the
      destructor.  Only that handle's fd changes, to Step's value, the close
      log grows as Step's, and the call aborts exactly when close() meets a
      failing fdclose. */
  method Invoke(hs: seq<AutoFd>, op: Op, os: Os, ghost t: Trace, ghost base: seq<int>)
      returns (aborted: bool)
    requires (op.Release? || op.Close? || op.Destroy?) && os.Valid()
    requires Distinct(hs) && Applicable(|hs|, op)
    requires Store(hs) == t.store && os.log == base + t.closed
    modifies hs[op.h], os
    ensures os.Valid()
    ensures Store(hs) == Step(t, op).store
    ensures os.log == base + Step(t, op).closed
    ensures aborted <==> op.Close? && t.store[op.h] >= 0 && !old(os.ClosesCleanly(t.store[op.h]))
  {
    var k := op.h;
    aborted := false;
    if op.Release? {
      var _ := hs[k].Release();
    } else if op.Close? {
      var o := hs[k].Close(os);
      aborted := o == Aborted;
    } else {
      hs[k].Destroy(os);
    }
    assert forall i :: 0 <= i < |hs| && i != k ==> hs[i].fd == old(hs[i].fd);
    assert Store(hs) == t.store[k := hs[k].fd];
  }

  /** One operation on real handles: a constructor call (the new handle is
      appended) or a method call on slot op.h.  The fd fields afterwards are
      Step's store, the close log grows exactly as Step's, and the run aborts
      exactly when a close() of a held descriptor fails. */
  method Perform(hs: seq<AutoFd>, op: Op, os: Os, ghost t: Trace, ghost base: seq<int>)
      returns (hs': seq<AutoFd>, aborted: bool)
    requires os.Valid() && Distinct(hs) && Applicable(|hs|, op)
    requires Store(hs) == t.store && os.log == base + t.closed
    modifies (set h | h in hs), os
    ensures os.Valid() && Distinct(hs')
    ensures forall h :: h in hs' ==> h in hs || fresh(h)
    ensures Store(hs') == Step(t, op).store
    ensures os.log == base + Step(t, op).closed
    ensures aborted <==> op.Close? && t.store[op.h] >= 0 && !old(os.ClosesCleanly(t.store[op.h]))
  {
    if op.Wrap? || op.Move? {
      hs' := Construct(hs, op, t);
      aborted := false;
    } else {
      hs' := hs;
      aborted := Invoke(hs, op, os, t, base);
    }
  }

  /** The handles hs and the close log since base are the ledger t. */
  ghost predicate Mirrors(hs: seq<AutoFd>, os: Os, t: Trace, base: seq<int>)
    reads (set h | h in hs), os
  {
    os.Valid() && Distinct(hs) && Store(hs) == t.store && os.log == base + t.closed
  }

  /** Performs ops in order until one aborts.  `done` operations were
      performed; the fd fields and the close log are those of the ledger
      after exactly those operations, and the run stops early only at a
      failed close(). */
  method PerformAll(hs: seq<AutoFd>, ops: seq<Op>, os: Os, ghost t: Trace, ghost base: seq<int>)
      returns (hs': seq<AutoFd>, done: nat, aborted: bool)
    requires os.Valid() && Distinct(hs) && Fits(|hs|, ops)
    requires Store(hs) == t.store && os.log == base + t.closed
    modifies (set h | h in hs), os
    ensures os.Valid() && Distinct(hs')
    ensures forall h :: h in hs' ==> h in hs || fresh(h)
    ensures done <= |ops| && (aborted || done == |ops|)
    ensures aborted ==> done > 0 && ops[done - 1].Close?
    ensures Fits(|t.store|, ops[..done])
    ensures Store(hs') == Exec(t, ops[..done]).store
    ensures os.log == base + Exec(t, ops[..done]).closed
  {
    hs', done, aborted := hs, 0, false;
    ghost var cur := t;
    assert ops[..0] == [];
    while done < |ops| && !aborted
      invariant done <= |ops| && (aborted ==> done > 0 && ops[done - 1].Close?)
      invariant forall h :: h in hs' ==> h in hs || fresh(h)
      invariant Fits(|t.store|, ops[..done]) && cur == Exec(t, ops[..done])
      invariant Mirrors(hs', os, cur, base)
      decreases |ops| - done
    {
      ExecSnoc(t, ops, done);
      var op := ops[done];
      hs', aborted := Perform(hs', op, os, cur, base);
      cur := Step(cur, op);
      done := done + 1;
    }
    assert aborted || ops[..done] == ops;
  }

  /** A whole program on fresh handles followed by scope exit, which
      destroys every handle in reverse order of construction.  If no close()
      aborts, the close log grows by exactly what the ledger closes; if the
      program wraps distinct descriptors, none is closed twice; and if it
      also never calls release(), each wrapped descriptor is closed exactly
      once.  An abort stops the run after `done` operations, with the log of
      the ledger after those. */
  method RunScoped(ops: seq<Op>, os: Os) returns (done: nat, aborted: bool)
    requires os.Valid() && Fits(0, ops)
    modifies os
    ensures os.Valid()
    ensures done <= |ops| && (aborted || done == |ops|)
    ensures Fits(0, ops[..done])
    ensures aborted ==> os.log == old(os.log) + Run(ops[..done]).closed
    ensures var t := Run(ops);
      Fits(|t.store|, DestroyAll(|t.store|)) &&
      var u := Exec(t, DestroyAll(|t.store|));
      !aborted ==>
        os.log == old(os.log) + u.closed &&
        (NoDup(t.adopted) ==> NoDup(u.closed)) &&
        (NoDup(t.adopted) && (forall i :: 0 <= i < |ops| ==> !ops[i].Release?) ==>
          multiset(u.closed) == multiset(t.adopted) &&
          forall fd :: fd in t.adopted ==> multiset(u.closed)[fd] == 1)
  {
    ghost var base := os.log;
    assert base == base + Start.closed;
    var hs;
    hs, done, aborted := PerformAll([], ops, os, Start, base);
    ghost var t := Run(ops);
    NoLeak(ops);
    ExecDestroyAll(t, |t.store|);
    if !aborted {
      assert ops[..done] == ops;
      var n := |hs|;
      var hs2, d2, ab2 := PerformAll(hs, DestroyAll(n), os, t, base);
      assert DestroyAll(n)[..d2] == DestroyAll(n);
      if NoDup(t.adopted) && forall i :: 0 <= i < |ops| ==> !ops[i].Release? {
        ExactlyOnce(ops);
      }
    }
  }
}
