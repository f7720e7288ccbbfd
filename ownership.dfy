/** The ownership ledger behind auto_fd.

    Every auto_fd of a program is a slot in a store of fd_ values; the
    handle operations move descriptors between slots, hand them out
    (release) or pass them to fdclose (close, destructor).  A Trace also
    records which descriptors entered the store (adopted), which were passed
    to fdclose (closed) and which were handed out (released).  The central
    invariant, Balanced, says that no descriptor is ever duplicated or lost:
    what is held plus what was closed plus what was released is exactly what
    was adopted.  The class Handle.AutoFd uses Empty, Held and AfterClose
    below, so its methods and this ledger describe the same steps. */
module Ownership {

  /** The value of fd_ that means "owns nothing" (the default argument). */
  const Empty: int := -1

  /** The descriptor a handle with fd_ == fd owns, if any: any negative
      value owns nothing.  It is also the list of descriptors that close()
      and the destructor pass to fdclose. */
  function Held(fd: int): (r: seq<int>)
    ensures |r| <= 1
    ensures r == [] <==> fd < 0
    ensures forall x :: x in r ==> x == fd
  {
    if fd >= 0 then [fd] else []
  }

  /** fd_ after close(): emptied when something was held, else untouched. */
  function AfterClose(fd: int): int
  {
    if fd >= 0 then Empty else fd
  }

  /** One operation of a program using auto_fd, on handle slot indices.
      Wrap is the explicit constructor (Wrap(Empty) the default one) and
      Move the move constructor; both create a new slot at the end. */
  datatype Op =
    | Wrap(fd: int)
    | Move(src: nat)
    | Release(h: nat)
    | Close(h: nat)
    | Destroy(h: nat)

  datatype Trace = Trace(store: seq<int>, adopted: seq<int>, closed: seq<int>, released: seq<int>)

  const Start: Trace := Trace([], [], [], [])

  /** The slot an operation names exists among n handles. */
  predicate Applicable(n: nat, op: Op)
  {
    match op
    case Wrap(_) => true
    case Move(src) => src < n
    case Release(h) => h < n
    case Close(h) => h < n
    case Destroy(h) => h < n
  }

  /** How many handles an operation creates. */
  function Grows(op: Op): nat
  {
    if op.Wrap? || op.Move? then 1 else 0
  }

  /** Every operation of ops names an existing slot, starting from n handles. */
  predicate Fits(n: nat, ops: seq<Op>)
    decreases |ops|
  {
    ops == [] || (Applicable(n, ops[0]) && Fits(n + Grows(ops[0]), ops[1..]))
  }

  /** The effect of one operation, with the same field updates as the class. */
  function Step(t: Trace, op: Op): (r: Trace)
    requires Applicable(|t.store|, op)
    ensures |r.store| == |t.store| + Grows(op)
    ensures r.adopted == t.adopted || op.Wrap?
    ensures r.released == t.released || op.Release?
  {
    match op
    case Wrap(fd) =>
      t.(store := t.store + [fd], adopted := t.adopted + Held(fd))
    case Move(src) =>
      t.(store := t.store[src := Empty] + [t.store[src]])
    case Release(h) =>
      t.(store := t.store[h := Empty], released := t.released + Held(t.store[h]))
    case Close(h) =>
      t.(store := t.store[h := AfterClose(t.store[h])], closed := t.closed + Held(t.store[h]))
    case Destroy(h) =>
      t.(store := t.store[h := Empty], closed := t.closed + Held(t.store[h]))
  }

  /** Runs ops from t; the three logs are only ever appended to. */
  function Exec(t: Trace, ops: seq<Op>): (r: Trace)
    requires Fits(|t.store|, ops)
    ensures t.adopted <= r.adopted && t.closed <= r.closed && t.released <= r.released
    decreases |ops|
  {
    if ops == [] then t else Exec(Step(t, ops[0]), ops[1..])
  }

  /** One operation in front of a program that fits. */
  lemma FitsCons(n: nat, op: Op, rest: seq<Op>)
    requires Applicable(n, op) && Fits(n + Grows(op), rest)
    ensures Fits(n, [op] + rest)
  {
    assert ([op] + rest)[0] == op && ([op] + rest)[1..] == rest;
  }

  /** Running a + b is running a, then b from where a stopped. */
  /** Exec unfolded once, on a sequence written as one operation and the rest. */
  lemma ExecCons(t: Trace, op: Op, rest: seq<Op>)
    requires Applicable(|t.store|, op) && Fits(|t.store| + Grows(op), rest)
    ensures Fits(|t.store|, [op] + rest)
    ensures Exec(t, [op] + rest) == Exec(Step(t, op), rest)
  {
    FitsCons(|t.store|, op, rest);
    assert ([op] + rest)[0] == op && ([op] + rest)[1..] == rest;
  }

  lemma {:induction false} ExecAppend(t: Trace, a: seq<Op>, b: seq<Op>)
    requires Fits(|t.store|, a + b)
    ensures Fits(|t.store|, a) && Fits(|Exec(t, a).store|, b)
    ensures Exec(t, a + b) == Exec(Exec(t, a), b)
    decreases |a|
  {
    if a == [] {
      assert a + b == b;
    } else {
      assert (a + b)[0] == a[0] && (a + b)[1..] == a[1..] + b;
      ExecAppend(Step(t, a[0]), a[1..], b);
    }
  }

  /** A whole program: every handle is created by one of its operations. */
  /** Running the first k + 1 operations is running the first k, then one Step. */
  lemma ExecSnoc(t: Trace, ops: seq<Op>, k: nat)
    requires Fits(|t.store|, ops) && k < |ops|
    ensures Fits(|t.store|, ops[..k]) && Applicable(|Exec(t, ops[..k]).store|, ops[k])
    ensures Fits(|t.store|, ops[..k + 1])
    ensures Exec(t, ops[..k + 1]) == Step(Exec(t, ops[..k]), ops[k])
  {
    assert ops[..k + 1] + ops[k + 1..] == ops;
    ExecAppend(t, ops[..k + 1], ops[k + 1..]);
    assert ops[..k + 1] == ops[..k] + [ops[k]];
    ExecAppend(t, ops[..k], [ops[k]]);
    assert [ops[k]][1..] == [];
  }

  function Run(ops: seq<Op>): Trace
    requires Fits(0, ops)
  {
    Exec(Start, ops)
  }

  /** The descriptors currently owned by the handles of a store. */
  function Owned(store: seq<int>): (m: multiset<int>)
    ensures forall fd :: fd in m ==> fd >= 0 && fd in store
  {
    if store == [] then multiset{}
    else Owned(store[..|store| - 1]) + multiset(Held(store[|store| - 1]))
  }

  /** Nothing is held, closed or released that was not adopted, and no
      descriptor is counted twice. */
  ghost predicate Balanced(t: Trace)
  {
    Owned(t.store) + multiset(t.closed) + multiset(t.released) == multiset(t.adopted)
  }

  ghost predicate NoDup(s: seq<int>)
  {
    forall x :: multiset(s)[x] <= 1
  }

  /** Scope exit: the destructors of handles n-1, ..., 0, in reverse order
      of construction. */
  function DestroyAll(n: nat): (ops: seq<Op>)
    ensures |ops| == n && forall i :: 0 <= i < n ==> ops[i] == Destroy(n - 1 - i)
  {
    if n == 0 then [] else [Destroy(n - 1)] + DestroyAll(n - 1)
  }

  lemma OwnedAppend(s: seq<int>, v: int)
    ensures Owned(s + [v]) == Owned(s) + multiset(Held(v))
  {
    assert (s + [v])[..|s|] == s;
  }

  lemma SwapLast(a: multiset<int>, b: multiset<int>, c: multiset<int>)
    ensures a + b + c == a + c + b
  {
    assert forall x :: (a + b + c)[x] == (a + c + b)[x];
  }

  /** Overwriting slot h with v trades what h held for what v holds. */
  lemma {:induction false} OwnedUpdate(s: seq<int>, h: nat, v: int)
    requires h < |s|
    ensures Owned(s[h := v]) + multiset(Held(s[h])) == Owned(s) + multiset(Held(v))
    decreases |s|
  {
    var n := |s| - 1;
    if h == n {
      OwnedUpdateLast(s, v);
    } else {
      var before, after := Owned(s[..n]), Owned(s[..n][h := v]);
      var last, gone, come := multiset(Held(s[n])), multiset(Held(s[h])), multiset(Held(v));
      assert Owned(s[h := v]) == after + last by {
        var u := s[h := v];
        OwnedLast(u);
        assert |u| - 1 == n && u[..n] == s[..n][h := v] && u[n] == s[n];
      }
      assert Owned(s) == before + last by {
        OwnedLast(s);
      }
      assert after + gone == before + come by {
        var p := s[..n];
        assert Held(p[h]) == Held(s[h]);
        OwnedUpdate(p, h, v);
      }
      Trade(after, before, last, gone, come);
    }
  }

  /** Owned, unfolded once. */
  lemma OwnedLast(s: seq<int>)
    requires |s| > 0
    ensures Owned(s) == Owned(s[..|s| - 1]) + multiset(Held(s[|s| - 1]))
  {
  }

  /** A trade stays balanced when the same item is added on both sides. */
  lemma Trade(after: multiset<int>, before: multiset<int>, last: multiset<int>,
              gone: multiset<int>, come: multiset<int>)
    requires after + gone == before + come
    ensures after + last + gone == before + last + come
  {
    forall x ensures (after + last + gone)[x] == (before + last + come)[x] {
      assert (after + gone)[x] == (before + come)[x];
    }
  }

  lemma OwnedUpdateLast(s: seq<int>, v: int)
    requires |s| > 0
    ensures Owned(s[|s| - 1 := v]) + multiset(Held(s[|s| - 1]))
         == Owned(s) + multiset(Held(v))
  {
    var n := |s| - 1;
    var before := Owned(s[..n]);
    assert s[n := v][..n] == s[..n];
    assert Owned(s[n := v]) == before + multiset(Held(v));
    assert Owned(s) == before + multiset(Held(s[n]));
    SwapLast(before, multiset(Held(v)), multiset(Held(s[n])));
  }

  /** Adopting descriptors into the store, or moving them out of the store
      into one of the logs, keeps the ledger balanced. */
  lemma Shift(t: Trace, r: Trace, added: seq<int>, moved: seq<int>)
    requires Balanced(t)
    requires Owned(r.store) + multiset(moved) == Owned(t.store) + multiset(added)
    requires r.adopted == t.adopted + added
    requires (r.closed == t.closed + moved && r.released == t.released) ||
             (r.closed == t.closed && r.released == t.released + moved)
    ensures Balanced(r)
  {
    var lhs := Owned(r.store) + multiset(r.closed) + multiset(r.released);
    forall x ensures lhs[x] == multiset(r.adopted)[x] {
      assert (Owned(r.store) + multiset(moved))[x] == (Owned(t.store) + multiset(added))[x];
      assert multiset(r.adopted)[x] == multiset(t.adopted)[x] + multiset(added)[x];
      assert multiset(r.closed)[x] + multiset(r.released)[x]
          == multiset(t.closed)[x] + multiset(t.released)[x] + multiset(moved)[x];
      assert (Owned(t.store) + multiset(t.closed) + multiset(t.released))[x] == multiset(t.adopted)[x];
    }
    assert lhs == multiset(r.adopted);
  }

  /** Every operation keeps the ledger balanced. */
  lemma StepBalanced(t: Trace, op: Op)
    requires Applicable(|t.store|, op) && Balanced(t)
    ensures Balanced(Step(t, op))
  {
    match op
    case Wrap(fd) => WrapBalanced(t, fd);
    case Move(src) => MoveBalanced(t, src);
    case Release(h) => EmptySlotBalanced(t, h, Step(t, op));
    case Close(h) => EmptySlotBalanced(t, h, Step(t, op));
    case Destroy(h) => EmptySlotBalanced(t, h, Step(t, op));
  }

  lemma WrapBalanced(t: Trace, fd: int)
    requires Balanced(t)
    ensures Balanced(Step(t, Wrap(fd)))
  {
    OwnedAppend(t.store, fd);
    Shift(t, Step(t, Wrap(fd)), Held(fd), []);
  }

  lemma MoveBalanced(t: Trace, src: nat)
    requires src < |t.store| && Balanced(t)
    ensures Balanced(Step(t, Move(src)))
  {
    var s := t.store;
    var r := Step(t, Move(src));
    assert Owned(r.store) + multiset([]) == Owned(s) + multiset([]) by {
      assert r.store == s[src := Empty] + [s[src]];
      OwnedAppend(s[src := Empty], s[src]);
      OwnedUpdate(s, src, Empty);
      assert multiset(Held(Empty)) == multiset{};
    }
    assert r.adopted == t.adopted + [] && r.closed == t.closed + [];
    Shift(t, r, [], []);
  }

  /** release(), close() and the destructor: slot h gives up what it held,
      and that goes to exactly one of the two logs. */
  lemma EmptySlotBalanced(t: Trace, h: nat, r: Trace)
    requires h < |t.store| && Balanced(t)
    requires r.store == t.store[h := AfterClose(t.store[h])] || r.store == t.store[h := Empty]
    requires r.adopted == t.adopted
    requires (r.closed == t.closed + Held(t.store[h]) && r.released == t.released) ||
             (r.closed == t.closed && r.released == t.released + Held(t.store[h]))
    ensures Balanced(r)
  {
    var s := t.store;
    if r.store == s[h := Empty] {
      OwnedUpdate(s, h, Empty);
    } else {
      OwnedUpdate(s, h, AfterClose(s[h]));
    }
    assert r.adopted == t.adopted + [];
    Shift(t, r, [], Held(s[h]));
  }

  lemma {:induction false} ExecBalanced(t: Trace, ops: seq<Op>)
    requires Fits(|t.store|, ops) && Balanced(t)
    ensures Balanced(Exec(t, ops))
    decreases |ops|
  {
    if ops != [] {
      StepBalanced(t, ops[0]);
      ExecBalanced(Step(t, ops[0]), ops[1..]);
    }
  }

  /** Conservation: whatever a program does with its handles, every
      descriptor it wrapped is still owned, or was closed, or was released,
      and the three together are exactly the wrapped ones. */
  lemma Conservation(ops: seq<Op>)
    requires Fits(0, ops)
    ensures Balanced(Run(ops))
  {
    ExecBalanced(Start, ops);
  }

  /** Single ownership and single release: when a program wraps pairwise
      distinct descriptors, no two handles ever own the same one, fdclose is
      called at most once per descriptor, and no descriptor is both closed
      and released. */
  lemma SingleRelease(ops: seq<Op>)
    requires Fits(0, ops)
    requires NoDup(Run(ops).adopted)
    ensures forall fd :: Owned(Run(ops).store)[fd] <= 1
    ensures NoDup(Run(ops).closed)
    ensures forall fd :: fd in Run(ops).closed ==> fd !in Run(ops).released
  {
    Conservation(ops);
    var t := Run(ops);
    forall fd ensures Owned(t.store)[fd] + multiset(t.closed)[fd] + multiset(t.released)[fd] <= 1 {
      assert (Owned(t.store) + multiset(t.closed) + multiset(t.released))[fd] == multiset(t.adopted)[fd];
    }
    forall fd | fd in t.closed ensures fd !in t.released {
      assert multiset(t.closed)[fd] >= 1;
    }
  }

  lemma {:induction false} ExecDestroyAll(t: Trace, n: nat)
    requires n <= |t.store|
    ensures Fits(|t.store|, DestroyAll(n))
    ensures var r := Exec(t, DestroyAll(n));
      |r.store| == |t.store| &&
      (forall i :: 0 <= i < n ==> r.store[i] == Empty) &&
      (forall i :: n <= i < |t.store| ==> r.store[i] == t.store[i]) &&
      r.adopted == t.adopted && r.released == t.released
    decreases n
  {
    if n > 0 {
      var ops := DestroyAll(n);
      var t' := Step(t, Destroy(n - 1));
      assert ops[0] == Destroy(n - 1) && ops[1..] == DestroyAll(n - 1);
      ExecDestroyAll(t', n - 1);
    }
  }

  /** A store of empty handles owns nothing (from Owned's contract). */
  lemma OwnedNothing(s: seq<int>)
    requires forall i :: 0 <= i < |s| ==> s[i] < 0
    ensures Owned(s) == multiset{}
  {
  }

  /** No leak: once every handle is destroyed at scope exit, each wrapped
      descriptor was closed or released. */
  lemma NoLeak(ops: seq<Op>)
    requires Fits(0, ops)
    ensures var t := Run(ops);
      Fits(|t.store|, DestroyAll(|t.store|)) &&
      var u := Exec(t, DestroyAll(|t.store|));
      multiset(u.closed) + multiset(u.released) == multiset(u.adopted) &&
      u.adopted == t.adopted &&
      (NoDup(t.adopted) ==> NoDup(u.closed))
  {
    var t := Run(ops);
    Conservation(ops);
    ExecDestroyAll(t, |t.store|);
    var u := Exec(t, DestroyAll(|t.store|));
    ExecBalanced(t, DestroyAll(|t.store|));
    OwnedNothing(u.store);
    if NoDup(t.adopted) {
      forall x ensures multiset(u.closed)[x] <= 1 {
        assert (multiset(u.closed) + multiset(u.released))[x] == multiset(u.adopted)[x];
      }
    }
  }

  lemma {:induction false} ExecWithoutRelease(t: Trace, ops: seq<Op>)
    requires Fits(|t.store|, ops)
    requires forall i :: 0 <= i < |ops| ==> !ops[i].Release?
    ensures Exec(t, ops).released == t.released
    decreases |ops|
  {
    if ops != [] {
      ExecWithoutRelease(Step(t, ops[0]), ops[1..]);
    }
  }

  /** Exactly once: a program that wraps distinct descriptors and never
      calls release() passes each of them to fdclose exactly once by the
      time all its handles are destroyed, and nothing else. */
  lemma ExactlyOnce(ops: seq<Op>)
    requires Fits(0, ops)
    requires NoDup(Run(ops).adopted)
    requires forall i :: 0 <= i < |ops| ==> !ops[i].Release?
    ensures var t := Run(ops);
      Fits(|t.store|, DestroyAll(|t.store|)) &&
      var u := Exec(t, DestroyAll(|t.store|));
      multiset(u.closed) == multiset(t.adopted) &&
      forall fd :: fd in t.adopted ==> multiset(u.closed)[fd] == 1
  {
    var t := Run(ops);
    NoLeak(ops);
    ExecWithoutRelease(Start, ops);
    ExecDestroyAll(t, |t.store|);
  }

  /** A second close() on the same handle passes nothing to fdclose. */
  lemma {:induction false} CloseTwice(t: Trace, h: nat)
    requires h < |t.store|
    ensures var once := Step(t, Close(h));
      Step(once, Close(h)) == once &&
      once.closed == t.closed + Held(t.store[h])
  {
  }
}
