# auto_fd: a move-only file-descriptor handle, in Dafny

This project models `auto_fd`, the single-owner file-descriptor handle of
`test/test.cxx`, and the small program that exercises it: `run_pipe` creates
a pipe, moves the write end into `move_and_close` (which closes it) and the
read end into `move_and_throw` (which throws `failed` while still holding
it), and `main` turns the escaping `failed` into exit status 1.

- `handle.dfy`, module `Handle`: class `AutoFd` with its one mutable field
  `fd` (the source's `fd_`); the explicit and the move constructor,
  `Release`, `Close` and `Destroy` (the destructor). Exceptions and the
  aborting `assert` are the values of `Outcome` (`Returned`,
  `Threw(Error | Failed)`, `Aborted`).
- `system.dfy`, module `System`: class `Os`, the operating system as far as
  the handle sees it. `Pipe` stands for `_pipe` and `FdClose` for `fdclose`.
  Every descriptor passed to `FdClose` is appended to the ghost `log`, so
  "closed once", "release does not close" and "empty after close" are
  stated exactly. A close succeeds when the descriptor is open and not in
  `faulty` (descriptors whose close reports an I/O error). Either way the
  descriptor is no longer open afterwards.
- `ownership.dfy`, module `Ownership`: the ledger that the class methods are
  specified by. A program using `auto_fd` is a sequence of `Op`s on handle
  slots. A `Trace` records the `fd_` of every handle and three logs:
  descriptors wrapped (`adopted`), passed to fdclose (`closed`) and handed
  out by `release()` (`released`). `Held` and `AfterClose` are shared with
  the class. The invariant `Balanced` says that held + closed + released is
  exactly what was adopted, as multisets. Every operation keeps it, and
  single ownership, single release, no leak and exactly-once closing follow
  from it.
- `scenario.dfy`, module `Scenario`: `move_and_close`, `move_and_throw`,
  `run_pipe` and `main`. Leaving a scope is an explicit `Destroy` on every
  live handle, in reverse order of construction. By-value parameters are
  destroyed by the callee. `PipeScenario` is `run_pipe`'s sequence of handle
  operations written as a ledger program, and `RunPipe` is proved to close
  exactly what that program closes.
- `program.dfy`, module `Programs`: runs any ledger program on real `AutoFd`
  objects. Each `Op` becomes a constructor call or a method call. The
  methods prove that the objects' `fd` fields equal the ledger's store
  and that the close log grows exactly as the ledger's `closed`, operation by
  operation. `RunScoped` adds the destructors at scope exit. It concludes,
  for the class itself, that distinct wrapped descriptors are never closed
  twice and that, without `release()`, each of them is closed exactly once.

## Model

| member | source | states |
|---|---|---|
| Handle.AutoFd.constructor | test/test.cxx:21 | stores the given descriptor unchecked (default -1, empty) and closes nothing |
| Handle.AutoFd.Move | test/test.cxx:23 | the new handle holds exactly what the source held, the source is left at -1, and nothing is closed (the Os is outside its frame) |
| Handle.AutoFd.Release | test/test.cxx:38-42 | returns the previously held value and leaves the handle at -1, with no fdclose call (the Os is outside its frame) |
| Handle.AutoFd.Close | test/test.cxx:44-50 | on a held descriptor: exactly one fdclose call with it, the handle ends at -1, and the outcome is Aborted exactly when fdclose failed (the handle is already empty by then); on an empty handle: no call and no change |
| Handle.AutoFd.Destroy | test/test.cxx:30-36 | at most one fdclose call, only when fd >= 0, result ignored, no outcome at all (never throws or aborts), and always ends at -1 |
| System.Os.FdClose | test/test.cxx:15-18 | logs its argument; succeeds exactly when the descriptor is open and not faulty; the descriptor is no longer open afterwards |
| System.Os.Pipe | test/test.cxx:68-69 | either two fresh, distinct, open descriptors or failure with nothing changed; never closes anything |
| Ownership.Held | test/test.cxx:31-33 | a handle owns a descriptor exactly when fd_ is non-negative, and then only that one; this is also what close() and the destructor pass to fdclose |
| Ownership.Step | test/test.cxx:20-53 | each handle operation, as the class performs it: only the constructors create a handle, only a constructor adopts a descriptor and only release() releases one |
| Ownership.Exec | test/test.cxx:20-53 | running handle operations only appends to the adopted, closed and released logs |
| Ownership.Owned | test/test.cxx:20-53 | what the handles of a program own is made of non-negative values stored in them |
| Ownership.StepBalanced | test/test.cxx:20-53 | every handle operation keeps held + closed + released equal to adopted |
| Ownership.ExecBalanced | test/test.cxx:20-53 | any sequence of handle operations keeps the ledger balanced |
| Ownership.Conservation | test/test.cxx:20-53 | whatever a program does with its handles, the descriptors still owned, those closed and those released together are exactly the multiset of descriptors wrapped |
| Ownership.SingleRelease | test/test.cxx:23-50 | if the wrapped descriptors are distinct, no two handles ever own the same one, fdclose is called at most once per descriptor, and nothing is both closed and released |
| Ownership.NoLeak | test/test.cxx:30-36 | once every handle is destroyed at scope exit, each wrapped descriptor was closed or released, and if the wrapped descriptors are distinct, none was closed twice |
| Ownership.ExactlyOnce | test/test.cxx:30-50 | with distinct wrapped descriptors and no release(), destroying all handles at scope exit closes each wrapped descriptor exactly once and nothing else |
| Ownership.DestroyAll | test/test.cxx:30-36 | scope exit calls the destructor of every handle once, the most recently constructed first |
| Ownership.ExecAppend | test/test.cxx:20-53 | running two programs one after the other is running their concatenation |
| Ownership.ExecDestroyAll | test/test.cxx:30-36 | destroying the handles in reverse order of construction empties every one of them, and adopts or releases nothing |
| Ownership.CloseTwice | test/test.cxx:44-50 | a second close() on the same handle changes nothing and closes nothing |
| Scenario.MoveAndClose | test/test.cxx:55 | closes what its parameter held, once; aborts exactly when that close fails, with the parameter already emptied; otherwise the parameter is destroyed empty |
| Scenario.MoveAndThrow | test/test.cxx:62-65 | always throws `failed`; unwinding destroys the parameter, which closes what it held once and adds no second exception |
| Scenario.PipeScenario | test/test.cxx:67-86 | run_pipe's handle operations form a well-formed ledger program on four handles |
| Scenario.PipeScenarioCloses | test/test.cxx:67-86 | that program closes the write end, then the read end, once each; the moved-from `in` and `out` close nothing, nothing is released, and all four handles end empty |
| Scenario.RunPipe | test/test.cxx:67-86 | aborts if the pipe cannot be made or if closing the write end fails; otherwise `failed` escapes, both ends are no longer open, and the close log grows by exactly what PipeScenario closes; a successful pipe uses exactly two new descriptor numbers |
| Scenario.RunMain | test/test.cxx:88-98 | exits with status 1 after closing the write end and then the read end once each, unless one of the two asserts aborts the process |
| Programs.Construct | test/test.cxx:21-23 | a constructor call appends one new handle, and afterwards the fd fields are the ledger's store after Wrap or Move; nothing is closed |
| Programs.Invoke | test/test.cxx:30-50 | release(), close() or the destructor on one handle changes the fd fields and the close log exactly as the ledger's Step, and aborts exactly when close() meets a failing fdclose |
| Programs.Perform | test/test.cxx:20-53 | any one handle operation on real objects matches the ledger's Step in the fd fields and the close log |
| Programs.PerformAll | test/test.cxx:20-53 | a sequence of handle operations on real objects matches the ledger's Exec after every operation performed, and stops early only at a close() that aborts |
| Programs.RunScoped | test/test.cxx:20-53 | for a whole program on real handles followed by scope exit that does not abort, the close log grows by exactly what the ledger closes; with distinct wrapped descriptors none is closed twice, and without release() each is closed exactly once |

## Left out

- `printf` trace output (test/test.cxx:7, 16, 63, 75, 83, 97): console output, no effect on the handles.
- `HasDtor` (test/test.cxx:57-60, 77): it only prints from its destructor and holds no state, so the order of its destruction relative to the handles is not modelled.
- The move-assignment operator (test/test.cxx:28): it is only declared, with no body, so no behaviour is given to it.
- The handler `catch (const error&)` (test/test.cxx:82) does not catch `failed`, so `failed` escapes `run_pipe` unchanged; the handler's body is modelled but never runs.
- Builds with `NDEBUG`: the model takes `assert` as enabled, so a failed `_pipe` or a failed fdclose inside close() aborts. With `NDEBUG` both would carry on instead.
- The buffer size and text mode arguments of `_pipe`, and the OS's reuse of the lowest free descriptor numbers: `System.Os.Pipe` hands out numbers that were never used before.
- Close failures other than "not open" and the `faulty` set (for example an interrupted close) are not told apart; only success or failure reaches the handle.
- What a failed `assert` does beyond ending the run (the diagnostic, `abort()`): it is the outcome `Aborted` or the termination `Abort`. An exception escaping `main` (`std::terminate`) is also `Abort`.
- Which frame destroys a by-value parameter (callee here, as MSVC does; the caller under other ABIs) and `__declspec(noinline)`: neither changes which descriptors are closed or in what order.
- The `<memory>` include: nothing from it is used.
- Handle.AutoFd.Release: "does not close" is stated by its frame (it may modify only the handle), not by a clause about the log.
- Handle.AutoFd.Move: "does not close" is likewise stated by its frame.
