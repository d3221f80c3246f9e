/** The per-thread guard around the wrapped allocator calls. A call is given together with the calls
    that it provokes on the same thread: while dlsym looks up the real function, while the handler
    runs, and while the result is traced. */
module Reentrancy {

  datatype Op =
    | Malloc | Calloc | Realloc | Reallocarray | Free(temporary: bool) | PosixMemalign
    | Mmap | Munmap | Mremap | Brk | Sbrk | Mbind

  datatype Call = Call(op: Op, lookup: seq<Call>, handler: seq<Call>, trace: seq<Call>)

  /** Where a call was sent. */
  datatype Route = Handled | Passed | Lent | Returned

  /** One dispatched call, with the flag and the numbers of frames that were active. */
  datatype Event = Event(op: Op, route: Route, flag: bool, frames: int, traces: int)

  /** frames counts the active handlers and traces the handled calls that are being traced before the
      flag is cleared; tracked lists the calls that reached the memory map. */
  datatype Trail = Trail(frames: int, traces: int, log: seq<Event>, tracked: seq<Op>)

  /** The thread-local flags, and what happened so far. */
  datatype State = State(inside: bool, insideDlsym: bool, bufferInUse: bool, died: bool, trail: Trail)

  /** The handlers that end the process as not implemented. */
  predicate Unimplemented(op: Op) {
    op == Brk || op == Sbrk || op == Mbind
  }

  /** malloc and calloc clear the flag before they trace, all others afterwards. */
  predicate ClearsFirst(op: Op) {
    op == Malloc || op == Calloc
  }

  function Noted(trail: Trail, flag: bool, op: Op, route: Route): Trail {
    trail.(log := trail.log + [Event(op, route, flag, trail.frames, trail.traces)],
           tracked := if route == Handled then trail.tracked + [op] else trail.tracked)
  }

  function Note(s: State, op: Op, route: Route): State {
    s.(trail := Noted(s.trail, s.inside, op, route))
  }

  function Enter(s: State): State {
    s.(inside := true, trail := s.trail.(frames := s.trail.frames + 1))
  }

  function Leave(s: State): State {
    s.(inside := false, trail := s.trail.(frames := s.trail.frames - 1))
  }

  function StartTrace(s: State): State {
    s.(trail := s.trail.(frames := s.trail.frames - 1, traces := s.trail.traces + 1))
  }

  function EndTrace(s: State): State {
    s.(inside := false, trail := s.trail.(traces := s.trail.traces - 1))
  }

  // ----- what one call does -----

  ghost function Run(initialized: bool, s: State, c: Call): State
    decreases c
  {
    if c.op == Free(true) then
      Note(s, c.op, Returned).(bufferInUse := false)
    else if c.op == Mremap then
      s.(died := true)
    else if c.op == Calloc && s.insideDlsym then
      if s.bufferInUse then s.(died := true) else Note(s, c.op, Lent).(bufferInUse := true)
    else if !initialized || s.inside then
      var noted := Note(s, c.op, Passed);
      var found := RunAll(initialized, if c.op == Calloc then noted.(insideDlsym := true) else noted, c.lookup);
      if found.died then found else if c.op == Calloc then found.(insideDlsym := false) else found
    else
      var entered := Enter(Note(s, c.op, Handled));
      var handled := RunAll(initialized, entered, c.handler);
      if handled.died then handled
      else if Unimplemented(c.op) then handled.(died := true)
      else if ClearsFirst(c.op) then
        RunAll(initialized, Leave(handled), c.trace)
      else
        var traced := RunAll(initialized, StartTrace(handled), c.trace);
        if traced.died then traced else EndTrace(traced)
  }

  ghost function RunAll(initialized: bool, s: State, calls: seq<Call>): State
    decreases calls
  {
    if calls == [] || s.died then s else RunAll(initialized, Run(initialized, s, calls[0]), calls[1..])
  }

  // ----- the guard -----

  ghost predicate Consistent(initialized: bool, flag: bool, frames: int, traces: int) {
    0 <= frames && 0 <= traces && frames + traces <= 1 && (flag <==> frames + traces == 1) && (!initialized ==> !flag)
  }

  /** A handled call met a clear flag and no active frame; a passed one met the flag, or no library. */
  ghost predicate Sound(initialized: bool, e: Event) {
    && Consistent(initialized, e.flag, e.frames, e.traces)
    && (e.route == Handled ==> initialized && !e.flag)
    && (e.route == Passed ==> !initialized || e.flag)
  }

  ghost predicate Guarded(initialized: bool, s: State) {
    && Consistent(initialized, s.inside, s.trail.frames, s.trail.traces)
    && (s.insideDlsym ==> s.inside || !initialized)
    && forall i :: 0 <= i < |s.trail.log| ==> Sound(initialized, s.trail.log[i])
  }

  ghost predicate SameFlags(s: State, t: State) {
    && s.inside == t.inside && s.insideDlsym == t.insideDlsym
    && s.trail.frames == t.trail.frames && s.trail.traces == t.trail.traces
  }

  /** Over every finite call tree: at most one handler is ever active, the flag is set exactly while a
      handler or a trace behind it is, every dispatch obeys it, and each call leaves it as it was. */
  lemma {:induction false} RunKeeps(initialized: bool, s: State, c: Call)
    requires Guarded(initialized, s) && !s.died
    ensures Guarded(initialized, Run(initialized, s, c))
    ensures !Run(initialized, s, c).died ==> SameFlags(s, Run(initialized, s, c))
    decreases c
  {
    if c.op == Free(true) || c.op == Mremap {
    } else if c.op == Calloc && s.insideDlsym {
    } else if !initialized || s.inside {
      var noted := Note(s, c.op, Passed);
      RunAllKeeps(initialized, if c.op == Calloc then noted.(insideDlsym := true) else noted, c.lookup);
    } else {
      var entered := Enter(Note(s, c.op, Handled));
      RunAllKeeps(initialized, entered, c.handler);
      var handled := RunAll(initialized, entered, c.handler);
      if !handled.died && !Unimplemented(c.op) {
        if ClearsFirst(c.op) {
          RunAllKeeps(initialized, Leave(handled), c.trace);
        } else {
          RunAllKeeps(initialized, StartTrace(handled), c.trace);
        }
      }
    }
  }

  lemma {:induction false} RunAllKeeps(initialized: bool, s: State, calls: seq<Call>)
    requires Guarded(initialized, s) && !s.died
    ensures Guarded(initialized, RunAll(initialized, s, calls))
    ensures !RunAll(initialized, s, calls).died ==> SameFlags(s, RunAll(initialized, s, calls))
    decreases calls
  {
    if calls != [] {
      RunKeeps(initialized, s, calls[0]);
      var next := Run(initialized, s, calls[0]);
      if !next.died { RunAllKeeps(initialized, next, calls[1..]); }
    }
  }

  // ----- which calls are tracked -----

  /** The calls of a tree that reach a handler when the thread is outside: the call itself and, behind
      malloc and calloc only, the calls that its trace makes. Nothing a handler does counts. */
  function Tracked(c: Call): seq<Op>
    decreases c
  {
    if c.op == Free(true) then []
    else [c.op] + (if ClearsFirst(c.op) then TrackedAll(c.trace) else [])
  }

  function TrackedAll(calls: seq<Call>): seq<Op>
    decreases calls
  {
    if calls == [] then [] else Tracked(calls[0]) + TrackedAll(calls[1..])
  }

  /** Allocations made inside a handler are never tracked; those made outside are tracked exactly. */
  lemma {:induction false} TrackedExactly(initialized: bool, s: State, c: Call)
    requires Guarded(initialized, s) && !s.died && !Run(initialized, s, c).died
    ensures Run(initialized, s, c).trail.tracked
         == s.trail.tracked + (if initialized && !s.inside then Tracked(c) else [])
    decreases c
  {
    if c.op == Free(true) || c.op == Mremap {
    } else if c.op == Calloc && s.insideDlsym {
    } else if !initialized || s.inside {
      var noted := Note(s, c.op, Passed);
      AllTrackedExactly(initialized, if c.op == Calloc then noted.(insideDlsym := true) else noted, c.lookup);
    } else {
      var entered := Enter(Note(s, c.op, Handled));
      RunAllKeeps(initialized, entered, c.handler);
      AllTrackedExactly(initialized, entered, c.handler);
      var handled := RunAll(initialized, entered, c.handler);
      if ClearsFirst(c.op) {
        AllTrackedExactly(initialized, Leave(handled), c.trace);
      } else {
        AllTrackedExactly(initialized, StartTrace(handled), c.trace);
      }
    }
  }

  lemma {:induction false} AllTrackedExactly(initialized: bool, s: State, calls: seq<Call>)
    requires Guarded(initialized, s) && !s.died && !RunAll(initialized, s, calls).died
    ensures RunAll(initialized, s, calls).trail.tracked
         == s.trail.tracked + (if initialized && !s.inside then TrackedAll(calls) else [])
    decreases calls
  {
    if calls != [] {
      RunKeeps(initialized, s, calls[0]);
      var next := Run(initialized, s, calls[0]);
      if !next.died {
        TrackedExactly(initialized, s, calls[0]);
        AllTrackedExactly(initialized, next, calls[1..]);
        assert s.trail.tracked + (Tracked(calls[0]) + TrackedAll(calls[1..]))
            == s.trail.tracked + Tracked(calls[0]) + TrackedAll(calls[1..]);
      }
    }
  }

  function Plain(op: Op): Call {
    Call(op, [], [], [])
  }

  lemma {:induction false} RunSingle(initialized: bool, s: State, op: Op)
    requires !s.died
    ensures RunAll(initialized, s, [Plain(op)]) == Run(initialized, s, Plain(op))
  {
    assert [Plain(op)][1..] == [];
  }

  /** The flag outlasts the handler: an allocation made while realloc is traced is passed on although no
      handler is active, and the same allocation made while malloc is traced is tracked. */
  lemma {:induction false} TracesDiffer(s: State)
    requires Guarded(true, s) && !s.died && !s.inside
    ensures var t := Run(true, s, Call(Realloc, [], [], [Plain(Malloc)]));
            t.trail.tracked == s.trail.tracked + [Realloc]
            && t.trail.log == s.trail.log + [Event(Realloc, Handled, false, 0, 0), Event(Malloc, Passed, true, 0, 1)]
    ensures Run(true, s, Call(Malloc, [], [], [Plain(Malloc)])).trail.tracked == s.trail.tracked + [Malloc, Malloc]
  {
    RunSingle(true, StartTrace(Enter(Note(s, Realloc, Handled))), Malloc);
    RunSingle(true, Leave(Enter(Note(s, Malloc, Handled))), Malloc);
  }

  /** What each call does on a thread that is outside, and what becomes of an allocation in its trace: brk,
      sbrk, mbind and mremap end the process; all others are tracked, and behind malloc and calloc the
      allocation is tracked too. */
  lemma {:induction false} EveryOperation(s: State, op: Op)
    requires Guarded(true, s) && !s.died && !s.inside && op != Free(true)
    ensures var t := Run(true, s, Call(op, [], [], [Plain(Malloc)]));
            && (t.died <==> op == Brk || op == Sbrk || op == Mbind || op == Mremap)
            && (!t.died ==> t.trail.tracked
                            == s.trail.tracked + [op] + (if op == Malloc || op == Calloc then [Malloc] else []))
  {
    RunSingle(true, StartTrace(Enter(Note(s, op, Handled))), Malloc);
    RunSingle(true, Leave(Enter(Note(s, op, Handled))), Malloc);
  }

  /** Before the library is initialised, a calloc that a lookup makes gets the temporary buffer if the lookup
      is that of calloc, and is passed on behind every other call; a free of the buffer returns it. */
  lemma {:induction false} OnlyCallocLends(s: State, op: Op)
    requires Guarded(false, s) && !s.died && !s.insideDlsym && !s.bufferInUse && op != Mremap
    ensures var t := Run(false, s, Call(op, [Plain(Calloc)], [], []));
            !t.died && (t.bufferInUse <==> op == Calloc)
    ensures !Run(false, s.(bufferInUse := true), Plain(Free(true))).bufferInUse
    ensures Run(false, s, Call(Calloc, [Plain(Calloc), Plain(Calloc)], [], [])).died
  {
    if op != Free(true) {
      var noted := Note(s, op, Passed);
      RunSingle(false, if op == Calloc then noted.(insideDlsym := true) else noted, Calloc);
    }
    var inner := Note(s, Calloc, Passed).(insideDlsym := true);
    var lent := Run(false, inner, Plain(Calloc));
    assert [Plain(Calloc), Plain(Calloc)][1..] == [Plain(Calloc)];
    RunSingle(false, lent, Calloc);
  }

  // ----- when the process dies -----

  /** The loans (true) and returns (false) of the temporary calloc buffer that a tree asks for, read off
      the tree alone. */
  function Loans(initialized: bool, inside: bool, dlsym: bool, c: Call): seq<bool>
    decreases c
  {
    if c.op == Free(true) then [false]
    else if c.op == Mremap then []
    else if c.op == Calloc && dlsym then [true]
    else if !initialized || inside then LoansAll(initialized, inside, dlsym || c.op == Calloc, c.lookup)
    else LoansAll(initialized, true, dlsym, c.handler) + LoansAll(initialized, !ClearsFirst(c.op), dlsym, c.trace)
  }

  function LoansAll(initialized: bool, inside: bool, dlsym: bool, calls: seq<Call>): seq<bool>
    decreases calls
  {
    if calls == [] then []
    else Loans(initialized, inside, dlsym, calls[0]) + LoansAll(initialized, inside, dlsym, calls[1..])
  }

  /** An mremap anywhere in the tree, or an unimplemented handler where the thread is outside. */
  predicate Aborts(initialized: bool, inside: bool, dlsym: bool, c: Call)
    decreases c
  {
    if c.op == Free(true) then false
    else if c.op == Mremap then true
    else if c.op == Calloc && dlsym then false
    else if !initialized || inside then AbortsAll(initialized, inside, dlsym || c.op == Calloc, c.lookup)
    else
      || AbortsAll(initialized, true, dlsym, c.handler)
      || Unimplemented(c.op)
      || AbortsAll(initialized, !ClearsFirst(c.op), dlsym, c.trace)
  }

  predicate AbortsAll(initialized: bool, inside: bool, dlsym: bool, calls: seq<Call>)
    decreases calls
  {
    calls != [] && (Aborts(initialized, inside, dlsym, calls[0]) || AbortsAll(initialized, inside, dlsym, calls[1..]))
  }

  /** No loan while the buffer is lent out. */
  predicate OneAtATime(loans: seq<bool>, lent: bool) {
    loans == [] || (!(loans[0] && lent) && OneAtATime(loans[1..], loans[0]))
  }

  function LentAfter(loans: seq<bool>, lent: bool): bool {
    if loans == [] then lent else loans[|loans| - 1]
  }

  lemma {:induction false} OneAtATimeSplits(a: seq<bool>, b: seq<bool>, lent: bool)
    ensures OneAtATime(a + b, lent) <==> OneAtATime(a, lent) && OneAtATime(b, LentAfter(a, lent))
    ensures LentAfter(a + b, lent) == LentAfter(b, LentAfter(a, lent))
  {
    if a == [] {
      assert a + b == b;
    } else {
      assert (a + b)[1..] == a[1..] + b;
      OneAtATimeSplits(a[1..], b, a[0]);
    }
  }

  ghost predicate DiesAsTold(s: State, t: State, loans: seq<bool>, aborts: bool) {
    && (t.died <==> aborts || !OneAtATime(loans, s.bufferInUse))
    && (!t.died ==> t.bufferInUse == LentAfter(loans, s.bufferInUse))
  }

  /** The process dies exactly when the tree holds an mremap, lets a call with an unimplemented handler
      through to it, or asks for the temporary buffer while it is lent out. */
  lemma {:induction false} DiesExactly(initialized: bool, s: State, c: Call)
    requires Guarded(initialized, s) && !s.died
    ensures DiesAsTold(s, Run(initialized, s, c), Loans(initialized, s.inside, s.insideDlsym, c),
                       Aborts(initialized, s.inside, s.insideDlsym, c))
    decreases c, 1
  {
    if c.op == Free(true) {
      assert OneAtATime([false], s.bufferInUse) by { assert [false][1..] == []; }
    } else if c.op == Mremap {
    } else if c.op == Calloc && s.insideDlsym {
      assert OneAtATime([true], s.bufferInUse) <==> !s.bufferInUse by { assert [true][1..] == []; }
    } else if !initialized || s.inside {
      var noted := Note(s, c.op, Passed);
      AllDieExactly(initialized, if c.op == Calloc then noted.(insideDlsym := true) else noted, c.lookup);
    } else {
      HandledDiesExactly(initialized, s, c);
    }
  }

  lemma {:induction false} HandledDiesExactly(initialized: bool, s: State, c: Call)
    requires Guarded(initialized, s) && !s.died && initialized && !s.inside
    requires c.op != Free(true) && c.op != Mremap && !(c.op == Calloc && s.insideDlsym)
    ensures DiesAsTold(s, Run(initialized, s, c), Loans(initialized, s.inside, s.insideDlsym, c),
                       Aborts(initialized, s.inside, s.insideDlsym, c))
    decreases c, 0
  {
    var entered := Enter(Note(s, c.op, Handled));
    RunAllKeeps(initialized, entered, c.handler);
    AllDieExactly(initialized, entered, c.handler);
    var handled := RunAll(initialized, entered, c.handler);
    OneAtATimeSplits(LoansAll(initialized, true, s.insideDlsym, c.handler),
                     LoansAll(initialized, !ClearsFirst(c.op), s.insideDlsym, c.trace), s.bufferInUse);
    if !handled.died && !Unimplemented(c.op) {
      if ClearsFirst(c.op) {
        AllDieExactly(initialized, Leave(handled), c.trace);
      } else {
        var tracing := StartTrace(handled);
        RunAllKeeps(initialized, tracing, c.trace);
        AllDieExactly(initialized, tracing, c.trace);
      }
    }
  }

  lemma {:induction false} AllDieExactly(initialized: bool, s: State, calls: seq<Call>)
    requires Guarded(initialized, s) && !s.died
    ensures DiesAsTold(s, RunAll(initialized, s, calls), LoansAll(initialized, s.inside, s.insideDlsym, calls),
                       AbortsAll(initialized, s.inside, s.insideDlsym, calls))
    decreases calls, 2
  {
    if calls != [] {
      RunKeeps(initialized, s, calls[0]);
      DiesExactly(initialized, s, calls[0]);
      var next := Run(initialized, s, calls[0]);
      OneAtATimeSplits(Loans(initialized, s.inside, s.insideDlsym, calls[0]),
                       LoansAll(initialized, s.inside, s.insideDlsym, calls[1..]), s.bufferInUse);
      if next.died {
        assert RunAll(initialized, next, calls[1..]) == next;
      } else {
        AllDieExactly(initialized, next, calls[1..]);
      }
    }
  }

  // ----- the wrappers -----

  /** One thread's copy of the flags. */
  class ThreadGuard {
    const initialized: bool
    var inside: bool
    var insideDlsym: bool
    var bufferInUse: bool
    var exited: bool
    ghost var trail: Trail

    constructor (initialized: bool)
      ensures this.initialized == initialized && Guarded(initialized, Now())
      ensures Now() == State(false, false, false, false, Trail(0, 0, [], []))
    {
      this.initialized := initialized;
      inside, insideDlsym, bufferInUse, exited := false, false, false, false;
      trail := Trail(0, 0, [], []);
    }

    ghost function Now(): State
      reads this
    {
      State(inside, insideDlsym, bufferInUse, exited, trail)
    }

    /** One wrapped call: the temporary buffer, the real function, or the handler. */
    method Invoke(c: Call)
      requires !exited
      modifies this
      ensures Now() == Run(initialized, old(Now()), c)
      ensures old(Guarded(initialized, Now())) ==> Guarded(initialized, Now()) && (exited || SameFlags(old(Now()), Now()))
      decreases c, 1
    {
      if Guarded(initialized, Now()) { RunKeeps(initialized, Now(), c); }
      if c.op == Free(true) {
        trail := Noted(trail, inside, c.op, Returned);
        bufferInUse := false;
        return;
      }
      if c.op == Mremap {
        exited := true;
        return;
      }
      if c.op == Calloc && insideDlsym {
        if bufferInUse {
          exited := true;
          return;
        }
        trail := Noted(trail, inside, c.op, Lent);
        bufferInUse := true;
        return;
      }
      if !initialized || inside {
        trail := Noted(trail, inside, c.op, Passed);
        if c.op == Calloc {
          insideDlsym := true;
        }
        InvokeAll(c.lookup);
        if !exited && c.op == Calloc {
          insideDlsym := false;
        }
        return;
      }
      Handle(c);
    }

    /** The last part of every wrapper. */
    method Handle(c: Call)
      requires !exited && initialized && !inside
      requires c.op != Free(true) && c.op != Mremap && !(c.op == Calloc && insideDlsym)
      modifies this
      ensures Now() == Run(initialized, old(Now()), c)
      decreases c, 0
    {
      trail := Noted(trail, inside, c.op, Handled);
      inside, trail := true, Enter(Now()).trail;
      InvokeAll(c.handler);
      if exited {
        return;
      }
      if Unimplemented(c.op) {
        exited := true;
        return;
      }
      ghost var handled := Now();
      if ClearsFirst(c.op) {
        inside, trail := false, Leave(handled).trail;
        InvokeAll(c.trace);
      } else {
        trail := StartTrace(handled).trail;
        InvokeAll(c.trace);
        if !exited {
          inside, trail := false, EndTrace(Now()).trail;
        }
      }
    }

    method InvokeAll(calls: seq<Call>)
      requires !exited
      modifies this
      ensures Now() == RunAll(initialized, old(Now()), calls)
      decreases calls, 2
    {
      if calls == [] {
        return;
      }
      Invoke(calls[0]);
      if !exited {
        InvokeAll(calls[1..]);
      }
    }
  }
}
