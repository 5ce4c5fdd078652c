// Exactly which programs over the socket classes have runs, and which numbers the kernel may pick in them:
// any number that is not negative and has no open socket, whether it was ever used before or not.

module DescriptorChoices {
  import opened Descriptors
  import opened DescriptorRuns

  /** The objects that are alive after a program. */
  function Live(ops: seq<Op>): set<Id> {
    if ops == [] then {}
    else
      var before := Live(ops[..|ops| - 1]);
      match ops[|ops| - 1]
      case Create(id) => before + {id}
      case Default(id) => before + {id}
      case MoveConstruct(id, _) => before + {id}
      case MoveAssign(_, _) => before
      case Reset(_) => before
      case Destroy(id) => before - {id}
  }

  /** Step i of a program works on live objects and constructs new ones; only SocketFD has an empty
      constructor and reset. Any two live objects may meet in a move assignment, an object and itself too. */
  predicate WellWritten(lib: Lib, ops: seq<Op>, i: nat)
    requires i < |ops|
  {
    var live := Live(ops[..i]);
    match ops[i]
    case Create(id) => id !in live
    case Default(id) => lib == Legacy && id !in live
    case MoveConstruct(id, source) => id !in live && source in live
    case MoveAssign(id, source) => {id, source} <= live
    case Reset(id) => lib == Legacy && id in live
    case Destroy(id) => id in live
  }

  /** The numbers the kernel has picked, one for each socket created, in order. */
  function Numbers(ops: seq<Op>, fds: seq<int>): seq<int>
    requires |fds| == |ops|
  {
    if ops == [] then []
    else
      var n := |ops| - 1;
      Numbers(ops[..n], fds[..n]) + if ops[n].Create? then [fds[n]] else []
  }

  /** The number picked in step i is free: every socket that had it is closed by then. */
  predicate Free(lib: Lib, ops: seq<Op>, fds: seq<int>, i: nat)
    requires |fds| == |ops| && i < |ops|
  {
    var numbers, a := Numbers(ops[..i], fds[..i]), OwnerRun(lib, ops[..i]);
    && fds[i] >= 0 && a.Some?
    && forall s :: 0 <= s < |numbers| && numbers[s] == fds[i] ==> s in a.value.closed
  }

  /** The kernel's table has the sockets not closed, under the numbers they were created with. */
  predicate TableIs(k: Kernel, numbers: seq<int>) {
    && k.issued == |numbers|
    && (forall s: nat :: s < |numbers| && s !in k.closed ==> numbers[s] in k.table && k.table[numbers[s]] == s)
    && (forall fd :: fd in k.table ==>
          var s := k.table[fd]; s < |numbers| && numbers[s] == fd && s !in k.closed)
    && forall s :: s in k.closed ==> s < |numbers|
  }

  lemma CloseKeepsTable(k: Kernel, numbers: seq<int>, fd: int)
    requires TableIs(k, numbers)
    ensures TableIs(Close(k, fd), numbers)
  {
  }

  lemma SocketKeepsTable(k: Kernel, numbers: seq<int>, fd: int)
    requires TableIs(k, numbers) && fd >= 0 && fd !in k.table
    ensures TableIs(Socket(k, fd), numbers + [fd])
  {
  }

  lemma StepKeepsTable(lib: Lib, w: World, op: Op, fd: int, numbers: seq<int>)
    requires Possible(lib, w, op, fd) && TableIs(w.kernel, numbers)
    ensures TableIs(Step(lib, w, op, fd).kernel, numbers + if op.Create? then [fd] else [])
  {
    hide TableIs, Close, Socket;
    assert numbers + [] == numbers;
    match op
    case Create(_) => SocketKeepsTable(w.kernel, numbers, fd);
    case Default(_) =>
    case MoveConstruct(_, _) =>
    case MoveAssign(id, _) => CloseKeepsTable(w.kernel, numbers, w.fds[id]);
    case Reset(id) => CloseKeepsTable(w.kernel, numbers, w.fds[id]);
    case Destroy(id) => CloseKeepsTable(w.kernel, numbers, w.fds[id]);
  }

  lemma {:induction false} RunTable(lib: Lib, ops: seq<Op>, fds: seq<int>)
    requires |fds| == |ops| && Run(lib, ops, fds).Some?
    ensures TableIs(Run(lib, ops, fds).value.kernel, Numbers(ops, fds))
  {
    hide TableIs, Step, Possible;
    if ops == [] {
      EmptyTable();
    } else {
      var n := |ops| - 1;
      RunTable(lib, ops[..n], fds[..n]);
      StepKeepsTable(lib, Run(lib, ops[..n], fds[..n]).value, ops[n], fds[n], Numbers(ops[..n], fds[..n]));
    }
  }

  lemma EmptyTable()
    ensures TableIs(FRESH_KERNEL, [])
  {
  }

  /** A number is open in a run exactly if some socket that had it is not closed. */
  lemma FreeExactly(lib: Lib, ops: seq<Op>, fds: seq<int>)
    requires |fds| == |ops| > 0
    requires var n := |ops| - 1; Run(lib, ops[..n], fds[..n]).Some?
    ensures var n := |ops| - 1;
            Free(lib, ops, fds, n) <==> fds[n] >= 0 && fds[n] !in Run(lib, ops[..n], fds[..n]).value.kernel.table
  {
    hide Run, OwnerRun, Denotes, Distinct, NoneLost;
    var n := |ops| - 1;
    RunRefines(lib, ops[..n], fds[..n]);
    RunTable(lib, ops[..n], fds[..n]);
    var w := Run(lib, ops[..n], fds[..n]).value;
    var numbers := Numbers(ops[..n], fds[..n]);
    if fds[n] in w.kernel.table {
      var s := w.kernel.table[fds[n]];
      assert s < |numbers| && numbers[s] == fds[n];
    }
  }

  /** The live objects of an owner map, which does not depend on the kernel. */
  lemma {:induction false} OwnersLive(lib: Lib, ops: seq<Op>)
    requires OwnerRun(lib, ops).Some?
    ensures OwnerRun(lib, ops).value.holds.Keys == Live(ops)
  {
    if ops == [] {
    } else {
      OwnersLive(lib, ops[..|ops| - 1]);
    }
  }

  /** A program has a meaning exactly if each of its steps is well written. */
  lemma {:induction false} ProgramsExactly(lib: Lib, ops: seq<Op>)
    ensures OwnerRun(lib, ops).Some? <==> forall i :: 0 <= i < |ops| ==> WellWritten(lib, ops, i)
  {
    hide Live, OwnerStep;
    if ops == [] {
    } else {
      var n := |ops| - 1;
      ProgramsExactly(lib, ops[..n]);
      assert forall i :: 0 <= i < n ==> ops[..n][..i] == ops[..i];
      assert forall i :: 0 <= i < n ==> (WellWritten(lib, ops[..n], i) <==> WellWritten(lib, ops, i));
      if OwnerRun(lib, ops[..n]).Some? {
        OwnersLive(lib, ops[..n]);
        assert WellWritten(lib, ops, n) <==> Allowed(lib, OwnerRun(lib, ops[..n]).value.holds.Keys, ops[n]);
      }
    }
  }

  /** The runs, exactly: any well-written program runs with any choice of numbers, as long as a number
      picked has no open socket. So every reuse of a closed number happens in some run. */
  lemma {:induction false} ChoicesExactly(lib: Lib, ops: seq<Op>, fds: seq<int>)
    requires |fds| == |ops|
    ensures Run(lib, ops, fds).Some? <==>
            && (forall i :: 0 <= i < |ops| ==> WellWritten(lib, ops, i))
            && (forall i :: 0 <= i < |ops| && ops[i].Create? ==> Free(lib, ops, fds, i))
  {
    hide Step, OwnerStep, Allowed, WellWritten, Free, Realises;
    ProgramsExactly(lib, ops);
    if ops == [] {
    } else {
      var n := |ops| - 1;
      ChoicesExactly(lib, ops[..n], fds[..n]);
      ProgramsExactly(lib, ops[..n]);
      forall i | 0 <= i < n ensures Free(lib, ops[..n], fds[..n], i) <==> Free(lib, ops, fds, i) {
        SameFree(lib, ops, fds, n, i);
      }
      if Run(lib, ops[..n], fds[..n]).Some? {
        FreeExactly(lib, ops, fds);
        RunRefines(lib, ops[..n], fds[..n]);
        SameObjects(Run(lib, ops[..n], fds[..n]).value, OwnerRun(lib, ops[..n]).value);
      }
    }
  }

  lemma SameFree(lib: Lib, ops: seq<Op>, fds: seq<int>, n: nat, i: nat)
    requires |fds| == |ops| && i < n <= |ops|
    ensures Free(lib, ops[..n], fds[..n], i) <==> Free(lib, ops, fds, i)
  {
    hide OwnerRun, Numbers;
    assert ops[..n][..i] == ops[..i] && fds[..n][..i] == fds[..i];
  }
}
