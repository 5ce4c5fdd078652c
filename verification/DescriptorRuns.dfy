// Ownership over every sequence of operations, with any reuse of descriptor numbers.

module DescriptorRuns {
  import opened Lists
  import opened Descriptors

  /** The world after a sequence of operations, where fds[i] is what the kernel picks in step i. */
  function Run(lib: Lib, ops: seq<Op>, fds: seq<int>): Option<World>
    requires |fds| == |ops|
  {
    if ops == [] then Some(EMPTY_WORLD)
    else
      var n := |ops| - 1;
      match Run(lib, ops[..n], fds[..n])
      case None => None
      case Some(w) => if Possible(lib, w, ops[n], fds[n]) then Some(Step(lib, w, ops[n], fds[n])) else None
  }

  function OwnerRun(lib: Lib, ops: seq<Op>): Option<Owners> {
    if ops == [] then Some(NO_OWNERS)
    else
      var n := |ops| - 1;
      match OwnerRun(lib, ops[..n])
      case None => None
      case Some(a) => if Allowed(lib, a.holds.Keys, ops[n]) then Some(OwnerStep(lib, a, ops[n])) else None
  }

  /** Whatever numbers the kernel reuses, the objects hold the sockets the owner map says. */
  lemma {:induction false} RunRefines(lib: Lib, ops: seq<Op>, fds: seq<int>)
    requires |fds| == |ops| && Run(lib, ops, fds).Some?
    ensures OwnerRun(lib, ops).Some? && Realises(Run(lib, ops, fds).value, OwnerRun(lib, ops).value)
  {
    hide Step, OwnerStep, Allowed, Realises;
    if ops == [] {
      EmptyRealises();
    } else {
      var n := |ops| - 1;
      RunRefines(lib, ops[..n], fds[..n]);
      var w, a := Run(lib, ops[..n], fds[..n]).value, OwnerRun(lib, ops[..n]).value;
      SameObjects(w, a);
      StepRefines(lib, w, a, ops[n], fds[n]);
    }
  }

  lemma EmptyRealises()
    ensures Realises(EMPTY_WORLD, NO_OWNERS)
  {
  }

  // ----- No socket is lost or closed twice -----

  function Holders(holds: map<Id, Option<nat>>): set<Id> {
    set i | i in holds && holds[i].Some?
  }

  ghost predicate IsHeld(a: Owners, s: nat) {
    exists i :: i in a.holds && a.holds[i] == Some(s)
  }

  /** No two objects hold the same socket, and what they hold is not closed. */
  predicate Exclusive(a: Owners) {
    && (forall i, j :: i in a.holds && j in a.holds && i != j && a.holds[i].Some? ==> a.holds[i] != a.holds[j])
    && (forall i :: i in a.holds && a.holds[i].Some? ==> a.holds[i].value < a.issued && a.holds[i].value !in a.closed)
  }

  /** Sockets are closed at most once, and each one ever created is closed or held. */
  ghost predicate Complete(a: Owners) {
    && (forall i, j :: 0 <= i < j < |a.closed| ==> a.closed[i] != a.closed[j])
    && (forall s :: s in a.closed ==> s < a.issued)
    && (forall s: nat :: s < a.issued ==> s in a.closed || IsHeld(a, s))
  }

  ghost predicate Accounted(a: Owners) {
    Exclusive(a) && Complete(a) && a.issued == |a.closed| + |Holders(a.holds)|
  }

  lemma ReleaseComplete(a: Owners, id: Id)
    requires Exclusive(a) && Complete(a) && id in a.holds
    ensures Complete(Release(a, id))
  {
    var b := Release(a, id);
    forall s: nat | s < b.issued
      ensures s in b.closed || IsHeld(b, s)
    {
      if s !in a.closed {
        var i :| i in a.holds && a.holds[i] == Some(s);
        if i == id {
          assert b.closed[|a.closed|] == s;
        } else {
          assert b.holds[i] == Some(s);
        }
      }
    }
  }

  lemma ReleaseAccounted(a: Owners, id: Id)
    requires Accounted(a) && id in a.holds
    ensures Accounted(Release(a, id))
  {
    ReleaseComplete(a, id);
    hide Complete;
    if a.holds[id].Some? {
      assert Holders(Release(a, id).holds) == Holders(a.holds) - {id};
    }
  }

  function Move(a: Owners, id: Id, source: Id): Owners
    requires source in a.holds
  {
    a.(holds := a.holds[id := a.holds[source]][source := None])
  }

  lemma MoveComplete(a: Owners, id: Id, source: Id)
    requires Complete(a) && source in a.holds && id != source && (id in a.holds ==> a.holds[id] == None)
    ensures Complete(Move(a, id, source))
  {
    var b := Move(a, id, source);
    forall s: nat | s < b.issued
      ensures s in b.closed || IsHeld(b, s)
    {
      if s !in a.closed {
        var i :| i in a.holds && a.holds[i] == Some(s);
        assert b.holds[if i == source then id else i] == Some(s);
      }
    }
  }

  lemma MoveExclusive(a: Owners, id: Id, source: Id)
    requires Exclusive(a) && source in a.holds && id != source
    ensures Exclusive(Move(a, id, source))
  {
  }

  lemma MoveAccounted(a: Owners, id: Id, source: Id)
    requires Accounted(a) && source in a.holds && id != source && (id in a.holds ==> a.holds[id] == None)
    ensures Accounted(Move(a, id, source))
  {
    MoveComplete(a, id, source);
    MoveExclusive(a, id, source);
    HoldersMove(a, id, source);
    hide Complete, Exclusive, Holders;
  }

  lemma HoldersMove(a: Owners, id: Id, source: Id)
    requires source in a.holds && id != source && (id in a.holds ==> a.holds[id] == None)
    ensures |Holders(Move(a, id, source).holds)| == |Holders(a.holds)|
  {
    var h := Holders(Move(a, id, source).holds);
    if a.holds[source].Some? {
      assert h == Holders(a.holds) - {source} + {id};
    } else {
      assert h == Holders(a.holds);
    }
  }

  function Created(a: Owners, id: Id): Owners {
    Owners(a.holds[id := Some(a.issued)], a.issued + 1, a.closed)
  }

  lemma CreateComplete(a: Owners, id: Id)
    requires Complete(a) && id !in a.holds
    ensures Complete(Created(a, id))
  {
    var b := Created(a, id);
    forall s: nat | s < b.issued
      ensures s in b.closed || IsHeld(b, s)
    {
      if s == a.issued {
        assert b.holds[id] == Some(s);
      } else if s !in a.closed {
        var i :| i in a.holds && a.holds[i] == Some(s);
        assert b.holds[i] == Some(s);
      }
    }
  }

  lemma CreateExclusive(a: Owners, id: Id)
    requires Exclusive(a) && Complete(a) && id !in a.holds
    ensures Exclusive(Created(a, id))
  {
  }

  lemma CreateAccounted(a: Owners, id: Id)
    requires Accounted(a) && id !in a.holds
    ensures Accounted(Created(a, id))
  {
    CreateComplete(a, id);
    CreateExclusive(a, id);
    hide Complete, Exclusive;
    assert Holders(Created(a, id).holds) == Holders(a.holds) + {id};
  }

  /** Changing which objects exist, but not what they hold. */
  lemma SameHoldersAccounted(a: Owners, holds: map<Id, Option<nat>>)
    requires Accounted(a)
    requires forall i :: i in holds && holds[i].Some? ==> i in a.holds && holds[i] == a.holds[i]
    requires forall i :: i in a.holds && a.holds[i].Some? ==> i in holds && holds[i] == a.holds[i]
    ensures Accounted(a.(holds := holds))
  {
    var b := a.(holds := holds);
    assert Holders(holds) == Holders(a.holds);
    forall s: nat | s < b.issued
      ensures s in b.closed || IsHeld(b, s)
    {
      if s !in a.closed {
        var i :| i in a.holds && a.holds[i] == Some(s);
        assert b.holds[i] == Some(s);
      }
    }
  }

  lemma OwnerStepAccounted(lib: Lib, a: Owners, op: Op)
    requires Accounted(a) && Allowed(lib, a.holds.Keys, op)
    ensures Accounted(OwnerStep(lib, a, op))
  {
    hide Accounted;
    match op
    case Create(id) => CreateAccounted(a, id);
    case Default(id) => SameHoldersAccounted(a, a.holds[id := None]);
    case MoveConstruct(id, source) => MoveAccounted(a, id, source);
    case MoveAssign(id, source) =>
      ReleaseAccounted(a, id);
      if id != source { MoveAccounted(Release(a, id), id, source); }
    case Reset(id) => ReleaseAccounted(a, id);
    case Destroy(id) =>
      var b := Release(a, id);
      ReleaseAccounted(a, id);
      SameHoldersAccounted(b, b.holds - {id});
  }

  lemma {:induction false} OwnersAccounted(lib: Lib, ops: seq<Op>)
    requires OwnerRun(lib, ops).Some?
    ensures Accounted(OwnerRun(lib, ops).value)
  {
    hide Accounted, OwnerStep, Allowed;
    if ops == [] {
      NoOwnersAccounted();
    } else {
      var n := |ops| - 1;
      OwnersAccounted(lib, ops[..n]);
      OwnerStepAccounted(lib, OwnerRun(lib, ops[..n]).value, ops[n]);
    }
  }

  lemma NoOwnersAccounted()
    ensures Accounted(NO_OWNERS)
  {
  }

  // ----- The ownership theorems -----

  /** The descriptors live objects hold. */
  function Owned(w: World): set<int> {
    set i | i in w.fds && w.fds[i] != -1 :: w.fds[i]
  }

  function Holding(w: World): set<Id> {
    set i | i in w.fds && w.fds[i] != -1
  }

  /** After any sequence of operations: the descriptors of live objects are pairwise distinct and are
      exactly the open ones; no close has hit a number that was not open; and sockets created are
      sockets closed, each once, plus sockets held. With no object left, none is open. */
  lemma ExclusiveOwnership(lib: Lib, ops: seq<Op>, fds: seq<int>)
    requires |fds| == |ops| && Run(lib, ops, fds).Some?
    ensures var w := Run(lib, ops, fds).value;
            && Distinct(w.fds)
            && Owned(w) == w.kernel.table.Keys
            && w.kernel.stray == 0
            && w.kernel.issued == |w.kernel.closed| + |Holding(w)|
            && (forall i, j :: 0 <= i < j < |w.kernel.closed| ==> w.kernel.closed[i] != w.kernel.closed[j])
            && (w.fds == map[] ==>
                  w.kernel.table == map[] && |w.kernel.closed| == w.kernel.issued &&
                  forall s: nat :: s < w.kernel.issued ==> s in w.kernel.closed)
  {
    RunRefines(lib, ops, fds);
    OwnersAccounted(lib, ops);
    var w, a := Run(lib, ops, fds).value, OwnerRun(lib, ops).value;
    OwnedAreOpen(w, a);
    assert Holding(w) == Holders(a.holds);
    hide Run, OwnerRun, Realises, Distinct, Exclusive;
    if w.fds == map[] {
      assert Owned(w) == {};
      forall s: nat | s < a.issued ensures s in a.closed {
        assert !IsHeld(a, s);
      }
    }
  }

  lemma OwnedAreOpen(w: World, a: Owners)
    requires Realises(w, a)
    ensures Owned(w) == w.kernel.table.Keys
  {
    hide Distinct;
    forall fd | fd in w.kernel.table ensures fd in Owned(w) {
      var i :| i in w.fds && w.fds[i] == fd;
    }
  }

  // ----- What the operations do to the fields and to the kernel -----

  /** Nothing is closed, and the table stays. */
  predicate KernelStays(w: World, w': World) {
    w'.kernel == w.kernel
  }

  /** The descriptor object `id` held, if any, is closed: its number is free, its socket is on the list of
      closed ones, and nothing else happened in the kernel. */
  predicate KernelCloses(w: World, w': World, id: Id)
    requires id in w.fds
  {
    if w.fds[id] == -1 then w'.kernel == w.kernel
    else
      && w.fds[id] in w.kernel.table
      && w'.kernel.table == (map n | n in w.kernel.table && n != w.fds[id] :: w.kernel.table[n])
      && w'.kernel.closed == w.kernel.closed + [w.kernel.table[w.fds[id]]]
      && w'.kernel.issued == w.kernel.issued && w'.kernel.stray == w.kernel.stray
  }

  /** Each operation, told from the `_fd` fields and the kernel before and after it, for both classes, on
      objects that hold open descriptors or nothing. */
  lemma StepDoes(lib: Lib, w: World, op: Op, fd: int)
    requires Possible(lib, w, op, fd)
    requires forall i :: i in w.fds && w.fds[i] != -1 ==> w.fds[i] >= 0 && w.fds[i] in w.kernel.table
    ensures var w' := Step(lib, w, op, fd);
            match op
            case Create(id) =>
              && w'.fds == w.fds[id := fd]
              && w'.kernel == Kernel(w.kernel.table[fd := w.kernel.issued], w.kernel.issued + 1, w.kernel.closed,
                                     w.kernel.stray)
            case Default(id) => w'.fds == w.fds[id := -1] && KernelStays(w, w')
            case MoveConstruct(id, source) =>
              w'.fds == w.fds[id := w.fds[source]][source := -1] && KernelStays(w, w')
            case MoveAssign(id, source) =>
              if id != source then
                w'.fds == w.fds[id := w.fds[source]][source := -1] && KernelCloses(w, w', id)
              else if lib == Udp then
                w'.fds == w.fds[id := -1] && KernelCloses(w, w', id)
              else
                w' == w
            case Reset(id) => w'.fds == w.fds[id := -1] && KernelCloses(w, w', id)
            case Destroy(id) =>
              && w'.fds == (map i | i in w.fds && i != id :: w.fds[i])
              && KernelCloses(w, w', id)
  {
    match op
    case Create(_) =>
    case Default(_) =>
    case MoveConstruct(_, _) =>
    case MoveAssign(id, _) => CloseDoes(w, id);
    case Reset(id) => CloseDoes(w, id);
    case Destroy(id) => CloseDoes(w, id);
  }

  lemma CloseDoes(w: World, id: Id)
    requires id in w.fds && (w.fds[id] != -1 ==> w.fds[id] >= 0 && w.fds[id] in w.kernel.table)
    ensures KernelCloses(w, UdpClose(w, id), id) && UdpClose(w, id).fds == w.fds
    ensures KernelCloses(w, LegacyReset(w, id), id) && LegacyReset(w, id).fds == w.fds[id := -1]
  {
    if w.fds[id] == -1 {
      assert w.fds[id := -1] == w.fds;
    } else {
      assert Close(w.kernel, w.fds[id]).table ==
             (map n | n in w.kernel.table && n != w.fds[id] :: w.kernel.table[n]);
    }
  }

  // ----- Where the two classes part -----

  /** The socket an object holds, looked up in the kernel. */
  function Serial(w: World, i: Id): Option<nat>
    requires i in w.fds
  {
    if w.fds[i] in w.kernel.table then Some(w.kernel.table[w.fds[i]]) else None
  }

  /** Two worlds, under whatever descriptor numbers, in which the same objects hold the same sockets
      and the same sockets have been closed in the same order. */
  predicate Agree(u: World, l: World) {
    && u.fds.Keys == l.fds.Keys
    && (forall i :: i in u.fds ==> Serial(u, i) == Serial(l, i))
    && u.kernel.issued == l.kernel.issued && u.kernel.closed == l.kernel.closed
  }

  lemma SerialIsHeld(w: World, a: Owners, i: Id)
    requires Realises(w, a) && i in w.fds
    ensures i in a.holds && Serial(w, i) == a.holds[i]
  {
    hide Distinct, Held;
  }

  /** Worlds agree exactly if they realise the same owner map. */
  lemma AgreeMeans(u: World, l: World, a: Owners, b: Owners)
    requires Realises(u, a) && Realises(l, b)
    ensures Agree(u, l) <==> a == b
  {
    SameObjects(u, a);
    SameObjects(l, b);
    assert forall i :: i in u.fds ==> Serial(u, i) == a.holds[i] by {
      forall i | i in u.fds ensures Serial(u, i) == a.holds[i] { SerialIsHeld(u, a, i); }
    }
    assert forall i :: i in l.fds ==> Serial(l, i) == b.holds[i] by {
      forall i | i in l.fds ensures Serial(l, i) == b.holds[i] { SerialIsHeld(l, b, i); }
    }
    hide Serial, Denotes, Distinct, NoneLost;
    if Agree(u, l) {
      assert a.holds == b.holds;
    }
  }

  /** An object that holds a descriptor is assigned to itself. */
  predicate SelfAssignsHeld(w: World, op: Op) {
    op.MoveAssign? && op.id == op.source && op.id in w.fds && w.fds[op.id] != -1
  }

  /** The owner map's two meanings of an operation differ exactly on the self-assignment of an object
      that holds a socket: udp_socket closes it, once, and is empty afterwards; SocketFD keeps it. */
  lemma MeaningsDiffer(a: Owners, op: Op)
    requires Allowed(Udp, a.holds.Keys, op)
    ensures OwnerStep(Udp, a, op) != OwnerStep(Legacy, a, op) <==>
            op.MoveAssign? && op.id == op.source && a.holds[op.id].Some?
    ensures op.MoveAssign? && op.id == op.source && a.holds[op.id].Some? ==>
              && OwnerStep(Legacy, a, op) == a
              && OwnerStep(Udp, a, op) == Owners(a.holds[op.id := None], a.issued, a.closed + [a.holds[op.id].value])
  {
  }

  /** What the classes' own code does on one operation, from worlds that agree, leaves worlds that agree
      exactly if the operation is not the self-assignment of an object that holds a descriptor. */
  lemma WhereClassesDiffer(u: World, l: World, a: Owners, op: Op, fd: int, other: int)
    requires Realises(u, a) && Realises(l, a)
    requires Possible(Udp, u, op, fd) && Possible(Legacy, l, op, other)
    ensures Agree(Step(Udp, u, op, fd), Step(Legacy, l, op, other)) <==> !SelfAssignsHeld(u, op)
  {
    SameObjects(u, a);
    HeldMeans(u, a, op);
    StepRefines(Udp, u, a, op, fd);
    StepRefines(Legacy, l, a, op, other);
    MeaningsDiffer(a, op);
    hide Step, OwnerStep, Allowed, Realises, Agree;
    AgreeMeans(Step(Udp, u, op, fd), Step(Legacy, l, op, other), OwnerStep(Udp, a, op), OwnerStep(Legacy, a, op));
  }

  lemma HeldMeans(w: World, a: Owners, op: Op)
    requires Realises(w, a)
    ensures SelfAssignsHeld(w, op) <==>
            op.MoveAssign? && op.id == op.source && op.id in a.holds && a.holds[op.id].Some?
  {
    hide Distinct, Held;
  }

  /** A run that is possible as a whole is possible up to every step. */
  lemma {:induction false} RunPrefix(lib: Lib, ops: seq<Op>, fds: seq<int>, n: nat)
    requires |fds| == |ops| && n <= |ops| && Run(lib, ops, fds).Some?
    ensures Run(lib, ops[..n], fds[..n]).Some?
  {
    hide Step, Possible;
    if n == |ops| {
      assert ops[..n] == ops && fds[..n] == fds;
    } else {
      var m := |ops| - 1;
      RunPrefix(lib, ops[..m], fds[..m], n);
      assert ops[..m][..n] == ops[..n] && fds[..m][..n] == fds[..n];
    }
  }

  /** Does step i of this run of udp_socket assign an object that holds a descriptor to itself? */
  predicate PartsAt(ops: seq<Op>, fds: seq<int>, i: nat)
    requires |fds| == |ops| && i < |ops|
  {
    var w := Run(Udp, ops[..i], fds[..i]);
    w.Some? && SelfAssignsHeld(w.value, ops[i])
  }

  predicate AgreeAfter(ops: seq<Op>, fds: seq<int>, others: seq<int>, n: nat)
    requires |fds| == |others| == |ops| && n <= |ops|
  {
    var u, l := Run(Udp, ops[..n], fds[..n]), Run(Legacy, ops[..n], others[..n]);
    u.Some? && l.Some? && Agree(u.value, l.value)
  }

  /** Runs that agree after n steps agree after the next exactly if it does not part them. */
  lemma NextAgrees(ops: seq<Op>, fds: seq<int>, others: seq<int>, n: nat)
    requires |fds| == |others| == |ops| && n < |ops|
    requires Run(Udp, ops, fds).Some? && Run(Legacy, ops, others).Some?
    requires AgreeAfter(ops, fds, others, n)
    ensures AgreeAfter(ops, fds, others, n + 1) <==> !PartsAt(ops, fds, n)
  {
    hide Step, Agree, SelfAssignsHeld, Possible, Realises;
    LastStep(Udp, ops, fds, n);
    LastStep(Legacy, ops, others, n);
    RunRefines(Udp, ops[..n], fds[..n]);
    RunRefines(Legacy, ops[..n], others[..n]);
    var u, l := Run(Udp, ops[..n], fds[..n]).value, Run(Legacy, ops[..n], others[..n]).value;
    var a := OwnerRun(Udp, ops[..n]).value;
    AgreeMeans(u, l, a, OwnerRun(Legacy, ops[..n]).value);
    WhereClassesDiffer(u, l, a, ops[n], fds[n], others[n]);
  }

  lemma LastStep(lib: Lib, ops: seq<Op>, fds: seq<int>, n: nat)
    requires |fds| == |ops| && n < |ops| && Run(lib, ops, fds).Some?
    ensures Run(lib, ops[..n], fds[..n]).Some? && Run(lib, ops[..n + 1], fds[..n + 1]).Some?
    ensures var w := Run(lib, ops[..n], fds[..n]).value;
            && Possible(lib, w, ops[n], fds[n])
            && Run(lib, ops[..n + 1], fds[..n + 1]).value == Step(lib, w, ops[n], fds[n])
  {
    hide Step, Possible;
    RunPrefix(lib, ops, fds, n);
    RunPrefix(lib, ops, fds, n + 1);
    assert ops[..n + 1][..n] == ops[..n] && fds[..n + 1][..n] == fds[..n];
  }

  /** Over whole runs: without a step that parts them, both classes give every object the same socket
      and close the same sockets in the same order, under whatever numbers the kernel picks for each. */
  lemma {:induction false} SameOwners(ops: seq<Op>, fds: seq<int>, others: seq<int>, n: nat)
    requires |fds| == |others| == |ops| && n <= |ops|
    requires Run(Udp, ops, fds).Some? && Run(Legacy, ops, others).Some?
    requires forall i :: 0 <= i < n ==> !PartsAt(ops, fds, i)
    ensures AgreeAfter(ops, fds, others, n)
  {
    hide PartsAt, Step;
    if n == 0 {
    } else {
      SameOwners(ops, fds, others, n - 1);
      NextAgrees(ops, fds, others, n - 1);
    }
  }

  /** The classes agree after every step of a run exactly if no step assigns an object that holds a
      descriptor to itself; at the first such step they part. */
  lemma SameOwnersExactly(ops: seq<Op>, fds: seq<int>, others: seq<int>)
    requires |fds| == |others| == |ops|
    requires Run(Udp, ops, fds).Some? && Run(Legacy, ops, others).Some?
    ensures (forall n :: 0 <= n <= |ops| ==> AgreeAfter(ops, fds, others, n)) <==>
            (forall i :: 0 <= i < |ops| ==> !PartsAt(ops, fds, i))
  {
    hide PartsAt, AgreeAfter;
    if forall n :: 0 <= n <= |ops| ==> AgreeAfter(ops, fds, others, n) {
      forall i | 0 <= i < |ops| ensures !PartsAt(ops, fds, i) {
        NextAgrees(ops, fds, others, i);
      }
    }
    if forall i :: 0 <= i < |ops| ==> !PartsAt(ops, fds, i) {
      forall n | 0 <= n <= |ops| ensures AgreeAfter(ops, fds, others, n) {
        SameOwners(ops, fds, others, n);
      }
    }
  }

  // ----- The composite operations of udp_socket -----

  /** udp_socket::open: a temporary around the new socket, moved into the result and destroyed. */
  function OpenOps(id: Id, temp: Id): seq<Op> {
    [Create(temp), MoveConstruct(id, temp), Destroy(temp)]
  }

  /** udp_socket::bind whose bind(2) fails: the local object dies with the function. */
  function FailedBindOps(temp: Id): seq<Op> {
    [Create(temp), Destroy(temp)]
  }

  lemma OwnerRunNext(lib: Lib, ops: seq<Op>, op: Op)
    requires OwnerRun(lib, ops).Some? && Allowed(lib, OwnerRun(lib, ops).value.holds.Keys, op)
    ensures OwnerRun(lib, ops + [op]) == Some(OwnerStep(lib, OwnerRun(lib, ops).value, op))
  {
    hide Allowed, OwnerStep;
    assert (ops + [op])[..|ops|] == ops;
  }

  lemma OpenMeans(a: Owners, id: Id, temp: Id)
    requires id !in a.holds && temp !in a.holds && id != temp
    ensures Allowed(Udp, a.holds.Keys, Create(temp))
    ensures var a1 := OwnerStep(Udp, a, Create(temp));
            && Allowed(Udp, a1.holds.Keys, MoveConstruct(id, temp))
            && var a2 := OwnerStep(Udp, a1, MoveConstruct(id, temp));
               && Allowed(Udp, a2.holds.Keys, Destroy(temp))
               && OwnerStep(Udp, a2, Destroy(temp)) ==
                  Owners(a.holds[id := Some(a.issued)], a.issued + 1, a.closed)
  {
    var a2 := OwnerStep(Udp, OwnerStep(Udp, a, Create(temp)), MoveConstruct(id, temp));
    assert OwnerStep(Udp, a2, Destroy(temp)).holds == a.holds[id := Some(a.issued)];
  }

  /** open, and bind when it succeeds, at any point of a program: they leave a new object holding a new
      socket and nothing else changed; the temporary is gone and its destructor has closed nothing. */
  lemma OpenOwns(ops: seq<Op>, id: Id, temp: Id)
    requires OwnerRun(Udp, ops).Some?
    requires var a := OwnerRun(Udp, ops).value; id !in a.holds && temp !in a.holds && id != temp
    ensures var a := OwnerRun(Udp, ops).value;
            OwnerRun(Udp, ops + OpenOps(id, temp)) ==
            Some(Owners(a.holds[id := Some(a.issued)], a.issued + 1, a.closed))
  {
    hide Allowed, OwnerStep, OwnerRun;
    var create, move, destroy := Create(temp), MoveConstruct(id, temp), Destroy(temp);
    OpenMeans(OwnerRun(Udp, ops).value, id, temp);
    OwnerRunNext(Udp, ops, create);
    OwnerRunNext(Udp, ops + [create], move);
    OwnerRunNext(Udp, ops + [create] + [move], destroy);
    assert ops + [create] + [move] + [destroy] == ops + OpenOps(id, temp);
  }

  lemma FailedBindMeans(a: Owners, temp: Id)
    requires temp !in a.holds
    ensures Allowed(Udp, a.holds.Keys, Create(temp))
    ensures var a1 := OwnerStep(Udp, a, Create(temp));
            && Allowed(Udp, a1.holds.Keys, Destroy(temp))
            && OwnerStep(Udp, a1, Destroy(temp)) == Owners(a.holds, a.issued + 1, a.closed + [a.issued])
  {
    var a1 := OwnerStep(Udp, a, Create(temp));
    assert OwnerStep(Udp, a1, Destroy(temp)).holds == a.holds;
  }

  /** A bind that fails closes the socket it created and leaves no object behind. */
  lemma FailedBindCloses(ops: seq<Op>, temp: Id)
    requires OwnerRun(Udp, ops).Some? && temp !in OwnerRun(Udp, ops).value.holds
    ensures var a := OwnerRun(Udp, ops).value;
            OwnerRun(Udp, ops + FailedBindOps(temp)) ==
            Some(Owners(a.holds, a.issued + 1, a.closed + [a.issued]))
  {
    hide Allowed, OwnerStep, OwnerRun;
    var create, destroy := Create(temp), Destroy(temp);
    FailedBindMeans(OwnerRun(Udp, ops).value, temp);
    OwnerRunNext(Udp, ops, create);
    OwnerRunNext(Udp, ops + [create], destroy);
    assert ops + [create] + [destroy] == ops + FailedBindOps(temp);
  }
}
