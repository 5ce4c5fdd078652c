// Who owns which socket: descriptors that move between objects, over a kernel that reuses numbers.

module Descriptors {
  import opened Lists

  // ----- The kernel's descriptor table -----

  /** Each open descriptor number denotes a socket, known by the serial number of its creation.
      `closed` lists the sockets closed so far; `stray` counts calls of close on numbers not open. */
  datatype Kernel = Kernel(table: map<int, nat>, issued: nat, closed: seq<nat>, stray: nat)

  const FRESH_KERNEL := Kernel(map[], 0, [], 0)

  /** socket(2), returning a number that is not open: possibly one that was open before. */
  function Socket(k: Kernel, fd: int): Kernel
    requires fd >= 0 && fd !in k.table
  {
    k.(table := k.table[fd := k.issued], issued := k.issued + 1)
  }

  /** close(2). */
  function Close(k: Kernel, fd: int): Kernel {
    if fd in k.table then k.(table := k.table - {fd}, closed := k.closed + [k.table[fd]])
    else k.(stray := k.stray + 1)
  }

  // ----- The operations of the two classes, on the live objects' `_fd` fields -----

  /** udp_socket of the library, and SocketFD of the archived one. */
  datatype Lib = Udp | Legacy

  type Id = nat

  datatype World = World(fds: map<Id, int>, kernel: Kernel)

  const EMPTY_WORLD := World(map[], FRESH_KERNEL)

  /** Creating an object around a new socket, creating one without, the two moves, giving the
      descriptor up, and the end of an object's life. */
  datatype Op =
    | Create(id: Id)
    | Default(id: Id)
    | MoveConstruct(id: Id, source: Id)
    | MoveAssign(id: Id, source: Id)
    | Reset(id: Id)
    | Destroy(id: Id)

  /** Which operations a program can write: on live objects, into new ones, and only what the class
      offers: udp_socket has neither an empty state of its own nor reset. */
  predicate Allowed(lib: Lib, live: set<Id>, op: Op) {
    match op
    case Create(id) => id !in live
    case Default(id) => lib == Legacy && id !in live
    case MoveConstruct(id, source) => id !in live && source in live
    case MoveAssign(id, source) => id in live && source in live
    case Reset(id) => lib == Legacy && id in live
    case Destroy(id) => id in live
  }

  /** `fd` is the number the kernel picks if the operation creates a socket. */
  predicate Possible(lib: Lib, w: World, op: Op, fd: int) {
    Allowed(lib, w.fds.Keys, op) && (op.Create? ==> fd >= 0 && fd !in w.kernel.table)
  }

  /** The closing that udp_socket does in assignment and destructor. */
  function UdpClose(w: World, id: Id): World
    requires id in w.fds
  {
    if w.fds[id] > -1 then w.(kernel := Close(w.kernel, w.fds[id])) else w
  }

  /** SocketFD::reset. */
  function LegacyReset(w: World, id: Id): World
    requires id in w.fds
  {
    if w.fds[id] != -1 then World(w.fds[id := -1], Close(w.kernel, w.fds[id])) else w
  }

  /** The two assignments of a move: take the other's descriptor, then mark the other as empty. */
  function Transfer(w: World, id: Id, source: Id): World
    requires source in w.fds
  {
    var taken := w.fds[id := w.fds[source]];
    w.(fds := taken[source := -1])
  }

  function Step(lib: Lib, w: World, op: Op, fd: int): World
    requires Possible(lib, w, op, fd)
  {
    match op
    case Create(id) => World(w.fds[id := fd], Socket(w.kernel, fd))
    case Default(id) => w.(fds := w.fds[id := -1])
    case MoveConstruct(id, source) => Transfer(w, id, source)
    case MoveAssign(id, source) =>
      if lib == Udp then Transfer(UdpClose(w, id), id, source)
      else if id != source then Transfer(LegacyReset(w, id), id, source)
      else w
    case Reset(id) => LegacyReset(w, id)
    case Destroy(id) =>
      var w' := if lib == Udp then UdpClose(w, id) else LegacyReset(w, id);
      w'.(fds := w'.fds - {id})
  }

  // ----- The abstract owner map: no descriptor numbers -----

  /** Which live object holds which socket, how many sockets there have been, and which were closed,
      in order. */
  datatype Owners = Owners(holds: map<Id, Option<nat>>, issued: nat, closed: seq<nat>)

  const NO_OWNERS := Owners(map[], 0, [])

  function Release(a: Owners, id: Id): Owners
    requires id in a.holds
  {
    if a.holds[id].Some? then Owners(a.holds[id := None], a.issued, a.closed + [a.holds[id].value]) else a
  }

  /** What each operation means for ownership. Assigning an object to itself is where the classes
      part: udp_socket closes what it holds, SocketFD keeps it. */
  function OwnerStep(lib: Lib, a: Owners, op: Op): Owners
    requires Allowed(lib, a.holds.Keys, op)
  {
    match op
    case Create(id) => Owners(a.holds[id := Some(a.issued)], a.issued + 1, a.closed)
    case Default(id) => a.(holds := a.holds[id := None])
    case MoveConstruct(id, source) => a.(holds := a.holds[id := a.holds[source]][source := None])
    case MoveAssign(id, source) =>
      if id == source then (if lib == Udp then Release(a, id) else a)
      else var b := Release(a, id); b.(holds := b.holds[id := b.holds[source]][source := None])
    case Reset(id) => Release(a, id)
    case Destroy(id) => var b := Release(a, id); b.(holds := b.holds - {id})
  }

  // ----- Refinement -----

  /** Two live objects never hold the same descriptor number. */
  predicate Distinct(fds: map<Id, int>) {
    forall i, j :: i in fds && j in fds && i != j && fds[i] != -1 ==> fds[i] != fds[j]
  }

  ghost predicate Held(fds: map<Id, int>, fd: int) {
    exists i :: i in fds && fds[i] == fd
  }

  /** Every open number is held by a live object. */
  ghost predicate NoneLost(w: World) {
    forall fd :: fd in w.kernel.table ==> fd >= 0 && Held(w.fds, fd)
  }

  /** An object holds a socket exactly when its `_fd` is an open number denoting this very socket. */
  predicate Denotes(w: World, a: Owners) {
    && w.fds.Keys == a.holds.Keys
    && forall i :: i in w.fds ==>
         if a.holds[i] == None then w.fds[i] == -1
         else w.fds[i] >= 0 && w.fds[i] in w.kernel.table && w.kernel.table[w.fds[i]] == a.holds[i].value
  }

  /** The world realises the owner map: descriptors denote what the map says, no number is held
      twice or lost, sockets were created and closed as the map says, and no close ever missed. */
  ghost predicate Realises(w: World, a: Owners) {
    && Denotes(w, a)
    && Distinct(w.fds)
    && NoneLost(w)
    && w.kernel.issued == a.issued && w.kernel.closed == a.closed && w.kernel.stray == 0
  }

  function Forget(w: World, id: Id): World {
    w.(fds := w.fds[id := -1])
  }

  lemma CloseLosesNone(w: World, id: Id)
    requires NoneLost(w) && id in w.fds
    ensures NoneLost(Forget(UdpClose(w, id), id))
  {
    var w' := Forget(UdpClose(w, id), id);
    forall fd | fd in w'.kernel.table
      ensures fd >= 0 && Held(w'.fds, fd)
    {
      var i :| i in w.fds && w.fds[i] == fd;
      assert w'.fds[i] == fd;
    }
  }

  lemma CloseDenotes(w: World, a: Owners, id: Id)
    requires Denotes(w, a) && Distinct(w.fds) && id in w.fds
    ensures Denotes(Forget(UdpClose(w, id), id), Release(a, id))
    ensures Distinct(Forget(UdpClose(w, id), id).fds)
  {
    var w', a' := Forget(UdpClose(w, id), id), Release(a, id);
    forall i | i in w'.fds
      ensures if a'.holds[i] == None then w'.fds[i] == -1
              else w'.fds[i] >= 0 && w'.fds[i] in w'.kernel.table && w'.kernel.table[w'.fds[i]] == a'.holds[i].value
    {
      if i != id { assert w'.fds[i] == w.fds[i] && a'.holds[i] == a.holds[i]; }
    }
  }

  /** Giving up what an object holds, as udp_socket does before it overwrites or forgets `_fd`. */
  lemma UdpCloseReleases(w: World, a: Owners, id: Id)
    requires Realises(w, a) && id in w.fds
    ensures Realises(Forget(UdpClose(w, id), id), Release(a, id))
  {
    CloseLosesNone(w, id);
    CloseDenotes(w, a, id);
    hide NoneLost, Distinct, Held;
  }

  /** reset is the same, and the two classes test for an empty object in ways that agree. */
  lemma LegacyResetReleases(w: World, a: Owners, id: Id)
    requires Realises(w, a) && id in w.fds
    ensures LegacyReset(w, id) == Forget(UdpClose(w, id), id)
    ensures Realises(LegacyReset(w, id), Release(a, id))
  {
    UdpCloseReleases(w, a, id);
    if w.fds[id] == -1 {
      assert w.fds[id := -1] == w.fds;
    }
  }

  lemma TransferLosesNone(w: World, id: Id, source: Id)
    requires NoneLost(w) && source in w.fds && id != source && (id in w.fds ==> w.fds[id] == -1)
    ensures NoneLost(Transfer(w, id, source))
  {
    var w' := Transfer(w, id, source);
    forall fd | fd in w'.kernel.table
      ensures fd >= 0 && Held(w'.fds, fd)
    {
      var i :| i in w.fds && w.fds[i] == fd;
      assert w'.fds[if i == source then id else i] == fd;
    }
  }

  lemma TransferKeepsDistinct(w: World, id: Id, source: Id)
    requires Distinct(w.fds) && source in w.fds && id != source
    ensures Distinct(Transfer(w, id, source).fds)
  {
  }

  lemma TransferDenotes(w: World, a: Owners, id: Id, source: Id)
    requires Denotes(w, a) && source in w.fds && id != source
    ensures Denotes(Transfer(w, id, source), a.(holds := a.holds[id := a.holds[source]][source := None]))
  {
  }

  lemma SameObjects(w: World, a: Owners)
    requires Realises(w, a)
    ensures w.fds.Keys == a.holds.Keys
  {
  }

  /** Moving a held descriptor into an object that is new or holds nothing. */
  lemma TransferMoves(w: World, a: Owners, id: Id, source: Id)
    requires Realises(w, a) && source in w.fds && id != source && (id in w.fds ==> w.fds[id] == -1)
    ensures Realises(Transfer(w, id, source), a.(holds := a.holds[id := a.holds[source]][source := None]))
  {
    TransferLosesNone(w, id, source);
    TransferKeepsDistinct(w, id, source);
    TransferDenotes(w, a, id, source);
    hide NoneLost, Distinct, Denotes;
  }

  lemma CreateLosesNone(w: World, id: Id, fd: int)
    requires NoneLost(w) && id !in w.fds && fd >= 0 && fd !in w.kernel.table
    ensures NoneLost(World(w.fds[id := fd], Socket(w.kernel, fd)))
  {
    var w' := World(w.fds[id := fd], Socket(w.kernel, fd));
    assert w'.fds[id] == fd;
    forall n | n in w'.kernel.table
      ensures n >= 0 && Held(w'.fds, n)
    {
      if n != fd {
        var i :| i in w.fds && w.fds[i] == n;
        assert w'.fds[i] == n;
      }
    }
  }

  lemma CreateOwns(w: World, a: Owners, id: Id, fd: int)
    requires Realises(w, a) && id !in w.fds && fd >= 0 && fd !in w.kernel.table
    ensures Realises(World(w.fds[id := fd], Socket(w.kernel, fd)),
                     Owners(a.holds[id := Some(a.issued)], a.issued + 1, a.closed))
  {
    CreateLosesNone(w, id, fd);
    hide NoneLost, Held;
  }

  /** Objects that hold nothing may come and go. */
  lemma EmptyLosesNone(w: World, id: Id)
    requires NoneLost(w)
    ensures id !in w.fds ==> NoneLost(Forget(w, id))
    ensures id in w.fds && w.fds[id] == -1 ==> NoneLost(w.(fds := w.fds - {id}))
  {
    var come, go := Forget(w, id).fds, w.fds - {id};
    forall fd | fd in w.kernel.table
      ensures id !in w.fds ==> Held(come, fd)
      ensures id in w.fds && w.fds[id] == -1 ==> Held(go, fd)
    {
      var i :| i in w.fds && w.fds[i] == fd;
      assert i != id ==> come[i] == fd && go[i] == fd;
    }
  }

  lemma EmptyDenotes(w: World, a: Owners, id: Id)
    requires Denotes(w, a) && id !in w.fds
    ensures Denotes(Forget(w, id), a.(holds := a.holds[id := None]))
  {
  }

  lemma EmptyIsDistinct(w: World, id: Id)
    requires Distinct(w.fds) && id !in w.fds
    ensures Distinct(Forget(w, id).fds)
  {
  }

  lemma EmptyComes(w: World, a: Owners, id: Id)
    requires Realises(w, a) && id !in w.fds
    ensures Realises(Forget(w, id), a.(holds := a.holds[id := None]))
  {
    EmptyLosesNone(w, id);
    EmptyDenotes(w, a, id);
    EmptyIsDistinct(w, id);
    hide NoneLost, Denotes, Distinct;
  }

  lemma EmptyGoes(w: World, a: Owners, id: Id)
    requires Realises(w, a) && id in w.fds && w.fds[id] == -1
    ensures Realises(w.(fds := w.fds - {id}), a.(holds := a.holds - {id}))
  {
    EmptyLosesNone(w, id);
    hide NoneLost, Held;
  }

  /** Every operation of either class refines its abstract meaning. */
  lemma StepRefines(lib: Lib, w: World, a: Owners, op: Op, fd: int)
    requires Realises(w, a) && Possible(lib, w, op, fd)
    ensures Realises(Step(lib, w, op, fd), OwnerStep(lib, a, op))
  {
    hide NoneLost, Distinct, Held, Socket, Close;
    match op
    case Create(id) => CreateOwns(w, a, id, fd);
    case Default(id) => EmptyComes(w, a, id);
    case MoveConstruct(id, source) => TransferMoves(w, a, id, source);
    case MoveAssign(id, source) => AssignRefines(lib, w, a, id, source);
    case Reset(id) => LegacyResetReleases(w, a, id);
    case Destroy(id) => DestroyRefines(lib, w, a, id);
  }

  lemma AssignRefines(lib: Lib, w: World, a: Owners, id: Id, source: Id)
    requires Realises(w, a) && id in w.fds && source in w.fds
    ensures Realises(Step(lib, w, MoveAssign(id, source), 0), OwnerStep(lib, a, MoveAssign(id, source)))
  {
    hide Realises;
    SameObjects(w, a);
    var w' := Forget(UdpClose(w, id), id);
    UdpCloseReleases(w, a, id);
    LegacyResetReleases(w, a, id);
    if id != source {
      TransferMoves(w', Release(a, id), id, source);
      assert w'.fds[id := w'.fds[source]] == w.fds[id := w.fds[source]];
    } else {
      assert Transfer(UdpClose(w, id), id, id) == w';
    }
  }

  lemma DestroyRefines(lib: Lib, w: World, a: Owners, id: Id)
    requires Realises(w, a) && id in w.fds
    ensures Realises(Step(lib, w, Destroy(id), 0), OwnerStep(lib, a, Destroy(id)))
  {
    hide Realises;
    SameObjects(w, a);
    var w' := Forget(UdpClose(w, id), id);
    UdpCloseReleases(w, a, id);
    LegacyResetReleases(w, a, id);
    EmptyGoes(w', Release(a, id), id);
    assert UdpClose(w, id).fds - {id} == w'.fds - {id};
  }
}
