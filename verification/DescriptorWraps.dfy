// SocketFD around descriptors it did not create: what it demands of them, over every run.

module DescriptorWraps {
  import opened Lists
  import opened Descriptors
  import opened DescriptorRuns

  /** Every held number is open, and held once: what SocketFD needs to close nothing of others. */
  predicate HoldsOpen(w: World) {
    Distinct(w.fds) && forall i :: i in w.fds && w.fds[i] != -1 ==> w.fds[i] in w.kernel.table
  }

  /** SocketFD(fd), for any number at all. */
  function Wrap(w: World, id: Id, fd: int): World {
    w.(fds := w.fds[id := fd])
  }

  /** Wrapping a descriptor keeps ownership exclusive exactly if it is the empty mark, or is open and
      not owned yet. */
  lemma WrapExactly(w: World, id: Id, fd: int)
    requires HoldsOpen(w) && id !in w.fds
    ensures HoldsOpen(Wrap(w, id, fd)) <==> fd == -1 || (fd in w.kernel.table && fd !in Owned(w))
  {
    var w' := Wrap(w, id, fd);
    OwnedMeans(w, fd);
    assert w'.fds[id] == fd;
    assert forall i :: i in w.fds ==> w'.fds[i] == w.fds[i];
  }

  lemma OwnedMeans(w: World, fd: int)
    ensures fd in Owned(w) <==> exists i :: i in w.fds && w.fds[i] == fd != -1
  {
  }

  /** Outside that condition the destructor's close misses, or hits another object's socket. */
  lemma WrapForeign(w: World, id: Id, fd: int)
    requires HoldsOpen(w) && id !in w.fds && fd != -1
    ensures var w' := Step(Legacy, Wrap(w, id, fd), Destroy(id), 0);
            && (fd !in w.kernel.table ==> w'.kernel.stray == w.kernel.stray + 1)
            && (fd in w.kernel.table && fd in Owned(w) ==> !HoldsOpen(w'))
  {
    var w' := Step(Legacy, Wrap(w, id, fd), Destroy(id), 0);
    if fd in w.kernel.table && fd in Owned(w) {
      var i :| i in w.fds && w.fds[i] == fd;
      assert i in w'.fds && w'.fds[i] == fd;
    }
  }

  // ----- Programs that open sockets and wrap them later -----

  /** An operation of SocketFD, opening a socket that no object holds, or wrapping any number. */
  datatype Act = Plain(op: Op) | OpenLoose | WrapAny(id: Id, fd: int)

  /** `choice` is the number the kernel picks where a socket is created. */
  predicate Doable(w: World, act: Act, choice: int) {
    match act
    case Plain(op) => Possible(Legacy, w, op, choice)
    case OpenLoose => choice >= 0 && choice !in w.kernel.table
    case WrapAny(id, _) => id !in w.fds
  }

  function Do(w: World, act: Act, choice: int): World
    requires Doable(w, act, choice)
  {
    match act
    case Plain(op) => Step(Legacy, w, op, choice)
    case OpenLoose => w.(kernel := Socket(w.kernel, choice))
    case WrapAny(id, fd) => Wrap(w, id, fd)
  }

  /** A number given to SocketFD is the empty mark, or is open and not owned yet. */
  predicate Proper(w: World, act: Act) {
    act.WrapAny? ==> act.fd == -1 || (act.fd in w.kernel.table && act.fd !in Owned(w))
  }

  lemma ResetHoldsOpen(w: World, id: Id)
    requires HoldsOpen(w) && id in w.fds
    ensures HoldsOpen(LegacyReset(w, id)) && LegacyReset(w, id).kernel.stray == w.kernel.stray
    ensures LegacyReset(w, id).fds == w.fds[id := -1]
  {
    if w.fds[id] == -1 {
      assert w.fds[id := -1] == w.fds;
    }
  }

  lemma TransferHoldsOpen(w: World, id: Id, source: Id)
    requires HoldsOpen(w) && source in w.fds && id != source
    ensures HoldsOpen(Transfer(w, id, source)) && Transfer(w, id, source).kernel == w.kernel
  {
    TransferKeepsDistinct(w, id, source);
  }

  /** The operations of SocketFD keep what they find, and no close misses. */
  lemma StepHoldsOpen(w: World, op: Op, choice: int)
    requires HoldsOpen(w) && Possible(Legacy, w, op, choice)
    ensures HoldsOpen(Step(Legacy, w, op, choice)) && Step(Legacy, w, op, choice).kernel.stray == w.kernel.stray
  {
    hide LegacyReset, Transfer;
    match op
    case Create(id) =>
    case Default(id) =>
    case MoveConstruct(id, source) => TransferHoldsOpen(w, id, source);
    case MoveAssign(id, source) =>
      ResetHoldsOpen(w, id);
      if id != source { TransferHoldsOpen(LegacyReset(w, id), id, source); }
    case Reset(id) => ResetHoldsOpen(w, id);
    case Destroy(id) => ResetHoldsOpen(w, id);
  }

  /** From a world in which objects hold open numbers, once each, an act keeps that exactly if it wraps
      properly; and no act closes a number that is not open. */
  lemma DoHoldsOpen(w: World, act: Act, choice: int)
    requires HoldsOpen(w) && Doable(w, act, choice)
    ensures HoldsOpen(Do(w, act, choice)) <==> Proper(w, act)
    ensures Do(w, act, choice).kernel.stray == w.kernel.stray
  {
    match act
    case Plain(op) => StepHoldsOpen(w, op, choice);
    case OpenLoose =>
    case WrapAny(id, fd) => WrapExactly(w, id, fd);
  }

  function RunActs(acts: seq<Act>, choices: seq<int>): Option<World>
    requires |choices| == |acts|
  {
    if acts == [] then Some(EMPTY_WORLD)
    else
      var n := |acts| - 1;
      match RunActs(acts[..n], choices[..n])
      case None => None
      case Some(w) => if Doable(w, acts[n], choices[n]) then Some(Do(w, acts[n], choices[n])) else None
  }

  lemma {:induction false} ActsPrefix(acts: seq<Act>, choices: seq<int>, n: nat)
    requires |choices| == |acts| && n <= |acts| && RunActs(acts, choices).Some?
    ensures RunActs(acts[..n], choices[..n]).Some?
  {
    hide Do, Doable;
    if n == |acts| {
      assert acts[..n] == acts && choices[..n] == choices;
    } else {
      var m := |acts| - 1;
      ActsPrefix(acts[..m], choices[..m], n);
      assert acts[..m][..n] == acts[..n] && choices[..m][..n] == choices[..n];
    }
  }

  /** Act n of a run, and the world it is done in. */
  lemma NextAct(acts: seq<Act>, choices: seq<int>, n: nat)
    requires |choices| == |acts| && n < |acts| && RunActs(acts, choices).Some?
    ensures RunActs(acts[..n], choices[..n]).Some? && RunActs(acts[..n + 1], choices[..n + 1]).Some?
    ensures var w := RunActs(acts[..n], choices[..n]).value;
            && Doable(w, acts[n], choices[n])
            && RunActs(acts[..n + 1], choices[..n + 1]).value == Do(w, acts[n], choices[n])
  {
    hide Do, Doable;
    ActsPrefix(acts, choices, n);
    ActsPrefix(acts, choices, n + 1);
    assert acts[..n + 1][..n] == acts[..n] && choices[..n + 1][..n] == choices[..n];
  }

  predicate ProperAt(acts: seq<Act>, choices: seq<int>, i: nat)
    requires |choices| == |acts| && i < |acts|
  {
    var w := RunActs(acts[..i], choices[..i]);
    w.Some? && Proper(w.value, acts[i])
  }

  /** Objects hold open numbers, once each, and no close has missed, after n acts. */
  predicate SoundAfter(acts: seq<Act>, choices: seq<int>, n: nat)
    requires |choices| == |acts| && n <= |acts|
  {
    var w := RunActs(acts[..n], choices[..n]);
    w.Some? && HoldsOpen(w.value) && w.value.kernel.stray == 0
  }

  lemma NextSound(acts: seq<Act>, choices: seq<int>, n: nat)
    requires |choices| == |acts| && n < |acts| && RunActs(acts, choices).Some?
    requires SoundAfter(acts, choices, n)
    ensures SoundAfter(acts, choices, n + 1) <==> ProperAt(acts, choices, n)
  {
    hide Do, Doable, Proper, HoldsOpen, RunActs;
    NextAct(acts, choices, n);
    DoHoldsOpen(RunActs(acts[..n], choices[..n]).value, acts[n], choices[n]);
  }

  lemma NothingSound(acts: seq<Act>, choices: seq<int>)
    requires |choices| == |acts|
    ensures SoundAfter(acts, choices, 0)
  {
  }

  lemma {:induction false} SoundSoFar(acts: seq<Act>, choices: seq<int>, n: nat)
    requires |choices| == |acts| && n <= |acts| && RunActs(acts, choices).Some?
    requires forall i :: 0 <= i < n ==> ProperAt(acts, choices, i)
    ensures SoundAfter(acts, choices, n)
  {
    hide ProperAt, SoundAfter;
    if n == 0 {
      NothingSound(acts, choices);
    } else {
      SoundSoFar(acts, choices, n - 1);
      NextSound(acts, choices, n - 1);
    }
  }

  /** A program may open sockets, and give numbers to SocketFD, in any order. Its objects hold open
      descriptors, each once, at every point of the run, and none of its closes misses, exactly if every
      number it wraps is -1, or open and unowned at the time. */
  lemma WrapsExactly(acts: seq<Act>, choices: seq<int>)
    requires |choices| == |acts| && RunActs(acts, choices).Some?
    ensures (forall n :: 0 <= n <= |acts| ==> SoundAfter(acts, choices, n)) <==>
            (forall i :: 0 <= i < |acts| ==> ProperAt(acts, choices, i))
  {
    hide ProperAt, SoundAfter, RunActs;
    if forall n :: 0 <= n <= |acts| ==> SoundAfter(acts, choices, n) {
      forall i | 0 <= i < |acts| ensures ProperAt(acts, choices, i) {
        NextSound(acts, choices, i);
      }
    }
    if forall i :: 0 <= i < |acts| ==> ProperAt(acts, choices, i) {
      forall n | 0 <= n <= |acts| ensures SoundAfter(acts, choices, n) {
        SoundSoFar(acts, choices, n);
      }
    }
  }

  /** Nothing stops a program: after any run it can wrap any number in a new object, open or not, owned or
      not, and open a socket under any number that is free; the sockets it opens it leaves without owner. */
  lemma AnyNumberNext(acts: seq<Act>, choices: seq<int>, id: Id, fd: int)
    requires |choices| == |acts| && RunActs(acts, choices).Some?
    ensures var w := RunActs(acts, choices).value;
            && (id !in w.fds ==>
                  var after := RunActs(acts + [WrapAny(id, fd)], choices + [0]);
                  after.Some? && after.value.fds == w.fds[id := fd] && after.value.kernel == w.kernel)
            && (fd >= 0 && fd !in w.kernel.table ==>
                  var after := RunActs(acts + [OpenLoose], choices + [fd]);
                  after.Some? && after.value.fds == w.fds && fd in after.value.kernel.table)
  {
    assert (acts + [WrapAny(id, fd)])[..|acts|] == acts && (acts + [OpenLoose])[..|acts|] == acts;
    assert (choices + [0])[..|acts|] == choices && (choices + [fd])[..|acts|] == choices;
  }
}
