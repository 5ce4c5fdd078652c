// The classes themselves, with their `_fd` fields updated in place, held to the steps of
// the descriptor model (lib/dirtynet/detail/posix/udp_socket.hh and archive/legacy-dirtynet/core/socketfd.hh).

module Sockets {
  import opened Lists
  import opened Descriptors
  import opened DescriptorRuns

  /** The kernel behind socket(2) and close(2). */
  class KernelTable {
    var state: Kernel

    constructor ()
      ensures state == FRESH_KERNEL
    {
      state := FRESH_KERNEL;
    }

    /** `outcome` is what the kernel answers: any number not open, or a negative one on failure. */
    method Socket(outcome: int) returns (fd: int)
      requires outcome < 0 || outcome !in state.table
      modifies this
      ensures fd == outcome
      ensures state == if outcome < 0 then old(state) else Descriptors.Socket(old(state), outcome)
    {
      fd := outcome;
      if outcome >= 0 {
        state := Descriptors.Socket(state, outcome);
      }
    }

    method Close(fd: int)
      modifies this
      ensures state == Descriptors.Close(old(state), fd)
    {
      state := Descriptors.Close(state, fd);
    }
  }

  class UdpSocket {
    var fd: int

    constructor Around(fd: int)
      ensures this.fd == fd
    {
      this.fd := fd;
    }

    constructor MoveFrom(other: UdpSocket)
      modifies other`fd
      ensures fd == old(other.fd) && other.fd == -1
    {
      fd := other.fd;
      new;
      other.fd := -1;
    }

    /** Assignment closes what this object holds first, even when it is assigned to itself. */
    method MoveAssign(kernel: KernelTable, other: UdpSocket)
      modifies this`fd, other`fd, kernel
      ensures kernel.state == if old(fd) > -1 then Descriptors.Close(old(kernel.state), old(fd)) else old(kernel.state)
      ensures other.fd == -1
      ensures this != other ==> fd == old(other.fd)
    {
      if fd > -1 {
        kernel.Close(fd);
      }
      fd := other.fd;
      other.fd := -1;
    }

    /** The destructor; the object is not used again. */
    method Destroy(kernel: KernelTable)
      modifies kernel
      ensures kernel.state == if fd >= 0 then Descriptors.Close(old(kernel.state), fd) else old(kernel.state)
    {
      if fd >= 0 {
        kernel.Close(fd);
      }
    }

    /** Returns null for the error result. The object built around the new descriptor is a temporary:
        the result is moved from it, and it is destroyed. */
    static method Open(kernel: KernelTable, outcome: int) returns (sock: UdpSocket?)
      requires outcome < 0 || outcome !in kernel.state.table
      modifies kernel
      ensures outcome < 0 ==> sock == null && kernel.state == old(kernel.state)
      ensures outcome >= 0 ==>
                sock != null && fresh(sock) && sock.fd == outcome &&
                kernel.state == Descriptors.Socket(old(kernel.state), outcome)
    {
      var fd := kernel.Socket(outcome);
      if fd < 0 {
        return null;
      }
      var temp := new UdpSocket.Around(fd);
      sock := new UdpSocket.MoveFrom(temp);
      temp.Destroy(kernel);
    }

    /** `bound` is what bind(2) answers. When it fails the local object is destroyed on return. */
    static method Bind(kernel: KernelTable, outcome: int, bound: bool) returns (sock: UdpSocket?)
      requires outcome < 0 || outcome !in kernel.state.table
      modifies kernel
      ensures outcome < 0 ==> sock == null && kernel.state == old(kernel.state)
      ensures outcome >= 0 && !bound ==>
                sock == null &&
                kernel.state == Descriptors.Close(Descriptors.Socket(old(kernel.state), outcome), outcome)
      ensures outcome >= 0 && bound ==>
                sock != null && fresh(sock) && sock.fd == outcome &&
                kernel.state == Descriptors.Socket(old(kernel.state), outcome)
    {
      var fd := kernel.Socket(outcome);
      if fd < 0 {
        return null;
      }
      var local := new UdpSocket.Around(fd);
      if !bound {
        local.Destroy(kernel);
        return null;
      }
      sock := new UdpSocket.MoveFrom(local);
      local.Destroy(kernel);
    }
  }

  class SocketFD {
    var fd: int

    constructor Default()
      ensures fd == -1
    {
      fd := -1;
    }

    constructor Around(fd: int)
      ensures this.fd == fd
    {
      this.fd := fd;
    }

    constructor MoveFrom(other: SocketFD)
      modifies other`fd
      ensures fd == old(other.fd) && other.fd == -1
    {
      fd := other.fd;
      new;
      other.fd := -1;
    }

    method MoveAssign(kernel: KernelTable, other: SocketFD)
      modifies this`fd, other`fd, kernel
      ensures this == other ==> fd == old(fd) && kernel.state == old(kernel.state)
      ensures this != other ==>
                && fd == old(other.fd) && other.fd == -1
                && kernel.state ==
                   if old(fd) != -1 then Descriptors.Close(old(kernel.state), old(fd)) else old(kernel.state)
    {
      if this != other {
        Reset(kernel);
        fd := other.fd;
        other.fd := -1;
      }
    }

    method Reset(kernel: KernelTable)
      modifies this`fd, kernel
      ensures fd == -1
      ensures kernel.state == if old(fd) != -1 then Descriptors.Close(old(kernel.state), old(fd)) else old(kernel.state)
    {
      if fd != -1 {
        kernel.Close(fd);
        fd := -1;
      }
    }

    method Destroy(kernel: KernelTable)
      modifies this`fd, kernel
      ensures fd == -1
      ensures kernel.state == if old(fd) != -1 then Descriptors.Close(old(kernel.state), old(fd)) else old(kernel.state)
    {
      Reset(kernel);
    }
  }

  /** The udp_socket objects of a program: every operation on them, aliased or not, is a step of the
      model on all of them together. */
  class UdpProgram {
    const kernel: KernelTable
    var objects: map<Id, UdpSocket>

    constructor ()
      ensures Valid() && View() == EMPTY_WORLD && objects == map[] && fresh(kernel)
    {
      kernel := new KernelTable();
      objects := map[];
    }

    ghost predicate Valid()
      reads this
    {
      forall i, j :: i in objects && j in objects && i != j ==> objects[i] != objects[j]
    }

    ghost function View(): World
      reads this, kernel, objects.Values
    {
      World(map i | i in objects :: objects[i].fd, kernel.state)
    }

    method Create(id: Id, choice: int)
      requires Valid() && Possible(Udp, View(), Op.Create(id), choice)
      modifies this, kernel, objects.Values
      ensures Valid() && fresh(objects.Values - old(objects.Values))
      ensures View() == Step(Udp, old(View()), Op.Create(id), choice)
    {
      var sock := UdpSocket.Open(kernel, choice);
      objects := objects[id := sock];
      assert View().fds == Step(Udp, old(View()), Op.Create(id), choice).fds;
    }

    method MoveConstruct(id: Id, source: Id)
      requires Valid() && Possible(Udp, View(), Op.MoveConstruct(id, source), 0)
      modifies this, kernel, objects.Values
      ensures Valid() && fresh(objects.Values - old(objects.Values))
      ensures View() == Step(Udp, old(View()), Op.MoveConstruct(id, source), 0)
    {
      var sock := new UdpSocket.MoveFrom(objects[source]);
      objects := objects[id := sock];
      assert View().fds == Step(Udp, old(View()), Op.MoveConstruct(id, source), 0).fds;
    }

    method MoveAssign(id: Id, source: Id)
      requires Valid() && Possible(Udp, View(), Op.MoveAssign(id, source), 0)
      modifies this, kernel, objects.Values
      ensures Valid() && fresh(objects.Values - old(objects.Values))
      ensures View() == Step(Udp, old(View()), Op.MoveAssign(id, source), 0)
    {
      objects[id].MoveAssign(kernel, objects[source]);
      assert View().fds == Step(Udp, old(View()), Op.MoveAssign(id, source), 0).fds;
    }

    method Destroy(id: Id)
      requires Valid() && Possible(Udp, View(), Op.Destroy(id), 0)
      modifies this, kernel, objects.Values
      ensures Valid() && fresh(objects.Values - old(objects.Values))
      ensures View() == Step(Udp, old(View()), Op.Destroy(id), 0)
    {
      objects[id].Destroy(kernel);
      objects := objects - {id};
      assert View().fds == Step(Udp, old(View()), Op.Destroy(id), 0).fds;
    }
  }

  /** The same for SocketFD objects. */
  class LegacyProgram {
    const kernel: KernelTable
    var objects: map<Id, SocketFD>

    constructor ()
      ensures Valid() && View() == EMPTY_WORLD && objects == map[] && fresh(kernel)
    {
      kernel := new KernelTable();
      objects := map[];
    }

    ghost predicate Valid()
      reads this
    {
      forall i, j :: i in objects && j in objects && i != j ==> objects[i] != objects[j]
    }

    ghost function View(): World
      reads this, kernel, objects.Values
    {
      World(map i | i in objects :: objects[i].fd, kernel.state)
    }

    method Create(id: Id, choice: int)
      requires Valid() && Possible(Legacy, View(), Op.Create(id), choice)
      modifies this, kernel, objects.Values
      ensures Valid() && fresh(objects.Values - old(objects.Values))
      ensures View() == Step(Legacy, old(View()), Op.Create(id), choice)
    {
      var fd := kernel.Socket(choice);
      var sock := new SocketFD.Around(fd);
      objects := objects[id := sock];
      assert View().fds == Step(Legacy, old(View()), Op.Create(id), choice).fds;
    }

    method Default(id: Id)
      requires Valid() && Possible(Legacy, View(), Op.Default(id), 0)
      modifies this, kernel, objects.Values
      ensures Valid() && fresh(objects.Values - old(objects.Values))
      ensures View() == Step(Legacy, old(View()), Op.Default(id), 0)
    {
      var sock := new SocketFD.Default();
      objects := objects[id := sock];
      assert View().fds == Step(Legacy, old(View()), Op.Default(id), 0).fds;
    }

    method MoveConstruct(id: Id, source: Id)
      requires Valid() && Possible(Legacy, View(), Op.MoveConstruct(id, source), 0)
      modifies this, kernel, objects.Values
      ensures Valid() && fresh(objects.Values - old(objects.Values))
      ensures View() == Step(Legacy, old(View()), Op.MoveConstruct(id, source), 0)
    {
      var sock := new SocketFD.MoveFrom(objects[source]);
      objects := objects[id := sock];
      assert View().fds == Step(Legacy, old(View()), Op.MoveConstruct(id, source), 0).fds;
    }

    method MoveAssign(id: Id, source: Id)
      requires Valid() && Possible(Legacy, View(), Op.MoveAssign(id, source), 0)
      modifies this, kernel, objects.Values
      ensures Valid() && fresh(objects.Values - old(objects.Values))
      ensures View() == Step(Legacy, old(View()), Op.MoveAssign(id, source), 0)
    {
      objects[id].MoveAssign(kernel, objects[source]);
      assert View().fds == Step(Legacy, old(View()), Op.MoveAssign(id, source), 0).fds;
    }

    method Reset(id: Id)
      requires Valid() && Possible(Legacy, View(), Op.Reset(id), 0)
      modifies this, kernel, objects.Values
      ensures Valid() && fresh(objects.Values - old(objects.Values))
      ensures View() == Step(Legacy, old(View()), Op.Reset(id), 0)
    {
      objects[id].Reset(kernel);
      assert View().fds == Step(Legacy, old(View()), Op.Reset(id), 0).fds;
    }

    method Destroy(id: Id)
      requires Valid() && Possible(Legacy, View(), Op.Destroy(id), 0)
      modifies this, kernel, objects.Values
      ensures Valid() && fresh(objects.Values - old(objects.Values))
      ensures View() == Step(Legacy, old(View()), Op.Destroy(id), 0)
    {
      objects[id].Destroy(kernel);
      objects := objects - {id};
      assert View().fds == Step(Legacy, old(View()), Op.Destroy(id), 0).fds;
    }
  }

  /** udp_socket offers four of the operations, and the kernel's choice matters only to creation. */
  lemma ChoiceMatters(lib: Lib, w: World, op: Op, fd: int)
    requires Possible(lib, w, op, fd)
    ensures lib == Udp ==> !op.Default? && !op.Reset?
    ensures !op.Create? ==> Possible(lib, w, op, 0) && Step(lib, w, op, fd) == Step(lib, w, op, 0)
  {
  }

  /** A whole program over udp_socket objects: the heap it leaves is the world of the model's run, so the
      descriptors its live objects hold are exactly the open ones, and no close has missed. */
  method RunUdpProgram(ops: seq<Op>, fds: seq<int>) returns (p: UdpProgram)
    requires |fds| == |ops| && Run(Udp, ops, fds).Some?
    ensures fresh(p) && fresh(p.kernel) && fresh(p.objects.Values) && p.Valid()
    ensures Run(Udp, ops, fds) == Some(p.View())
    ensures Distinct(p.View().fds) && Owned(p.View()) == p.kernel.state.table.Keys && p.kernel.state.stray == 0
    ensures p.objects == map[] ==> p.kernel.state.table == map[] && |p.kernel.state.closed| == p.kernel.state.issued
  {
    hide Possible, Step, Owned;
    p := new UdpProgram();
    for n := 0 to |ops|
      invariant fresh(p) && fresh(p.kernel) && fresh(p.objects.Values) && p.Valid()
      invariant Run(Udp, ops[..n], fds[..n]) == Some(p.View())
    {
      LastStep(Udp, ops, fds, n);
      ChoiceMatters(Udp, p.View(), ops[n], fds[n]);
      match ops[n]
      case Create(id) => p.Create(id, fds[n]);
      case MoveConstruct(id, source) => p.MoveConstruct(id, source);
      case MoveAssign(id, source) => p.MoveAssign(id, source);
      case Destroy(id) => p.Destroy(id);
    }
    assert ops[..|ops|] == ops && fds[..|ops|] == fds;
    ExclusiveOwnership(Udp, ops, fds);
  }

  /** The same for SocketFD objects. */
  method RunLegacyProgram(ops: seq<Op>, fds: seq<int>) returns (p: LegacyProgram)
    requires |fds| == |ops| && Run(Legacy, ops, fds).Some?
    ensures fresh(p) && fresh(p.kernel) && fresh(p.objects.Values) && p.Valid()
    ensures Run(Legacy, ops, fds) == Some(p.View())
    ensures Distinct(p.View().fds) && Owned(p.View()) == p.kernel.state.table.Keys && p.kernel.state.stray == 0
    ensures p.objects == map[] ==> p.kernel.state.table == map[] && |p.kernel.state.closed| == p.kernel.state.issued
  {
    hide Possible, Step, Owned;
    p := new LegacyProgram();
    for n := 0 to |ops|
      invariant fresh(p) && fresh(p.kernel) && fresh(p.objects.Values) && p.Valid()
      invariant Run(Legacy, ops[..n], fds[..n]) == Some(p.View())
    {
      LastStep(Legacy, ops, fds, n);
      ChoiceMatters(Legacy, p.View(), ops[n], fds[n]);
      match ops[n]
      case Create(id) => p.Create(id, fds[n]);
      case Default(id) => p.Default(id);
      case MoveConstruct(id, source) => p.MoveConstruct(id, source);
      case MoveAssign(id, source) => p.MoveAssign(id, source);
      case Reset(id) => p.Reset(id);
      case Destroy(id) => p.Destroy(id);
    }
    assert ops[..|ops|] == ops && fds[..|ops|] == fds;
    ExclusiveOwnership(Legacy, ops, fds);
  }
}
