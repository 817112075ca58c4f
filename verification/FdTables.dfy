/**
 Which file descriptors the tracees' syscall buffers may handle untraced: fd tables with
 monitored descriptors, shared by tasks of several address spaces, and in each address space
 one class per descriptor slot.
 */
module FdTables {
  import opened Choosing

  datatype FdClass = Untraced | Traced | ProcMem

  datatype Task = Task(vm: int, table: int)

  type Monitors = map<nat, FdClass>

  function With(m: Monitors, fd: nat, cls: FdClass): Monitors { m[fd := cls] }

  function Without(m: Monitors, fd: nat): Monitors { m - {fd} }

  /** The slot of a descriptor: all large ones share the last. */
  function Slot(fd: nat, size: nat): (s: nat)
    requires size > 0
    ensures s < size && (fd < size ==> s == fd)
  {
    if fd >= size then size - 1 else fd
  }

  /** The monitored descriptors that have no slot of their own. */
  function Beyond(m: Monitors, size: nat): set<nat> {
    set fd | fd in m && fd >= size
  }

  /** Some monitored descriptor has slot `s`. */
  ghost predicate Watches(m: Monitors, s: nat, size: nat)
    requires size > 0
  {
    exists fd :: fd in m && Slot(fd, size) == s
  }

  /** What a task has to say about slot `s`. */
  predicate Contributes(m: Monitors, beyond: nat, s: nat, size: nat) {
    s in m || (s + 1 >= size && beyond > 0)
  }

  lemma ContributesIff(m: Monitors, beyond: nat, s: nat, size: nat)
    requires s < size && beyond == |Beyond(m, size)|
    ensures Contributes(m, beyond, s, size) <==> Watches(m, s, size)
  {
    var large := Beyond(m, size);
    if s in m {
      assert Slot(s, size) == s;
    } else if s + 1 >= size && beyond > 0 {
      var fd :| fd in large;
      assert Slot(fd, size) == s;
    }
    if fd :| fd in m && Slot(fd, size) == s {
      if fd != s { assert fd in large; }
    }
  }

  /** Some task of the address space monitors a descriptor with slot `s`. */
  ghost predicate Watched(tasks: seq<Task>, fds: map<int, Monitors>, size: nat, vm: int, s: nat)
    requires size > 0 && forall i | 0 <= i < |tasks| :: tasks[i].table in fds
  {
    exists i :: 0 <= i < |tasks| && tasks[i].vm == vm && Watches(fds[tasks[i].table], s, size)
  }

  /** Table `t` belongs to a task of the address space. */
  predicate Uses(tasks: seq<Task>, vm: int, t: int) {
    exists i :: 0 <= i < |tasks| && tasks[i] == Task(vm, t)
  }

  /** Two monitor tables that differ at most at `fd` watch the same slots but for its own. */
  lemma OtherSlots(m: Monitors, n: Monitors, fd: nat, s: nat, size: nat)
    requires size > 0 && s != Slot(fd, size)
    requires forall g: nat | g != fd :: g in m <==> g in n
    ensures Watches(m, s, size) <==> Watches(n, s, size)
  {
  }

  lemma Unaffected(tasks: seq<Task>, fds: map<int, Monitors>, t: int, m: Monitors, fd: nat, size: nat, vm: int, s: nat)
    requires size > 0 && t in fds && forall i | 0 <= i < |tasks| :: tasks[i].table in fds
    requires forall g: nat | g != fd :: g in m <==> g in fds[t]
    requires !Uses(tasks, vm, t) || s != Slot(fd, size)
    ensures Watched(tasks, fds, size, vm, s) <==> Watched(tasks, fds[t := m], size, vm, s)
  {
    if s != Slot(fd, size) { OtherSlots(fds[t], m, fd, s, size); }
    hide Watches, Slot;
    forall i | 0 <= i < |tasks| && tasks[i].vm == vm
      ensures Watches(fds[tasks[i].table], s, size) <==> Watches(fds[t := m][tasks[i].table], s, size)
    {
      if tasks[i].table == t { assert tasks[i] == Task(vm, t); }
    }
  }

  lemma BeyondWith(m: Monitors, fd: nat, cls: FdClass, size: nat)
    ensures |Beyond(With(m, fd, cls), size)| == |Beyond(m, size)| + (if fd >= size && fd !in m then 1 else 0)
  {
    if fd >= size && fd !in m {
      assert Beyond(With(m, fd, cls), size) == Beyond(m, size) + {fd};
    } else {
      assert Beyond(With(m, fd, cls), size) == Beyond(m, size);
    }
  }

  lemma BeyondWithout(m: Monitors, fd: nat, size: nat)
    ensures |Beyond(Without(m, fd), size)| == |Beyond(m, size)| - (if fd >= size && fd in m then 1 else 0)
  {
    if fd >= size && fd in m {
      assert Beyond(Without(m, fd), size) == Beyond(m, size) - {fd};
    } else {
      assert Beyond(Without(m, fd), size) == Beyond(m, size);
    }
  }

  /** Tables, counts and slots fit together. */
  ghost predicate Shape(tasks: seq<Task>, fds: map<int, Monitors>, size: nat, ready: set<int>,
                        slots: map<int, seq<FdClass>>)
  {
    && size > 0
    && (forall i | 0 <= i < |tasks| :: tasks[i].table in fds)
    && (forall vm | vm in ready :: vm in slots && |slots[vm]| == size)
  }

  /** A slot is untraced exactly when no task of the address space monitors a descriptor that
      has this slot; said of all slots but `exempt`, and of it but in `todo`. */
  ghost predicate Right(tasks: seq<Task>, fds: map<int, Monitors>, size: nat, ready: set<int>,
                        slots: map<int, seq<FdClass>>, exempt: nat, todo: set<int>)
    requires Shape(tasks, fds, size, ready, slots)
  {
    forall vm, s: nat | vm in ready && s < size && !(s == exempt && vm in todo) ::
      slots[vm][s] == Untraced <==> !Watched(tasks, fds, size, vm, s)
  }

  /** The address spaces of the tasks that use table `t`. */
  function Vms(tasks: seq<Task>, t: int): (vms: set<int>)
    ensures forall vm | Uses(tasks, vm, t) :: vm in vms
  {
    set i | 0 <= i < |tasks| && tasks[i].table == t :: tasks[i].vm
  }

  /** When only `fd` of table `t` changes, only its slot in that table's address spaces may be wrong. */
  lemma OnlyThese(tasks: seq<Task>, fds: map<int, Monitors>, size: nat, ready: set<int>, slots: map<int, seq<FdClass>>,
                  t: int, m: Monitors, fd: nat)
    requires Shape(tasks, fds, size, ready, slots) && Right(tasks, fds, size, ready, slots, 0, {}) && t in fds
    requires forall g: nat | g != fd :: g in m <==> g in fds[t]
    ensures Right(tasks, fds[t := m], size, ready, slots, Slot(fd, size), Vms(tasks, t))
  {
    forall vm, s: nat | vm in ready && s < size && !(s == Slot(fd, size) && vm in Vms(tasks, t))
      ensures slots[vm][s] == Untraced <==> !Watched(tasks, fds[t := m], size, vm, s)
    {
      Unaffected(tasks, fds, t, m, fd, size, vm, s);
      hide Watched, Vms, Slot;
    }
  }

  lemma SlotFixed(tasks: seq<Task>, fds: map<int, Monitors>, size: nat, ready: set<int>, slots: map<int, seq<FdClass>>,
                  s: nat, todo: set<int>, vm: int, cls: FdClass)
    requires Shape(tasks, fds, size, ready, slots) && Right(tasks, fds, size, ready, slots, s, todo)
    requires vm in ready && s < size && (cls == Untraced <==> !Watched(tasks, fds, size, vm, s))
    ensures var after := slots[vm := slots[vm][s := cls]];
      Shape(tasks, fds, size, ready, after) && Right(tasks, fds, size, ready, after, s, todo - {vm})
  {
    hide Watched;
  }

  /** join_fd_classes_over_tasks from task `i` on, with the class found so far. */
  function JoinFrom(tasks: seq<Task>, fds: map<int, Monitors>, beyond: map<int, nat>, size: nat,
                    i: nat, vm: int, s: nat, cls: FdClass): FdClass
    requires i <= |tasks| && forall k | 0 <= k < |tasks| :: tasks[k].table in fds && tasks[k].table in beyond
    decreases |tasks| - i
  {
    if i == |tasks| then cls
    else if tasks[i].vm != vm then JoinFrom(tasks, fds, beyond, size, i + 1, vm, s, cls)
    else
      var m := fds[tasks[i].table];
      if s in m then (if cls != Untraced then Traced else JoinFrom(tasks, fds, beyond, size, i + 1, vm, s, m[s]))
      else if s + 1 >= size && beyond[tasks[i].table] > 0 then Traced
      else JoinFrom(tasks, fds, beyond, size, i + 1, vm, s, cls)
  }

  /** What each task of the address space that has a say contributes. */
  function Says(tasks: seq<Task>, fds: map<int, Monitors>, beyond: map<int, nat>, size: nat, i: nat, vm: int,
                s: nat): seq<FdClass>
    requires i <= |tasks| && forall k | 0 <= k < |tasks| :: tasks[k].table in fds && tasks[k].table in beyond
    decreases |tasks| - i
  {
    if i == |tasks| then []
    else
      var m, n := fds[tasks[i].table], beyond[tasks[i].table];
      (if tasks[i].vm == vm && Contributes(m, n, s, size) then [if s in m then m[s] else Traced] else [])
      + Says(tasks, fds, beyond, size, i + 1, vm, s)
  }

  /** The join: nobody has a say, one task decides, or more than one makes it traced. */
  lemma {:induction false} JoinIs(tasks: seq<Task>, fds: map<int, Monitors>, beyond: map<int, nat>, size: nat,
                                  i: nat, vm: int, s: nat, cls: FdClass)
    requires i <= |tasks| && forall k | 0 <= k < |tasks| :: tasks[k].table in fds && tasks[k].table in beyond
    requires forall t, fd | t in fds && fd in fds[t] :: fds[t][fd] != Untraced
    ensures var says := Says(tasks, fds, beyond, size, i, vm, s);
      JoinFrom(tasks, fds, beyond, size, i, vm, s, cls) ==
        if says == [] then cls else if cls == Untraced && |says| == 1 then says[0] else Traced
    decreases |tasks| - i
  {
    if i < |tasks| {
      var m := fds[tasks[i].table];
      var owns := tasks[i].vm == vm && s in m;
      JoinIs(tasks, fds, beyond, size, i + 1, vm, s, if owns && cls == Untraced then m[s] else cls);
      if tasks[i].vm == vm && s !in m { JoinIs(tasks, fds, beyond, size, i + 1, vm, s, Traced); }
    }
  }

  /** The join is traced but for a single say that is not. */
  lemma TracedIff(tasks: seq<Task>, fds: map<int, Monitors>, beyond: map<int, nat>, size: nat, vm: int, s: nat)
    requires forall k | 0 <= k < |tasks| :: tasks[k].table in fds && tasks[k].table in beyond
    requires forall t, fd | t in fds && fd in fds[t] :: fds[t][fd] != Untraced
    requires Says(tasks, fds, beyond, size, 0, vm, s) != []
    ensures var says := Says(tasks, fds, beyond, size, 0, vm, s);
      JoinFrom(tasks, fds, beyond, size, 0, vm, s, Untraced) == Traced <==> !(|says| == 1 && says[0] != Traced)
  {
    JoinIs(tasks, fds, beyond, size, 0, vm, s, Untraced);
  }

  /** A task that has a say is among those that are heard. */
  lemma {:induction false} IsHeard(tasks: seq<Task>, fds: map<int, Monitors>, beyond: map<int, nat>, size: nat,
                                   i: nat, j: nat, s: nat)
    requires i <= j < |tasks| && forall k | 0 <= k < |tasks| :: tasks[k].table in fds && tasks[k].table in beyond
    requires Contributes(fds[tasks[j].table], beyond[tasks[j].table], s, size)
    ensures var says, m := Says(tasks, fds, beyond, size, i, tasks[j].vm, s), fds[tasks[j].table];
      says != [] && (if s in m then m[s] else Traced) in says
    decreases j - i
  {
    if i < j { IsHeard(tasks, fds, beyond, size, i + 1, j, s); }
  }

  /** Exactly when the slot of a descriptor that must be traced is joined to something else: it
      is a large one, its task is the only one that has a say, and that task monitors the owner
      of the last slot as a /proc/<pid>/mem file. */
  lemma TracedUnlessAlone(tasks: seq<Task>, fds: map<int, Monitors>, beyond: map<int, nat>, size: nat, j: nat, fd: nat)
    requires size > 0 && j < |tasks| && forall k | 0 <= k < |tasks| :: tasks[k].table in fds && tasks[k].table in beyond
    requires forall t, g | t in fds && g in fds[t] :: fds[t][g] != Untraced
    requires beyond[tasks[j].table] == |Beyond(fds[tasks[j].table], size)|
    requires fd in fds[tasks[j].table] && fds[tasks[j].table][fd] == Traced
    ensures var m, s, vm := fds[tasks[j].table], Slot(fd, size), tasks[j].vm;
      JoinFrom(tasks, fds, beyond, size, 0, vm, s, Untraced) == Traced <==>
        !(|Says(tasks, fds, beyond, size, 0, vm, s)| == 1 && s in m && m[s] == ProcMem)
  {
    var m, s, vm := fds[tasks[j].table], Slot(fd, size), tasks[j].vm;
    assert Watches(m, s, size);
    ContributesIff(m, beyond[tasks[j].table], s, size);
    IsHeard(tasks, fds, beyond, size, 0, j, s);
    TracedIff(tasks, fds, beyond, size, vm, s);
    var says := Says(tasks, fds, beyond, size, 0, vm, s);
    if |says| == 1 {
      assert says == [if s in m then m[s] else Traced];
      assert s in m ==> m[s] != Untraced;
    }
  }

  /** The join at a slot does not depend on a table no task of the address space uses, nor on
      descriptors that have another slot. */
  lemma {:induction false} JoinFrame(tasks: seq<Task>, fds: map<int, Monitors>, beyond: map<int, nat>, size: nat,
                                     t: int, m: Monitors, n: nat, i: nat, vm: int, s: nat, cls: FdClass)
    requires i <= |tasks| && forall k | 0 <= k < |tasks| :: tasks[k].table in fds && tasks[k].table in beyond
    requires t in fds && t in beyond
    requires Uses(tasks, vm, t) ==>
      && (s in m <==> s in fds[t]) && (s in m ==> m[s] == fds[t][s])
      && (s + 1 >= size ==> (n > 0 <==> beyond[t] > 0))
    ensures JoinFrom(tasks, fds[t := m], beyond[t := n], size, i, vm, s, cls)
      == JoinFrom(tasks, fds, beyond, size, i, vm, s, cls)
    decreases |tasks| - i
  {
    if i < |tasks| {
      if tasks[i].vm == vm && tasks[i].table == t { assert tasks[i] == Task(vm, t); }
      var k := fds[tasks[i].table];
      JoinFrame(tasks, fds, beyond, size, t, m, n, i + 1, vm, s, cls);
      if s in k { JoinFrame(tasks, fds, beyond, size, t, m, n, i + 1, vm, s, k[s]); }
    }
  }

  /** The slot of `fd` is the join in all address spaces that use table `t`; no other slot has changed. */
  ghost predicate Refreshed(tasks: seq<Task>, fds: map<int, Monitors>, beyond: map<int, nat>, size: nat,
                            ready: set<int>, was: map<int, seq<FdClass>>, slots: map<int, seq<FdClass>>,
                            fd: nat, vms: set<int>)
    requires size > 0 && forall k | 0 <= k < |tasks| :: tasks[k].table in fds && tasks[k].table in beyond
  {
    forall vm | vm in ready ::
      && vm in was && vm in slots && |was[vm]| == |slots[vm]| == size
      && forall s: nat | s < size ::
      slots[vm][s] == if s == Slot(fd, size) && vm in vms then JoinFrom(tasks, fds, beyond, size, 0, vm, s, Untraced)
                      else was[vm][s]
  }

  lemma RefreshedMore(tasks: seq<Task>, fds: map<int, Monitors>, beyond: map<int, nat>, size: nat, ready: set<int>,
                      was: map<int, seq<FdClass>>, slots: map<int, seq<FdClass>>, fd: nat, vms: set<int>, vm: int,
                      cls: FdClass)
    requires size > 0 && forall k | 0 <= k < |tasks| :: tasks[k].table in fds && tasks[k].table in beyond
    requires Refreshed(tasks, fds, beyond, size, ready, was, slots, fd, vms) && vm in ready
    requires cls == JoinFrom(tasks, fds, beyond, size, 0, vm, Slot(fd, size), Untraced)
    ensures vm in slots && |slots[vm]| == size
    ensures var after := slots[vm := slots[vm][Slot(fd, size) := cls]];
      Refreshed(tasks, fds, beyond, size, ready, was, after, fd, vms + {vm})
  {
    hide JoinFrom;
  }

  lemma RefreshedNone(tasks: seq<Task>, fds: map<int, Monitors>, beyond: map<int, nat>, size: nat, ready: set<int>,
                      was: map<int, seq<FdClass>>, slots: map<int, seq<FdClass>>, fd: nat, vms: set<int>, vm: int)
    requires size > 0 && forall k | 0 <= k < |tasks| :: tasks[k].table in fds && tasks[k].table in beyond
    requires Refreshed(tasks, fds, beyond, size, ready, was, slots, fd, vms) && vm !in ready
    ensures Refreshed(tasks, fds, beyond, size, ready, was, slots, fd, vms + {vm})
  {
    hide JoinFrom;
  }

  /** Every slot that held the join before holds the join now. */
  ghost predicate KeepsExact(tasks: seq<Task>, size: nat, ready: set<int>,
                             oldFds: map<int, Monitors>, oldBeyond: map<int, nat>, was: map<int, seq<FdClass>>,
                             fds: map<int, Monitors>, beyond: map<int, nat>, slots: map<int, seq<FdClass>>)
    requires Shape(tasks, oldFds, size, ready, was) && oldFds.Keys == oldBeyond.Keys
    requires Shape(tasks, fds, size, ready, slots) && fds.Keys == beyond.Keys
  {
    forall vm, s: nat | vm in ready && s < size
      && was[vm][s] == JoinFrom(tasks, oldFds, oldBeyond, size, 0, vm, s, Untraced) ::
      slots[vm][s] == JoinFrom(tasks, fds, beyond, size, 0, vm, s, Untraced)
  }

  lemma ExactKeptOn(tasks: seq<Task>, size: nat, ready: set<int>,
                    fds0: map<int, Monitors>, beyond0: map<int, nat>, slots0: map<int, seq<FdClass>>,
                    fds1: map<int, Monitors>, beyond1: map<int, nat>, slots1: map<int, seq<FdClass>>,
                    fds2: map<int, Monitors>, beyond2: map<int, nat>, slots2: map<int, seq<FdClass>>)
    requires Shape(tasks, fds0, size, ready, slots0) && fds0.Keys == beyond0.Keys
    requires Shape(tasks, fds1, size, ready, slots1) && fds1.Keys == beyond1.Keys
    requires Shape(tasks, fds2, size, ready, slots2) && fds2.Keys == beyond2.Keys
    requires KeepsExact(tasks, size, ready, fds0, beyond0, slots0, fds1, beyond1, slots1)
    requires KeepsExact(tasks, size, ready, fds1, beyond1, slots1, fds2, beyond2, slots2)
    ensures KeepsExact(tasks, size, ready, fds0, beyond0, slots0, fds2, beyond2, slots2)
  {
    hide JoinFrom, Shape;
  }

  lemma ExactKept(tasks: seq<Task>, fds: map<int, Monitors>, beyond: map<int, nat>, size: nat, ready: set<int>,
                  was: map<int, seq<FdClass>>, slots: map<int, seq<FdClass>>, t: int, m: Monitors, n: nat, fd: nat)
    requires Shape(tasks, fds, size, ready, was) && Shape(tasks, fds[t := m], size, ready, slots) && t in fds
    requires fds.Keys == beyond.Keys
    requires forall g: nat | g != fd :: (g in m <==> g in fds[t]) && (g in m ==> m[g] == fds[t][g])
    requires beyond[t] == |Beyond(fds[t], size)| && n == |Beyond(m, size)|
    requires Refreshed(tasks, fds[t := m], beyond[t := n], size, ready, was, slots, fd, Vms(tasks, t))
    ensures KeepsExact(tasks, size, ready, fds, beyond, was, fds[t := m], beyond[t := n], slots)
  {
    forall vm, s: nat | vm in ready && s < size && was[vm][s] == JoinFrom(tasks, fds, beyond, size, 0, vm, s, Untraced)
      ensures slots[vm][s] == JoinFrom(tasks, fds[t := m], beyond[t := n], size, 0, vm, s, Untraced)
    {
      if !(s == Slot(fd, size) && vm in Vms(tasks, t)) {
        if fd < size { assert Beyond(m, size) == Beyond(fds[t], size); }
        hide JoinFrom, Vms, Beyond;
        JoinFrame(tasks, fds, beyond, size, t, m, n, 0, vm, s, Untraced);
      }
    }
  }

  /** As many tasks have a say when a monitor is replaced. */
  lemma {:induction false} SayAsMany(tasks: seq<Task>, fds: map<int, Monitors>, beyond: map<int, nat>, size: nat,
                                     t: int, fd: nat, cls: FdClass, i: nat, vm: int, s: nat)
    requires i <= |tasks| && forall k | 0 <= k < |tasks| :: tasks[k].table in fds && tasks[k].table in beyond
    requires t in fds && fd in fds[t]
    ensures |Says(tasks, fds[t := With(fds[t], fd, cls)], beyond, size, i, vm, s)|
      == |Says(tasks, fds, beyond, size, i, vm, s)|
    decreases |tasks| - i
  {
    if i < |tasks| { SayAsMany(tasks, fds, beyond, size, t, fd, cls, i + 1, vm, s); }
  }

  /** Replacing a monitor leaves the join at slot `s` as it is: the slot is of another descriptor,
      or in an address space that does not use the table, the class is the same, or the task is not alone. */
  predicate Unmoved(tasks: seq<Task>, fds: map<int, Monitors>, beyond: map<int, nat>, size: nat,
                    t: int, fd: nat, cls: FdClass, vm: int, s: nat)
    requires forall k | 0 <= k < |tasks| :: tasks[k].table in fds && tasks[k].table in beyond
    requires t in fds && fd in fds[t]
  {
    s != fd || !Uses(tasks, vm, t) || cls == fds[t][fd] || |Says(tasks, fds, beyond, size, 0, vm, s)| > 1
  }

  lemma ReplacedJoin(tasks: seq<Task>, fds: map<int, Monitors>, beyond: map<int, nat>, size: nat,
                     t: int, fd: nat, cls: FdClass, vm: int, s: nat)
    requires forall k | 0 <= k < |tasks| :: tasks[k].table in fds && tasks[k].table in beyond
    requires forall t, fd | t in fds && fd in fds[t] :: fds[t][fd] != Untraced
    requires t in fds && t in beyond && fd in fds[t] && cls != Untraced
    ensures var now := fds[t := With(fds[t], fd, cls)];
      JoinFrom(tasks, now, beyond, size, 0, vm, s, Untraced) == JoinFrom(tasks, fds, beyond, size, 0, vm, s, Untraced)
      <==> Unmoved(tasks, fds, beyond, size, t, fd, cls, vm, s)
  {
    var now := fds[t := With(fds[t], fd, cls)];
    if s != fd || !Uses(tasks, vm, t) || cls == fds[t][fd] {
      assert beyond[t := beyond[t]] == beyond;
      JoinFrame(tasks, fds, beyond, size, t, With(fds[t], fd, cls), beyond[t], 0, vm, s, Untraced);
    } else {
      var j :| 0 <= j < |tasks| && tasks[j] == Task(vm, t);
      IsHeard(tasks, fds, beyond, size, 0, j, s);
      IsHeard(tasks, now, beyond, size, 0, j, s);
      SayAsMany(tasks, fds, beyond, size, t, fd, cls, 0, vm, s);
      JoinIs(tasks, fds, beyond, size, 0, vm, s, Untraced);
      JoinIs(tasks, now, beyond, size, 0, vm, s, Untraced);
    }
  }

  // ------------------------------------------------------------------ initial classes

  /** The descriptors that the tasks of an address space monitor, with the task. */
  ghost function Pairs(tasks: seq<Task>, fds: map<int, Monitors>, vm: int): set<(nat, nat)>
    requires forall i | 0 <= i < |tasks| :: tasks[i].table in fds
  {
    set i: nat, fd | i < |tasks| && tasks[i].vm == vm && fd in fds[tasks[i].table] :: (i, fd)
  }

  ghost predicate MonitoredAs(tasks: seq<Task>, fds: map<int, Monitors>, p: (nat, nat), cls: FdClass) {
    p.0 < |tasks| && tasks[p.0].table in fds && p.1 in fds[tasks[p.0].table] && fds[tasks[p.0].table][p.1] == cls
  }

  /** `cls` sums up the descriptors in `seen` that have slot `s`: untraced if there is none,
      traced if one of them is or if there are two, and /proc/<pid>/mem otherwise. */
  ghost predicate SumsUp(tasks: seq<Task>, fds: map<int, Monitors>, size: nat, seen: set<(nat, nat)>, s: nat,
                         cls: FdClass)
    requires size > 0
  {
    && (cls == Untraced <==> forall p | p in seen :: Slot(p.1, size) != s)
    && (cls == Traced <==>
          || (exists p | p in seen :: Slot(p.1, size) == s && MonitoredAs(tasks, fds, p, Traced))
          || (exists p, q | p in seen && q in seen :: p != q && Slot(p.1, size) == s && Slot(q.1, size) == s))
  }

  lemma WatchedPair(tasks: seq<Task>, fds: map<int, Monitors>, size: nat, vm: int, s: nat)
    requires size > 0 && forall i | 0 <= i < |tasks| :: tasks[i].table in fds
    ensures Watched(tasks, fds, size, vm, s) <==> exists p | p in Pairs(tasks, fds, vm) :: Slot(p.1, size) == s
  {
    var pairs := Pairs(tasks, fds, vm);
    if i :| 0 <= i < |tasks| && tasks[i].vm == vm && Watches(fds[tasks[i].table], s, size) {
      var fd :| fd in fds[tasks[i].table] && Slot(fd, size) == s;
      assert (i, fd) in pairs;
    }
    if p :| p in pairs && Slot(p.1, size) == s {
      assert Watches(fds[tasks[p.0].table], s, size);
    }
  }

  lemma SumsUpMore(tasks: seq<Task>, fds: map<int, Monitors>, size: nat, seen: set<(nat, nat)>, s: nat, cls: FdClass,
                   p: (nat, nat), c: FdClass)
    requires size > 0 && SumsUp(tasks, fds, size, seen, s, cls) && p !in seen
    requires MonitoredAs(tasks, fds, p, c) && c != Untraced
    ensures SumsUp(tasks, fds, size, seen + {p}, s,
                   if Slot(p.1, size) != s then cls else if cls == Untraced then c else Traced)
  {
    var more := seen + {p};
    hide Slot;
    if Slot(p.1, size) == s && cls != Untraced {
      var q :| q in seen && Slot(q.1, size) == s;
      assert p in more && q in more && p != q;
    }
  }

  /** Every slot sums up what was seen. */
  ghost predicate AllSumUp(tasks: seq<Task>, fds: map<int, Monitors>, size: nat, seen: set<(nat, nat)>,
                           disabled: seq<FdClass>)
    requires size > 0
  {
    |disabled| == size && forall s: nat | s < size :: SumsUp(tasks, fds, size, seen, s, disabled[s])
  }

  /** Seen are the descriptors of the tasks before `i`, and those of task `i` that are not in `todo`. */
  ghost predicate SeenUpTo(tasks: seq<Task>, fds: map<int, Monitors>, vm: int, seen: set<(nat, nat)>, i: nat,
                           todo: set<nat>)
    requires forall i | 0 <= i < |tasks| :: tasks[i].table in fds
  {
    forall p :: p in seen <==> p in Pairs(tasks, fds, vm) && (p.0 < i || (p.0 == i && p.1 !in todo))
  }

  lemma SeenMore(tasks: seq<Task>, fds: map<int, Monitors>, vm: int, seen: set<(nat, nat)>, i: nat,
                 todo: set<nat>, fd: nat)
    requires forall i | 0 <= i < |tasks| :: tasks[i].table in fds
    requires i < |tasks| && tasks[i].vm == vm && fd in fds[tasks[i].table] && fd in todo
    requires SeenUpTo(tasks, fds, vm, seen, i, todo)
    ensures (i, fd) !in seen && SeenUpTo(tasks, fds, vm, seen + {(i, fd)}, i, todo - {fd})
  {
    assert (i, fd) in Pairs(tasks, fds, vm);
    hide Pairs;
  }

  lemma SumUpOne(tasks: seq<Task>, fds: map<int, Monitors>, size: nat, seen: set<(nat, nat)>, disabled: seq<FdClass>,
                 p: (nat, nat), c: FdClass)
    requires size > 0 && AllSumUp(tasks, fds, size, seen, disabled)
    requires p !in seen && MonitoredAs(tasks, fds, p, c) && c != Untraced
    ensures var s := Slot(p.1, size);
      AllSumUp(tasks, fds, size, seen + {p}, disabled[s := if disabled[s] == Untraced then c else Traced])
  {
    hide SumsUp, Slot;
    forall s: nat | s < size { SumsUpMore(tasks, fds, size, seen, s, disabled[s], p, c); }
  }

  lemma {:induction false} NobodySaysUntraced(tasks: seq<Task>, fds: map<int, Monitors>, beyond: map<int, nat>,
                                              size: nat, i: nat, vm: int, s: nat)
    requires i <= |tasks| && forall k | 0 <= k < |tasks| :: tasks[k].table in fds && tasks[k].table in beyond
    requires forall t, fd | t in fds && fd in fds[t] :: fds[t][fd] != Untraced
    ensures Untraced !in Says(tasks, fds, beyond, size, i, vm, s)
    decreases |tasks| - i
  {
    if i < |tasks| { NobodySaysUntraced(tasks, fds, beyond, size, i + 1, vm, s); }
  }

  /** The owners of slot `s` from task `i` on. */
  ghost function Owners(tasks: seq<Task>, fds: map<int, Monitors>, i: nat, vm: int, s: nat): set<(nat, nat)>
    requires forall k | 0 <= k < |tasks| :: tasks[k].table in fds
  {
    set j: nat | i <= j < |tasks| && tasks[j].vm == vm && s in fds[tasks[j].table] :: (j, s)
  }

  /** Below the last slot, one more task in front adds what it monitors there. */
  lemma JoinOneMore(tasks: seq<Task>, fds: map<int, Monitors>, beyond: map<int, nat>, size: nat, i: nat, vm: int,
                    s: nat)
    requires i < |tasks| && s + 1 < size
    requires forall k | 0 <= k < |tasks| :: tasks[k].table in fds && tasks[k].table in beyond
    requires forall t, fd | t in fds && fd in fds[t] :: fds[t][fd] != Untraced
    ensures var m, rest := fds[tasks[i].table], JoinFrom(tasks, fds, beyond, size, i + 1, vm, s, Untraced);
      JoinFrom(tasks, fds, beyond, size, i, vm, s, Untraced) ==
        if tasks[i].vm != vm || s !in m then rest else if rest == Untraced then m[s] else Traced
  {
    JoinIs(tasks, fds, beyond, size, i, vm, s, Untraced);
    JoinIs(tasks, fds, beyond, size, i + 1, vm, s, Untraced);
    NobodySaysUntraced(tasks, fds, beyond, size, i + 1, vm, s);
    hide JoinFrom;
  }

  /** Below the last slot, what the tasks say sums up what they monitor. */
  lemma {:induction false} SaysSumUp(tasks: seq<Task>, fds: map<int, Monitors>, beyond: map<int, nat>, size: nat,
                                     i: nat, vm: int, s: nat)
    requires i <= |tasks| && s + 1 < size
    requires forall k | 0 <= k < |tasks| :: tasks[k].table in fds && tasks[k].table in beyond
    requires forall t, fd | t in fds && fd in fds[t] :: fds[t][fd] != Untraced
    ensures var cls := JoinFrom(tasks, fds, beyond, size, i, vm, s, Untraced);
      SumsUp(tasks, fds, size, Owners(tasks, fds, i, vm, s), s, cls)
    decreases |tasks| - i
  {
    if i < |tasks| {
      hide JoinFrom, SumsUp;
      SaysSumUp(tasks, fds, beyond, size, i + 1, vm, s);
      JoinOneMore(tasks, fds, beyond, size, i, vm, s);
      var m, rest := fds[tasks[i].table], Owners(tasks, fds, i + 1, vm, s);
      if tasks[i].vm == vm && s in m {
        assert Owners(tasks, fds, i, vm, s) == rest + {(i, s)};
        SumsUpMore(tasks, fds, size, rest, s, JoinFrom(tasks, fds, beyond, size, i + 1, vm, s, Untraced), (i, s), m[s]);
      } else {
        assert Owners(tasks, fds, i, vm, s) == rest;
      }
    }
  }

  /** A sum of all that is monitored is the join, for every slot but the last. */
  lemma SumIsJoin(tasks: seq<Task>, fds: map<int, Monitors>, beyond: map<int, nat>, size: nat, vm: int, s: nat,
                  cls: FdClass)
    requires s + 1 < size && forall k | 0 <= k < |tasks| :: tasks[k].table in fds && tasks[k].table in beyond
    requires forall t, fd | t in fds && fd in fds[t] :: fds[t][fd] != Untraced
    requires SumsUp(tasks, fds, size, Pairs(tasks, fds, vm), s, cls)
    ensures cls == JoinFrom(tasks, fds, beyond, size, 0, vm, s, Untraced)
  {
    SaysSumUp(tasks, fds, beyond, size, 0, vm, s);
    var pairs, owners := Pairs(tasks, fds, vm), Owners(tasks, fds, 0, vm, s);
    assert forall p :: p in owners <==> p in pairs && Slot(p.1, size) == s;
    hide Pairs, Owners, JoinFrom, Slot;
  }

  datatype Op =
    | Monitor(table: int, fd: nat, procMem: bool)
    | Dup(table: int, from: nat, to: nat)
    | Close(table: int, fd: nat)

  function ClassOf(procMem: bool): FdClass { if procMem then ProcMem else Traced }

  /** What an operation does to the monitors. */
  function Monitored(fds: map<int, Monitors>, op: Op): (r: map<int, Monitors>)
    requires op.table in fds
    ensures r.Keys == fds.Keys
  {
    var m := fds[op.table];
    match op
    case Monitor(t, fd, procMem) => fds[t := With(m, fd, ClassOf(procMem))]
    case Dup(t, from, to) => fds[t := if from in m then With(m, to, m[from]) else Without(m, to)]
    case Close(t, fd) => fds[t := Without(m, fd)]
  }

  function AllMonitored(fds: map<int, Monitors>, ops: seq<Op>): (r: map<int, Monitors>)
    requires forall k | 0 <= k < |ops| :: ops[k].table in fds
    ensures r.Keys == fds.Keys
  {
    if ops == [] then fds else Monitored(AllMonitored(fds, ops[..|ops| - 1]), ops[|ops| - 1])
  }

  /** A monitor is only replaced by one of the same class. */
  predicate SameClass(fds: map<int, Monitors>, op: Op)
    requires op.table in fds
  {
    op.Monitor? && op.fd in fds[op.table] ==> fds[op.table][op.fd] == ClassOf(op.procMem)
  }

  ghost predicate SameClasses(fds: map<int, Monitors>, ops: seq<Op>)
    requires forall k | 0 <= k < |ops| :: ops[k].table in fds
  {
    forall k | 0 <= k < |ops| :: SameClass(AllMonitored(fds, ops[..k]), ops[k])
  }

  lemma MonitoredNext(fds: map<int, Monitors>, ops: seq<Op>, k: nat)
    requires k < |ops| && forall k | 0 <= k < |ops| :: ops[k].table in fds
    ensures AllMonitored(fds, ops[..k + 1]) == Monitored(AllMonitored(fds, ops[..k]), ops[k])
    ensures SameClasses(fds, ops) ==> SameClass(AllMonitored(fds, ops[..k]), ops[k])
  {
    assert ops[..k + 1][..k] == ops[..k];
  }

  class Tracees {
    const size: nat
    const tasks: seq<Task>
    /** The address spaces with a live task and an initialised preload library. */
    var ready: set<int>
    var fds: map<int, Monitors>
    var beyond: map<int, nat>
    var slots: map<int, seq<FdClass>>

    /** Every table knows how many of its descriptors have no slot of their own, and no monitor
        leaves its descriptor untraced. */
    ghost predicate Counted()
      reads this
    {
      && Shape(tasks, fds, size, ready, slots) && fds.Keys == beyond.Keys
      && (forall t | t in fds :: beyond[t] == |Beyond(fds[t], size)|)
      && (forall t, fd | t in fds && fd in fds[t] :: fds[t][fd] != Untraced)
    }

    ghost predicate Valid()
      reads this
    {
      Counted() && Right(tasks, fds, size, ready, slots, 0, {})
    }

    /** The slot holds the join of what the tasks say now. */
    ghost predicate Exact(vm: int, s: nat)
      requires Counted() && vm in ready && s < size
      reads this
    {
      slots[vm][s] == Join(0, vm, s, Untraced)
    }

    constructor (size: nat, tasks: seq<Task>)
      requires size > 0
      ensures Valid() && this.size == size && this.tasks == tasks && ready == {}
      ensures fds.Keys == (set i | 0 <= i < |tasks| :: tasks[i].table) && forall t | t in fds :: fds[t] == map[]
    {
      this.size, this.tasks, ready, slots := size, tasks, {}, map[];
      fds := map i | 0 <= i < |tasks| :: tasks[i].table := map[];
      beyond := map i | 0 <= i < |tasks| :: tasks[i].table := 0;
      new;
      assert Beyond(map[], size) == {};
    }

    /** init_syscallbuf_fds_disabled: every slot of the address space sums up the descriptors its
        tasks monitor. Here no large descriptor that must be traced is lost. */
    method InitFdsDisabled(vm: int)
      requires Valid()
      modifies `slots, `ready
      ensures Valid() && ready == old(ready) + {vm}
      ensures vm in slots && |slots[vm]| == size && slots == old(slots)[vm := slots[vm]]
      ensures forall s: nat | s < size :: SumsUp(tasks, fds, size, Pairs(tasks, fds, vm), s, slots[vm][s])
      ensures forall s: nat | s + 1 < size :: Exact(vm, s)
    {
      var disabled := seq(size, _ => Untraced);
      ghost var seen: set<(nat, nat)> := {};
      for i := 0 to |tasks|
        invariant unchanged(this) && AllSumUp(tasks, fds, size, seen, disabled)
        invariant forall p :: p in seen <==> p in Pairs(tasks, fds, vm) && p.0 < i
      {
        hide AllSumUp, Right;
        if tasks[i].vm == vm {
          assert SeenUpTo(tasks, fds, vm, seen, i, fds[tasks[i].table].Keys);
          disabled, seen := SumUpTable(vm, i, disabled, seen);
        }
      }
      assert seen == Pairs(tasks, fds, vm);
      SumIsRight(vm, disabled);
      forall s: nat | s + 1 < size ensures disabled[s] == Join(0, vm, s, Untraced) {
        SumIsJoin(tasks, fds, beyond, size, vm, s, disabled[s]);
      }
      hide JoinFrom, SumsUp, Pairs, Watched, Beyond;
      slots, ready := slots[vm := disabled], ready + {vm};
    }

    method SumUpTable(vm: int, i: nat, before: seq<FdClass>, ghost seenBefore: set<(nat, nat)>)
      returns (disabled: seq<FdClass>, ghost seen: set<(nat, nat)>)
      requires Counted() && i < |tasks| && tasks[i].vm == vm
      requires AllSumUp(tasks, fds, size, seenBefore, before)
      requires SeenUpTo(tasks, fds, vm, seenBefore, i, fds[tasks[i].table].Keys)
      ensures AllSumUp(tasks, fds, size, seen, disabled) && SeenUpTo(tasks, fds, vm, seen, i, {})
    {
      hide SumsUp, SeenUpTo, Beyond, Slot;
      var m := fds[tasks[i].table];
      disabled, seen := before, seenBefore;
      var todo := m.Keys;
      while todo != {}
        invariant todo <= m.Keys && |disabled| == size
        invariant AllSumUp(tasks, fds, size, seen, disabled) && SeenUpTo(tasks, fds, vm, seen, i, todo)
        decreases |todo|
      {
        var fd := Pick(todo);
        var s := Slot(fd, size);
        SeenMore(tasks, fds, vm, seen, i, todo, fd);
        SumUpOne(tasks, fds, size, seen, disabled, (i, fd), m[fd]);
        disabled := disabled[s := if disabled[s] == Untraced then m[fd] else Traced];
        seen := seen + {(i, fd)};
        todo := todo - {fd};
      }
    }

    lemma SumIsRight(vm: int, disabled: seq<FdClass>)
      requires Counted() && |disabled| == size
      requires forall s: nat | s < size :: SumsUp(tasks, fds, size, Pairs(tasks, fds, vm), s, disabled[s])
      ensures forall s: nat | s < size :: disabled[s] == Untraced <==> !Watched(tasks, fds, size, vm, s)
    {
      forall s: nat | s < size ensures disabled[s] == Untraced <==> !Watched(tasks, fds, size, vm, s) {
        WatchedPair(tasks, fds, size, vm, s);
        hide Watched, Pairs, Slot;
      }
    }

    ghost function Join(i: nat, vm: int, s: nat, cls: FdClass): FdClass
      requires i <= |tasks| && Counted()
      reads this
    {
      JoinFrom(tasks, fds, beyond, size, i, vm, s, cls)
    }

    lemma {:induction false} JoinUntraced(i: nat, vm: int, s: nat, cls: FdClass)
      requires i <= |tasks| && Counted() && s < size
      ensures Join(i, vm, s, cls) == Untraced <==>
        (cls == Untraced && forall j | i <= j < |tasks| && tasks[j].vm == vm :: !Watches(fds[tasks[j].table], s, size))
      decreases |tasks| - i
    {
      hide Watches;
      if i < |tasks| {
        var t := tasks[i].table;
        ContributesIff(fds[t], beyond[t], s, size);
        if tasks[i].vm == vm && s in fds[t] {
          if cls == Untraced { JoinUntraced(i + 1, vm, s, fds[t][s]); }
        } else {
          JoinUntraced(i + 1, vm, s, cls);
        }
      }
    }

    method JoinFdClasses(vm: int, s: nat) returns (cls: FdClass)
      requires Counted()
      ensures cls == Join(0, vm, s, Untraced)
    {
      cls := Untraced;
      for i := 0 to |tasks|
        invariant Join(0, vm, s, Untraced) == Join(i, vm, s, cls)
      {
        if tasks[i].vm == vm {
          var m := fds[tasks[i].table];
          if s in m {
            if cls != Untraced {
              return Traced;
            }
            cls := m[s];
          } else if s + 1 >= size && beyond[tasks[i].table] > 0 {
            return Traced;
          }
        }
      }
    }

    /** Writes the joined class into the slot of `fd` in one address space. */
    method RefreshSlot(vm: int, fd: nat, ghost was: map<int, seq<FdClass>>, ghost done: set<int>, ghost todo: set<int>)
      requires Counted() && Right(tasks, fds, size, ready, slots, Slot(fd, size), todo)
      requires Refreshed(tasks, fds, beyond, size, ready, was, slots, fd, done)
      modifies `slots
      ensures Counted() && Right(tasks, fds, size, ready, slots, Slot(fd, size), todo - {vm})
      ensures Refreshed(tasks, fds, beyond, size, ready, was, slots, fd, done + {vm})
    {
      if vm !in ready {
        RefreshedNone(tasks, fds, beyond, size, ready, was, slots, fd, done, vm);
        hide Watched, Beyond, Shape, Refreshed;
        return;
      }
      var s := Slot(fd, size);
      var cls := JoinFdClasses(vm, s);
      JoinUntraced(0, vm, s, Untraced);
      SlotFixed(tasks, fds, size, ready, slots, s, todo, vm, cls);
      RefreshedMore(tasks, fds, beyond, size, ready, was, slots, fd, done, vm, cls);
      hide JoinFrom, Join, Watched, Beyond, Right, Shape, Refreshed;
      slots := slots[vm := slots[vm][s := cls]];
    }

    /** update_syscallbuf_fds_disabled: the slot of `fd` is the join in every address space that
        uses the table, no other slot changes, and every slot is right again. */
    method UpdateFdsDisabled(t: int, fd: nat)
      requires Counted() && Right(tasks, fds, size, ready, slots, Slot(fd, size), Vms(tasks, t))
      modifies `slots
      ensures Valid() && Refreshed(tasks, fds, beyond, size, ready, old(slots), slots, fd, Vms(tasks, t))
    {
      var todo := Vms(tasks, t);
      ghost var done: set<int> := {};
      assert Refreshed(tasks, fds, beyond, size, ready, slots, slots, fd, {});
      while todo != {}
        invariant Counted() && Right(tasks, fds, size, ready, slots, Slot(fd, size), todo)
        invariant done + todo == Vms(tasks, t)
        invariant Refreshed(tasks, fds, beyond, size, ready, old(slots), slots, fd, done)
        decreases |todo|
      {
        hide *;
        var vm := Pick(todo);
        RefreshSlot(vm, fd, old(slots), done, todo);
        todo, done := todo - {vm}, done + {vm};
      }
      hide Watched, Beyond, Shape, Refreshed, Vms;
      assert done == Vms(tasks, t);
    }

    /** Table `t` gets the monitors `m`, which differ at most at `fd`. */
    method Change(t: int, fd: nat, m: Monitors, count: nat)
      requires Valid() && t in fds && count == |Beyond(m, size)|
      requires forall g: nat | g != fd :: (g in m <==> g in fds[t]) && (g in m ==> m[g] == fds[t][g])
      requires forall g | g in m :: m[g] != Untraced
      modifies `fds, `beyond, `slots
      ensures Valid() && fds == old(fds)[t := m]
      ensures Refreshed(tasks, fds, beyond, size, ready, old(slots), slots, fd, Vms(tasks, t))
      ensures KeepsExact(tasks, size, ready, old(fds), old(beyond), old(slots), fds, beyond, slots)
    {
      OnlyThese(tasks, fds, size, ready, slots, t, m, fd);
      hide Beyond, Right, Watched, Vms, Slot, Refreshed, KeepsExact;
      fds, beyond := fds[t := m], beyond[t := count];
      UpdateFdsDisabled(t, fd);
      ExactKept(tasks, old(fds), old(beyond), size, ready, old(slots), slots, t, m, count, fd);
    }

    method AddMonitor(t: int, fd: nat, cls: FdClass)
      requires Valid() && t in fds && fd !in fds[t] && cls != Untraced
      modifies `fds, `beyond, `slots
      ensures Valid() && fds == old(fds)[t := With(old(fds)[t], fd, cls)]
      ensures Refreshed(tasks, fds, beyond, size, ready, old(slots), slots, fd, Vms(tasks, t))
      ensures KeepsExact(tasks, size, ready, old(fds), old(beyond), old(slots), fds, beyond, slots)
    {
      BeyondWith(fds[t], fd, cls, size);
      var count := beyond[t];
      if fd >= size && fd !in fds[t] {
        count := count + 1;
      }
      hide Beyond, Right, Shape, Refreshed, KeepsExact, Vms;
      Change(t, fd, With(fds[t], fd, cls), count);
    }

    method ReplaceMonitor(t: int, fd: nat, cls: FdClass)
      requires Valid() && t in fds && cls != Untraced
      modifies `fds, `beyond, `slots
      ensures Valid() && fds == old(fds)[t := With(old(fds)[t], fd, cls)]
      ensures fd !in old(fds)[t] ==>
        && Refreshed(tasks, fds, beyond, size, ready, old(slots), slots, fd, Vms(tasks, t))
        && KeepsExact(tasks, size, ready, old(fds), old(beyond), old(slots), fds, beyond, slots)
      ensures fd in old(fds)[t] ==>
        && slots == old(slots) && beyond == old(beyond)
        && forall vm, s: nat | vm in ready && s < size && old(Exact(vm, s)) ::
             Exact(vm, s) <==> Unmoved(tasks, old(fds), old(beyond), size, t, fd, cls, vm, s)
    {
      if fd !in fds[t] {
        AddMonitor(t, fd, cls);
      } else {
        BeyondWith(fds[t], fd, cls, size);
        forall vm, s: nat | vm in ready && s < size
          ensures Watched(tasks, fds, size, vm, s) <==> Watched(tasks, fds[t := With(fds[t], fd, cls)], size, vm, s)
        {
          SameKeys(tasks, fds, t, With(fds[t], fd, cls), size, vm, s);
        }
        hide Watched, Beyond, Refreshed, KeepsExact, Vms, JoinFrom, Unmoved;
        forall vm, s: nat { ReplacedJoin(tasks, fds, beyond, size, t, fd, cls, vm, s); }
        fds := fds[t := With(fds[t], fd, cls)];
      }
    }

    method DidDup(t: int, from: nat, to: nat)
      requires Valid() && t in fds
      modifies `fds, `beyond, `slots
      ensures Valid()
      ensures Refreshed(tasks, fds, beyond, size, ready, old(slots), slots, to, Vms(tasks, t))
      ensures KeepsExact(tasks, size, ready, old(fds), old(beyond), old(slots), fds, beyond, slots)
      ensures var m := old(fds)[t];
        fds == old(fds)[t := if from in m then With(m, to, m[from]) else Without(m, to)]
    {
      var count := beyond[t];
      if from in fds[t] {
        BeyondWith(fds[t], to, fds[t][from], size);
        if to >= size && to !in fds[t] {
          count := count + 1;
        }
        hide Beyond, Right, Shape, Refreshed, KeepsExact, Vms;
        Change(t, to, With(fds[t], to, fds[t][from]), count);
      } else {
        BeyondWithout(fds[t], to, size);
        if to >= size && to in fds[t] {
          count := count - 1;
        }
        hide Beyond, Right, Shape, Refreshed, KeepsExact, Vms;
        Change(t, to, Without(fds[t], to), count);
      }
    }

    method DidClose(t: int, fd: nat)
      requires Valid() && t in fds
      modifies `fds, `beyond, `slots
      ensures Valid() && fds == old(fds)[t := Without(old(fds)[t], fd)]
      ensures Refreshed(tasks, fds, beyond, size, ready, old(slots), slots, fd, Vms(tasks, t))
      ensures KeepsExact(tasks, size, ready, old(fds), old(beyond), old(slots), fds, beyond, slots)
    {
      BeyondWithout(fds[t], fd, size);
      var count := beyond[t];
      if fd >= size && fd in fds[t] {
        count := count - 1;
      }
      hide Beyond, Right, Shape, Refreshed, KeepsExact, Vms;
      Change(t, fd, Without(fds[t], fd), count);
    }

    /** A monitored descriptor is never handled untraced, not even a large one. */
    lemma NeverUntraced(i: nat, fd: nat)
      requires Valid() && i < |tasks| && tasks[i].vm in ready && fd in fds[tasks[i].table]
      ensures slots[tasks[i].vm][Slot(fd, size)] != Untraced
    {
      assert Watches(fds[tasks[i].table], Slot(fd, size), size);
      assert Watched(tasks, fds, size, tasks[i].vm, Slot(fd, size));
    }

    /** The slot of a descriptor that must be traced, where it holds the join: it is traced but
        when the one task that has a say monitors the owner of the slot otherwise. */
    lemma SlotTracedUnlessAlone(i: nat, fd: nat)
      requires Valid() && i < |tasks| && tasks[i].vm in ready
      requires fd in fds[tasks[i].table] && fds[tasks[i].table][fd] == Traced && Exact(tasks[i].vm, Slot(fd, size))
      ensures var m, s, vm := fds[tasks[i].table], Slot(fd, size), tasks[i].vm;
        slots[vm][s] == Traced <==> !(|Says(tasks, fds, beyond, size, 0, vm, s)| == 1 && s in m && m[s] == ProcMem)
    {
      TracedUnlessAlone(tasks, fds, beyond, size, i, fd);
    }

    method Perform(op: Op)
      requires Valid() && op.table in fds
      modifies `fds, `beyond, `slots
      ensures Valid() && fds == Monitored(old(fds), op)
      ensures SameClass(old(fds), op) ==>
        KeepsExact(tasks, size, ready, old(fds), old(beyond), old(slots), fds, beyond, slots)
    {
      hide Right, Shape, Beyond, Refreshed, Vms, JoinFrom;
      match op
      case Monitor(t, fd, procMem) =>
        if fd in fds[t] && fds[t][fd] == ClassOf(procMem) {
          assert With(fds[t], fd, ClassOf(procMem)) == fds[t];
          assert fds[t := fds[t]] == fds;
        }
        ReplaceMonitor(t, fd, ClassOf(procMem));
      case Dup(t, from, to) => DidDup(t, from, to);
      case Close(t, fd) => DidClose(t, fd);
    }

    /** Any sequence of operations on any of the tables: the monitors are those of the operations,
        every slot is right, and a slot that holds the join goes on to hold it while monitors are
        only replaced by others of their class. */
    method Run(ops: seq<Op>)
      requires Valid() && forall k | 0 <= k < |ops| :: ops[k].table in fds
      modifies `fds, `beyond, `slots
      ensures Valid() && fds == AllMonitored(old(fds), ops)
      ensures SameClasses(old(fds), ops) ==>
        KeepsExact(tasks, size, ready, old(fds), old(beyond), old(slots), fds, beyond, slots)
    {
      assert KeepsExact(tasks, size, ready, fds, beyond, slots, fds, beyond, slots);
      hide Right, Shape, Beyond, KeepsExact, Monitored, SameClass, SameClasses;
      assert ops[..|ops|] == ops;
      for k := 0 to |ops|
        invariant Valid() && fds == AllMonitored(old(fds), ops[..k])
        invariant SameClasses(old(fds), ops) ==>
          KeepsExact(tasks, size, ready, old(fds), old(beyond), old(slots), fds, beyond, slots)
      {
        hide AllMonitored;
        ghost var fds1, beyond1, slots1 := fds, beyond, slots;
        MonitoredNext(old(fds), ops, k);
        Perform(ops[k]);
        if SameClasses(old(fds), ops) {
          ExactKeptOn(tasks, size, ready, old(fds), old(beyond), old(slots), fds1, beyond1, slots1, fds, beyond, slots);
        }
      }
    }
  }

  lemma SameKeys(tasks: seq<Task>, fds: map<int, Monitors>, t: int, m: Monitors, size: nat, vm: int, s: nat)
    requires size > 0 && t in fds && m.Keys == fds[t].Keys && forall i | 0 <= i < |tasks| :: tasks[i].table in fds
    ensures Watched(tasks, fds, size, vm, s) <==> Watched(tasks, fds[t := m], size, vm, s)
  {
    assert Watches(m, s, size) <==> Watches(fds[t], s, size);
    hide Watches;
    forall i | 0 <= i < |tasks|
      ensures Watches(fds[tasks[i].table], s, size) <==> Watches(fds[t := m][tasks[i].table], s, size)
    {
    }
  }

  /** A large descriptor that must be traced and is not: a task starts, monitors a /proc/<pid>/mem file at the last
      slot and then a large descriptor that must be traced; its slot is not traced. */
  method LargeFdLosesItsSlot(size: nat) returns (cls: FdClass)
    requires size > 0
    ensures cls == ProcMem
  {
    var tracees := new Tracees(size, [Task(0, 0)]);
    assert tracees.tasks[0] == Task(0, 0);
    var s := size - 1;
    tracees.InitFdsDisabled(0);
    tracees.AddMonitor(0, s, ProcMem);
    tracees.AddMonitor(0, size, Traced);
    cls := tracees.slots[0][s];
    assert cls == JoinFrom(tracees.tasks, tracees.fds, tracees.beyond, size, 0, 0, s, Untraced) by {
      assert Uses(tracees.tasks, 0, 0);
      assert Slot(size, size) == s;
    }
    assert tracees.tasks == [Task(0, 0)];
    assert JoinFrom(tracees.tasks, tracees.fds, tracees.beyond, size, 1, 0, s, ProcMem) == ProcMem;
  }
  /** A monitor that is replaced by one of another class, and a slot that keeps the old one. */
  method ReplacedMonitorIsStale(size: nat) returns (monitored: FdClass, cls: FdClass)
    requires size > 0
    ensures monitored == Traced && cls == ProcMem
  {
    var tracees := new Tracees(size, [Task(0, 0)]);
    tracees.InitFdsDisabled(0);
    assert tracees.tasks[0] == Task(0, 0) && tracees.tasks == [Task(0, 0)];
    tracees.AddMonitor(0, 0, ProcMem);
    cls := tracees.slots[0][0];
    assert cls == JoinFrom(tracees.tasks, tracees.fds, tracees.beyond, size, 0, 0, 0, Untraced) by {
      assert Uses(tracees.tasks, 0, 0);
    }
    assert JoinFrom(tracees.tasks, tracees.fds, tracees.beyond, size, 1, 0, 0, ProcMem) == ProcMem;
    tracees.ReplaceMonitor(0, 0, Traced);
    monitored, cls := tracees.fds[0][0], tracees.slots[0][0];
  }
}
