// The service manager's reservations (crates/arod/src/hub.rs) at lock granularity. Two locks guard
// the maps. A removal or a registration holds the reservation lock over both its parts and takes the
// services lock for the second part only, so other threads can unregister or look up in between.
// Each method below is one critical section; any sequence of calls that respects the reservation
// lock is an interleaving of the threads.
module ServiceHub {
  import opened Bytes

  type Name = string
  type Binder = nat
  type Pid = int

  // Who holds the reservation lock between its two critical sections.
  datatype Holder = Free | Removing(pid: Pid) | Registering(name: Name, binder: Binder, pid: Pid)

  function Retired(reserved: map<Name, Pid>, pid: Pid): (r: map<Name, Pid>)
    ensures r.Keys == reserved.Keys
    ensures forall n :: n in r ==> r[n] == if reserved[n] == pid then 0 else reserved[n]
  {
    map n | n in reserved :: if reserved[n] == pid then 0 else reserved[n]
  }

  function Withdrawn(services: map<Name, (Binder, Pid)>, pid: Pid): (r: map<Name, (Binder, Pid)>)
    ensures forall n :: n in r <==> n in services && services[n].1 != pid
    ensures forall n :: n in r ==> r[n] == services[n]
  {
    map n | n in services && services[n].1 != pid :: services[n]
  }

  // ---------- runs ----------

  datatype State = State(services: map<Name, (Binder, Pid)>, reserved: map<Name, Pid>, holder: Holder)

  function ReservedFor(reserved: map<Name, Pid>, names: seq<Name>, pid: Pid): (r: map<Name, Pid>)
  {
    map n | n in reserved.Keys + (set x | x in names) :: if n in names then pid else reserved[n]
  }

  // One critical section; one whose lock is taken does not run.
  function Entered(s: State, c: Section): State
  {
    match c
    case SReserve(names, p) => if s.holder.Free? then s.(reserved := ReservedFor(s.reserved, names, p)) else s
    case SBeginRemove(p) => if s.holder.Free? then s.(reserved := Retired(s.reserved, p), holder := Removing(p)) else s
    case SFinishRemove =>
      if s.holder.Removing? then s.(services := Withdrawn(s.services, s.holder.pid), holder := Free) else s
    case SBeginRegister(n, b, p) =>
      if s.holder.Free? && !(n in s.reserved && s.reserved[n] != p) then s.(holder := Registering(n, b, p)) else s
    case SFinishRegister =>
      if s.holder.Registering? then
        s.(services := s.services[s.holder.name := (s.holder.binder, s.holder.pid)], holder := Free)
      else s
    case SUnregister(n, b, p) =>
      if n in s.services && s.services[n] == (b, p) then s.(services := s.services - {n}) else s
  }

  function After(s: State, schedule: seq<Section>): State
  {
    if schedule == [] then s else Entered(After(s, schedule[..|schedule| - 1]), schedule[|schedule| - 1])
  }

  predicate Owns(s: State, name: Name, pid: Pid)
  {
    name in s.services && s.services[name].1 == pid
  }

  // After the schedule, the process holds the name.
  predicate EndsOwned(s: State, schedule: seq<Section>, name: Name, pid: Pid)
  {
    Owns(After(s, schedule), name, pid)
  }

  // No section of the schedule reserves the name (for that process).
  predicate NotReserved(schedule: seq<Section>, name: Name)
  {
    forall c :: c in schedule ==> !(c.SReserve? && name in c.names)
  }

  predicate NotReservedFor(schedule: seq<Section>, name: Name, pid: Pid)
  {
    forall c :: c in schedule ==> !(c.SReserve? && name in c.names && c.pid == pid)
  }

  // The process is gone: its reservations are retired, its entries withdrawn.
  function Removed(s: State, pid: Pid): State
  {
    Entered(Entered(s, SBeginRemove(pid)), SFinishRemove)
  }

  // A removed process that its own name is still closed to.
  predicate Locked(s: State, name: Name, pid: Pid)
  {
    && name in s.reserved && s.reserved[name] != pid && !Owns(s, name, pid)
    && !(s.holder.Registering? && s.holder.name == name && s.holder.pid == pid)
  }

  lemma {:induction false} StaysLocked(s: State, schedule: seq<Section>, name: Name, pid: Pid)
    requires Locked(s, name, pid) && pid != 0 && NotReservedFor(schedule, name, pid)
    ensures Locked(After(s, schedule), name, pid)
  {
    if schedule != [] {
      var before := schedule[..|schedule| - 1];
      assert schedule == before + [schedule[|schedule| - 1]];
      StaysLocked(s, before, name, pid);
    }
  }

  // After a process was removed, some interleaving of late sections gives a name reserved for it back to
  // it, without reserving it anew, exactly when that process is process 0.
  lemma LateRegistration(s: State, name: Name, pid: Pid)
    requires s.holder.Free? && name in s.reserved && s.reserved[name] == pid
    ensures (exists schedule ::
              NotReservedFor(schedule, name, pid) && EndsOwned(Removed(s, pid), schedule, name, pid))
            <==> pid == 0
  {
    var r := Removed(s, pid);
    if pid == 0 {
      RegistersAs(r, name, 0);
      assert NotReservedFor(Registration(name, 0), name, pid) && EndsOwned(r, Registration(name, 0), name, pid);
    } else {
      forall schedule | NotReservedFor(schedule, name, pid)
        ensures !EndsOwned(r, schedule, name, pid)
      {
        StaysLocked(r, schedule, name, pid);
      }
    }
  }

  // The two sections of an admitted registration.
  function Registration(name: Name, pid: Pid): seq<Section>
  {
    [SBeginRegister(name, 0, pid), SFinishRegister]
  }

  lemma RegistersAs(s: State, name: Name, pid: Pid)
    requires s.holder.Free? && !(name in s.reserved && s.reserved[name] != pid)
    ensures Owns(After(s, Registration(name, pid)), name, pid)
    ensures forall p :: NotReservedFor(Registration(name, pid), name, p)
    ensures NotReserved(Registration(name, pid), name) && SBeginRemove(pid) !in Registration(name, pid)
  {
    var two := Registration(name, pid);
    assert two[..1][..0] == [] && two[..1] == [two[0]];
    assert After(s, two[..1]) == Entered(s, two[0]);
  }

  // The name is open to its reserved owner only; to process 0 as well, once the owner was removed.
  predicate Guarded(s: State, name: Name, pid: Pid, removed: bool)
  {
    && name in s.reserved && (s.reserved[name] == pid || (removed && s.reserved[name] == 0))
    && (name in s.services ==> s.services[name].1 == pid || (removed && s.services[name].1 == 0))
    && (s.holder.Registering? && s.holder.name == name ==> s.holder.pid == pid || (removed && s.holder.pid == 0))
  }

  lemma GuardedStep(s: State, c: Section, name: Name, pid: Pid, removed: bool)
    requires Guarded(s, name, pid, removed) && !(c.SReserve? && name in c.names)
    ensures Guarded(Entered(s, c), name, pid, removed || c == SBeginRemove(pid))
  {
  }

  lemma {:induction false} StaysGuarded(s: State, schedule: seq<Section>, name: Name, pid: Pid)
    requires Guarded(s, name, pid, false) && NotReserved(schedule, name)
    ensures Guarded(After(s, schedule), name, pid, SBeginRemove(pid) in schedule)
  {
    if schedule != [] {
      hide Guarded, Entered;
      var before, last := schedule[..|schedule| - 1], schedule[|schedule| - 1];
      assert schedule == before + [last];
      StaysGuarded(s, before, name, pid);
      GuardedStep(After(s, before), last, name, pid, SBeginRemove(pid) in before);
    }
  }

  function Reserved(s: State, name: Name, pid: Pid): State
  {
    s.(reserved := s.reserved[name := pid])
  }

  // A name is reserved while it is free. In an interleaving that does not reserve it again, its holder is
  // the process it was reserved for, or process 0 once that process was removed.
  lemma ReservedWhileFree(s: State, name: Name, pid: Pid, schedule: seq<Section>)
    requires s.holder.Free? && name !in s.services && NotReserved(schedule, name)
    ensures var t := After(Reserved(s, name, pid), schedule);
            name in t.services ==>
              t.services[name].1 == pid || (t.services[name].1 == 0 && SBeginRemove(pid) in schedule)
  {
    StaysGuarded(Reserved(s, name, pid), schedule, name, pid);
  }

  // Exactly which processes can come to hold it: the owner and process 0, and without a removal of the
  // owner the owner alone.
  lemma HoldersIff(s: State, name: Name, pid: Pid, p: Pid)
    requires s.holder.Free? && name !in s.services
    ensures (exists schedule ::
              NotReserved(schedule, name) && EndsOwned(Reserved(s, name, pid), schedule, name, p))
            <==> p == pid || p == 0
    ensures (exists schedule ::
              NotReserved(schedule, name) && SBeginRemove(pid) !in schedule
              && EndsOwned(Reserved(s, name, pid), schedule, name, p))
            <==> p == pid
  {
    var r := Reserved(s, name, pid);
    forall schedule | NotReserved(schedule, name)
      ensures EndsOwned(r, schedule, name, p) ==> p == pid || (p == 0 && SBeginRemove(pid) in schedule)
    {
      ReservedWhileFree(s, name, pid, schedule);
    }
    RegistersAs(r, name, pid);
    var own := Registration(name, pid);
    assert NotReserved(own, name) && SBeginRemove(pid) !in own && EndsOwned(r, own, name, pid);
    RemovedThenZero(r, name, pid);
  }

  // The owner is removed and process 0 registers the name.
  lemma RemovedThenZero(s: State, name: Name, pid: Pid)
    requires s.holder.Free? && name in s.reserved && s.reserved[name] == pid
    ensures exists schedule :: NotReserved(schedule, name) && EndsOwned(s, schedule, name, 0)
  {
    var late := Registration(name, 0);
    var all := [SBeginRemove(pid), SFinishRemove] + late;
    RegistersAs(Removed(s, pid), name, 0);
    AfterTwice(s, [SBeginRemove(pid), SFinishRemove], late);
    var two := [SBeginRemove(pid), SFinishRemove];
    assert two[..1] == [two[0]] && two[..1][..0] == [];
    assert After(s, two[..1]) == Entered(s, two[0]);
    assert NotReserved(all, name) && EndsOwned(s, all, name, 0);
  }

  lemma {:induction false} AfterTwice(s: State, a: seq<Section>, b: seq<Section>)
    ensures After(s, a + b) == After(After(s, a), b)
    decreases |b|
  {
    if b == [] {
      assert a + b == a;
    } else {
      var n := |b| - 1;
      assert (a + b)[..|a| + n] == a + b[..n];
      AfterTwice(s, a, b[..n]);
    }
  }

  // ---------- the service manager ----------

  class Hub {
    var services: map<Name, (Binder, Pid)>
    var reserved: map<Name, Pid>
    var holder: Holder
    // Names that were reserved for a process when it was removed, and not reserved for it since.
    ghost var barred: set<(Name, Pid)>
    // Names whose last reservation found them free or held by the process they were reserved for.
    ghost var guarded: map<Name, Pid>

    // A barred process other than 0 neither holds the name nor is about to; while its removal is
    // under way its old entry may still be there.
    ghost predicate BarsHold()
      reads this
    {
      forall n, p :: (n, p) in barred && p != 0 ==>
        && n in reserved && reserved[n] != p
        && (n in services && services[n].1 == p ==> holder == Removing(p))
        && !(holder.Registering? && holder.name == n && holder.pid == p)
    }

    // A guarded name is held by its reserved owner, or by process 0 once the owner was removed.
    ghost predicate GuardsHold()
      reads this
    {
      forall n :: n in guarded ==>
        && n in reserved && (reserved[n] == guarded[n] || reserved[n] == 0)
        && (n in services ==> services[n].1 == guarded[n] || services[n].1 == 0)
        && (holder.Registering? && holder.name == n ==> holder.pid == guarded[n] || holder.pid == 0)
    }

    ghost predicate Valid()
      reads this
    {
      BarsHold() && GuardsHold()
    }

    ghost function View(): State
      reads this
    {
      State(services, reserved, holder)
    }

    constructor ()
      ensures Valid() && services == map[] && reserved == map[] && holder == Free && barred == {} && guarded == map[]
    {
      services, reserved, holder := map[], map[], Free;
      barred, guarded := {}, map[];
    }

    // reserve, for one name of its list; the lock is held over the list.
    method ReserveOne(name: Name, pid: Pid)
      requires Valid() && holder == Free
      modifies this
      ensures Valid() && holder == Free && services == old(services)
      ensures reserved == old(reserved)[name := pid]
      ensures barred == old(barred) - {(name, pid)}
      ensures if name in services && services[name].1 != pid && services[name].1 != 0
              then guarded == old(guarded) - {name} else guarded == old(guarded)[name := pid]
    {
      reserved := reserved[name := pid];
      barred := barred - {(name, pid)};
      guarded := if name in services && services[name].1 != pid && services[name].1 != 0 then guarded - {name}
                 else guarded[name := pid];
    }

    method Reserve(names: seq<Name>, pid: Pid)
      requires Valid() && holder == Free
      modifies this
      ensures Valid() && holder == Free && services == old(services)
      ensures forall n :: n in reserved <==> n in old(reserved) || n in names
      ensures forall n :: n in reserved ==> reserved[n] == if n in names then pid else old(reserved)[n]
      ensures forall n, p :: (n, p) in barred <==> (n, p) in old(barred) && !(n in names && p == pid)
      ensures forall n :: n in names && n !in services ==> n in guarded && guarded[n] == pid
      ensures forall n :: n !in names ==> (n in guarded <==> n in old(guarded))
      ensures forall n :: n !in names && n in guarded ==> guarded[n] == old(guarded)[n]
    {
      for i := 0 to |names|
        invariant Valid() && holder == Free && services == old(services)
        invariant forall n :: n in reserved <==> n in old(reserved) || n in names[..i]
        invariant forall n :: n in reserved ==> reserved[n] == if n in names[..i] then pid else old(reserved)[n]
        invariant forall n, p :: (n, p) in barred <==> (n, p) in old(barred) && !(n in names[..i] && p == pid)
        invariant forall n :: n in names[..i] && n !in services ==> n in guarded && guarded[n] == pid
        invariant forall n :: n !in names[..i] ==> (n in guarded <==> n in old(guarded))
        invariant forall n :: n !in names[..i] && n in guarded ==> guarded[n] == old(guarded)[n]
      {
        ReserveOne(names[i], pid);
        assert names[..i + 1] == names[..i] + [names[i]];
      }
      assert names[..|names|] == names;
    }

    // remove_process, first part: retire the reservations.
    method BeginRemove(pid: Pid)
      requires Valid() && holder == Free
      modifies this
      ensures Valid() && holder == Removing(pid) && services == old(services)
      ensures reserved == Retired(old(reserved), pid)
      ensures barred == old(barred) + set n | n in old(reserved) && old(reserved)[n] == pid :: (n, pid)
      ensures guarded == old(guarded)
    {
      ghost var now := set n | n in reserved && reserved[n] == pid :: (n, pid);
      barred := barred + now;
      reserved := Retired(reserved, pid);
      holder := Removing(pid);
    }

    // remove_process, second part: withdraw exactly the entries of the process.
    method FinishRemove()
      requires Valid() && holder.Removing?
      modifies this
      ensures Valid() && holder == Free
      ensures services == Withdrawn(old(services), old(holder).pid)
      ensures reserved == old(reserved) && barred == old(barred) && guarded == old(guarded)
    {
      services := Withdrawn(services, holder.pid);
      holder := Free;
    }

    // register_owned, first part: a name reserved for another process is refused.
    method BeginRegister(name: Name, binder: Binder, pid: Pid) returns (ok: bool)
      requires Valid() && holder == Free
      modifies this`holder
      ensures Valid()
      ensures ok <==> !(name in reserved && reserved[name] != pid)
      ensures holder == if ok then Registering(name, binder, pid) else Free
      // A process barred from the name is refused.
      ensures (name, pid) in barred && pid != 0 ==> !ok
      // So is any process but the owner of a guarded name.
      ensures name in guarded && pid != guarded[name] && pid != 0 ==> !ok
    {
      if name in reserved && reserved[name] != pid {
        return false;
      }
      holder := Registering(name, binder, pid);
      return true;
    }

    // register_owned, second part.
    method FinishRegister()
      requires Valid() && holder.Registering?
      modifies this
      ensures Valid() && holder == Free
      ensures services == old(services)[old(holder).name := (old(holder).binder, old(holder).pid)]
      ensures reserved == old(reserved) && barred == old(barred) && guarded == old(guarded)
    {
      services := services[holder.name := (holder.binder, holder.pid)];
      holder := Free;
    }

    // tryUnregisterService takes the services lock only: it may run between the parts above.
    method TryUnregister(name: Name, binder: Binder, pid: Pid)
      requires Valid()
      modifies this`services
      ensures Valid()
      ensures services == if name in old(services) && old(services)[name] == (binder, pid) then old(services) - {name}
                          else old(services)
    {
      if name in services && services[name] == (binder, pid) {
        services := services - {name};
      }
    }

    method OwnedService(name: Name, pid: Pid) returns (b: Option<Binder>)
      requires Valid()
      ensures b == if name in services && services[name].1 == pid then Some(services[name].0) else None
      // Nothing is found for a process barred from the name, unless its removal is still under way.
      ensures (name, pid) in barred && pid != 0 && holder != Removing(pid) ==> b == None
    {
      if name in services && services[name].1 == pid {
        return Some(services[name].0);
      }
      return None;
    }

    // One critical section, if the lock it needs is free.
    method Enter(s: Section)
      requires Valid()
      modifies this
      ensures Valid() && View() == Entered(old(View()), s)
      ensures forall n, p :: (n, p) in old(barred) && !(s.SReserve? && n in s.names && s.pid == p) ==> (n, p) in barred
      ensures forall n :: n in old(guarded) && !(s.SReserve? && n in s.names) ==> n in guarded && guarded[n] == old(guarded)[n]
      // No section but its own registration makes a process the owner of a name.
      ensures forall n :: n in services && !(n in old(services) && services[n] == old(services)[n]) ==>
                old(holder) == Registering(n, services[n].0, services[n].1)
    {
      match s {
        case SReserve(names, p) => if holder == Free {
          ghost var now := ReservedFor(reserved, names, p);
          Reserve(names, p);
          assert reserved == now;
        }
        case SBeginRemove(p) => if holder == Free { BeginRemove(p); }
        case SFinishRemove => if holder.Removing? { FinishRemove(); }
        case SBeginRegister(n, b, p) => if holder == Free { var ok := BeginRegister(n, b, p); }
        case SFinishRegister => if holder.Registering? { FinishRegister(); }
        case SUnregister(n, b, p) => TryUnregister(n, b, p);
      }
    }

    // Any interleaving: a schedule of critical sections, none of which enters the reservation lock while
    // another thread holds it.
    method Run(schedule: seq<Section>)
      requires Valid()
      modifies this
      ensures Valid() && View() == After(old(View()), schedule)
    {
      hide Entered, BarsHold, GuardsHold;
      for i := 0 to |schedule|
        invariant Valid() && View() == After(old(View()), schedule[..i])
      {
        assert schedule[..i + 1][..i] == schedule[..i];
        Enter(schedule[i]);
      }
      assert schedule[..|schedule|] == schedule;
    }
  }

  datatype Section =
    | SReserve(names: seq<Name>, pid: Pid)
    | SBeginRemove(pid: Pid)
    | SFinishRemove
    | SBeginRegister(name: Name, binder: Binder, pid: Pid)
    | SFinishRegister
    | SUnregister(name: Name, binder: Binder, pid: Pid)
}
