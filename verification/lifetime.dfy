/** The lifetime protocol between the accept loop and its handler threads, one shared access at a time:
    server/aesd_server_thrd.c. Any number of threads, any interleaving. */
module Lifetime {
  import opened Sequences

  // Names a ThreadData, the thread it was made for, and the list item that points to it.
  type Id = nat

  datatype Option<T> = None | Some(value: T)

  // Where connection_handler is: reading or processing, after close, after raising is_completed,
  // and after its last use of the data.
  datatype Handler = Serving | Closed | Flagged | Returned

  // Where the main thread is, with its local variables.
  datatype Main =
    | Polling
    | Allocated(t: Id)
    | CreateFailed(t: Id)
    | Created(t: Id)
    | Scan(item: Option<Id>)
    | Examine(t: Id, tmp: Option<Id>)
    | Join(t: Id, tmp: Option<Id>)
    | Unlink(t: Id, tmp: Option<Id>)
    | FreeData(t: Id, tmp: Option<Id>)
    | FreeItem(t: Id, tmp: Option<Id>)
    | Count(tmp: Option<Id>)
    | Shutdown
    | ShutJoin(t: Id)
    | ShutUnlink(t: Id)
    | ShutFreeData(t: Id)
    | ShutFreeItem(t: Id)
    | Exited

  // What the environment decides: at the poll a signal, a connection or neither; at pthread_create
  // its success; and for a handler whether its read delivers data.
  datatype Step =
    | MainStep(signal: bool, connection: bool, creates: bool)
    | HandlerStep(t: Id, data: bool)

  datatype State = State(
    main: Main,
    next: Id,
    handlers: map<Id, Handler>,
    joined: set<Id>,
    list: seq<Id>,
    liveData: set<Id>,
    liveItems: set<Id>,
    frees: multiset<Id>,
    clients: int,
    fault: bool)

  const INIT := State(Polling, 0, map[], {}, [], {}, {}, multiset{}, 0, false)

  function Follower(list: seq<Id>, t: Id): Option<Id> {
    if list == [] then None
    else if list[0] == t then (if |list| > 1 then Some(list[1]) else None)
    else Follower(list[1..], t)
  }

  function Removed(list: seq<Id>, t: Id): seq<Id> {
    if list == [] then [] else if list[0] == t then list[1..] else [list[0]] + Removed(list[1..], t)
  }

  // The items that SLIST_REMOVE reads on its way to t, and t.
  function UpTo(list: seq<Id>, t: Id): (items: seq<Id>)
    ensures forall x :: x in items ==> x in list
  {
    if list == [] then [] else if list[0] == t then [t] else [list[0]] + UpTo(list[1..], t)
  }

  function First(list: seq<Id>): Option<Id> {
    if list == [] then None else Some(list[0])
  }

  // Any access to data or an item that is not allocated is a fault.
  function UseData(s: State, t: Id): State {
    s.(fault := s.fault || t !in s.liveData)
  }

  function UseItem(s: State, t: Id): State {
    s.(fault := s.fault || t !in s.liveItems)
  }

  // Unlinking t reads the links of all items up to it; not to find it is to run off the end of the list.
  function UnlinkOf(s: State, t: Id): State {
    s.(fault := s.fault || t !in s.list || exists x :: x in UpTo(s.list, t) && x !in s.liveItems,
       list := Removed(s.list, t))
  }

  // The head is unlinked without a search.
  function UnlinkHead(s: State): State {
    if s.list == [] then s.(fault := true) else UseItem(s, s.list[0]).(list := s.list[1..])
  }

  // So is freeing what is not allocated, or the data of a thread that has not been joined.
  function FreeDataOf(s: State, t: Id): State {
    s.(fault := s.fault || t !in s.liveData || (t in s.handlers && t !in s.joined),
       liveData := s.liveData - {t},
       frees := s.frees + multiset{t})
  }

  function FreeItemOf(s: State, t: Id): State {
    s.(fault := s.fault || t !in s.liveItems, liveItems := s.liveItems - {t})
  }

  // pthread_join waits for the handler to return; joining twice is a fault.
  function CanJoin(s: State, t: Id): bool {
    t in s.handlers && s.handlers[t] == Returned
  }

  function JoinOf(s: State, t: Id): State {
    s.(fault := s.fault || t in s.joined, joined := s.joined + {t})
  }

  function Handle(s: State, t: Id, data: bool): State {
    if t !in s.handlers || s.handlers[t] == Returned then s
    else
      var pc := match s.handlers[t]
                case Serving => if data then Serving else Closed
                case Closed => Flagged
                case _ => Returned;
      UseData(s, t).(handlers := s.handlers[t := pc])
  }

  predicate IsCompleted(s: State, t: Id) {
    t in s.handlers && (s.handlers[t] == Flagged || s.handlers[t] == Returned)
  }

  // A join that has to wait leaves the state as it is.
  function Run(s: State, signal: bool, connection: bool, creates: bool): State {
    match s.main
    case Polling =>
      if signal then s.(main := Shutdown)
      else if connection then s.(main := Allocated(s.next), next := s.next + 1, liveData := s.liveData + {s.next})
      else s
    case Allocated(t) =>
      if creates then UseData(s, t).(main := Created(t), handlers := s.handlers[t := Serving])
      else UseData(s, t).(main := CreateFailed(t))
    case CreateFailed(t) => FreeDataOf(s, t).(main := Scan(First(s.list)))
    case Created(t) =>
      var list := [t] + s.list;
      UseData(s, t).(main := Scan(First(list)), list := list, liveItems := s.liveItems + {t}, clients := s.clients + 1)
    case Scan(item) =>
      if item.None? then s.(main := Polling)
      else UseItem(s, item.value).(main := Examine(item.value, Follower(s.list, item.value)))
    case Examine(t, tmp) => UseData(UseItem(s, t), t).(main := if IsCompleted(s, t) then Join(t, tmp) else Scan(tmp))
    case Join(t, tmp) => if CanJoin(s, t) then JoinOf(UseData(s, t), t).(main := Unlink(t, tmp)) else s
    case Unlink(t, tmp) => UnlinkOf(s, t).(main := FreeData(t, tmp))
    case FreeData(t, tmp) => FreeDataOf(s, t).(main := FreeItem(t, tmp))
    case FreeItem(t, tmp) => FreeItemOf(s, t).(main := Count(tmp))
    case Count(tmp) => s.(main := Scan(tmp), clients := s.clients - 1)
    case Shutdown =>
      if s.list == [] then s.(main := Exited)
      else UseData(UseItem(s, s.list[0]), s.list[0]).(main := ShutJoin(s.list[0]))
    case ShutJoin(t) => if CanJoin(s, t) then JoinOf(UseData(s, t), t).(main := ShutUnlink(t)) else s
    case ShutUnlink(t) => UnlinkHead(s).(main := ShutFreeData(t))
    case ShutFreeData(t) => FreeDataOf(s, t).(main := ShutFreeItem(t))
    case ShutFreeItem(t) => FreeItemOf(s, t).(main := Shutdown)
    case Exited => s
  }

  function Next(s: State, step: Step): State {
    match step
    case MainStep(signal, connection, creates) => Run(s, signal, connection, creates)
    case HandlerStep(t, data) => Handle(s, t, data)
  }

  function RunAll(s: State, steps: seq<Step>): State
    decreases |steps|
  {
    if steps == [] then s else RunAll(Next(s, steps[0]), steps[1..])
  }

  lemma SetOfCons(x: Id, list: seq<Id>)
    ensures SetOf([x] + list) == {x} + SetOf(list)
    ensures NoDuplicates([x] + list) <==> x !in list && NoDuplicates(list)
  {
    var l := [x] + list;
    assert forall i :: 0 <= i < |list| ==> l[i + 1] == list[i];
    if NoDuplicates(l) {
      forall i | 0 <= i < |list|
        ensures list[i] != x
      {
        assert l[0] != l[i + 1];
      }
      forall i, j | 0 <= i < j < |list|
        ensures list[i] != list[j]
      {
        assert l[i + 1] != l[j + 1];
      }
    }
  }

  lemma {:induction false} RemovedKeeps(list: seq<Id>, t: Id)
    requires NoDuplicates(list) && t in list
    ensures NoDuplicates(Removed(list, t))
    ensures SetOf(Removed(list, t)) == SetOf(list) - {t}
    ensures |Removed(list, t)| == |list| - 1
  {
    var x, rest := list[0], list[1..];
    assert list == [x] + rest;
    SetOfCons(x, rest);
    if x != t {
      RemovedKeeps(rest, t);
      SetOfCons(x, Removed(rest, t));
      assert x !in SetOf(Removed(rest, t));
    }
  }

  lemma {:induction false} FollowerIn(list: seq<Id>, t: Id)
    requires NoDuplicates(list)
    ensures var f := Follower(list, t);
            f.Some? ==> f.value in list && f.value != t
  {
    if list != [] && list[0] != t {
      FollowerIn(list[1..], t);
    }
  }

  // The items from t on, and from the item on that a local variable points to.
  function From(list: seq<Id>, t: Id): seq<Id> {
    if list == [] || list[0] == t then list else From(list[1..], t)
  }

  function Behind(list: seq<Id>, item: Option<Id>): seq<Id> {
    if item.None? then [] else From(list, item.value)
  }

  // What comes behind t does not change when t is taken out.
  lemma {:induction false} BehindFollower(list: seq<Id>, t: Id)
    requires NoDuplicates(list) && t in list
    ensures From(list, t) == [t] + Behind(list, Follower(list, t))
    ensures Behind(Removed(list, t), Follower(list, t)) == Behind(list, Follower(list, t))
  {
    var rest := list[1..];
    if list[0] == t {
      if rest != [] {
        assert list[1] != t;
        assert From(list, rest[0]) == From(rest, rest[0]) == rest;
      }
    } else {
      BehindFollower(rest, t);
      var f := Follower(list, t);
      if f.Some? {
        FollowerIn(rest, t);
        assert exists i :: 0 < i < |list| && list[i] == f.value by {
          var i :| 0 <= i < |rest| && rest[i] == f.value;
          assert list[i + 1] == f.value;
        }
        assert list[0] != f.value;
        assert ([list[0]] + Removed(rest, t))[1..] == Removed(rest, t);
      }
    }
  }

  // Data not reached from the list, items not in the list, and threads joined but not yet freed.
  function ExtraData(m: Main): set<Id> {
    match m
    case Allocated(t) => {t}
    case CreateFailed(t) => {t}
    case Created(t) => {t}
    case FreeData(t, _) => {t}
    case ShutFreeData(t) => {t}
    case _ => {}
  }

  function ExtraItems(m: Main): set<Id> {
    match m
    case FreeData(t, _) => {t}
    case FreeItem(t, _) => {t}
    case ShutFreeData(t) => {t}
    case ShutFreeItem(t) => {t}
    case _ => {}
  }

  function JoinedUnfreed(m: Main): set<Id> {
    match m
    case Unlink(t, _) => {t}
    case FreeData(t, _) => {t}
    case ShutUnlink(t) => {t}
    case ShutFreeData(t) => {t}
    case _ => {}
  }

  function NoThread(m: Main): set<Id> {
    match m
    case Allocated(t) => {t}
    case CreateFailed(t) => {t}
    case _ => {}
  }

  ghost predicate Listed(s: State, item: Option<Id>) {
    item.Some? ==> item.value in s.list
  }

  // What the main thread's local variables point to.
  ghost predicate LocalsOk(s: State) {
    match s.main
    case Scan(item) => Listed(s, item)
    case Examine(t, tmp) => t in s.list && tmp == Follower(s.list, t)
    case Join(t, tmp) =>
      && t in s.list && tmp == Follower(s.list, t)
      && t in s.handlers && (s.handlers[t] == Flagged || s.handlers[t] == Returned)
    case Unlink(t, tmp) => t in s.list && tmp == Follower(s.list, t)
    case FreeData(_, tmp) => Listed(s, tmp)
    case FreeItem(_, tmp) => Listed(s, tmp)
    case Count(tmp) => Listed(s, tmp)
    case ShutJoin(t) => First(s.list) == Some(t)
    case ShutUnlink(t) => First(s.list) == Some(t)
    case Exited => s.list == []
    case _ => true
  }

  // Before shutdown the counter is the length of the list, but for the item that maintenance is taking out.
  ghost predicate CountOk(s: State) {
    match s.main
    case FreeData(_, _) => s.clients == |s.list| + 1
    case FreeItem(_, _) => s.clients == |s.list| + 1
    case Count(_) => s.clients == |s.list| + 1
    case _ => InShutdown(s.main) || s.clients == |s.list|
  }

  predicate InShutdown(m: Main) {
    m.Shutdown? || m.ShutJoin? || m.ShutUnlink? || m.ShutFreeData? || m.ShutFreeItem? || m.Exited?
  }

  ghost predicate Inv(s: State) {
    && !s.fault
    && NoDuplicates(s.list)
    && LocalsOk(s) && CountOk(s)
    && s.liveData == SetOf(s.list) + ExtraData(s.main) && SetOf(s.list) !! ExtraData(s.main)
    && s.liveItems == SetOf(s.list) + ExtraItems(s.main) && SetOf(s.list) !! ExtraItems(s.main)
    // every thread has either been joined or still has its data
    && s.joined <= s.handlers.Keys
    && s.handlers.Keys - s.joined == s.liveData - JoinedUnfreed(s.main) - NoThread(s.main)
    && JoinedUnfreed(s.main) <= s.joined && NoThread(s.main) !! s.handlers.Keys
    && (forall t :: t in s.joined ==> s.handlers[t] == Returned)
    && (forall t :: t in s.handlers || t in s.liveData ==> t < s.next)
    && (forall t: Id :: s.frees[t] == if t < s.next && t !in s.liveData then 1 else 0)
  }

  lemma InitInv()
    ensures Inv(INIT)
  {
  }

  lemma HandlerKeeps(s: State, t: Id, data: bool)
    requires Inv(s)
    ensures Inv(Handle(s, t, data))
  {
    assert t in s.handlers && s.handlers[t] != Returned ==> t in s.handlers.Keys - s.joined;
  }

  lemma AcceptKeeps(s: State, signal: bool, connection: bool, creates: bool)
    requires Inv(s)
    requires s.main.Polling? || s.main.Allocated? || s.main.CreateFailed? || s.main.Created?
    ensures Inv(Run(s, signal, connection, creates))
  {
    if s.main.Allocated? {
      var t := s.main.t;
      assert s.handlers[t := Serving].Keys - s.joined == s.handlers.Keys - s.joined + {t};
    }
  }

  // A join takes one thread out of those not yet joined.
  lemma JoinTakes(s: State, t: Id)
    ensures s.handlers.Keys - JoinOf(s, t).joined == s.handlers.Keys - s.joined - {t}
  {
  }

  lemma VisitKeeps(s: State)
    requires Inv(s)
    requires s.main.Scan? || s.main.Examine?
    ensures Inv(Run(s, false, false, false))
  {
    if s.main.Scan? && s.main.item.Some? {
      FollowerIn(s.list, s.main.item.value);
    } else if s.main.Examine? {
      FollowerIn(s.list, s.main.t);
    }
  }

  lemma TakeOutKeeps(s: State)
    requires Inv(s)
    requires s.main.Join? || s.main.Unlink?
    ensures Inv(Run(s, false, false, false))
  {
    var t, tmp := s.main.t, s.main.tmp;
    if s.main.Join? {
      JoinTakes(s, t);
    } else {
      RemovedKeeps(s.list, t);
      FollowerIn(s.list, t);
      assert tmp.Some? ==> tmp.value in SetOf(s.list) - {t};
    }
  }

  lemma ShutdownKeeps(s: State)
    requires Inv(s)
    requires s.main.Shutdown? || s.main.ShutJoin? || s.main.ShutUnlink? || s.main.Exited?
    ensures Inv(Run(s, false, false, false))
  {
    match s.main
    case ShutJoin(t) => JoinTakes(s, t);
    case ShutUnlink(t) =>
      assert Removed(s.list, t) == s.list[1..];
      RemovedKeeps(s.list, t);
    case _ =>
  }

  predicate Freeing(m: Main) {
    m.FreeData? || m.FreeItem? || m.Count? || m.ShutFreeData? || m.ShutFreeItem?
  }

  lemma FreeingKeeps(s: State)
    requires Inv(s) && Freeing(s.main)
    ensures Inv(Run(s, false, false, false))
  {
  }

  lemma NextKeeps(s: State, step: Step)
    requires Inv(s)
    ensures Inv(Next(s, step))
  {
    match step
    case HandlerStep(t, data) => HandlerKeeps(s, t, data);
    case MainStep(signal, connection, creates) =>
      hide Inv;
      if Freeing(s.main) {
        FreeingKeeps(s);
      } else if InShutdown(s.main) {
        ShutdownKeeps(s);
      } else if s.main.Polling? || s.main.Allocated? || s.main.CreateFailed? || s.main.Created? {
        AcceptKeeps(s, signal, connection, creates);
      } else if s.main.Join? || s.main.Unlink? {
        TakeOutKeeps(s);
      } else {
        VisitKeeps(s);
      }
  }

  lemma {:induction false} RunAllKeeps(s: State, steps: seq<Step>)
    requires Inv(s)
    ensures Inv(RunAll(s, steps))
    decreases |steps|
  {
    if steps != [] {
      NextKeeps(s, steps[0]);
      RunAllKeeps(Next(s, steps[0]), steps[1..]);
    }
  }

  // What the current scan has still to visit, and the item it is at.
  function ToVisit(s: State): seq<Id> {
    match s.main
    case CreateFailed(_) => s.list
    case Created(_) => s.list
    case Scan(item) => Behind(s.list, item)
    case Examine(t, _) => From(s.list, t)
    case Join(t, _) => From(s.list, t)
    case Unlink(t, _) => From(s.list, t)
    case FreeData(_, tmp) => Behind(s.list, tmp)
    case FreeItem(_, tmp) => Behind(s.list, tmp)
    case Count(tmp) => Behind(s.list, tmp)
    case _ => []
  }

  // The main thread is on its way from pthread_create through maintenance.
  predicate InMaintenance(m: Main) {
    m.CreateFailed? || m.Created? || m.Scan? || m.Examine? || m.Join? || m.Unlink? || m.FreeData? || m.FreeItem?
    || m.Count?
  }

  // A handler that has raised its flag, and whose item the scan will not pass by.
  ghost predicate WillReap(s: State, t: Id) {
    && t in s.handlers && (s.handlers[t] == Flagged || s.handlers[t] == Returned)
    && (t in s.list ==> t in ToVisit(s))
  }

  lemma ExamineWillReap(s: State, t: Id)
    requires Inv(s) && s.main.Examine? && WillReap(s, t)
    ensures WillReap(Run(s, false, false, false), t)
  {
    hide Inv;
    LocalsHold(s);
    BehindFollower(s.list, s.main.t);
  }

  lemma UnlinkWillReap(s: State, t: Id)
    requires Inv(s) && s.main.Unlink? && WillReap(s, t)
    ensures WillReap(Run(s, false, false, false), t)
  {
    hide Inv;
    LocalsHold(s);
    var x := s.main.t;
    BehindFollower(s.list, x);
    RemovedKeeps(s.list, x);
    assert t in Removed(s.list, x) ==> t in SetOf(s.list) - {x};
  }

  lemma LocalsHold(s: State)
    requires Inv(s)
    ensures LocalsOk(s) && NoDuplicates(s.list)
  {
  }

  lemma OtherWillReap(s: State, signal: bool, connection: bool, creates: bool, t: Id)
    requires Inv(s) && InMaintenance(s.main) && !s.main.Examine? && !s.main.Unlink? && WillReap(s, t)
    ensures var next := Run(s, signal, connection, creates);
            WillReap(next, t) && (InMaintenance(next.main) || (next.main.Polling? && t !in next.list))
  {
    hide Inv;
    LocalsHold(s);
  }

  lemma ScanWillReap(s: State, step: Step, t: Id)
    requires Inv(s) && InMaintenance(s.main) && WillReap(s, t)
    ensures WillReap(Next(s, step), t)
    ensures InMaintenance(Next(s, step).main) || (Next(s, step).main.Polling? && t !in Next(s, step).list)
  {
    hide Inv;
    match step
    case MainStep(signal, connection, creates) =>
      if s.main.Examine? {
        ExamineWillReap(s, t);
      } else if s.main.Unlink? {
        UnlinkWillReap(s, t);
      } else {
        OtherWillReap(s, signal, connection, creates, t);
      }
    case HandlerStep(_, _) =>
  }

  // No state before the last one is back at the poll.
  predicate NoPollBefore(s: State, steps: seq<Step>)
    decreases |steps|
  {
    steps == [] || (!s.main.Polling? && NoPollBefore(Next(s, steps[0]), steps[1..]))
  }

  lemma {:induction false} RunWillReap(s: State, steps: seq<Step>, t: Id)
    requires Inv(s) && InMaintenance(s.main) && WillReap(s, t) && NoPollBefore(s, steps)
    ensures var end := RunAll(s, steps);
            InMaintenance(end.main) || (end.main.Polling? && t !in end.list && t in end.handlers)
    decreases |steps|
  {
    if steps != [] {
      var next := Next(s, steps[0]);
      NextKeeps(s, steps[0]);
      ScanWillReap(s, steps[0], t);
      if next.main.Polling? {
        assert steps[1..] == [];
      } else {
        RunWillReap(next, steps[1..], t);
      }
    }
  }

  lemma {:induction false} RunAppend(s: State, a: seq<Step>, b: seq<Step>)
    ensures RunAll(s, a + b) == RunAll(RunAll(s, a), b)
    decreases |a|
  {
    if a == [] {
      assert a + b == b;
    } else {
      assert (a + b)[0] == a[0] && (a + b)[1..] == a[1..] + b;
      RunAppend(Next(s, a[0]), a[1..], b);
    }
  }

  /** A handler that had raised its flag before a scan began has been joined, its item is off the list and its
      data is freed when that scan is over, whatever the other threads do in between. */
  lemma MaintenanceReaps(before: seq<Step>, steps: seq<Step>, t: Id)
    requires var s := RunAll(INIT, before);
             && (s.main.Created? || s.main.CreateFailed?)
             && t in s.handlers && (s.handlers[t] == Flagged || s.handlers[t] == Returned)
             && NoPollBefore(s, steps)
    requires RunAll(INIT, before + steps).main.Polling?
    ensures var end := RunAll(INIT, before + steps);
            t !in end.list && t in end.joined && t !in end.liveData
  {
    InitInv();
    RunAllKeeps(INIT, before);
    RunAllKeeps(INIT, before + steps);
    RunAppend(INIT, before, steps);
    RunWillReap(RunAll(INIT, before), steps, t);
    var end := RunAll(INIT, before + steps);
    assert t !in SetOf(end.list);
    assert t in end.handlers.Keys - end.joined ==> t in end.liveData;
  }

  /** Maintenance joins only a thread whose handler has raised its flag: the accept loop never waits for one
      that still serves its client. */
  lemma JoinsOnlyCompleted(steps: seq<Step>)
    ensures var s := RunAll(INIT, steps);
            s.main.Join? ==>
              var t := s.main.t;
              t in s.handlers && (s.handlers[t] == Flagged || s.handlers[t] == Returned)
  {
    InitInv();
    RunAllKeeps(INIT, steps);
  }

  /** In every run, nothing is used or freed that is not allocated, no thread is joined twice, and no data
      is freed twice. */
  lemma NoFault(steps: seq<Step>)
    ensures var s := RunAll(INIT, steps);
            !s.fault && forall t: Id :: s.frees[t] <= 1
  {
    InitInv();
    RunAllKeeps(INIT, steps);
  }

  /** The same without the fault flag: whatever the main thread is about to use is allocated, and what it is
      about to free belongs to a thread that has been joined, or was never created. */
  lemma TouchesLive(steps: seq<Step>)
    ensures var s := RunAll(INIT, steps);
            match s.main
            case Allocated(t) => t in s.liveData
            case CreateFailed(t) => t in s.liveData && t !in s.handlers
            case Created(t) => t in s.liveData
            case Scan(item) => item.Some? ==> item.value in s.liveItems
            case Examine(t, _) => t in s.liveItems && t in s.liveData
            case Join(t, _) => t in s.liveData && t !in s.joined
            case Unlink(t, _) => t in s.list && forall x :: x in s.list ==> x in s.liveItems
            case FreeData(t, _) => t in s.liveData && t in s.joined
            case FreeItem(t, _) => t in s.liveItems && t !in s.list
            case Shutdown => s.list != [] ==> s.list[0] in s.liveItems && s.list[0] in s.liveData
            case ShutJoin(t) => t in s.liveData && t !in s.joined
            case ShutUnlink(t) => s.list != [] && s.list[0] == t && t in s.liveItems
            case ShutFreeData(t) => t in s.liveData && t in s.joined
            case ShutFreeItem(t) => t in s.liveItems && t !in s.list
            case _ => true
  {
    InitInv();
    RunAllKeeps(INIT, steps);
    LiveIn(RunAll(INIT, steps));
  }

  lemma LiveIn(s: State)
    requires Inv(s)
    ensures forall x :: x in s.list ==> x in s.liveItems && x in s.liveData
    ensures s.main.Join? || s.main.ShutJoin? ==> s.main.t !in s.joined
    ensures s.main.FreeData? || s.main.ShutFreeData? ==> s.main.t in s.joined && s.main.t in s.liveData
    ensures s.main.FreeItem? || s.main.ShutFreeItem? ==> s.main.t in s.liveItems && s.main.t !in s.list
    ensures s.main.CreateFailed? ==> s.main.t !in s.handlers
  {
    assert forall x :: x in s.list ==> x in SetOf(s.list);
    assert forall x :: x in SetOf(s.list) - JoinedUnfreed(s.main) ==> x in s.handlers.Keys - s.joined;
  }

  /** A handler that has not returned still has its data: data of a created thread is freed only after the
      thread was joined, and the join waited until the handler's last use of it. */
  lemma DataOutlivesHandler(steps: seq<Step>, t: Id)
    ensures var s := RunAll(INIT, steps);
            && (t in s.handlers && s.handlers[t] != Returned ==> t in s.liveData)
            && (t in s.handlers && t !in s.liveData ==> t in s.joined && s.handlers[t] == Returned)
  {
    InitInv();
    RunAllKeeps(INIT, steps);
    var s := RunAll(INIT, steps);
    assert t in s.handlers && t !in s.joined ==> t in s.handlers.Keys - s.joined;
  }

  /** When the program exits, every ThreadData ever allocated has been freed exactly once, every created
      thread has been joined, and no item is left. */
  lemma NothingLeaks(steps: seq<Step>)
    requires RunAll(INIT, steps).main.Exited?
    ensures var s := RunAll(INIT, steps);
            && s.liveData == {} && s.liveItems == {} && s.list == []
            && (forall t: Id :: s.frees[t] == if t < s.next then 1 else 0)
            && s.joined == s.handlers.Keys
  {
    InitInv();
    RunAllKeeps(INIT, steps);
    var s := RunAll(INIT, steps);
    assert s.handlers.Keys - s.joined == {};
  }

  // Steps of the main thread at the poll, at pthread_create and behind it; `w` is what it does not look at.
  function Connecting(creates: bool, w: bool): seq<Step> {
    [MainStep(false, true, w), MainStep(w, w, creates), MainStep(w, w, w)]
  }

  lemma RunThree(s: State, a: Step, b: Step, c: Step)
    ensures RunAll(s, [a, b, c]) == Next(Next(Next(s, a), b), c)
  {
    assert [a, b, c][1..] == [b, c] && [b, c][1..] == [c] && [c][1..] == [];
    assert RunAll(Next(s, a), [b, c]) == RunAll(Next(Next(s, a), b), [c]);
    assert RunAll(Next(Next(s, a), b), [c]) == RunAll(Next(Next(Next(s, a), b), c), []);
  }

  /** A connection at the poll, in any reachable state: with a thread for it, a new item comes first in the list
      and the scan begins there; without, its data is freed and the scan begins with the old list. */
  lemma ConnectionScans(before: seq<Step>, creates: bool, w: bool)
    requires RunAll(INIT, before).main.Polling?
    ensures var s := RunAll(INIT, before);
            var t, end := s.next, RunAll(s, Connecting(creates, w));
            && t !in s.handlers && t !in s.liveData && t !in s.list
            && end.list == (if creates then [t] + s.list else s.list)
            && end.handlers == (if creates then s.handlers[t := Serving] else s.handlers)
            && end.liveData == (if creates then s.liveData + {t} else s.liveData)
            && end.liveItems == (if creates then s.liveItems + {t} else s.liveItems)
            && end.clients == s.clients + (if creates then 1 else 0)
            && end.main == Scan(if end.list == [] then None else Some(end.list[0]))
  {
    InitInv();
    RunAllKeeps(INIT, before);
    var s := RunAll(INIT, before);
    var steps := Connecting(creates, w);
    RunThree(s, steps[0], steps[1], steps[2]);
    assert forall t :: t in s.list ==> t in SetOf(s.list);
  }

  /** A handler reads as long as there is data, then closes, then raises its flag, and only then returns. */
  lemma HandlerLife(s: State, t: Id, data: bool)
    requires t in s.handlers && s.handlers[t] == Serving
    ensures Next(s, HandlerStep(t, true)).handlers == s.handlers
    ensures RunAll(s, [HandlerStep(t, false), HandlerStep(t, data), HandlerStep(t, data)]).handlers
            == s.handlers[t := Returned]
    ensures Next(s, HandlerStep(t, false)).handlers[t] == Closed
    ensures Next(Next(s, HandlerStep(t, false)), HandlerStep(t, data)).handlers[t] == Flagged
  {
    RunThree(s, HandlerStep(t, false), HandlerStep(t, data), HandlerStep(t, data));
  }

  // How far the main thread is from its exit, once the signal has come and no further thread is created.
  function Phase(m: Main): nat {
    if InShutdown(m) then 0 else if m.Allocated? then 3 else if m.CreateFailed? || m.Created? then 2 else 1
  }

  function Items(s: State): nat {
    match s.main
    case Scan(_) => |ToVisit(s)| + 1
    case Examine(_, _) => |ToVisit(s)| + 1
    case Join(_, _) => |ToVisit(s)| + 1
    case Unlink(_, _) => |ToVisit(s)| + 1
    case FreeData(_, _) => |ToVisit(s)| + 2
    case FreeItem(_, _) => |ToVisit(s)| + 2
    case Count(_) => |ToVisit(s)| + 2
    case ShutFreeData(_) => |s.list| + 1
    case ShutFreeItem(_) => |s.list| + 1
    case Shutdown => |s.list|
    case ShutJoin(_) => |s.list|
    case ShutUnlink(_) => |s.list|
    case _ => 0
  }

  function Rank(m: Main): nat {
    match m
    case Scan(_) => 7
    case Examine(_, _) => 6
    case Join(_, _) => 5
    case Unlink(_, _) => 4
    case FreeData(_, _) => 3
    case FreeItem(_, _) => 2
    case Shutdown => 9
    case ShutJoin(_) => 8
    case ShutUnlink(_) => 7
    case ShutFreeData(_) => 6
    case ShutFreeItem(_) => 5
    case _ => 1
  }

  // What the handler that a join waits for has still to do.
  function Left(s: State): nat {
    match s.main
    case Join(t, _) => if t in s.handlers then LeftOf(s.handlers[t]) else 0
    case ShutJoin(t) => if t in s.handlers then LeftOf(s.handlers[t]) else 0
    case _ => 0
  }

  function LeftOf(h: Handler): nat {
    match h
    case Serving => 3
    case Closed => 2
    case Flagged => 1
    case Returned => 0
  }

  ghost predicate Nearer(next: State, s: State) {
    || Phase(next.main) < Phase(s.main)
    || (Phase(next.main) == Phase(s.main)
        && (Items(next) < Items(s)
            || (Items(next) == Items(s)
                && (Rank(next.main) < Rank(s.main) || (next.main == s.main && Left(next) < Left(s))))))
  }

  // The step that brings the main thread nearer to its exit: its own, or one of the handler it waits for.
  function Helpful(s: State): Step {
    match s.main
    case Join(t, _) => if CanJoin(s, t) then MainStep(true, false, false) else HandlerStep(t, false)
    case ShutJoin(t) => if CanJoin(s, t) then MainStep(true, false, false) else HandlerStep(t, false)
    case _ => MainStep(true, false, false)
  }

  lemma JoinedHandler(s: State)
    requires Inv(s) && (s.main.Join? || s.main.ShutJoin?)
    ensures s.main.t in s.handlers
  {
    var t := s.main.t;
    assert t in SetOf(s.list) && t in s.handlers.Keys - s.joined;
  }

  lemma HelpfulVisits(s: State)
    requires LocalsOk(s) && NoDuplicates(s.list) && (s.main.Scan? || s.main.Examine? || s.main.Unlink?)
    ensures Nearer(Next(s, Helpful(s)), s)
  {
    match s.main
    case Scan(_) =>
    case Examine(t, _) => BehindFollower(s.list, t);
    case Unlink(t, _) => BehindFollower(s.list, t);
  }

  lemma HelpfulShutdown(s: State)
    requires LocalsOk(s) && InShutdown(s.main) && !s.main.Exited?
    requires s.main.ShutJoin? ==> s.main.t in s.handlers
    ensures Nearer(Next(s, Helpful(s)), s)
  {
  }

  lemma HelpfulOther(s: State)
    requires !InShutdown(s.main) && !s.main.Scan? && !s.main.Examine? && !s.main.Unlink?
    requires s.main.Join? ==> s.main.t in s.handlers
    ensures Nearer(Next(s, Helpful(s)), s)
  {
  }

  lemma {:induction false} ExitFrom(s: State) returns (steps: seq<Step>)
    requires Inv(s)
    ensures RunAll(s, steps).main.Exited?
    decreases Phase(s.main), Items(s), Rank(s.main), Left(s)
  {
    hide Inv;
    steps := [];
    if !s.main.Exited? {
      var step := Helpful(s);
      LocalsHold(s);
      if s.main.Scan? || s.main.Examine? || s.main.Unlink? {
        HelpfulVisits(s);
      } else {
        if s.main.Join? || s.main.ShutJoin? {
          JoinedHandler(s);
        }
        if InShutdown(s.main) {
          HelpfulShutdown(s);
        } else {
          HelpfulOther(s);
        }
      }
      NextKeeps(s, step);
      var rest := ExitFrom(Next(s, step));
      steps := [step] + rest;
      assert steps[1..] == rest;
    }
  }

  /** There is no deadlock: every run can be carried on to the exit of the program. */
  lemma CanAlwaysExit(before: seq<Step>) returns (more: seq<Step>)
    ensures RunAll(INIT, before + more).main.Exited?
  {
    InitInv();
    RunAllKeeps(INIT, before);
    more := ExitFrom(RunAll(INIT, before));
    RunAppend(INIT, before, more);
  }

  /** Whenever the main thread polls, the client counter is the length of the list. */
  lemma CounterIsLength(steps: seq<Step>)
    ensures var s := RunAll(INIT, steps);
            s.main.Polling? ==> s.clients == |s.list|
  {
    InitInv();
    RunAllKeeps(INIT, steps);
  }
}
