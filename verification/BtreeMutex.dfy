/** The mutexes of shared b-trees, as connections running in parallel acquire and release them.

    Every connection is driven by one thread, which holds the connection's own mutex.  A thread
    moves in small steps; any thread may move next. */
module BtreeMutex {
  import opened Common

  /** One entry of a connection's list of databases. */
  datatype Slot = NoBtree | Private | Shared(k: nat)

  /** Where a thread is inside sqlite3BtreeEnter() and btreeLockCarefully(). */
  datatype Pc =
    | Idle                         // outside
    | Try(k: nat)                  // about to try the mutex of b-tree k without blocking
    | Release(k: nat, j: nat)      // releasing the locks behind k, b-tree j is next
    | Wait(k: nat)                 // about to block on the mutex of b-tree k
    | Relock(k: nat, j: nat)       // taking the locks behind k again, b-tree j is next

  /** What the thread is doing around that. */
  datatype Task = Client | EnterAll(i: nat) | LeaveAll(i: nat)

  /** A connection: the addresses of the BtShared objects of its sharable b-trees in list order,
      its databases, and for each sharable b-tree wantToLock and locked. */
  datatype Thread = Thread(
    list: seq<nat>,
    dbs: seq<Slot>,
    want: seq<nat>,
    locked: seq<bool>,
    pc: Pc,
    task: Task)

  /** Who holds the mutex of each BtShared, and what BtShared.db says. */
  datatype State = State(threads: seq<Thread>, owner: map<nat, nat>, db: map<nat, nat>)

  predicate IsFree(s: State, a: nat) {
    a !in s.owner
  }

  /** lockBtreeMutex(), or a successful try: the mutex was free. */
  function Acquire(s: State, c: nat, k: nat): State
    requires c < |s.threads| && k < |s.threads[c].list| && k < |s.threads[c].locked|
  {
    var t := s.threads[c];
    s.(threads := s.threads[c := t.(locked := t.locked[k := true])],
       owner := s.owner[t.list[k] := c],
       db := s.db[t.list[k] := c])
  }

  /** unlockBtreeMutex(). */
  function Unlock(s: State, c: nat, k: nat): State
    requires c < |s.threads| && k < |s.threads[c].list| && k < |s.threads[c].locked|
  {
    var t := s.threads[c];
    s.(threads := s.threads[c := t.(locked := t.locked[k := false])],
       owner := s.owner - {t.list[k]})
  }

  function GoTo(s: State, c: nat, pc: Pc): State
    requires c < |s.threads|
  {
    s.(threads := s.threads[c := s.threads[c].(pc := pc)])
  }

  function SetTask(s: State, c: nat, task: Task): State
    requires c < |s.threads|
  {
    s.(threads := s.threads[c := s.threads[c].(task := task)])
  }

  function SetWant(s: State, c: nat, k: nat, n: nat): State
    requires c < |s.threads| && k < |s.threads[c].want|
  {
    s.(threads := s.threads[c := s.threads[c].(want := s.threads[c].want[k := n])])
  }

  // ---- the shape of a thread ----

  ghost predicate Ascending(a: seq<nat>) {
    forall i, j | 0 <= i < j < |a| :: a[i] < a[j]
  }

  ghost predicate Shaped(t: Thread) {
    && |t.want| == |t.locked| == |t.list|
    && Ascending(t.list)
    && (forall i | 0 <= i < |t.dbs| && t.dbs[i].Shared? :: t.dbs[i].k < |t.list|)
    && (match t.pc
        case Idle => true
        case Try(k) => k < |t.list|
        case Release(k, j) => k < j <= |t.list|
        case Wait(k) => k < |t.list|
        case Relock(k, j) => k < j <= |t.list|)
    && (match t.task
        case Client => true
        case EnterAll(i) => i <= |t.dbs|
        case LeaveAll(i) => i <= |t.dbs| && t.pc == Idle)
  }

  // ---- steps ----

  /** sqlite3BtreeEnter(): count the request, and lock unless locked already. */
  function Enter(s: State, c: nat, k: nat): State
    requires c < |s.threads| && Shaped(s.threads[c]) && k < |s.threads[c].list|
  {
    var s1 := SetWant(s, c, k, s.threads[c].want[k] + 1);
    if s.threads[c].locked[k] then s1 else GoTo(s1, c, Try(k))
  }

  /** sqlite3BtreeLeave(): count the release, and unlock when it was the last. */
  function Leave(s: State, c: nat, k: nat): State
    requires c < |s.threads| && Shaped(s.threads[c]) && k < |s.threads[c].list| && s.threads[c].want[k] > 0
  {
    var s1 := SetWant(s, c, k, s.threads[c].want[k] - 1);
    if s.threads[c].want[k] == 1 then Unlock(s1, c, k) else s1
  }

  /** One step inside btreeLockCarefully().  A try may fail even though the mutex is free.
      A thread that would have to block has no step. */
  function LockStep(s: State, c: nat, tryFails: bool): Option<State>
    requires c < |s.threads| && Shaped(s.threads[c])
  {
    var t := s.threads[c];
    match t.pc
    case Idle => None
    case Try(k) =>
      if IsFree(s, t.list[k]) && !tryFails then Some(GoTo(Acquire(s, c, k), c, Idle))
      else Some(GoTo(s, c, Release(k, k + 1)))
    case Release(k, j) =>
      if j == |t.list| then Some(GoTo(s, c, Wait(k)))
      else if t.locked[j] then Some(GoTo(Unlock(s, c, j), c, Release(k, j + 1)))
      else Some(GoTo(s, c, Release(k, j + 1)))
    case Wait(k) =>
      if IsFree(s, t.list[k]) then Some(GoTo(Acquire(s, c, k), c, Relock(k, k + 1)))
      else None
    case Relock(k, j) =>
      if j == |t.list| then Some(GoTo(s, c, Idle))
      else if t.want[j] == 0 then Some(GoTo(s, c, Relock(k, j + 1)))
      else if IsFree(s, t.list[j]) then Some(GoTo(Acquire(s, c, j), c, Relock(k, j + 1)))
      else None
  }

  /** One step of the loops in sqlite3BtreeEnterAll() and sqlite3BtreeLeaveAll(). */
  function TaskStep(s: State, c: nat): Option<State>
    requires c < |s.threads| && Shaped(s.threads[c]) && s.threads[c].pc == Idle
  {
    var t := s.threads[c];
    match t.task
    case Client => None
    case EnterAll(i) =>
      if i == |t.dbs| then Some(SetTask(s, c, Client))
      else
        var s1 := SetTask(s, c, EnterAll(i + 1));
        if t.dbs[i].Shared? then Some(Enter(s1, c, t.dbs[i].k)) else Some(s1)
    case LeaveAll(i) =>
      if i == |t.dbs| then Some(SetTask(s, c, Client))
      else
        var s1 := SetTask(s, c, LeaveAll(i + 1));
        if !t.dbs[i].Shared? then Some(s1)
        else if t.want[t.dbs[i].k] == 0 then None
        else Some(Leave(s1, c, t.dbs[i].k))
  }

  /** What the code that uses the connection may call next. */
  datatype Call = CallEnter(k: nat) | CallLeave(k: nat) | CallEnterAll | CallLeaveAll

  /** How many of the first i databases are b-tree k. */
  function Uses(dbs: seq<Slot>, i: nat, k: nat): nat
    requires i <= |dbs|
  {
    if i == 0 then 0 else Uses(dbs, i - 1, k) + if dbs[i - 1] == Shared(k) then 1 else 0
  }

  ghost predicate MayCall(t: Thread, call: Call)
    requires Shaped(t)
  {
    && t.pc == Idle && t.task == Client
    && (match call
        case CallEnter(k) => k < |t.list|
        case CallLeave(k) => k < |t.list| && t.want[k] > 0
        case CallEnterAll => true
        case CallLeaveAll => forall k | 0 <= k < |t.list| :: t.want[k] >= Uses(t.dbs, |t.dbs|, k))
  }

  ghost function DoCall(s: State, c: nat, call: Call): State
    requires c < |s.threads| && Shaped(s.threads[c]) && MayCall(s.threads[c], call)
  {
    var t := s.threads[c];
    match call
    case CallEnter(k) => Enter(s, c, k)
    case CallLeave(k) => Leave(s, c, k)
    case CallEnterAll => s.(threads := s.threads[c := t.(task := EnterAll(0))])
    case CallLeaveAll => s.(threads := s.threads[c := t.(task := LeaveAll(0))])
  }

  ghost predicate AllShaped(s: State) {
    forall c | 0 <= c < |s.threads| :: Shaped(s.threads[c])
  }

  datatype Action = Lock(tryFails: bool) | Task | Begin(call: Call)

  ghost predicate Moves(s: State, c: nat, a: Action, s': State)
    requires AllShaped(s)
  {
    && c < |s.threads|
    && match a
       case Lock(tryFails) => LockStep(s, c, tryFails) == Some(s')
       case Task => s.threads[c].pc == Idle && TaskStep(s, c) == Some(s')
       case Begin(call) => MayCall(s.threads[c], call) && s' == DoCall(s, c, call)
  }

  // ---- what every reachable state satisfies ----

  ghost predicate Settled(locked: seq<bool>, want: seq<nat>, i: nat)
    requires i < |locked| && i < |want|
  {
    locked[i] <==> want[i] > 0
  }

  /** Which b-trees are locked, given what is wanted and where the thread is. */
  ghost predicate LocksOk(t: Thread)
    requires Shaped(t)
  {
    match t.pc
    case Idle => forall i | 0 <= i < |t.list| :: Settled(t.locked, t.want, i)
    case Try(k) =>
      && !t.locked[k] && t.want[k] > 0
      && forall i | 0 <= i < |t.list| && i != k :: Settled(t.locked, t.want, i)
    case Release(k, j) =>
      && !t.locked[k] && t.want[k] > 0
      && (forall i | 0 <= i < |t.list| && (i < k || i >= j) :: Settled(t.locked, t.want, i))
      && (forall i | k < i < j :: !t.locked[i])
    case Wait(k) =>
      && !t.locked[k] && t.want[k] > 0
      && (forall i | 0 <= i < k :: Settled(t.locked, t.want, i))
      && (forall i | k < i < |t.list| :: !t.locked[i])
    case Relock(k, j) =>
      && (forall i | 0 <= i < j :: Settled(t.locked, t.want, i))
      && (forall i | j <= i < |t.list| :: !t.locked[i])
  }

  /** LeaveAll has enough to give back. */
  ghost predicate CountsOk(t: Thread)
    requires Shaped(t)
  {
    t.task.LeaveAll? ==>
      forall k | 0 <= k < |t.list| :: t.want[k] + Uses(t.dbs, t.task.i, k) >= Uses(t.dbs, |t.dbs|, k)
  }

  ghost predicate ThreadOk(t: Thread) {
    Shaped(t) && LocksOk(t) && CountsOk(t)
  }

  /** b-tree k of connection c is locked exactly when c's thread holds the mutex. */
  ghost predicate Held(s: State, c: nat, k: nat)
    requires c < |s.threads| && k < |s.threads[c].list|
  {
    s.threads[c].list[k] in s.owner && s.owner[s.threads[c].list[k]] == c
  }

  ghost predicate OwnersOk(s: State)
    requires AllShaped(s)
  {
    && (forall c, k | 0 <= c < |s.threads| && 0 <= k < |s.threads[c].list| ::
          s.threads[c].locked[k] <==> Held(s, c, k))
    && (forall a | a in s.owner :: s.owner[a] < |s.threads| && a in s.threads[s.owner[a]].list)
    && (forall a | a in s.owner :: a in s.db && s.db[a] == s.owner[a])
  }

  ghost predicate Inv(s: State) {
    && AllShaped(s)
    && (forall c | 0 <= c < |s.threads| :: ThreadOk(s.threads[c]))
    && OwnersOk(s)
  }

  /** Nothing is wanted, nothing is locked, nobody is inside. */
  ghost predicate Init(s: State) {
    && AllShaped(s)
    && s.owner == map[]
    && forall c | 0 <= c < |s.threads| ::
         var t := s.threads[c];
         && t.pc == Idle && t.task == Client
         && (forall k | 0 <= k < |t.list| :: t.want[k] == 0 && !t.locked[k])
  }

  /** Threads other than c are as before. */
  ghost predicate OthersKept(s: State, c: nat, s': State) {
    |s'.threads| == |s.threads| && forall d | 0 <= d < |s.threads| && d != c :: s'.threads[d] == s.threads[d]
  }

  lemma AcquireKeepsOwners(s: State, c: nat, k: nat)
    requires AllShaped(s) && OwnersOk(s) && c < |s.threads| && k < |s.threads[c].list|
    requires IsFree(s, s.threads[c].list[k])
    ensures AllShaped(Acquire(s, c, k)) && OwnersOk(Acquire(s, c, k)) && OthersKept(s, c, Acquire(s, c, k))
  {
    var s' := Acquire(s, c, k);
    var t, a := s.threads[c], s.threads[c].list[k];
    forall d, i | 0 <= d < |s'.threads| && 0 <= i < |s'.threads[d].list|
      ensures s'.threads[d].locked[i] <==> Held(s', d, i)
    {
      assert s.threads[d].locked[i] <==> Held(s, d, i);
    }
  }

  lemma UnlockKeepsOwners(s: State, c: nat, k: nat)
    requires AllShaped(s) && OwnersOk(s) && c < |s.threads| && k < |s.threads[c].list|
    requires s.threads[c].locked[k]
    ensures AllShaped(Unlock(s, c, k)) && OwnersOk(Unlock(s, c, k)) && OthersKept(s, c, Unlock(s, c, k))
  {
    var s' := Unlock(s, c, k);
    assert Held(s, c, k);
    forall d, i | 0 <= d < |s'.threads| && 0 <= i < |s'.threads[d].list|
      ensures s'.threads[d].locked[i] <==> Held(s', d, i)
    {
      assert s.threads[d].locked[i] <==> Held(s, d, i);
    }
  }

  /** Changing anything but the list and the locks of a thread does not matter to the owners. */
  lemma RestKeepsOwners(s: State, c: nat, t': Thread)
    requires AllShaped(s) && OwnersOk(s) && c < |s.threads| && Shaped(t')
    requires t'.list == s.threads[c].list && t'.locked == s.threads[c].locked
    ensures AllShaped(s.(threads := s.threads[c := t'])) && OwnersOk(s.(threads := s.threads[c := t']))
  {
    var s' := s.(threads := s.threads[c := t']);
    forall d, i | 0 <= d < |s'.threads| && 0 <= i < |s'.threads[d].list|
      ensures s'.threads[d].locked[i] <==> Held(s', d, i)
    {
      assert s.threads[d].locked[i] <==> Held(s, d, i);
    }
  }

  /** Enough to keep the invariant: the moving thread is in order and the owners are. */
  lemma InvFrom(s: State, c: nat, s': State)
    requires Inv(s) && c < |s.threads| && OthersKept(s, c, s')
    requires AllShaped(s') && OwnersOk(s') && ThreadOk(s'.threads[c])
    ensures Inv(s')
  {
  }

  // ---- every step keeps it ----

  /** Take the lock and go on at pc. */
  lemma AcquireKeeps(s: State, c: nat, k: nat, pc: Pc, s': State)
    requires Inv(s) && c < |s.threads| && k < |s.threads[c].list| && IsFree(s, s.threads[c].list[k])
    requires ThreadOk(s.threads[c].(locked := s.threads[c].locked[k := true], pc := pc))
    requires s' == GoTo(Acquire(s, c, k), c, pc)
    ensures Inv(s')
  {
    AcquireKeepsOwners(s, c, k);
    var s1 := Acquire(s, c, k);
    RestKeepsOwners(s1, c, s1.threads[c].(pc := pc));
    InvFrom(s, c, s');
  }

  lemma UnlockKeeps(s: State, c: nat, k: nat, pc: Pc, s': State)
    requires Inv(s) && c < |s.threads| && k < |s.threads[c].list| && s.threads[c].locked[k]
    requires ThreadOk(s.threads[c].(locked := s.threads[c].locked[k := false], pc := pc))
    requires s' == GoTo(Unlock(s, c, k), c, pc)
    ensures Inv(s')
  {
    UnlockKeepsOwners(s, c, k);
    var s1 := Unlock(s, c, k);
    RestKeepsOwners(s1, c, s1.threads[c].(pc := pc));
    InvFrom(s, c, s');
  }

  lemma RestKeeps(s: State, c: nat, t': Thread, s': State)
    requires Inv(s) && c < |s.threads| && ThreadOk(t')
    requires t'.list == s.threads[c].list && t'.locked == s.threads[c].locked
    requires s' == s.(threads := s.threads[c := t'])
    ensures Inv(s')
  {
    RestKeepsOwners(s, c, t');
    InvFrom(s, c, s');
  }

  /** A thread never locks what it holds, and unlocks only what it holds under its own name:
      the assertions in lockBtreeMutex() and unlockBtreeMutex(). */
  lemma LockAssertions(s: State, c: nat)
    requires Inv(s) && c < |s.threads|
    ensures match s.threads[c].pc
            case Try(k) => !s.threads[c].locked[k] && !Held(s, c, k)
            case Wait(k) => !s.threads[c].locked[k] && !Held(s, c, k)
            case Relock(k, j) => j < |s.threads[c].list| ==> !s.threads[c].locked[j] && !Held(s, c, j)
            case Release(k, j) => j < |s.threads[c].list| && s.threads[c].locked[j] ==>
                s.threads[c].want[j] > 0 && Held(s, c, j) && s.db[s.threads[c].list[j]] == c
            case Idle => true
  {
    var t := s.threads[c];
    assert ThreadOk(t);
    forall k | 0 <= k < |t.list|
      ensures t.locked[k] <==> Held(s, c, k)
    {
    }
    if t.pc.Release? && t.pc.j < |t.list| && t.locked[t.pc.j] {
      assert Settled(t.locked, t.want, t.pc.j);
    }
  }

  lemma TryKeeps(s: State, c: nat, k: nat, tryFails: bool, s': State)
    requires Inv(s) && c < |s.threads| && s.threads[c].pc == Try(k) && LockStep(s, c, tryFails) == Some(s')
    ensures Inv(s')
  {
    var t := s.threads[c];
    TryThread(t, k);
    if IsFree(s, t.list[k]) && !tryFails {
      AcquireKeeps(s, c, k, Idle, s');
    } else {
      RestKeeps(s, c, t.(pc := Release(k, k + 1)), s');
    }
  }

  lemma ReleaseKeeps(s: State, c: nat, k: nat, j: nat, s': State)
    requires Inv(s) && c < |s.threads| && s.threads[c].pc == Release(k, j) && LockStep(s, c, false) == Some(s')
    ensures Inv(s')
  {
    var t := s.threads[c];
    ReleaseThread(t, k, j);
    if j < |t.list| && t.locked[j] {
      UnlockKeeps(s, c, j, Release(k, j + 1), s');
    } else {
      RestKeeps(s, c, t.(pc := if j == |t.list| then Wait(k) else Release(k, j + 1)), s');
    }
  }

  lemma WaitKeeps(s: State, c: nat, k: nat, s': State)
    requires Inv(s) && c < |s.threads| && s.threads[c].pc == Wait(k) && LockStep(s, c, false) == Some(s')
    ensures Inv(s')
  {
    WaitThread(s.threads[c], k);
    AcquireKeeps(s, c, k, Relock(k, k + 1), s');
  }

  lemma RelockKeeps(s: State, c: nat, k: nat, j: nat, s': State)
    requires Inv(s) && c < |s.threads| && s.threads[c].pc == Relock(k, j) && LockStep(s, c, false) == Some(s')
    ensures Inv(s')
  {
    var t := s.threads[c];
    RelockThread(t, k, j);
    if j == |t.list| {
      RestKeeps(s, c, t.(pc := Idle), s');
    } else if t.want[j] == 0 {
      RestKeeps(s, c, t.(pc := Relock(k, j + 1)), s');
    } else {
      AcquireKeeps(s, c, j, Relock(k, j + 1), s');
    }
  }

  lemma LockStepKeeps(s: State, c: nat, tryFails: bool, s': State)
    requires Inv(s) && c < |s.threads| && LockStep(s, c, tryFails) == Some(s')
    ensures Inv(s')
  {
    match s.threads[c].pc {
      case Try(k) => TryKeeps(s, c, k, tryFails, s');
      case Release(k, j) => ReleaseKeeps(s, c, k, j, s');
      case Wait(k) => WaitKeeps(s, c, k, s');
      case Relock(k, j) => RelockKeeps(s, c, k, j, s');
    }
  }

  lemma TryThread(t: Thread, k: nat)
    requires ThreadOk(t) && t.pc == Try(k)
    ensures ThreadOk(t.(locked := t.locked[k := true], pc := Idle))
    ensures ThreadOk(t.(pc := Release(k, k + 1)))
  {
    var u := t.(locked := t.locked[k := true], pc := Idle);
    forall i | 0 <= i < |u.list|
      ensures Settled(u.locked, u.want, i)
    {
      assert i != k ==> Settled(t.locked, t.want, i);
    }
  }

  lemma ReleaseThread(t: Thread, k: nat, j: nat)
    requires ThreadOk(t) && t.pc == Release(k, j)
    ensures j == |t.list| ==> ThreadOk(t.(pc := Wait(k)))
    ensures j < |t.list| && !t.locked[j] ==> ThreadOk(t.(pc := Release(k, j + 1)))
    ensures j < |t.list| ==> ThreadOk(t.(locked := t.locked[j := false], pc := Release(k, j + 1)))
  {
    if j < |t.list| {
      var u := t.(locked := t.locked[j := false], pc := Release(k, j + 1));
      forall i | 0 <= i < |u.list| && (i < k || i >= j + 1)
        ensures Settled(u.locked, u.want, i)
      {
        assert Settled(t.locked, t.want, i);
      }
    }
  }

  lemma WaitThread(t: Thread, k: nat)
    requires ThreadOk(t) && t.pc == Wait(k)
    ensures ThreadOk(t.(locked := t.locked[k := true], pc := Relock(k, k + 1)))
  {
    var u := t.(locked := t.locked[k := true], pc := Relock(k, k + 1));
    forall i | 0 <= i < k + 1
      ensures Settled(u.locked, u.want, i)
    {
      assert i < k ==> Settled(t.locked, t.want, i);
    }
  }

  lemma RelockThread(t: Thread, k: nat, j: nat)
    requires ThreadOk(t) && t.pc == Relock(k, j)
    ensures j == |t.list| ==> ThreadOk(t.(pc := Idle))
    ensures j < |t.list| && t.want[j] == 0 ==> ThreadOk(t.(pc := Relock(k, j + 1)))
    ensures j < |t.list| && t.want[j] > 0 ==> ThreadOk(t.(locked := t.locked[j := true], pc := Relock(k, j + 1)))
  {
    if j < |t.list| {
      var u := t.(locked := t.locked[j := t.want[j] > 0], pc := Relock(k, j + 1));
      forall i | 0 <= i < j + 1
        ensures Settled(u.locked, u.want, i)
      {
        assert i < j ==> Settled(t.locked, t.want, i);
      }
      assert !t.locked[j];
      assert t.want[j] == 0 ==> u.locked == t.locked;
    }
  }

  // ---- calls ----

  lemma EnterKeeps(s: State, c: nat, k: nat, task: Task, s': State)
    requires Inv(s) && c < |s.threads| && s.threads[c].pc == Idle && k < |s.threads[c].list|
    requires var t := s.threads[c];
             && Shaped(t.(task := task)) && !task.LeaveAll?
             && CountsOk(t.(task := task, want := t.want[k := t.want[k] + 1]))
    requires s' == Enter(SetTask(s, c, task), c, k)
    ensures Inv(s')
  {
    var t := s.threads[c];
    assert ThreadOk(t);
    var u := t.(task := task, want := t.want[k := t.want[k] + 1], pc := if t.locked[k] then Idle else Try(k));
    EnterThread(t, k, task);
    assert s'.threads == s.threads[c := u];
    RestKeeps(s, c, u, s');
  }

  lemma EnterThread(t: Thread, k: nat, task: Task)
    requires ThreadOk(t) && t.pc == Idle && k < |t.list| && Shaped(t.(task := task)) && !task.LeaveAll?
    requires CountsOk(t.(task := task, want := t.want[k := t.want[k] + 1]))
    ensures ThreadOk(t.(task := task, want := t.want[k := t.want[k] + 1], pc := if t.locked[k] then Idle else Try(k)))
  {
    var u := t.(task := task, want := t.want[k := t.want[k] + 1], pc := if t.locked[k] then Idle else Try(k));
    forall i | 0 <= i < |u.list| && (i != k || t.locked[k])
      ensures Settled(u.locked, u.want, i)
    {
      assert Settled(t.locked, t.want, i);
    }
  }

  /** The last release of b-tree k also unlocks it. */
  lemma LastLeaveKeeps(s: State, c: nat, k: nat, u: Thread)
    requires Inv(s) && c < |s.threads| && k < |s.threads[c].list| && s.threads[c].locked[k]
    requires ThreadOk(u) && u.list == s.threads[c].list && u.locked == s.threads[c].locked[k := false]
    ensures Inv(Unlock(s, c, k).(threads := s.threads[c := u]))
  {
    UnlockKeepsOwners(s, c, k);
    var s1 := Unlock(s, c, k);
    RestKeepsOwners(s1, c, u);
    var s2 := s1.(threads := s1.threads[c := u]);
    InvFrom(s, c, s2);
    assert s2 == s1.(threads := s.threads[c := u]);
  }

  lemma LeaveKeeps(s: State, c: nat, k: nat, task: Task, s': State)
    requires Inv(s) && c < |s.threads| && s.threads[c].pc == Idle && k < |s.threads[c].list| && s.threads[c].want[k] > 0
    requires var t := s.threads[c];
             Shaped(t.(task := task)) && CountsOk(t.(task := task, want := t.want[k := t.want[k] - 1]))
    requires s' == Leave(SetTask(s, c, task), c, k)
    ensures Inv(s')
  {
    var t := s.threads[c];
    assert ThreadOk(t) && Settled(t.locked, t.want, k);
    var u := t.(task := task, want := t.want[k := t.want[k] - 1],
                locked := if t.want[k] == 1 then t.locked[k := false] else t.locked);
    LeaveThread(t, k, task);
    LeaveIsUpdate(s, c, k, task, s', u);
    if t.want[k] == 1 {
      LastLeaveKeeps(s, c, k, u);
    } else {
      RestKeeps(s, c, u, s');
    }
  }

  lemma LeaveIsUpdate(s: State, c: nat, k: nat, task: Task, s': State, u: Thread)
    requires c < |s.threads| && Shaped(s.threads[c]) && Shaped(s.threads[c].(task := task))
    requires k < |s.threads[c].list| && s.threads[c].want[k] > 0
    requires s' == Leave(SetTask(s, c, task), c, k)
    requires var t := s.threads[c];
             u == t.(task := task, want := t.want[k := t.want[k] - 1],
                     locked := if t.want[k] == 1 then t.locked[k := false] else t.locked)
    ensures s' == if s.threads[c].want[k] == 1 then Unlock(s, c, k).(threads := s.threads[c := u])
                  else s.(threads := s.threads[c := u])
  {
  }

  lemma LeaveThread(t: Thread, k: nat, task: Task)
    requires ThreadOk(t) && t.pc == Idle && k < |t.list| && t.want[k] > 0 && Shaped(t.(task := task))
    requires CountsOk(t.(task := task, want := t.want[k := t.want[k] - 1]))
    ensures ThreadOk(t.(task := task, want := t.want[k := t.want[k] - 1],
                        locked := if t.want[k] == 1 then t.locked[k := false] else t.locked))
  {
    var u := t.(task := task, want := t.want[k := t.want[k] - 1],
                locked := if t.want[k] == 1 then t.locked[k := false] else t.locked);
    forall i | 0 <= i < |u.list|
      ensures Settled(u.locked, u.want, i)
    {
      assert Settled(t.locked, t.want, i);
    }
  }

  lemma {:induction false} UsesMonotone(dbs: seq<Slot>, i: nat, j: nat, k: nat)
    requires i <= j <= |dbs|
    ensures Uses(dbs, i, k) <= Uses(dbs, j, k)
    decreases j
  {
    if i < j {
      UsesMonotone(dbs, i, j - 1, k);
    }
  }

  lemma EnterAllStepKeeps(s: State, c: nat, i: nat, s': State)
    requires Inv(s) && c < |s.threads| && s.threads[c].pc == Idle && s.threads[c].task == EnterAll(i)
    requires i < |s.threads[c].dbs| && TaskStep(s, c) == Some(s')
    ensures Inv(s')
  {
    var t := s.threads[c];
    assert ThreadOk(t);
    if t.dbs[i].Shared? {
      EnterKeeps(s, c, t.dbs[i].k, EnterAll(i + 1), s');
    } else {
      RestKeeps(s, c, t.(task := EnterAll(i + 1)), s');
    }
  }

  lemma LeaveAllStepKeeps(s: State, c: nat, i: nat, s': State)
    requires Inv(s) && c < |s.threads| && s.threads[c].pc == Idle && s.threads[c].task == LeaveAll(i)
    requires i < |s.threads[c].dbs| && TaskStep(s, c) == Some(s')
    ensures Inv(s')
  {
    var t := s.threads[c];
    assert ThreadOk(t);
    if t.dbs[i].Shared? {
      LeaveKeeps(s, c, t.dbs[i].k, LeaveAll(i + 1), s');
    } else {
      RestKeeps(s, c, t.(task := LeaveAll(i + 1)), s');
    }
  }

  lemma TaskStepKeeps(s: State, c: nat, s': State)
    requires Inv(s) && c < |s.threads| && s.threads[c].pc == Idle && TaskStep(s, c) == Some(s')
    ensures Inv(s')
  {
    var t := s.threads[c];
    match t.task {
      case EnterAll(i) =>
        if i < |t.dbs| { EnterAllStepKeeps(s, c, i, s'); } else { RestKeeps(s, c, t.(task := Client), s'); }
      case LeaveAll(i) =>
        if i < |t.dbs| { LeaveAllStepKeeps(s, c, i, s'); } else { RestKeeps(s, c, t.(task := Client), s'); }
    }
  }

  lemma CallKeeps(s: State, c: nat, call: Call)
    requires Inv(s) && c < |s.threads| && MayCall(s.threads[c], call)
    ensures Inv(DoCall(s, c, call))
  {
    var t := s.threads[c];
    assert ThreadOk(t);
    match call {
      case CallEnter(k) =>
        assert SetTask(s, c, Client) == s;
        EnterKeeps(s, c, k, Client, DoCall(s, c, call));
      case CallLeave(k) =>
        assert SetTask(s, c, Client) == s;
        LeaveKeeps(s, c, k, Client, DoCall(s, c, call));
      case CallEnterAll =>
        RestKeeps(s, c, t.(task := EnterAll(0)), DoCall(s, c, call));
      case CallLeaveAll =>
        RestKeeps(s, c, t.(task := LeaveAll(0)), DoCall(s, c, call));
    }
  }

  // ---- every run ----

  lemma MovesKeep(s: State, c: nat, a: Action, s': State)
    requires Inv(s) && Moves(s, c, a, s')
    ensures Inv(s')
  {
    match a {
      case Lock(tryFails) => LockStepKeeps(s, c, tryFails, s');
      case Task => TaskStepKeeps(s, c, s');
      case Begin(call) => CallKeeps(s, c, call);
    }
  }

  lemma InitIsOk(s: State)
    requires Init(s)
    ensures Inv(s)
  {
  }

  /** A step of thread c. */
  datatype Move = Move(c: nat, a: Action)

  ghost predicate Follows(run: seq<State>, moves: seq<Move>, n: nat)
    requires n < |moves| && n + 1 < |run|
  {
    AllShaped(run[n]) && Moves(run[n], moves[n].c, moves[n].a, run[n + 1])
  }

  /** A run: from the initial state, some thread moves at every step. */
  ghost predicate IsRun(run: seq<State>, moves: seq<Move>) {
    && |run| == |moves| + 1 && Init(run[0])
    && forall n | 0 <= n < |moves| :: Follows(run, moves, n)
  }

  /** Whatever any number of connections do, in whatever order, the state stays in order. */
  lemma {:induction false} EveryRunIsOk(run: seq<State>, moves: seq<Move>, n: nat)
    requires IsRun(run, moves) && n < |run|
    ensures Inv(run[n])
  {
    if n == 0 {
      InitIsOk(run[0]);
    } else {
      EveryRunIsOk(run, moves, n - 1);
      assert Follows(run, moves, n - 1);
      MovesKeep(run[n - 1], moves[n - 1].c, moves[n - 1].a, run[n]);
    }
  }

  // ---- no deadlock ----

  /** The address of the mutex that thread c has to wait for, if it has to. */
  ghost function Awaited(s: State, c: nat): Option<nat>
    requires AllShaped(s) && c < |s.threads|
  {
    var t := s.threads[c];
    match t.pc
    case Wait(k) => if IsFree(s, t.list[k]) then None else Some(t.list[k])
    case Relock(k, j) =>
      if j < |t.list| && t.want[j] > 0 && !IsFree(s, t.list[j]) then Some(t.list[j]) else None
    case _ => None
  }

  /** A waiting thread holds only mutexes with smaller addresses than the one it waits for. */
  lemma WaitsAboveHeld(s: State, c: nat, a: nat)
    requires Inv(s) && c < |s.threads| && Awaited(s, c).Some?
    requires a in s.owner && s.owner[a] == c
    ensures a < Awaited(s, c).value
  {
    var t := s.threads[c];
    assert ThreadOk(t);
    var k :| 0 <= k < |t.list| && t.list[k] == a;
    assert t.locked[k] <==> Held(s, c, k);
  }

  /** Thread c waits for a mutex that a thread in the group holds. */
  ghost predicate WaitsFor(s: State, c: nat, group: set<nat>)
    requires AllShaped(s) && OwnersOk(s) && c < |s.threads|
  {
    Awaited(s, c).Some? && s.owner[Awaited(s, c).value] in group
  }

  /** Among finitely many one is highest. */
  lemma {:induction false} Highest(f: map<nat, nat>) returns (c: nat)
    requires f.Keys != {}
    ensures c in f && forall d | d in f :: f[d] <= f[c]
    decreases f.Keys
  {
    var b :| b in f;
    var rest := f - {b};
    if rest.Keys == {} {
      c := b;
      assert f.Keys == {b};
    } else {
      c := Highest(rest);
      var m := rest[c];
      if f[b] > m {
        c := b;
      }
      forall d | d in f
        ensures f[d] <= f[c]
      {
        if d != b { assert d in rest && rest[d] <= m; }
      }
    }
  }

  lemma HighestAwaited(s: State, group: set<nat>) returns (c: nat)
    requires AllShaped(s) && group != {} && (forall d | d in group :: d < |s.threads| && Awaited(s, d).Some?)
    ensures c in group && forall d | d in group :: Awaited(s, d).value <= Awaited(s, c).value
  {
    var awaited := map d | d in group :: Awaited(s, d).value;
    assert awaited.Keys == group;
    c := Highest(awaited);
    forall d | d in group
      ensures Awaited(s, d).value <= Awaited(s, c).value
    {
      assert awaited[d] <= awaited[c];
    }
  }

  /** In no reachable state do the members of a group of threads all wait for one another: the
      waits-for graph has no cycle, whatever order the databases are entered in. */
  lemma NoCircularWait(s: State, group: set<nat>)
    requires Inv(s) && group != {} && forall d | d in group :: d < |s.threads|
    ensures exists c :: c in group && !WaitsFor(s, c, group)
  {
    if d :| d in group && Awaited(s, d).None? {
      assert !WaitsFor(s, d, group);
    } else {
      var c := HighestAwaited(s, group);
      HighestDoesNotWait(s, group, c);
    }
  }

  /** Who waits for the highest address waits for nobody in the group. */
  lemma HighestDoesNotWait(s: State, group: set<nat>, c: nat)
    requires Inv(s) && c in group && forall d | d in group :: d < |s.threads| && Awaited(s, d).Some?
    requires forall d | d in group :: Awaited(s, d).value <= Awaited(s, c).value
    ensures !WaitsFor(s, c, group)
  {
    var a := Awaited(s, c).value;
    if s.owner[a] in group {
      WaitsAboveHeld(s, s.owner[a], a);
    }
  }

  /** A thread that does not have to wait can take its next step. */
  lemma UnblockedCanMove(s: State, c: nat)
    requires Inv(s) && c < |s.threads| && Awaited(s, c).None?
    requires s.threads[c].pc != Idle || s.threads[c].task != Client
    ensures exists a, s' :: Moves(s, c, a, s')
  {
    var t := s.threads[c];
    assert ThreadOk(t);
    if t.pc != Idle {
      var s' := LockStep(s, c, false).value;
      assert Moves(s, c, Lock(false), s');
    } else {
      LeaveAllIsCounted(t);
      var s' := TaskStep(s, c).value;
      assert Moves(s, c, Task, s');
    }
  }

  /** sqlite3BtreeLeave() is never called without a matching enter. */
  lemma LeaveAllIsCounted(t: Thread)
    requires ThreadOk(t)
    ensures match t.task
            case LeaveAll(i) => i < |t.dbs| && t.dbs[i].Shared? ==> t.want[t.dbs[i].k] > 0
            case _ => true
  {
    if t.task.LeaveAll? && t.task.i < |t.dbs| && t.dbs[t.task.i].Shared? {
      UsesMonotone(t.dbs, t.task.i + 1, |t.dbs|, t.dbs[t.task.i].k);
    }
  }

  /** Thread d holds a mutex and has a step to take.  Outside all calls that step is the release
      of a b-tree it has locked. */
  ghost predicate HolderCanMove(s: State, d: nat)
    requires AllShaped(s) && d < |s.threads|
  {
    && (exists a :: a in s.owner && s.owner[a] == d)
    && var t := s.threads[d];
       if t.pc == Idle && t.task == Client then exists k :: MayRelease(s, d, k)
       else exists a, s' :: Moves(s, d, a, s')
  }

  ghost predicate MayRelease(s: State, d: nat, k: nat)
    requires AllShaped(s) && d < |s.threads|
  {
    MayCall(s.threads[d], CallLeave(k)) && Held(s, d, k)
  }

  lemma UnblockedHolderCanMove(s: State, d: nat, a: nat)
    requires Inv(s) && d < |s.threads| && Awaited(s, d).None?
    requires a in s.owner && s.owner[a] == d
    ensures HolderCanMove(s, d)
  {
    var t := s.threads[d];
    assert ThreadOk(t);
    if t.pc == Idle && t.task == Client {
      var k :| 0 <= k < |t.list| && t.list[k] == a;
      assert Held(s, d, k) && t.locked[k] && Settled(t.locked, t.want, k);
      assert MayRelease(s, d, k);
    } else {
      UnblockedCanMove(s, d);
    }
  }

  /** If a thread has to wait, some thread that holds a mutex does not and can go on: the waiting
      ones cannot all be waiting for each other, and who they wait for is not waiting. */
  lemma SomeThreadCanMove(s: State, c: nat)
    requires Inv(s) && c < |s.threads| && Awaited(s, c).Some?
    ensures exists d :: 0 <= d < |s.threads| && Awaited(s, d).None? && HolderCanMove(s, d)
  {
    var waiting := set d | 0 <= d < |s.threads| && Awaited(s, d).Some?;
    assert c in waiting;
    NoCircularWait(s, waiting);
    var w :| w in waiting && !WaitsFor(s, w, waiting);
    var a := Awaited(s, w).value;
    assert a in s.owner && s.owner[a] == s.owner[a];
    assert s.owner[a] !in waiting;
    UnblockedHolderCanMove(s, s.owner[a], a);
  }

  /** No run of any number of connections ever gets into a deadlock. */
  lemma NoRunDeadlocks(run: seq<State>, moves: seq<Move>, n: nat)
    requires IsRun(run, moves) && n < |run|
    ensures Inv(run[n])
    ensures forall c | 0 <= c < |run[n].threads| && Awaited(run[n], c).Some? ::
              exists d :: 0 <= d < |run[n].threads| && Awaited(run[n], d).None? && HolderCanMove(run[n], d)
  {
    EveryRunIsOk(run, moves, n);
    var s := run[n];
    forall c | 0 <= c < |s.threads| && Awaited(s, c).Some?
      ensures exists d :: 0 <= d < |s.threads| && Awaited(s, d).None? && HolderCanMove(s, d)
    {
      SomeThreadCanMove(s, c);
    }
  }

  // ---- what calls do to the counts ----

  /** sqlite3BtreeHoldsAllMutexes(), for a thread that holds its connection's mutex. */
  ghost predicate HoldsAllMutexes(s: State, c: nat)
    requires AllShaped(s) && c < |s.threads|
  {
    var t := s.threads[c];
    forall i | 0 <= i < |t.dbs| && t.dbs[i].Shared? :: t.want[t.dbs[i].k] > 0 && Held(s, c, t.dbs[i].k)
  }

  /** Between calls: locked exactly when wanted, held by one connection, and BtShared.db names it. */
  lemma BetweenCalls(s: State, c: nat, k: nat)
    requires Inv(s) && c < |s.threads| && s.threads[c].pc == Idle && k < |s.threads[c].list|
    ensures s.threads[c].locked[k] <==> s.threads[c].want[k] > 0
    ensures s.threads[c].locked[k] <==> Held(s, c, k)
    ensures s.threads[c].locked[k] ==> s.db[s.threads[c].list[k]] == c
    ensures forall d, j | 0 <= d < |s.threads| && 0 <= j < |s.threads[d].list| && d != c && s.threads[c].locked[k] ::
              s.threads[d].locked[j] ==> s.threads[d].list[j] != s.threads[c].list[k]
  {
    var t := s.threads[c];
    assert ThreadOk(t) && Settled(t.locked, t.want, k);
    assert t.locked[k] <==> Held(s, c, k);
    forall d, j | 0 <= d < |s.threads| && 0 <= j < |s.threads[d].list| && d != c && t.locked[k]
      ensures s.threads[d].locked[j] ==> s.threads[d].list[j] != t.list[k]
    {
      assert s.threads[d].locked[j] <==> Held(s, d, j);
    }
  }

  /** Inside a lock that is held already, an enter and the matching leave cancel out. */
  lemma NestedEnterLeave(s: State, c: nat, k: nat)
    requires Inv(s) && c < |s.threads| && MayCall(s.threads[c], CallEnter(k)) && s.threads[c].locked[k]
    ensures var e := Enter(s, c, k);
            Shaped(e.threads[c]) && MayCall(e.threads[c], CallLeave(k)) && Leave(e, c, k) == s
  {
    var t := s.threads[c];
    assert ThreadOk(t) && Settled(t.locked, t.want, k);
    assert t.want[k := t.want[k] + 1][k := t.want[k]] == t.want;
    assert Leave(Enter(s, c, k), c, k).threads == s.threads;
  }

  lemma {:induction false} UsedAtLeastOnce(dbs: seq<Slot>, i: nat, j: nat)
    requires j < i <= |dbs| && dbs[j].Shared?
    ensures Uses(dbs, i, dbs[j].k) > 0
  {
    UsesMonotone(dbs, j + 1, i, dbs[j].k);
  }

  /** What a call adds to the count of b-tree k by the time it returns. */
  function Effect(dbs: seq<Slot>, call: Call, k: nat): int {
    match call
    case CallEnter(j) => if j == k then 1 else 0
    case CallLeave(j) => if j == k then -1 else 0
    case CallEnterAll => Uses(dbs, |dbs|, k)
    case CallLeaveAll => 0 - (Uses(dbs, |dbs|, k) as int)
  }

  /** What a move adds to the expected count of b-tree k of thread c. */
  function Added(dbs: seq<Slot>, m: Move, c: nat, k: nat): int {
    if m.c == c && m.a.Begin? then Effect(dbs, m.a.call, k) else 0
  }

  /** What the calls that thread c begins from move i up to move j add to the count of b-tree k
      when all have returned. */
  function Net(dbs: seq<Slot>, moves: seq<Move>, c: nat, k: nat, i: nat, j: nat): int
    requires i <= j <= |moves|
    decreases j
  {
    if i == j then 0 else Net(dbs, moves, c, k, i, j - 1) + Added(dbs, moves[j - 1], c, k)
  }

  /** The count of b-tree k when the call that the thread is in has returned. */
  function Expected(t: Thread, k: nat): int
    requires k < |t.want|
    requires match t.task case Client => true case EnterAll(i) => i <= |t.dbs| case LeaveAll(i) => i <= |t.dbs|
  {
    match t.task
    case Client => t.want[k]
    case EnterAll(i) => t.want[k] + Uses(t.dbs, |t.dbs|, k) - Uses(t.dbs, i, k)
    case LeaveAll(i) => t.want[k] - Uses(t.dbs, |t.dbs|, k) + Uses(t.dbs, i, k)
  }

  /** What no step of thread c changes. */
  ghost predicate ListsKept(s: State, c: nat, s': State)
    requires c < |s.threads|
  {
    && OthersKept(s, c, s')
    && s'.threads[c].list == s.threads[c].list && s'.threads[c].dbs == s.threads[c].dbs
  }

  /** Steps inside the locking procedure change no count. */
  lemma LockStepKeepsCounts(s: State, c: nat, tryFails: bool, s': State)
    requires AllShaped(s) && c < |s.threads| && LockStep(s, c, tryFails) == Some(s')
    ensures ListsKept(s, c, s')
    ensures s'.threads[c].want == s.threads[c].want && s'.threads[c].task == s.threads[c].task
  {
  }

  lemma TaskStepKeepsLists(s: State, c: nat, s': State)
    requires AllShaped(s) && c < |s.threads| && s.threads[c].pc == Idle && TaskStep(s, c) == Some(s')
    ensures ListsKept(s, c, s')
  {
  }

  lemma CallKeepsLists(s: State, c: nat, call: Call, s': State)
    requires AllShaped(s) && c < |s.threads| && MayCall(s.threads[c], call) && s' == DoCall(s, c, call)
    ensures ListsKept(s, c, s')
  {
  }

  /** What a round of EnterAll or LeaveAll does to the counts. */
  ghost predicate RoundOf(t: Thread, t': Thread) {
    match t.task
    case Client => false
    case EnterAll(i) =>
      if i == |t.dbs| then t'.task == Client && t'.want == t.want
      else
        && t'.task == EnterAll(i + 1) && i < |t.dbs| && |t'.want| == |t.want|
        && forall k | 0 <= k < |t.want| :: t'.want[k] == t.want[k] + if t.dbs[i] == Shared(k) then 1 else 0
    case LeaveAll(i) =>
      if i == |t.dbs| then t'.task == Client && t'.want == t.want
      else
        && t'.task == LeaveAll(i + 1) && i < |t.dbs| && |t'.want| == |t.want|
        && forall k | 0 <= k < |t.want| :: t.want[k] == t'.want[k] + if t.dbs[i] == Shared(k) then 1 else 0
  }

  lemma TaskStepIsRound(s: State, c: nat, s': State)
    requires c < |s.threads| && Shaped(s.threads[c]) && s.threads[c].pc == Idle && TaskStep(s, c) == Some(s')
    ensures c < |s'.threads| && RoundOf(s.threads[c], s'.threads[c])
  {
  }

  /** A round of EnterAll or LeaveAll changes one count, as expected. */
  lemma TaskStepKeepsExpected(s: State, c: nat, s': State, k: nat)
    requires AllShaped(s) && c < |s.threads| && s.threads[c].pc == Idle && TaskStep(s, c) == Some(s')
    requires k < |s.threads[c].list| && Shaped(s'.threads[c]) && ListsKept(s, c, s')
    ensures Expected(s'.threads[c], k) == Expected(s.threads[c], k)
  {
    TaskStepIsRound(s, c, s');
  }

  lemma CallChangesExpected(s: State, c: nat, call: Call, s': State, k: nat)
    requires AllShaped(s) && c < |s.threads| && MayCall(s.threads[c], call) && s' == DoCall(s, c, call)
    requires k < |s.threads[c].list| && Shaped(s'.threads[c]) && ListsKept(s, c, s')
    ensures Expected(s'.threads[c], k) == Expected(s.threads[c], k) + Effect(s.threads[c].dbs, call, k)
  {
  }

  lemma MoveKeepsLists(s: State, m: Move, s': State)
    requires AllShaped(s) && Moves(s, m.c, m.a, s')
    ensures ListsKept(s, m.c, s')
  {
    match m.a {
      case Lock(tryFails) => LockStepKeepsCounts(s, m.c, tryFails, s');
      case Task => TaskStepKeepsLists(s, m.c, s');
      case Begin(call) => CallKeepsLists(s, m.c, call, s');
    }
  }

  /** A move of any thread changes what is expected of a count only by a call that it begins. */
  lemma MoveChangesExpected(s: State, m: Move, s': State, c: nat, k: nat)
    requires AllShaped(s) && Moves(s, m.c, m.a, s') && AllShaped(s') && ListsKept(s, m.c, s')
    requires c < |s.threads| && k < |s.threads[c].list|
    ensures Expected(s'.threads[c], k) == Expected(s.threads[c], k) + Added(s.threads[c].dbs, m, c, k)
  {
    if m.c == c {
      match m.a {
        case Lock(tryFails) => LockStepKeepsCounts(s, c, tryFails, s');
        case Task => TaskStepKeepsExpected(s, c, s', k);
        case Begin(call) => CallChangesExpected(s, c, call, s', k);
      }
    }
  }

  lemma {:induction false} NetSplit(dbs: seq<Slot>, moves: seq<Move>, c: nat, k: nat, i: nat, j: nat, m: nat)
    requires i <= j <= m <= |moves|
    ensures Net(dbs, moves, c, k, i, m) == Net(dbs, moves, c, k, i, j) + Net(dbs, moves, c, k, j, m)
    decreases m
  {
    if j < m {
      NetSplit(dbs, moves, c, k, i, j, m - 1);
    }
  }

  /** The thread begins no call from move i up to move j. */
  ghost predicate Quiet(moves: seq<Move>, c: nat, i: nat, j: nat)
    requires i <= j <= |moves|
  {
    forall n | i <= n < j :: !(moves[n].c == c && moves[n].a.Begin?)
  }

  lemma {:induction false} QuietAddsNothing(dbs: seq<Slot>, moves: seq<Move>, c: nat, k: nat, i: nat, j: nat)
    requires i <= j <= |moves| && Quiet(moves, c, i, j)
    ensures Net(dbs, moves, c, k, i, j) == 0
    decreases j
  {
    if i < j {
      QuietAddsNothing(dbs, moves, c, k, i, j - 1);
    }
  }

  lemma {:induction false} ListsStay(run: seq<State>, moves: seq<Move>, c: nat, i: nat, j: nat)
    requires IsRun(run, moves) && i <= j < |run| && c < |run[i].threads|
    ensures c < |run[j].threads|
    ensures run[j].threads[c].list == run[i].threads[c].list && run[j].threads[c].dbs == run[i].threads[c].dbs
    decreases j
  {
    if i < j {
      ListsStay(run, moves, c, i, j - 1);
      assert Follows(run, moves, j - 1);
      MoveKeepsLists(run[j - 1], moves[j - 1], run[j]);
    }
  }

  /** Counts are conserved: whatever the other threads do, what is expected of a count of thread c
      changes between two moments of a run by exactly the calls that c begins in between. */
  lemma {:induction false} CountsAreNet(run: seq<State>, moves: seq<Move>, c: nat, k: nat, i: nat, j: nat)
    requires IsRun(run, moves) && i <= j < |run| && c < |run[i].threads| && k < |run[i].threads[c].list|
    ensures AllShaped(run[i]) && AllShaped(run[j])
    ensures c < |run[j].threads| && k < |run[j].threads[c].list|
    ensures Expected(run[j].threads[c], k) ==
            Expected(run[i].threads[c], k) + Net(run[i].threads[c].dbs, moves, c, k, i, j)
    decreases j
  {
    RunIsShaped(run, moves, i);
    if i < j {
      CountsAreNet(run, moves, c, k, i, j - 1);
      ListsStay(run, moves, c, i, j - 1);
      MomentChangesExpected(run, moves, j - 1, c, k);
    }
  }

  lemma MomentChangesExpected(run: seq<State>, moves: seq<Move>, n: nat, c: nat, k: nat)
    requires IsRun(run, moves) && n < |moves| && AllShaped(run[n])
    requires c < |run[n].threads| && k < |run[n].threads[c].list|
    ensures AllShaped(run[n + 1]) && c < |run[n + 1].threads| && k < |run[n + 1].threads[c].list|
    ensures Expected(run[n + 1].threads[c], k) ==
            Expected(run[n].threads[c], k) + Added(run[n].threads[c].dbs, moves[n], c, k)
  {
    RunIsShaped(run, moves, n + 1);
    assert Follows(run, moves, n);
    MoveKeepsLists(run[n], moves[n], run[n + 1]);
    MoveChangesExpected(run[n], moves[n], run[n + 1], c, k);
  }

  lemma RunIsShaped(run: seq<State>, moves: seq<Move>, n: nat)
    requires IsRun(run, moves) && n < |run|
    ensures AllShaped(run[n])
  {
    EveryRunIsOk(run, moves, n);
  }

  /** The thread is in none of the calls. */
  predicate Outside(t: Thread) {
    t.pc == Idle && t.task == Client
  }

  /** The two threads want and have locked the same b-trees. */
  ghost predicate SameLocks(s: State, s': State, c: nat)
    requires c < |s.threads| && c < |s'.threads|
  {
    && s'.threads[c].list == s.threads[c].list
    && s'.threads[c].want == s.threads[c].want && s'.threads[c].locked == s.threads[c].locked
    && forall k | 0 <= k < |s.threads[c].list| :: Held(s', c, k) <==> Held(s, c, k)
  }

  lemma SameCountsSameLocks(s: State, s': State, c: nat)
    requires Inv(s) && Inv(s') && c < |s.threads| && c < |s'.threads|
    requires Outside(s.threads[c]) && Outside(s'.threads[c]) && s'.threads[c].list == s.threads[c].list
    requires forall k | 0 <= k < |s.threads[c].list| :: s'.threads[c].want[k] == s.threads[c].want[k]
    ensures SameLocks(s, s', c)
  {
    assert s'.threads[c].want == s.threads[c].want;
    forall k | 0 <= k < |s.threads[c].list|
      ensures s'.threads[c].locked[k] == s.threads[c].locked[k] && (Held(s', c, k) <==> Held(s, c, k))
    {
      BetweenCalls(s, c, k);
      BetweenCalls(s', c, k);
    }
  }

  /** Calls that add up to nothing leave every count, every lock flag and every mutex of the
      connection as it was, however they were nested and whatever other connections did. */
  lemma BalancedCallsRestore(run: seq<State>, moves: seq<Move>, c: nat, i: nat, j: nat)
    requires IsRun(run, moves) && i <= j < |run| && c < |run[i].threads| && c < |run[j].threads|
    requires Outside(run[i].threads[c]) && Outside(run[j].threads[c])
    requires forall k | 0 <= k < |run[i].threads[c].list| ::
               Net(run[i].threads[c].dbs, moves, c, k, i, j) == 0
    ensures run[j].threads[c].list == run[i].threads[c].list && SameLocks(run[i], run[j], c)
  {
    EveryRunIsOk(run, moves, i);
    EveryRunIsOk(run, moves, j);
    ListsStay(run, moves, c, i, j);
    forall k | 0 <= k < |run[i].threads[c].list|
      ensures run[j].threads[c].want[k] == run[i].threads[c].want[k]
    {
      CountsAreNet(run, moves, c, k, i, j);
    }
    SameCountsSameLocks(run[i], run[j], c);
  }

  /** A call and the one that takes it back. */
  predicate Matches(call: Call, back: Call) {
    match call
    case CallEnter(k) => back == CallLeave(k)
    case CallEnterAll => back == CallLeaveAll
    case _ => false
  }

  /** The calls of thread c between moments i and m are `call`, begun first, and `back`, begun at j. */
  ghost predicate IsPair(moves: seq<Move>, c: nat, i: nat, j: nat, m: nat, call: Call, back: Call) {
    && i < j < m <= |moves| && Matches(call, back)
    && moves[i] == Move(c, Begin(call)) && Quiet(moves, c, i + 1, j)
    && moves[j] == Move(c, Begin(back)) && Quiet(moves, c, j + 1, m)
  }

  lemma PairAddsNothing(
      dbs: seq<Slot>, moves: seq<Move>, c: nat, i: nat, j: nat, m: nat, call: Call, back: Call, k: nat)
    requires IsPair(moves, c, i, j, m, call, back)
    ensures Net(dbs, moves, c, k, i, m) == 0
  {
    FirstCallThenQuiet(dbs, moves, c, k, i, j);
    FirstCallThenQuiet(dbs, moves, c, k, j, m);
    NetSplit(dbs, moves, c, k, i, j, m);
  }

  lemma FirstCallThenQuiet(dbs: seq<Slot>, moves: seq<Move>, c: nat, k: nat, i: nat, j: nat)
    requires i < j <= |moves| && Quiet(moves, c, i + 1, j)
    ensures Net(dbs, moves, c, k, i, j) == Added(dbs, moves[i], c, k)
  {
    NetSplit(dbs, moves, c, k, i, i + 1, j);
    QuietAddsNothing(dbs, moves, c, k, i + 1, j);
    assert Net(dbs, moves, c, k, i, i) == 0;
  }

  /** An enter and its leave, or an enter-all and its leave-all, restore all counts, flags and
      mutexes of the connection, on the contended path as on the free one. */
  lemma PairRestores(
      run: seq<State>, moves: seq<Move>, c: nat, i: nat, j: nat, m: nat, call: Call, back: Call)
    requires IsRun(run, moves) && IsPair(moves, c, i, j, m, call, back)
    requires c < |run[m].threads| && Outside(run[m].threads[c])
    ensures c < |run[i].threads| && SameLocks(run[i], run[m], c)
  {
    assert Follows(run, moves, i);
    forall k | 0 <= k < |run[i].threads[c].list|
      ensures Net(run[i].threads[c].dbs, moves, c, k, i, m) == 0
    {
      PairAddsNothing(run[i].threads[c].dbs, moves, c, i, j, m, call, back, k);
    }
    BalancedCallsRestore(run, moves, c, i, m);
  }

  /** The calls of thread c among these take nothing away on the whole. */
  ghost predicate TakesNothing(t: Thread, moves: seq<Move>, c: nat, i: nat, j: nat)
    requires i <= j <= |moves|
  {
    forall k | 0 <= k < |t.list| :: Net(t.dbs, moves, c, k, i, j) >= 0
  }

  /** Once EnterAll has returned, and as long as the calls after it take nothing away, every count
      is at least the number of databases that use the b-tree, all mutexes are held, and LeaveAll
      may be called. */
  lemma EnterAllHolds(run: seq<State>, moves: seq<Move>, c: nat, i: nat, j: nat)
    requires IsRun(run, moves) && i < j < |run| && moves[i] == Move(c, Begin(CallEnterAll))
    requires c < |run[i].threads| && c < |run[j].threads| && Outside(run[j].threads[c])
    requires TakesNothing(run[i].threads[c], moves, c, i + 1, j)
    ensures Inv(run[j]) && HoldsAllMutexes(run[j], c) && MayCall(run[j].threads[c], CallLeaveAll)
  {
    assert Follows(run, moves, i);
    EveryRunIsOk(run, moves, j);
    ListsStay(run, moves, c, i, j);
    var t := run[j].threads[c];
    forall k | 0 <= k < |t.list|
      ensures t.want[k] >= Uses(t.dbs, |t.dbs|, k)
    {
      CountsAreNet(run, moves, c, k, i, j);
      NetSplit(t.dbs, moves, c, k, i, i + 1, j);
      assert Net(t.dbs, moves, c, k, i, i) == 0;
      assert Net(t.dbs, moves, c, k, i + 1, j) >= 0;
    }
    forall n | 0 <= n < |t.dbs| && t.dbs[n].Shared?
      ensures t.want[t.dbs[n].k] > 0 && Held(run[j], c, t.dbs[n].k)
    {
      UsedAtLeastOnce(t.dbs, |t.dbs|, n);
      BetweenCalls(run[j], c, t.dbs[n].k);
    }
  }

  // ---- every call ends after a bounded number of steps ----

  /** How many steps a thread with n b-trees can still take inside btreeLockCarefully(). */
  function PcStepsLeft(pc: Pc, n: nat): int {
    match pc
    case Idle => 0
    case Try(k) => 2 * (n - k) + 2
    case Release(k, j) => n - j + 1 + n - k + 1
    case Wait(k) => n - k + 1
    case Relock(k, j) => n - j + 1
  }

  function LockStepsLeft(t: Thread): (n: nat)
    requires Shaped(t)
    ensures n <= 2 * |t.list| + 2
  {
    PcStepsLeft(t.pc, |t.list|)
  }

  function Rounds(n: nat, each: nat): nat {
    n * each
  }

  /** How many steps the loop around that still has, with those inside it. */
  function TaskStepsLeft(t: Thread): nat
    requires Shaped(t)
  {
    match t.task
    case Client => 0
    case EnterAll(i) => Rounds(|t.dbs| - i, 2 * |t.list| + 3) + 1
    case LeaveAll(i) => |t.dbs| - i + 1
  }

  function StepsLeft(t: Thread): nat
    requires Shaped(t)
  {
    LockStepsLeft(t) + TaskStepsLeft(t)
  }

  /** Where a step inside btreeLockCarefully() leads. */
  ghost predicate PcFollows(pc: Pc, n: nat, pc': Pc) {
    match pc
    case Idle => false
    case Try(k) => pc' == Idle || pc' == Release(k, k + 1)
    case Release(k, j) => pc' == if j == n then Wait(k) else Release(k, j + 1)
    case Wait(k) => pc' == Relock(k, k + 1)
    case Relock(k, j) => pc' == if j == n then Idle else Relock(k, j + 1)
  }

  lemma LockStepFollows(s: State, c: nat, tryFails: bool, s': State)
    requires c < |s.threads| && Shaped(s.threads[c]) && LockStep(s, c, tryFails) == Some(s')
    ensures c < |s'.threads| && PcFollows(s.threads[c].pc, |s.threads[c].list|, s'.threads[c].pc)
  {
  }

  lemma LockStepAdvances(s: State, c: nat, tryFails: bool, s': State)
    requires AllShaped(s) && c < |s.threads| && LockStep(s, c, tryFails) == Some(s') && Shaped(s'.threads[c])
    requires |s'.threads[c].list| == |s.threads[c].list|
    ensures LockStepsLeft(s'.threads[c]) < LockStepsLeft(s.threads[c])
  {
    LockStepFollows(s, c, tryFails, s');
  }

  lemma LockStepShortens(s: State, c: nat, tryFails: bool, s': State)
    requires AllShaped(s) && c < |s.threads| && LockStep(s, c, tryFails) == Some(s') && Shaped(s'.threads[c])
    ensures StepsLeft(s'.threads[c]) < StepsLeft(s.threads[c])
  {
    LockStepKeepsCounts(s, c, tryFails, s');
    LockStepAdvances(s, c, tryFails, s');
  }

  lemma TaskStepShortens(s: State, c: nat, s': State)
    requires AllShaped(s) && c < |s.threads| && s.threads[c].pc == Idle && TaskStep(s, c) == Some(s')
    requires Shaped(s'.threads[c])
    ensures StepsLeft(s'.threads[c]) < StepsLeft(s.threads[c])
  {
    var t, t' := s.threads[c], s'.threads[c];
    assert t'.dbs == t.dbs && t'.list == t.list;
    if t.task.EnterAll? && t.task.i < |t.dbs| {
      var left, each := |t.dbs| - t.task.i - 1, 2 * |t.list| + 3;
      assert Rounds(left + 1, each) == Rounds(left, each) + each;
    }
  }

  /** How many of the moves from i up to j are steps of thread c inside its calls. */
  function OwnSteps(moves: seq<Move>, c: nat, i: nat, j: nat): nat
    requires i <= j <= |moves|
    decreases j
  {
    if i == j then 0
    else OwnSteps(moves, c, i, j - 1) + if moves[j - 1].c == c && !moves[j - 1].a.Begin? then 1 else 0
  }

  lemma MomentShortens(run: seq<State>, moves: seq<Move>, n: nat, c: nat)
    requires IsRun(run, moves) && n < |moves| && AllShaped(run[n]) && c < |run[n].threads|
    requires !(moves[n].c == c && moves[n].a.Begin?)
    ensures AllShaped(run[n + 1]) && c < |run[n + 1].threads|
    ensures StepsLeft(run[n + 1].threads[c]) + (if moves[n].c == c then 1 else 0) <= StepsLeft(run[n].threads[c])
  {
    RunIsShaped(run, moves, n + 1);
    assert Follows(run, moves, n);
    MoveKeepsLists(run[n], moves[n], run[n + 1]);
    if moves[n].c == c {
      match moves[n].a {
        case Lock(tryFails) => LockStepShortens(run[n], c, tryFails, run[n + 1]);
        case Task => TaskStepShortens(run[n], c, run[n + 1]);
      }
    }
  }

  /** A call that a thread is in ends after a bounded number of its own steps, however often it is
      kept waiting in between. */
  lemma {:induction false} CallsEnd(run: seq<State>, moves: seq<Move>, c: nat, i: nat, j: nat)
    requires IsRun(run, moves) && i <= j < |run| && c < |run[i].threads| && Quiet(moves, c, i, j)
    ensures AllShaped(run[i]) && AllShaped(run[j]) && c < |run[j].threads|
    ensures OwnSteps(moves, c, i, j) + StepsLeft(run[j].threads[c]) <= StepsLeft(run[i].threads[c])
    decreases j
  {
    RunIsShaped(run, moves, i);
    if i < j {
      CallsEnd(run, moves, c, i, j - 1);
      MomentShortens(run, moves, j - 1, c);
    }
  }

  /** When no steps are left the thread is outside. */
  lemma NoStepsLeft(t: Thread)
    requires Shaped(t)
    ensures StepsLeft(t) == 0 <==> Outside(t)
  {
  }

  /** The longest call: enter every database, each of them the hard way. */
  lemma LongestCall(s: State, c: nat, call: Call, s': State)
    requires AllShaped(s) && c < |s.threads| && MayCall(s.threads[c], call) && s' == DoCall(s, c, call)
    requires Shaped(s'.threads[c])
    ensures var t := s.threads[c];
            StepsLeft(s'.threads[c]) <=
            match call
            case CallEnter(k) => 2 * (|t.list| - k) + 2
            case CallLeave(_) => 0
            case CallEnterAll => Rounds(|t.dbs|, 2 * |t.list| + 3) + 1
            case CallLeaveAll => |t.dbs| + 1
  {
  }

  /** An enter that finds the mutex free takes it, and lets go of nothing. */
  lemma UncontendedEnter(s: State, c: nat, k: nat)
    requires Inv(s) && c < |s.threads| && MayCall(s.threads[c], CallEnter(k))
    requires !s.threads[c].locked[k] && IsFree(s, s.threads[c].list[k])
    ensures var e := Enter(s, c, k);
            && Shaped(e.threads[c]) && LockStep(e, c, false).Some?
            && var s' := LockStep(e, c, false).value;
               && Outside(s'.threads[c])
               && s'.threads[c].want == s.threads[c].want[k := s.threads[c].want[k] + 1]
               && s'.threads[c].locked == s.threads[c].locked[k := true]
               && s'.owner == s.owner[s.threads[c].list[k] := c]
  {
  }
}
