/** The reader/writer lock, as steps of any number of threads (kernel/include/kernel/spinlock.h). */
module RwLock {
  import opened Arith

  /** Where a thread stands in the lock's routines. */
  datatype Pc =
    | Idle         // outside
    | ReaderSpin   // read_acquire, waiting for reader_lock
    | Increment    // holds reader_lock, before the increment
    | WriterSpin   // first reader, waiting for writer_lock
    | Unlock       // before the release of reader_lock
    | Reading      // read_acquire returned
    | LastOut      // read_release, before the release of writer_lock
    | WriteSpin    // write_acquire, waiting for writer_lock
    | Writing      // write_acquire returned

  /** The three fields of rwlock_t and the threads. */
  datatype State = State(readerLock: bool, writerLock: bool, readers: nat, pcs: map<nat, Pc>)

  datatype Call = Read | Write

  function At(s: State, t: nat, pc: Pc): State {
    s.(pcs := s.pcs[t := pc])
  }

  /** One primitive step of thread t; an idle thread makes the given call. A spin that fails changes nothing. */
  function Step(s: State, t: nat, call: Call): State
    requires t in s.pcs
  {
    match s.pcs[t]
    case Idle => At(s, t, if call.Read? then ReaderSpin else WriteSpin)
    case ReaderSpin => if s.readerLock then s else At(s.(readerLock := true), t, Increment)
    case Increment =>
      var n := (s.readers + 1) % TWO_32;
      At(s.(readers := n), t, if n == 1 then WriterSpin else Unlock)
    case WriterSpin => if s.writerLock then s else At(s.(writerLock := true), t, Unlock)
    case Unlock => At(s.(readerLock := false), t, Reading)
    case Reading =>
      var n := (s.readers + TWO_32 - 1) % TWO_32;
      At(s.(readers := n), t, if n == 0 then LastOut else Idle)
    case LastOut => At(s.(writerLock := false), t, Idle)
    case WriteSpin => if s.writerLock then s else At(s.(writerLock := true), t, Writing)
    case Writing => At(s.(writerLock := false), t, Idle)
  }

  // ---- The invariant ----

  /** What threads hold of the lock. */
  datatype Role =
    | Leads             // waits for writer_lock on behalf of all readers
    | Inside            // shares the reader group's hold on writer_lock
    | Counts            // is in the reader count
    | Owns              // itself holds writer_lock
    | HoldsReaderLock
    | Writes

  predicate Has(pc: Pc, role: Role) {
    match role
    case Leads => pc.WriterSpin?
    case Inside => pc.Unlock? || pc.Reading?
    case Counts => pc.WriterSpin? || pc.Unlock? || pc.Reading?
    case Owns => pc.Writing? || pc.LastOut?
    case HoldsReaderLock => pc.Increment? || pc.WriterSpin? || pc.Unlock?
    case Writes => pc.Writing?
  }

  function Group(pcs: map<nat, Pc>, role: Role): set<nat> {
    set t | t in pcs && Has(pcs[t], role)
  }

  predicate AtMostOne(a: set<nat>) {
    forall t, u :: t in a && u in a ==> t == u
  }

  /** The threads of each role. */
  datatype Groups = Groups(leaders: set<nat>, insiders: set<nat>, owners: set<nat>, holders: set<nat>)

  function GroupsOf(pcs: map<nat, Pc>): Groups {
    Groups(Group(pcs, Leads), Group(pcs, Inside), Group(pcs, Owns), Group(pcs, HoldsReaderLock))
  }

  /** How the three fields follow from who holds what. */
  predicate Agree(readerLock: bool, writerLock: bool, readers: nat, g: Groups) {
    && readers == |g.leaders + g.insiders|
    && (readerLock <==> g.holders != {}) && AtMostOne(g.holders)
    && (writerLock <==> g.owners + g.insiders != {}) && AtMostOne(g.owners)
    && (g.owners == {} || g.insiders == {})
    && (g.leaders == {} || g.insiders == {})
    && g.leaders <= g.holders
  }

  predicate Inv(s: State) {
    && |s.pcs.Keys| < TWO_32
    && Agree(s.readerLock, s.writerLock, s.readers, GroupsOf(s.pcs))
  }

  /** Everyone idle, the lock as RWLOCK_INITIALIZER leaves it. */
  lemma InitialInv(threads: set<nat>)
    requires |threads| < TWO_32
    ensures Inv(State(false, false, 0, map t | t in threads :: Idle))
  {
    var s := State(false, false, 0, map t | t in threads :: Idle);
    assert s.pcs.Keys == threads;
    assert GroupsOf(s.pcs) == Groups({}, {}, {}, {});
  }

  lemma SubsetSize(a: set<nat>, b: set<nat>)
    requires a <= b
    ensures |a| <= |b|
  {
    assert b == a + (b - a);
  }

  function Shift(a: set<nat>, t: nat, into: bool): set<nat> {
    if into then a + {t} else a - {t}
  }

  lemma GroupMove(pcs: map<nat, Pc>, t: nat, pc: Pc, role: Role)
    requires t in pcs
    ensures Group(pcs[t := pc], role) == Shift(Group(pcs, role), t, Has(pc, role))
    ensures t in Group(pcs, role) <==> Has(pcs[t], role)
    ensures Group(pcs, role) <= pcs.Keys
  {
  }

  /** The thread is in the groups of its place. */
  predicate Stands(g: Groups, t: nat, pc: Pc) {
    && (t in g.leaders <==> Has(pc, Leads))
    && (t in g.insiders <==> Has(pc, Inside))
    && (t in g.owners <==> Has(pc, Owns))
    && (t in g.holders <==> Has(pc, HoldsReaderLock))
  }

  function Moved(g: Groups, t: nat, pc: Pc): Groups {
    Groups(Shift(g.leaders, t, Has(pc, Leads)), Shift(g.insiders, t, Has(pc, Inside)),
      Shift(g.owners, t, Has(pc, Owns)), Shift(g.holders, t, Has(pc, HoldsReaderLock)))
  }

  lemma Moves(pcs: map<nat, Pc>, t: nat, pc: Pc)
    requires t in pcs
    ensures pcs[t := pc].Keys == pcs.Keys
    ensures GroupsOf(pcs[t := pc]) == Moved(GroupsOf(pcs), t, pc)
    ensures Stands(GroupsOf(pcs), t, pcs[t])
    ensures GroupsOf(pcs).leaders + GroupsOf(pcs).insiders <= pcs.Keys
  {
    hide Group;
    GroupMove(pcs, t, pc, HoldsReaderLock);
    GroupMove(pcs, t, pc, Owns);
    GroupMove(pcs, t, pc, Leads);
    GroupMove(pcs, t, pc, Inside);
  }

  lemma SameCount(g: Groups, g': Groups)
    requires g.leaders + g.insiders == g'.leaders + g'.insiders
    ensures |g.leaders + g.insiders| == |g'.leaders + g'.insiders|
  {
  }

  lemma Unmoved(a: set<nat>, t: nat)
    requires t !in a
    ensures Shift(a, t, false) == a
  {
  }

  lemma ReadCallStep(rl: bool, wl: bool, readers: nat, g: Groups, t: nat)
    requires Agree(rl, wl, readers, g) && Stands(g, t, Idle)
    ensures Agree(rl, wl, readers, Moved(g, t, ReaderSpin))
  {
    hide Agree, Shift;
    Unmoved(g.leaders, t);
    Unmoved(g.insiders, t);
    Unmoved(g.owners, t);
    Unmoved(g.holders, t);
  }

  lemma WriteCallStep(rl: bool, wl: bool, readers: nat, g: Groups, t: nat)
    requires Agree(rl, wl, readers, g) && Stands(g, t, Idle)
    ensures Agree(rl, wl, readers, Moved(g, t, WriteSpin))
  {
    hide Agree, Shift;
    Unmoved(g.leaders, t);
    Unmoved(g.insiders, t);
    Unmoved(g.owners, t);
    Unmoved(g.holders, t);
  }

  lemma ReaderLockStep(wl: bool, readers: nat, g: Groups, t: nat)
    requires Agree(false, wl, readers, g) && Stands(g, t, ReaderSpin)
    ensures Agree(true, wl, readers, Moved(g, t, Increment))
  {
    SameCount(g, Moved(g, t, Increment));
  }

  lemma UnlockStep(rl: bool, wl: bool, readers: nat, g: Groups, t: nat)
    requires Agree(rl, wl, readers, g) && Stands(g, t, Unlock)
    ensures Agree(false, wl, readers, Moved(g, t, Reading))
  {
    SameCount(g, Moved(g, t, Reading));
  }

  lemma LeaderStep(rl: bool, readers: nat, g: Groups, t: nat)
    requires Agree(rl, false, readers, g) && Stands(g, t, WriterSpin)
    ensures Agree(rl, true, readers, Moved(g, t, Unlock))
  {
    SameCount(g, Moved(g, t, Unlock));
  }

  lemma WriterStep(rl: bool, readers: nat, g: Groups, t: nat)
    requires Agree(rl, false, readers, g) && Stands(g, t, WriteSpin)
    ensures Agree(rl, true, readers, Moved(g, t, Writing))
  {
    SameCount(g, Moved(g, t, Writing));
  }

  lemma ReleaseStep(rl: bool, wl: bool, readers: nat, g: Groups, t: nat, pc: Pc)
    requires Agree(rl, wl, readers, g) && Stands(g, t, pc) && (pc.LastOut? || pc.Writing?)
    ensures Agree(rl, false, readers, Moved(g, t, Idle))
  {
    Unmoved(g.leaders, t);
    Unmoved(g.insiders, t);
    Unmoved(g.holders, t);
    Emptied(g.owners, t);
    hide Shift, AtMostOne;
  }

  lemma Emptied(a: set<nat>, t: nat)
    requires AtMostOne(a) && t in a
    ensures Shift(a, t, false) == {} && AtMostOne({})
  {
  }

  /** The increment leads to a wait for writer_lock exactly when nobody was counted. */
  lemma IncrementStep(rl: bool, wl: bool, readers: nat, g: Groups, t: nat)
    requires Agree(rl, wl, readers, g) && Stands(g, t, Increment)
    ensures Agree(rl, wl, readers + 1, Moved(g, t, if readers == 0 then WriterSpin else Unlock))
  {
    var g' := Moved(g, t, if readers == 0 then WriterSpin else Unlock);
    assert g'.leaders + g'.insiders == g.leaders + g.insiders + {t};
    assert g.leaders == {};
    assert readers == 0 <==> g.insiders == {};
  }

  /** The reader that brings the count to zero was the last one inside. */
  lemma DecrementStep(rl: bool, wl: bool, readers: nat, g: Groups, t: nat)
    requires Agree(rl, wl, readers, g) && Stands(g, t, Reading)
    ensures readers > 0 && Agree(rl, wl, readers - 1, Moved(g, t, if readers == 1 then LastOut else Idle))
  {
    var g' := Moved(g, t, if readers == 1 then LastOut else Idle);
    assert g.leaders == {};
    assert g.leaders + g.insiders == g.insiders;
    assert g'.leaders + g'.insiders == g.insiders - {t};
    assert readers == 1 <==> g.insiders - {t} == {};
  }

  lemma CallKeeps(s: State, t: nat, call: Call)
    requires Inv(s) && t in s.pcs && s.pcs[t].Idle?
    ensures Inv(Step(s, t, call))
  {
    hide GroupsOf, Agree, Moved, Stands, Has;
    var g, rl, wl, n := GroupsOf(s.pcs), s.readerLock, s.writerLock, s.readers;
    if call.Read? {
      Moves(s.pcs, t, ReaderSpin);
      ReadCallStep(rl, wl, n, g, t);
    } else {
      Moves(s.pcs, t, WriteSpin);
      WriteCallStep(rl, wl, n, g, t);
    }
  }

  lemma SpinKeeps(s: State, t: nat, call: Call)
    requires Inv(s) && t in s.pcs && (s.pcs[t].ReaderSpin? || s.pcs[t].WriterSpin? || s.pcs[t].WriteSpin?)
    ensures Inv(Step(s, t, call))
  {
    hide GroupsOf, Agree, Moved, Stands, Has;
    var g, rl, wl, n := GroupsOf(s.pcs), s.readerLock, s.writerLock, s.readers;
    if s.pcs[t].ReaderSpin? {
      if !rl {
        Moves(s.pcs, t, Increment);
        ReaderLockStep(wl, n, g, t);
      }
    } else if !wl {
      if s.pcs[t].WriterSpin? {
        Moves(s.pcs, t, Unlock);
        LeaderStep(rl, n, g, t);
      } else {
        Moves(s.pcs, t, Writing);
        WriterStep(rl, n, g, t);
      }
    }
  }

  lemma NotCounted()
    ensures !Has(Increment, Counts)
  {
  }

  lemma IncrementIs(s: State, t: nat, call: Call)
    requires t in s.pcs && s.pcs[t].Increment? && s.readers + 1 < TWO_32
    ensures Step(s, t, call) ==
      State(s.readerLock, s.writerLock, s.readers + 1, s.pcs[t := if s.readers == 0 then WriterSpin else Unlock])
  {
  }

  lemma DecrementIs(s: State, t: nat, call: Call)
    requires t in s.pcs && s.pcs[t].Reading? && 0 < s.readers < TWO_32
    ensures Step(s, t, call) ==
      State(s.readerLock, s.writerLock, s.readers - 1, s.pcs[t := if s.readers == 1 then LastOut else Idle])
  {
  }

  lemma IncrementKeeps(s: State, t: nat, call: Call)
    requires Inv(s) && t in s.pcs && s.pcs[t].Increment?
    ensures Inv(Step(s, t, call))
  {
    hide GroupsOf, Agree, Moved, Stands, Has;
    var g, rl, wl, n := GroupsOf(s.pcs), s.readerLock, s.writerLock, s.readers;
    NotCounted();
    CountBound(s.pcs, n, rl, wl, t);
    hide Step;
    IncrementIs(s, t, call);
    if n == 0 {
      Moves(s.pcs, t, WriterSpin);
      IncrementStep(rl, wl, n, g, t);
    } else {
      Moves(s.pcs, t, Unlock);
      IncrementStep(rl, wl, n, g, t);
    }
  }

  lemma DecrementKeeps(s: State, t: nat, call: Call)
    requires Inv(s) && t in s.pcs && s.pcs[t].Reading?
    ensures Inv(Step(s, t, call))
  {
    hide GroupsOf, Agree, Moved, Stands, Has;
    var g, rl, wl, n := GroupsOf(s.pcs), s.readerLock, s.writerLock, s.readers;
    CountBound(s.pcs, n, rl, wl, t);
    hide Step;
    if n == 1 {
      Moves(s.pcs, t, LastOut);
      DecrementStep(rl, wl, n, g, t);
    } else {
      Moves(s.pcs, t, Idle);
      DecrementStep(rl, wl, n, g, t);
    }
    DecrementIs(s, t, call);
  }

  lemma ReleaseKeeps(s: State, t: nat, call: Call)
    requires Inv(s) && t in s.pcs && (s.pcs[t].Unlock? || s.pcs[t].LastOut? || s.pcs[t].Writing?)
    ensures Inv(Step(s, t, call))
  {
    hide GroupsOf, Agree, Moved, Stands, Has;
    var g, rl, wl, n := GroupsOf(s.pcs), s.readerLock, s.writerLock, s.readers;
    if s.pcs[t].Unlock? {
      Moves(s.pcs, t, Reading);
      UnlockStep(rl, wl, n, g, t);
    } else {
      Moves(s.pcs, t, Idle);
      ReleaseStep(rl, wl, n, g, t, s.pcs[t]);
    }
  }

  lemma StepKeeps(s: State, t: nat, call: Call)
    requires Inv(s) && t in s.pcs
    ensures Inv(Step(s, t, call)) && Step(s, t, call).pcs.Keys == s.pcs.Keys
  {
    hide Inv;
    match s.pcs[t]
    case Idle => CallKeeps(s, t, call);
    case ReaderSpin | WriterSpin | WriteSpin => SpinKeeps(s, t, call);
    case Increment => IncrementKeeps(s, t, call);
    case Reading => DecrementKeeps(s, t, call);
    case Unlock | LastOut | Writing => ReleaseKeeps(s, t, call);
  }

  lemma CountBound(pcs: map<nat, Pc>, n: nat, rl: bool, wl: bool, t: nat)
    requires t in pcs && Agree(rl, wl, n, GroupsOf(pcs))
    ensures n <= |pcs.Keys|
    ensures !Has(pcs[t], Counts) ==> n < |pcs.Keys|
  {
    var counted := GroupsOf(pcs).leaders + GroupsOf(pcs).insiders;
    SubsetSize(counted, pcs.Keys);
    if !Has(pcs[t], Counts) {
      SubsetSize(counted, pcs.Keys - {t});
    }
  }

  // ---- What it is for ----

  /** A writer excludes every reader and every other writer; the writer lock is held while any reader is in. */
  ghost predicate Safe(s: State) {
    && (forall t, u :: t in s.pcs && u in s.pcs && s.pcs[t].Writing? && u != t ==> !s.pcs[u].Writing?)
    && (forall t, u :: t in s.pcs && u in s.pcs && s.pcs[t].Writing? ==> !s.pcs[u].Reading?)
    && (forall t :: t in s.pcs && (s.pcs[t].Reading? || s.pcs[t].Writing?) ==> s.writerLock)
  }

  /** The thread can change the state. */
  predicate CanMove(s: State, t: nat) {
    t in s.pcs && !s.pcs[t].Idle? && Step(s, t, Read) != s
  }

  /** Only a spin on a taken lock keeps a thread from moving. */
  lemma MovesUnless(s: State, t: nat)
    requires t in s.pcs && !s.pcs[t].Idle?
    requires s.pcs[t].ReaderSpin? ==> !s.readerLock
    requires s.pcs[t].WriterSpin? || s.pcs[t].WriteSpin? ==> !s.writerLock
    ensures CanMove(s, t)
  {
    assert Step(s, t, Read).pcs[t] != s.pcs[t];
  }

  lemma Holder(s: State, role: Role) returns (u: nat)
    requires Group(s.pcs, role) != {}
    ensures u in s.pcs && Has(s.pcs[u], role)
  {
    u :| u in Group(s.pcs, role);
  }

  /** Whenever a thread is under way, some thread under way can move. */
  lemma NoDeadlock(s: State, t: nat) returns (u: nat)
    requires Inv(s) && t in s.pcs && !s.pcs[t].Idle?
    ensures CanMove(s, u)
  {
    hide CanMove, Step, Group;
    u := t;
    if s.pcs[t].ReaderSpin? && s.readerLock {
      u := Holder(s, HoldsReaderLock);
    }
    if (s.pcs[u].WriterSpin? || s.pcs[u].WriteSpin?) && s.writerLock {
      u := Holder(s, if Group(s.pcs, Owns) != {} then Owns else Inside);
    }
    MovesUnless(s, u);
  }

  /** A schedule: who moves next, and the call it makes if idle. */
  function Run(s: State, schedule: seq<(nat, Call)>): State
    requires forall k :: 0 <= k < |schedule| ==> schedule[k].0 in s.pcs
    decreases |schedule|
  {
    if schedule == [] then s
    else
      assert schedule[0].0 in s.pcs;
      assert Step(s, schedule[0].0, schedule[0].1).pcs.Keys == s.pcs.Keys;
      Run(Step(s, schedule[0].0, schedule[0].1), schedule[1..])
  }

  lemma InvSafe(s: State)
    requires Inv(s)
    ensures Safe(s)
  {
    var owners, insiders := Group(s.pcs, Owns), Group(s.pcs, Inside);
    forall t | t in s.pcs && s.pcs[t].Writing? ensures t in owners {
    }
    forall t | t in s.pcs && s.pcs[t].Reading? ensures t in insiders {
    }
  }

  /** Every interleaving of any number of threads is safe. */
  lemma {:induction false} RunSafe(s: State, schedule: seq<(nat, Call)>)
    requires Inv(s) && forall k :: 0 <= k < |schedule| ==> schedule[k].0 in s.pcs
    ensures Inv(Run(s, schedule)) && Safe(Run(s, schedule))
    decreases |schedule|
  {
    if schedule == [] {
      InvSafe(s);
    } else {
      assert schedule[0].0 in s.pcs;
      StepKeeps(s, schedule[0].0, schedule[0].1);
      RunSafe(Step(s, schedule[0].0, schedule[0].1), schedule[1..]);
    }
  }

  // ---- Told by the calls ----

  /** The call each thread made when it was last idle. */
  function Noted(s: State, made: map<nat, Call>, t: nat, call: Call): map<nat, Call>
    requires t in s.pcs
  {
    if s.pcs[t].Idle? then made[t := call] else made
  }

  function Made(s: State, schedule: seq<(nat, Call)>, made: map<nat, Call>): map<nat, Call>
    requires forall k :: 0 <= k < |schedule| ==> schedule[k].0 in s.pcs
    decreases |schedule|
  {
    if schedule == [] then made
    else
      assert schedule[0].0 in s.pcs;
      assert Step(s, schedule[0].0, schedule[0].1).pcs.Keys == s.pcs.Keys;
      Made(Step(s, schedule[0].0, schedule[0].1), schedule[1..], Noted(s, made, schedule[0].0, schedule[0].1))
  }

  /** read_acquire or write_acquire has returned, and its release has not begun. */
  predicate Returned(s: State, t: nat) {
    t in s.pcs && (s.pcs[t].Reading? || s.pcs[t].Writing?)
  }

  /** A thread that is back from write_acquire is the only one back from either call. */
  ghost predicate Exclusive(s: State, made: map<nat, Call>) {
    forall t, u :: Returned(s, t) && Returned(s, u) && t != u ==>
      t in made && u in made && made[t].Read? && made[u].Read?
  }

  /** A thread under way is in a place of the call it made. */
  ghost predicate CallsAgree(s: State, made: map<nat, Call>) {
    forall t :: t in s.pcs && !s.pcs[t].Idle? ==>
      t in made && (made[t].Write? <==> s.pcs[t].WriteSpin? || s.pcs[t].Writing?)
  }

  /** In every run, no two threads are back from their calls unless both called read_acquire. */
  lemma {:induction false} RunExcludes(s: State, schedule: seq<(nat, Call)>, made: map<nat, Call>)
    requires Inv(s) && CallsAgree(s, made) && forall k :: 0 <= k < |schedule| ==> schedule[k].0 in s.pcs
    ensures Exclusive(Run(s, schedule), Made(s, schedule, made))
    decreases |schedule|
  {
    hide Inv, Step;
    if schedule == [] {
      InvSafe(s);
    } else {
      var (t, call) := schedule[0];
      assert schedule[0].0 in s.pcs;
      StepKeeps(s, t, call);
      CallsStay(s, made, t, call);
      RunExcludes(Step(s, t, call), schedule[1..], Noted(s, made, t, call));
    }
  }

  lemma CallsStay(s: State, made: map<nat, Call>, t: nat, call: Call)
    requires t in s.pcs && CallsAgree(s, made)
    ensures CallsAgree(Step(s, t, call), Noted(s, made, t, call))
  {
    var s' := Step(s, t, call);
    forall u | u in s'.pcs && u != t ensures u in s.pcs && s'.pcs[u] == s.pcs[u] {
    }
    PlaceOfCall(s, t, call);
    hide Step;
  }

  /** A thread goes on in the call it made. */
  lemma PlaceOfCall(s: State, t: nat, call: Call)
    requires t in s.pcs
    ensures var (pc, pc') := (s.pcs[t], Step(s, t, call).pcs[t]);
      && t in Step(s, t, call).pcs
      && (!pc'.Idle? ==>
        (pc'.WriteSpin? || pc'.Writing? <==> if pc.Idle? then call.Write? else pc.WriteSpin? || pc.Writing?))
  {
  }

  // ---- The lock it implements ----

  /** A lock that is taken and given back in one step. */
  datatype Spec = Spec(readers: set<nat>, writers: set<nat>)

  /** A reader enters when no writer is in, a writer when nobody is; either may leave. */
  ghost predicate SpecStep(a: Spec, b: Spec, t: nat) {
    || (a.writers == {} && b == Spec(a.readers + {t}, {}))
    || (a.writers == {} && a.readers == {} && b == Spec({}, {t}))
    || (t in a.readers && b == a.(readers := a.readers - {t}))
    || (t in a.writers && b == a.(writers := a.writers - {t}))
  }

  function Abstract(s: State): Spec {
    Spec(Group(s.pcs, Inside), Group(s.pcs, Writes))
  }

  /** Each primitive step is one step of that lock or changes nothing it shows. */
  lemma StepRefines(s: State, t: nat, call: Call)
    requires Inv(s) && t in s.pcs
    ensures Abstract(Step(s, t, call)) == Abstract(s) || SpecStep(Abstract(s), Abstract(Step(s, t, call)), t)
  {
    var s' := Step(s, t, call);
    var a, b := Abstract(s), Abstract(s');
    StepKeeps(s, t, call);
    Shown(s, t, call);
    AbstractMove(s, t, s'.pcs[t]);
    AbstractSound(s);
    AbstractSound(s');
    GroupMove(s.pcs, t, s.pcs[t], Inside);
    GroupMove(s.pcs, t, s.pcs[t], Writes);
    hide Abstract, Inv, Step, Has, Group, SpecStep, AtMostOne, Shift;
    SpecMove(a, b, t, Has(s'.pcs[t], Inside), Has(s'.pcs[t], Writes));
  }

  lemma SpecMove(a: Spec, b: Spec, t: nat, i': bool, w': bool)
    requires b == Spec(Shift(a.readers, t, i'), Shift(a.writers, t, w'))
    requires a.writers == {} || a.readers == {}
    requires b.writers == {} || b.readers == {}
    requires AtMostOne(a.writers) && AtMostOne(b.writers)
    requires (t in a.readers) == i' || (t !in a.writers && !w')
    requires (t in a.writers) == w' || (t !in a.readers && !i')
    ensures a == b || SpecStep(a, b, t)
  {
    if (t in a.readers) == i' {
      Unshifted(a.readers, t);
      if (t in a.writers) == w' {
        Unshifted(a.writers, t);
      }
    } else {
      Unshifted(a.writers, t);
    }
  }

  lemma Unshifted(a: set<nat>, t: nat)
    ensures Shift(a, t, t in a) == a
  {
  }

  /** What a step shows: nothing, one reader more or less, or one writer more or less. */
  lemma Shown(s: State, t: nat, call: Call)
    requires t in s.pcs
    ensures var s' := Step(s, t, call);
      var (i, i') := (Has(s.pcs[t], Inside), Has(s'.pcs[t], Inside));
      var (w, w') := (Has(s.pcs[t], Writes), Has(s'.pcs[t], Writes));
      && s' == State(s'.readerLock, s'.writerLock, s'.readers, s.pcs[t := s'.pcs[t]])
      && ((i == i' && w == w') || (i != i' && !w && !w') || (!i && !i' && w != w'))
  {
    var s' := Step(s, t, call);
    if s' == s {
      assert s.pcs[t := s.pcs[t]] == s.pcs;
    }
  }

  lemma AbstractMove(s: State, t: nat, pc: Pc)
    requires t in s.pcs
    ensures Abstract(At(s, t, pc)) ==
      Spec(Shift(Abstract(s).readers, t, Has(pc, Inside)), Shift(Abstract(s).writers, t, Has(pc, Writes)))
  {
    GroupMove(s.pcs, t, pc, Inside);
    GroupMove(s.pcs, t, pc, Writes);
  }

  lemma AbstractSound(s: State)
    requires Inv(s)
    ensures Abstract(s).writers == {} || Abstract(s).readers == {}
    ensures AtMostOne(Abstract(s).writers)
  {
    WritersOwn(s.pcs);
  }

  lemma WritersOwn(pcs: map<nat, Pc>)
    ensures Group(pcs, Writes) <= Group(pcs, Owns)
  {
  }
}
