/**
 * The list of ex_data registrations of crypto/ex_data.c: writers append to it under a lock and publish
 * the new length with an atomic store; readers load the length and walk the list without a lock.
 */
module ExData {
  import opened Wrappers

  const INT_MAX: nat := 0x7fff_ffff

  /** CRYPTO_EX_DATA_FUNCS; func stands for the callback, which may be null, and its two arguments. */
  datatype Node = Node(func: Option<nat>, next: Option<nat>)

  /** A place that holds a pointer: the funcs field of the class, or the next field of a node. */
  datatype Loc = Head | Next(node: nat)

  /** What a step may read or write of the list: a pointer, or the callback and its arguments in a node. */
  datatype Place = Pointer(loc: Loc) | Fields(node: nat)

  /** What the threads share besides the lock. */
  datatype Memory = Memory(nodes: seq<Node>, head: Option<nat>, last: Option<nat>, numFuncs: nat)

  /** How far CRYPTO_get_ex_new_index_ex has come. */
  datatype Stage =
    | Allocated  // the node is filled in
    | Locked     // the write lock is held, as in all stages below
    | Loaded     // num_funcs was loaded
    | Refused    // the index would not fit in an int
    | Linked     // the node hangs in the list, last still points before it
    | Appended   // last points to it
    | Stored     // num_funcs counts it

  /** Where a thread is; Reading is the loop of CRYPTO_free_ex_data, before or after the callback of entry i. */
  datatype Pc =
    | Idle
    | Writing(stage: Stage, node: nat, count: nat)
    | Reading(n: nat, i: nat, cursor: Loc, called: bool, visited: seq<(nat, int)>)

  /** The registered nodes in order and the indices returned are history; visited is history of a reader. */
  datatype State = State(mem: Memory, reserved: nat, lock: Option<nat>, threads: seq<Pc>, registered: seq<nat>, returned: seq<int>)

  datatype Event =
    | AllocFails | Alloc(func: Option<nat>) | Lock | LoadCount | Overflow | Refuse | Link | MoveLast | Publish | Return
    | StartRead | Visit | Advance | NullDereference | EndRead

  /** The pointer stored at a place. */
  function Load(m: Memory, loc: Loc): Option<nat> {
    match loc
    case Head => m.head
    case Next(k) => if k < |m.nodes| then m.nodes[k].next else None
  }

  function Store(m: Memory, loc: Loc, p: nat): Memory {
    match loc
    case Head => m.(head := Some(p))
    case Next(k) => if k < |m.nodes| then m.(nodes := m.nodes[k := m.nodes[k].(next := Some(p))]) else m
  }

  /** Where a writer hangs its node. */
  function TailLoc(m: Memory): Loc {
    if m.last.None? then Head else Next(m.last.value)
  }

  predicate At(s: State, t: nat, stage: Stage) {
    t < |s.threads| && s.threads[t].Writing? && s.threads[t].stage == stage
  }

  predicate Inside(s: State, t: nat) {
    t < |s.threads| && s.threads[t].Reading?
  }

  /** The next access of a reader goes through its cursor: to call back, then to move on. */
  predicate AtCursor(s: State, t: nat, called: bool) {
    Inside(s, t) && s.threads[t].called == called && (called || s.threads[t].i < s.threads[t].n)
  }

  predicate Enabled(s: State, t: nat, e: Event) {
    match e
    case AllocFails => t < |s.threads| && s.threads[t].Idle?
    case Alloc(_) => t < |s.threads| && s.threads[t].Idle?
    case Lock => At(s, t, Allocated) && s.lock.None?
    case LoadCount => At(s, t, Locked)
    case Overflow => At(s, t, Loaded) && s.threads[t].count > INT_MAX - s.reserved
    case Refuse => At(s, t, Refused)
    case Link => At(s, t, Loaded) && s.threads[t].count <= INT_MAX - s.reserved
    case MoveLast => At(s, t, Linked)
    case Publish => At(s, t, Appended)
    case Return => At(s, t, Stored)
    case StartRead => t < |s.threads| && s.threads[t].Idle?
    case Visit => AtCursor(s, t, false) && Load(s.mem, s.threads[t].cursor).Some?
    case Advance => AtCursor(s, t, true) && Load(s.mem, s.threads[t].cursor).Some?
    case NullDereference => (AtCursor(s, t, false) || AtCursor(s, t, true)) && Load(s.mem, s.threads[t].cursor).None?
    case EndRead => Inside(s, t) && !s.threads[t].called && s.threads[t].i >= s.threads[t].n
  }

  function With(s: State, t: nat, pc: Pc): State
    requires t < |s.threads|
  {
    s.(threads := s.threads[t := pc])
  }

  function Apply(s: State, t: nat, e: Event): State
    requires Enabled(s, t, e)
  {
    match e
    case AllocFails => s
    case Alloc(func) => DoAlloc(s, t, func)
    case Lock => With(s, t, s.threads[t].(stage := Locked)).(lock := Some(t))
    case LoadCount => With(s, t, s.threads[t].(stage := Loaded, count := s.mem.numFuncs))
    case Overflow => With(s, t, s.threads[t].(stage := Refused))
    case Refuse => With(s, t, Idle).(lock := None)
    case Link => DoLink(s, t)
    case MoveLast => DoMoveLast(s, t)
    case Publish => DoPublish(s, t)
    case Return => DoReturn(s, t)
    case StartRead => With(s, t, Reading(s.mem.numFuncs, 0, Head, false, []))
    case Visit => With(s, t, VisitedPc(s, s.threads[t]))
    case Advance => With(s, t, AdvancedPc(s, s.threads[t]))
    case NullDereference => s
    case EndRead => With(s, t, Idle)
  }

  function DoAlloc(s: State, t: nat, func: Option<nat>): State
    requires t < |s.threads|
  {
    With(s, t, Writing(Allocated, |s.mem.nodes|, 0)).(mem := s.mem.(nodes := s.mem.nodes + [Node(func, None)]))
  }

  function DoLink(s: State, t: nat): State
    requires At(s, t, Loaded)
  {
    With(s, t, s.threads[t].(stage := Linked)).(mem := Store(s.mem, TailLoc(s.mem), s.threads[t].node))
  }

  function DoMoveLast(s: State, t: nat): State
    requires At(s, t, Linked)
  {
    With(s, t, s.threads[t].(stage := Appended)).(mem := s.mem.(last := Some(s.threads[t].node)))
  }

  function DoPublish(s: State, t: nat): State
    requires At(s, t, Appended)
  {
    With(s, t, s.threads[t].(stage := Stored))
      .(mem := s.mem.(numFuncs := s.threads[t].count + 1), registered := s.registered + [s.threads[t].node])
  }

  /** Unlocks, and returns the index. */
  function DoReturn(s: State, t: nat): State
    requires At(s, t, Stored)
  {
    With(s, t, Idle).(lock := None, returned := s.returned + [s.threads[t].count + s.reserved])
  }

  /** The callback is made for the node under the cursor and the index of its position. */
  function VisitedPc(s: State, pc: Pc): (r: Pc)
    requires pc.Reading? && Load(s.mem, pc.cursor).Some?
    ensures r.Reading?
  {
    Reading(pc.n, pc.i, pc.cursor, true, pc.visited + [(Load(s.mem, pc.cursor).value, pc.i + s.reserved)])
  }

  function AdvancedPc(s: State, pc: Pc): Pc
    requires pc.Reading? && Load(s.mem, pc.cursor).Some?
  {
    Reading(pc.n, pc.i + 1, Next(Load(s.mem, pc.cursor).value), false, pc.visited)
  }

  /** The places of the list that a step writes. */
  function Writes(s: State, e: Event): set<Place> {
    match e
    case Link => {Pointer(TailLoc(s.mem))}
    case Alloc(_) => {Pointer(Next(|s.mem.nodes|)), Fields(|s.mem.nodes|)}
    case _ => {}
  }

  /** The places of the list that a step reads without the lock: the cursor, and for a callback the node it points to. */
  function Reads(s: State, t: nat, e: Event): set<Place>
    requires Enabled(s, t, e)
  {
    match e
    case Visit => {Pointer(s.threads[t].cursor), Fields(Load(s.mem, s.threads[t].cursor).value)}
    case Advance => {Pointer(s.threads[t].cursor)}
    case NullDereference => {Pointer(s.threads[t].cursor)}
    case _ => {}
  }

  predicate Initial(s: State) {
    && s.mem == Memory([], None, None, 0) && s.reserved < 256 && s.lock.None?
    && s.registered == [] && s.returned == []
    && forall t :: 0 <= t < |s.threads| ==> s.threads[t].Idle?
  }

  datatype Run = Run(states: seq<State>, actors: seq<nat>, events: seq<Event>)

  ghost predicate StepAt(r: Run, i: nat)
    requires i < |r.events| == |r.actors| && |r.states| == |r.events| + 1
  {
    Enabled(r.states[i], r.actors[i], r.events[i]) && r.states[i + 1] == Apply(r.states[i], r.actors[i], r.events[i])
  }

  /** Any interleaving of the steps of any number of threads. */
  ghost predicate IsRun(r: Run) {
    && |r.states| == |r.events| + 1 == |r.actors| + 1
    && Initial(r.states[0])
    && forall i :: 0 <= i < |r.events| ==> StepAt(r, i)
  }

  // ----- the invariant

  /** The place of the k-th pointer of a list of nodes. */
  function LocOf(order: seq<nat>, k: nat): Loc
    requires k <= |order|
  {
    if k == 0 then Head else Next(order[k - 1])
  }

  function LastOf(order: seq<nat>): Option<nat> {
    if order == [] then None else Some(order[|order| - 1])
  }

  predicate NodesExist(m: Memory, order: seq<nat>) {
    forall k :: 0 <= k < |order| ==> order[k] < |m.nodes|
  }

  predicate NoRepeats(order: seq<nat>) {
    forall j, k :: 0 <= j < k < |order| ==> order[j] != order[k]
  }

  predicate Pointers(m: Memory, order: seq<nat>) {
    forall k :: 0 <= k < |order| ==> Load(m, LocOf(order, k)) == Some(order[k])
  }

  /** The published nodes form the list, in the order of their registration. */
  predicate Chain(m: Memory, order: seq<nat>) {
    m.numFuncs == |order| && NodesExist(m, order) && NoRepeats(order) && Pointers(m, order)
  }

  /** Between two registrations the list ends where last says. */
  predicate Ended(m: Memory, order: seq<nat>) {
    m.last == LastOf(order) && Load(m, LocOf(order, |order|)).None?
  }

  predicate InCritical(pc: Pc) {
    pc.Writing? && pc.stage != Allocated
  }

  /** Whether the thread has a node of its own, not published yet. */
  predicate Owns(pc: Pc) {
    pc.Writing? && pc.stage != Stored
  }

  predicate Appending(pc: Pc) {
    pc.Writing? && (pc.stage == Linked || pc.stage == Appended)
  }

  predicate MidAppend(s: State) {
    s.lock.Some? && s.lock.value < |s.threads| && Appending(s.threads[s.lock.value])
  }

  predicate Unpublished(m: Memory, order: seq<nat>, node: nat) {
    node < |m.nodes| && node !in order && m.nodes[node].next.None?
  }

  predicate WriterOk(m: Memory, order: seq<nat>, reserved: nat, pc: Pc)
    requires pc.Writing?
  {
    && (Owns(pc) ==> Unpublished(m, order, pc.node))
    && (pc.stage == Loaded ==> pc.count == |order|)
    && (Appending(pc) ==>
          && pc.count == |order| <= INT_MAX - reserved
          && Load(m, LocOf(order, pc.count)) == Some(pc.node)
          && m.last == if pc.stage == Linked then LastOf(order) else Some(pc.node))
    && (pc.stage == Stored ==> |order| == pc.count + 1 && order[pc.count] == pc.node)
  }

  /** The first i registrations, each with its index. */
  function Pairs(order: seq<nat>, reserved: nat, i: nat): (r: seq<(nat, int)>)
    requires i <= |order|
    ensures |r| == i && forall k :: 0 <= k < i ==> r[k] == (order[k], k + reserved)
  {
    seq(i, k requires 0 <= k < i => (order[k], k + reserved))
  }

  predicate ReaderOk(order: seq<nat>, reserved: nat, pc: Pc)
    requires pc.Reading?
  {
    && pc.i <= pc.n <= |order|
    && (pc.called ==> pc.i < pc.n)
    && pc.cursor == LocOf(order, pc.i)
    && pc.visited == Pairs(order, reserved, if pc.called then pc.i + 1 else pc.i)
  }

  predicate ThreadOk(s: State, pc: Pc) {
    && (pc.Writing? ==> WriterOk(s.mem, s.registered, s.reserved, pc))
    && (pc.Reading? ==> ReaderOk(s.registered, s.reserved, pc))
  }

  predicate LockOk(s: State) {
    && (forall t :: 0 <= t < |s.threads| && InCritical(s.threads[t]) ==> s.lock == Some(t))
    && (s.lock.Some? ==> s.lock.value < |s.threads| && InCritical(s.threads[s.lock.value]))
  }

  predicate DistinctOwners(s: State) {
    forall t, u :: 0 <= t < u < |s.threads| && Owns(s.threads[t]) && Owns(s.threads[u]) ==> s.threads[t].node != s.threads[u].node
  }

  /** The indices returned so far; a thread that published but did not return yet is one ahead. */
  predicate Indices(s: State) {
    && s.reserved < 256
    && |s.registered| <= INT_MAX - s.reserved + 1
    && |s.returned| == |s.registered| - (if s.lock.Some? && At(s, s.lock.value, Stored) then 1 else 0)
    && forall k :: 0 <= k < |s.returned| ==> s.returned[k] == k + s.reserved
  }

  ghost predicate Inv(s: State) {
    && Chain(s.mem, s.registered)
    && (MidAppend(s) || Ended(s.mem, s.registered))
    && LockOk(s) && DistinctOwners(s) && Indices(s)
    && forall t :: 0 <= t < |s.threads| ==> ThreadOk(s, s.threads[t])
  }

  lemma InitialInv(s: State)
    requires Initial(s)
    ensures Inv(s)
  {
  }

  // ----- steps that leave the memory alone

  /** Neither in the middle of appending nor between publishing and returning. */
  predicate Quiet(pc: Pc) {
    !Appending(pc) && !(pc.Writing? && pc.stage == Stored)
  }

  /** The lock goes with the thread that takes or releases it. */
  predicate LockMoves(pc: Pc, pc': Pc, lock: Option<nat>, lock': Option<nat>, t: nat) {
    if InCritical(pc) then lock' == if InCritical(pc') then lock else None
    else if InCritical(pc') then lock.None? && lock' == Some(t)
    else lock' == lock
  }

  lemma LockKept(s: State, t: nat, pc: Pc, lock: Option<nat>)
    requires LockOk(s) && t < |s.threads| && LockMoves(s.threads[t], pc, s.lock, lock, t)
    ensures LockOk(With(s, t, pc).(lock := lock))
  {
    hide InCritical;
  }

  /** What the holder of the lock is doing does not change for the two questions that matter. */
  lemma HolderKept(s: State, t: nat, pc: Pc, lock: Option<nat>)
    requires LockOk(s) && t < |s.threads| && LockMoves(s.threads[t], pc, s.lock, lock, t) && Quiet(s.threads[t]) && Quiet(pc)
    ensures var s' := With(s, t, pc).(lock := lock);
            && MidAppend(s') == MidAppend(s)
            && (s'.lock.Some? && At(s', s'.lock.value, Stored) <==> s.lock.Some? && At(s, s.lock.value, Stored))
  {
  }

  lemma OwnersKept(s: State, t: nat, pc: Pc)
    requires DistinctOwners(s) && t < |s.threads| && (Owns(pc) ==> Owns(s.threads[t]) && pc.node == s.threads[t].node)
    ensures DistinctOwners(With(s, t, pc))
  {
    hide Owns;
  }

  lemma ControlKeeps(s: State, t: nat, pc: Pc, lock: Option<nat>)
    requires Inv(s) && t < |s.threads| && Quiet(s.threads[t]) && Quiet(pc) && ThreadOk(s, pc)
    requires LockMoves(s.threads[t], pc, s.lock, lock, t)
    requires Owns(pc) ==> Owns(s.threads[t]) && pc.node == s.threads[t].node
    ensures Inv(With(s, t, pc).(lock := lock))
  {
    var s' := With(s, t, pc).(lock := lock);
    ControlParts(s, t, pc, lock);
    hide Chain, Ended, WriterOk, ReaderOk, LockOk, MidAppend, DistinctOwners, Indices;
    forall u | 0 <= u < |s'.threads| ensures ThreadOk(s', s'.threads[u]) {
      if u != t { assert ThreadOk(s, s.threads[u]); }
    }
  }

  lemma ControlParts(s: State, t: nat, pc: Pc, lock: Option<nat>)
    requires Inv(s) && t < |s.threads| && Quiet(s.threads[t]) && Quiet(pc)
    requires LockMoves(s.threads[t], pc, s.lock, lock, t)
    requires Owns(pc) ==> Owns(s.threads[t]) && pc.node == s.threads[t].node
    ensures var s' := With(s, t, pc).(lock := lock);
            LockOk(s') && MidAppend(s') == MidAppend(s) && DistinctOwners(s') && Indices(s')
  {
    hide Chain, Ended, ThreadOk;
    LockKept(s, t, pc, lock);
    HolderKept(s, t, pc, lock);
    OwnersKept(s, t, pc);
    hide LockOk, MidAppend, Owns, Quiet, LockMoves, At;
  }

  lemma InvParts(s: State, t: nat)
    requires Inv(s) && t < |s.threads|
    ensures ThreadOk(s, s.threads[t]) && LockOk(s) && s.mem.numFuncs == |s.registered|
  {
    hide ThreadOk, LockOk, Indices, DistinctOwners, Ended;
  }

  lemma LockKeeps(s: State, t: nat)
    requires Inv(s) && At(s, t, Allocated) && s.lock.None?
    ensures Inv(With(s, t, s.threads[t].(stage := Locked)).(lock := Some(t)))
  {
    hide Inv, Load, LocOf, LastOf, LockOk, Unpublished, ReaderOk, Pairs;
    InvParts(s, t);
    ControlKeeps(s, t, s.threads[t].(stage := Locked), Some(t));
  }

  lemma CountKeeps(s: State, t: nat)
    requires Inv(s) && At(s, t, Locked)
    ensures Inv(With(s, t, s.threads[t].(stage := Loaded, count := s.mem.numFuncs)))
  {
    hide Inv, Load, LocOf, LastOf, LockOk, Unpublished, ReaderOk, Pairs;
    InvParts(s, t);
    ControlKeeps(s, t, s.threads[t].(stage := Loaded, count := s.mem.numFuncs), s.lock);
  }

  lemma OverflowKeeps(s: State, t: nat)
    requires Inv(s) && At(s, t, Loaded)
    ensures Inv(With(s, t, s.threads[t].(stage := Refused)))
  {
    hide Inv, Load, LocOf, LastOf, LockOk, Unpublished, ReaderOk, Pairs;
    InvParts(s, t);
    ControlKeeps(s, t, s.threads[t].(stage := Refused), s.lock);
  }

  lemma RefuseKeeps(s: State, t: nat)
    requires Inv(s) && At(s, t, Refused)
    ensures Inv(With(s, t, Idle).(lock := None))
  {
    hide Inv, Load, LocOf, LastOf, LockOk, Unpublished, ReaderOk, Pairs;
    InvParts(s, t);
    ControlKeeps(s, t, Idle, None);
  }

  lemma StartReadKeeps(s: State, t: nat)
    requires Inv(s) && t < |s.threads| && s.threads[t].Idle?
    ensures Inv(With(s, t, Reading(s.mem.numFuncs, 0, Head, false, [])))
  {
    InvParts(s, t);
    hide Inv, Load, LockOk, Unpublished;
    ControlKeeps(s, t, Reading(s.mem.numFuncs, 0, Head, false, []), s.lock);
  }

  lemma EndReadKeeps(s: State, t: nat)
    requires Inv(s) && Inside(s, t)
    ensures Inv(With(s, t, Idle))
  {
    InvParts(s, t);
    hide Inv, Load, LocOf, LockOk, Unpublished;
    ControlKeeps(s, t, Idle, s.lock);
  }

  /** The pointer a reader is about to follow is the one to the next registration. */
  lemma CursorPoints(s: State, t: nat)
    requires Inv(s) && (AtCursor(s, t, false) || AtCursor(s, t, true))
    ensures var pc := s.threads[t];
            pc.i < pc.n <= |s.registered| && pc.cursor == LocOf(s.registered, pc.i) && Load(s.mem, pc.cursor) == Some(s.registered[pc.i])
  {
    InvParts(s, t);
    hide Load, LocOf, LockOk, Indices, DistinctOwners, Ended;
  }

  lemma PairsOneMore(order: seq<nat>, reserved: nat, i: nat)
    requires i < |order|
    ensures Pairs(order, reserved, i + 1) == Pairs(order, reserved, i) + [(order[i], i + reserved)]
  {
  }

  lemma VisitedOk(s: State, pc: Pc)
    requires pc.Reading? && ReaderOk(s.registered, s.reserved, pc) && !pc.called && pc.i < pc.n
    requires Load(s.mem, pc.cursor) == Some(s.registered[pc.i])
    ensures ReaderOk(s.registered, s.reserved, VisitedPc(s, pc))
  {
    PairsOneMore(s.registered, s.reserved, pc.i);
    hide Load, LocOf, Pairs;
  }

  lemma VisitKeeps(s: State, t: nat)
    requires Inv(s) && AtCursor(s, t, false) && Load(s.mem, s.threads[t].cursor).Some?
    ensures Inv(With(s, t, VisitedPc(s, s.threads[t])))
  {
    InvParts(s, t);
    CursorPoints(s, t);
    VisitedOk(s, s.threads[t]);
    hide Inv, Load, LocOf, ReaderOk, VisitedPc;
    ControlKeeps(s, t, VisitedPc(s, s.threads[t]), s.lock);
  }

  lemma AdvanceKeeps(s: State, t: nat)
    requires Inv(s) && AtCursor(s, t, true) && Load(s.mem, s.threads[t].cursor).Some?
    ensures Inv(With(s, t, AdvancedPc(s, s.threads[t])))
  {
    InvParts(s, t);
    CursorPoints(s, t);
    var pc := s.threads[t];
    hide Inv, Load, Pairs;
    assert ReaderOk(s.registered, s.reserved, AdvancedPc(s, pc));
    hide ReaderOk;
    ControlKeeps(s, t, AdvancedPc(s, pc), s.lock);
  }

  lemma ReturnKeeps(s: State, t: nat)
    requires Inv(s) && At(s, t, Stored)
    ensures Inv(DoReturn(s, t))
  {
    var s' := DoReturn(s, t);
    InvParts(s, t);
    assert s.lock == Some(t);
    LockKept(s, t, Idle, None);
    OwnersKept(s, t, Idle);
    hide Chain, Ended, ReaderOk, LockMoves, Owns;
    assert LockOk(s') by { assert s'.threads == With(s, t, Idle).threads; }
    assert DistinctOwners(s') by { assert s'.threads == With(s, t, Idle).threads; }
    assert Indices(s') && !MidAppend(s);
    forall u | 0 <= u < |s'.threads| ensures ThreadOk(s', s'.threads[u]) {
      hide WriterOk;
      if u != t { assert ThreadOk(s, s.threads[u]); }
    }
  }

  // ----- steps that write

  lemma AllocKeeps(s: State, t: nat, func: Option<nat>)
    requires Inv(s) && t < |s.threads| && s.threads[t].Idle?
    ensures Inv(DoAlloc(s, t, func))
  {
    var s', pc := DoAlloc(s, t, func), Writing(Allocated, |s.mem.nodes|, 0);
    AllocLoads(s.mem, s'.mem);
    AllocControl(s, t, func);
    hide Load, LocOf, LockOk, MidAppend, DistinctOwners, Indices;
    forall u | 0 <= u < |s'.threads| ensures ThreadOk(s', s'.threads[u]) {
      if u != t { AllocOthers(s, s', s.threads[u]); } else { assert |s.mem.nodes| !in s.registered; }
    }
  }

  lemma AllocControl(s: State, t: nat, func: Option<nat>)
    requires Inv(s) && t < |s.threads| && s.threads[t].Idle?
    ensures var s' := DoAlloc(s, t, func); LockOk(s') && MidAppend(s') == MidAppend(s) && DistinctOwners(s') && Indices(s')
  {
    var s', pc := DoAlloc(s, t, func), Writing(Allocated, |s.mem.nodes|, 0);
    LockKept(s, t, pc, s.lock);
    HolderKept(s, t, pc, s.lock);
    assert s'.threads == With(s, t, pc).(lock := s.lock).threads;
    forall u | 0 <= u < |s.threads| && Owns(s.threads[u]) ensures s.threads[u].node < |s.mem.nodes| {
      assert ThreadOk(s, s.threads[u]);
    }
    hide Chain, Ended, ThreadOk, Appending, InCritical, MidAppend;
    assert DistinctOwners(s');
  }

  lemma AllocOthers(s: State, s': State, pc: Pc)
    requires ThreadOk(s, pc) && s'.registered == s.registered && s'.reserved == s.reserved && s'.mem.last == s.mem.last
    requires |s'.mem.nodes| == |s.mem.nodes| + 1 && s'.mem.nodes[..|s.mem.nodes|] == s.mem.nodes
    requires forall loc :: Load(s'.mem, loc) == Load(s.mem, loc)
    ensures ThreadOk(s', pc) && (Owns(pc) ==> pc.node < |s.mem.nodes|)
  {
    hide Load, LocOf;
  }

  /** A new node holds no pointer. */
  lemma AllocLoads(m: Memory, m': Memory)
    requires m'.head == m.head && |m'.nodes| == |m.nodes| + 1 && m'.nodes[..|m.nodes|] == m.nodes && m'.nodes[|m.nodes|].next.None?
    ensures forall loc :: Load(m', loc) == Load(m, loc)
  {
    forall loc ensures Load(m', loc) == Load(m, loc) {
      if loc.Next? && loc.node < |m.nodes| { assert m'.nodes[..|m.nodes|][loc.node] == m.nodes[loc.node]; }
    }
  }

  lemma StoreLoads(m: Memory, loc: Loc, p: nat)
    requires loc.Next? ==> loc.node < |m.nodes|
    ensures var m' := Store(m, loc, p);
            && |m'.nodes| == |m.nodes| && m'.last == m.last && m'.numFuncs == m.numFuncs
            && Load(m', loc) == Some(p)
            && forall l :: l != loc ==> Load(m', l) == Load(m, l)
  {
  }

  lemma TailIsNew(m: Memory, order: seq<nat>)
    requires Ended(m, order) && NoRepeats(order)
    ensures TailLoc(m) == LocOf(order, |order|)
    ensures forall k :: 0 <= k < |order| ==> LocOf(order, k) != TailLoc(m)
  {
    hide Load;
  }

  /** Hanging a node behind the last published one changes no pointer in front of it. */
  lemma LinkChain(m: Memory, order: seq<nat>, p: nat)
    requires Chain(m, order) && Ended(m, order)
    ensures var m' := Store(m, TailLoc(m), p);
            && TailLoc(m) == LocOf(order, |order|)
            && Chain(m', order) && m'.last == m.last && |m'.nodes| == |m.nodes|
            && Load(m', LocOf(order, |order|)) == Some(p)
            && forall k :: Unpublished(m, order, k) ==> Unpublished(m', order, k)
  {
    var m' := Store(m, TailLoc(m), p);
    TailIsNew(m, order);
    assert TailLoc(m).Next? ==> TailLoc(m).node < |m.nodes|;
    StoreLoads(m, TailLoc(m), p);
    forall k | Unpublished(m, order, k) ensures Unpublished(m', order, k) {
      assert Next(k) != TailLoc(m);
      assert Load(m', Next(k)) == Load(m, Next(k));
    }
    hide Load, LocOf, Store, TailLoc, NoRepeats, Unpublished;
    assert Pointers(m', order);
  }

  /** A thread outside the critical section needs no more than that its node stays unpublished. */
  lemma OutsideOk(s: State, s': State, pc: Pc)
    requires ThreadOk(s, pc) && !InCritical(pc) && s'.registered == s.registered && s'.reserved == s.reserved
    requires forall k :: Unpublished(s.mem, s.registered, k) ==> Unpublished(s'.mem, s.registered, k)
    ensures ThreadOk(s', pc)
  {
    hide Load, LocOf, Unpublished, ReaderOk;
  }

  lemma LinkKeeps(s: State, t: nat)
    requires Inv(s) && At(s, t, Loaded) && s.threads[t].count <= INT_MAX - s.reserved
    ensures Inv(DoLink(s, t))
  {
    var s', pc := DoLink(s, t), s.threads[t].(stage := Linked);
    InvParts(s, t);
    assert s.lock == Some(t) && !MidAppend(s);
    assert s.mem.last == LastOf(s.registered);
    LinkChain(s.mem, s.registered, pc.node);
    AppendControl(s, t, pc);
    assert s'.threads == With(s, t, pc).threads;
    hide Load, LocOf, LastOf, Chain, Ended, Unpublished, Store, DistinctOwners;
    forall u | 0 <= u < |s'.threads| && u != t ensures ThreadOk(s', s'.threads[u]) {
      InvParts(s, u);
      OutsideOk(s, s', s.threads[u]);
    }
    assert ThreadOk(s', pc);
  }

  /** Moving from one stage of appending to the next keeps lock, owners and indices. */
  lemma AppendControl(s: State, t: nat, pc: Pc)
    requires Inv(s) && t < |s.threads| && InCritical(s.threads[t]) && Owns(s.threads[t])
    requires Appending(pc) && pc.node == s.threads[t].node
    ensures var s' := With(s, t, pc); LockOk(s') && DistinctOwners(s') && Indices(s') && MidAppend(s') && s'.lock == Some(t)
  {
    LockKept(s, t, pc, s.lock);
    OwnersKept(s, t, pc);
    hide Chain, Ended, ThreadOk, DistinctOwners;
    assert With(s, t, pc).(lock := s.lock) == With(s, t, pc);
  }

  lemma MoveLastKeeps(s: State, t: nat)
    requires Inv(s) && At(s, t, Linked)
    ensures Inv(DoMoveLast(s, t))
  {
    var s', pc := DoMoveLast(s, t), s.threads[t].(stage := Appended);
    InvParts(s, t);
    AppendControl(s, t, pc);
    assert s'.threads == With(s, t, pc).threads;
    forall l ensures Load(s'.mem, l) == Load(s.mem, l) {}
    hide Load, LocOf, LastOf, Ended, DistinctOwners;
    assert Chain(s'.mem, s'.registered);
    hide Chain;
    forall u | 0 <= u < |s'.threads| && u != t ensures ThreadOk(s', s'.threads[u]) {
      InvParts(s, u);
      OutsideOk(s, s', s.threads[u]);
    }
    assert ThreadOk(s', pc);
  }

  /** Publishing appends the linked node to the order: the list is complete again. */
  lemma PublishChain(m: Memory, order: seq<nat>, node: nat)
    requires Chain(m, order) && Unpublished(m, order, node)
    requires Load(m, LocOf(order, |order|)) == Some(node) && m.last == Some(node)
    ensures var m', order' := m.(numFuncs := |order| + 1), order + [node];
            Chain(m', order') && Ended(m', order')
  {
    PublishEnds(m, order, node);
    PublishNoRepeats(order, node);
    PublishPointers(m, order, node);
    hide Load, LocOf, Pointers, NoRepeats;
  }

  lemma PublishNoRepeats(order: seq<nat>, node: nat)
    requires NoRepeats(order) && node !in order
    ensures NoRepeats(order + [node])
  {
  }

  lemma PublishPointers(m: Memory, order: seq<nat>, node: nat)
    requires Pointers(m, order) && Unpublished(m, order, node) && Load(m, LocOf(order, |order|)) == Some(node)
    ensures Pointers(m.(numFuncs := |order| + 1), order + [node])
  {
    var m', order' := m.(numFuncs := |order| + 1), order + [node];
    forall k | 0 <= k < |order'| ensures Load(m', LocOf(order', k)) == Some(order'[k]) {
      SameLoad(m, order, node, k);
      hide Load, LocOf;
    }
  }

  lemma SameLoad(m: Memory, order: seq<nat>, node: nat, k: nat)
    requires k <= |order|
    ensures Load(m.(numFuncs := |order| + 1), LocOf(order + [node], k)) == Load(m, LocOf(order, k))
  {
  }

  lemma PublishEnds(m: Memory, order: seq<nat>, node: nat)
    requires Unpublished(m, order, node)
    ensures Load(m.(numFuncs := |order| + 1), LocOf(order + [node], |order| + 1)).None?
  {
  }

  lemma ReaderPrefix(order: seq<nat>, node: nat, reserved: nat, pc: Pc)
    requires pc.Reading? && ReaderOk(order, reserved, pc)
    ensures ReaderOk(order + [node], reserved, pc)
  {
    var i := if pc.called then pc.i + 1 else pc.i;
    assert Pairs(order + [node], reserved, i) == Pairs(order, reserved, i);
    hide Pairs;
  }

  lemma PublishOthers(s: State, s': State, node: nat, pc: Pc)
    requires ThreadOk(s, pc) && !InCritical(pc) && (Owns(pc) ==> pc.node != node)
    requires s'.registered == s.registered + [node] && s'.reserved == s.reserved && s'.mem.nodes == s.mem.nodes
    ensures ThreadOk(s', pc)
  {
    if pc.Reading? { ReaderPrefix(s.registered, node, s.reserved, pc); }
    hide Load, LocOf, ReaderOk;
  }

  lemma PublishKeeps(s: State, t: nat)
    requires Inv(s) && At(s, t, Appended)
    ensures Inv(DoPublish(s, t))
  {
    var s', pc := DoPublish(s, t), s.threads[t].(stage := Stored);
    InvParts(s, t);
    assert s.lock == Some(t);
    PublishChain(s.mem, s.registered, pc.node);
    PublishControl(s, t);
    hide Load, LocOf, LastOf, Chain, Ended, Indices;
    forall u | 0 <= u < |s'.threads| && u != t ensures ThreadOk(s', s'.threads[u]) {
      InvParts(s, u);
      PublishOthers(s, s', pc.node, s.threads[u]);
    }
    assert ThreadOk(s', pc);
  }

  lemma PublishControl(s: State, t: nat)
    requires Inv(s) && At(s, t, Appended)
    ensures var s' := DoPublish(s, t); LockOk(s') && DistinctOwners(s') && Indices(s')
  {
    var s', pc := DoPublish(s, t), s.threads[t].(stage := Stored);
    InvParts(s, t);
    LockKept(s, t, pc, s.lock);
    OwnersKept(s, t, pc);
    assert s'.threads == With(s, t, pc).threads && With(s, t, pc).(lock := s.lock).threads == s'.threads;
    hide Load, LocOf, LastOf, Chain, Ended;
  }

  // ----- all steps

  /** Every step keeps the invariant, and registrations are never taken back or reordered. */
  lemma StepKeeps(s: State, t: nat, e: Event)
    requires Inv(s) && Enabled(s, t, e)
    ensures Inv(Apply(s, t, e))
    ensures s.registered <= Apply(s, t, e).registered && Apply(s, t, e).reserved == s.reserved
    ensures |Apply(s, t, e).threads| == |s.threads|
  {
    hide Inv, Load;
    match e
    case AllocFails =>
    case Alloc(func) => AllocKeeps(s, t, func);
    case Lock => LockKeeps(s, t);
    case LoadCount => CountKeeps(s, t);
    case Overflow => OverflowKeeps(s, t);
    case Refuse => RefuseKeeps(s, t);
    case Link => LinkKeeps(s, t);
    case MoveLast => MoveLastKeeps(s, t);
    case Publish => PublishKeeps(s, t);
    case Return => ReturnKeeps(s, t);
    case StartRead => StartReadKeeps(s, t);
    case Visit => VisitKeeps(s, t);
    case Advance => AdvanceKeeps(s, t);
    case NullDereference =>
    case EndRead => EndReadKeeps(s, t);
  }

  lemma {:induction false} RunInv(r: Run, i: nat)
    requires IsRun(r) && i < |r.states|
    ensures Inv(r.states[i]) && r.states[i].reserved == r.states[0].reserved && |r.states[i].threads| == |r.states[0].threads|
  {
    hide Inv, Enabled, Apply, Initial;
    if i > 0 {
      RunInv(r, i - 1);
      assert StepAt(r, i - 1);
      StepKeeps(r.states[i - 1], r.actors[i - 1], r.events[i - 1]);
    } else {
      InitialInv(r.states[0]);
    }
  }

  lemma {:induction false} RegistrationsGrow(r: Run, i: nat, j: nat)
    requires IsRun(r) && i <= j < |r.states|
    ensures r.states[i].registered <= r.states[j].registered
    decreases j
  {
    hide Inv, Enabled, Apply, Initial;
    if i < j {
      RegistrationsGrow(r, i, j - 1);
      RunInv(r, j - 1);
      assert StepAt(r, j - 1);
      StepKeeps(r.states[j - 1], r.actors[j - 1], r.events[j - 1]);
    }
  }

  // ----- what single steps say

  lemma StartReadStep(s: State, t: nat)
    requires Enabled(s, t, StartRead)
    ensures t < |s.threads| && Apply(s, t, StartRead).threads[t] == Reading(s.mem.numFuncs, 0, Head, false, [])
  {
  }

  lemma EndReadStep(s: State, t: nat)
    requires Enabled(s, t, EndRead)
    ensures Inside(s, t) && !s.threads[t].called && s.threads[t].i >= s.threads[t].n
  {
  }

  lemma ReturnStep(s: State, t: nat)
    requires Enabled(s, t, Return)
    ensures At(s, t, Stored) && Apply(s, t, Return) == DoReturn(s, t)
  {
  }

  lemma LinkStep(s: State, t: nat)
    requires Enabled(s, t, Link)
    ensures At(s, t, Loaded)
  {
  }

  /** A reader keeps the length it loaded until it is done. */
  lemma LengthStays(s: State, u: nat, e: Event, t: nat)
    requires Enabled(s, u, e) && Inside(s, t) && Inside(Apply(s, u, e), t)
    ensures Apply(s, u, e).threads[t].n == s.threads[t].n
  {
    hide Load, Store, TailLoc;
    if u == t {
      match e
      case Visit =>
      case Advance =>
      case NullDereference =>
      case EndRead =>
      case _ =>
    }
  }

  // ----- readers without a lock

  /** Thread t loaded the length in step i and has been in its loop since, up to state j. */
  ghost predicate Walking(r: Run, t: nat, i: nat, j: nat) {
    && IsRun(r) && i < j < |r.states|
    && r.actors[i] == t && r.events[i] == StartRead
    && forall k :: i < k <= j ==> Inside(r.states[k], t)
  }

  /** Whoever is in the loop loaded the length at some step. */
  lemma {:induction false} LoadPoint(r: Run, t: nat, j: nat) returns (i: nat)
    requires IsRun(r) && j < |r.states| && Inside(r.states[j], t)
    ensures Walking(r, t, i, j)
  {
    RunInv(r, 0);
    assert j > 0;
    assert StepAt(r, j - 1);
    if Inside(r.states[j - 1], t) {
      i := LoadPoint(r, t, j - 1);
    } else {
      i := j - 1;
    }
  }

  /** The length a reader goes by is the number of registrations at its load. */
  lemma {:induction false} LoadedLength(r: Run, t: nat, i: nat, j: nat)
    requires Walking(r, t, i, j)
    ensures r.states[j].threads[t].n == r.states[i].mem.numFuncs == |r.states[i].registered|
    decreases j
  {
    hide Inv, Load, Enabled, Apply, Initial;
    assert StepAt(r, j - 1);
    if i + 1 < j {
      LoadedLength(r, t, i, j - 1);
      assert Inside(r.states[j - 1], t);
      LengthStays(r.states[j - 1], r.actors[j - 1], r.events[j - 1], t);
    } else {
      RunInv(r, i);
      StartReadStep(r.states[i], t);
      InvParts(r.states[i], t);
    }
  }

  /** No reader ever follows a null pointer. */
  lemma NeverNull(r: Run, j: nat)
    requires IsRun(r) && j < |r.events|
    ensures r.events[j] != NullDereference
  {
    hide Inv, Load;
    RunInv(r, j);
    assert StepAt(r, j);
    if r.events[j] == NullDereference { CursorPoints(r.states[j], r.actors[j]); }
  }

  /** The pointers to the first registrations, and the callbacks in them. */
  ghost predicate OfRegistration(order: seq<nat>, k: nat, place: Place) {
    k < |order| && (place == Pointer(LocOf(order, k)) || place == Fields(order[k]))
  }

  /** A reader that loaded n reads the pointers to the first n registrations and their callbacks, and nothing else. */
  lemma ReadsPublished(r: Run, t: nat, i: nat, j: nat, place: Place)
    requires Walking(r, t, i, j) && j < |r.events| && r.actors[j] == t
    requires Enabled(r.states[j], t, r.events[j]) && place in Reads(r.states[j], t, r.events[j])
    ensures exists k :: OfRegistration(r.states[i].registered, k, place)
  {
    hide Inv, Load, LocOf;
    RunInv(r, j);
    LoadedLength(r, t, i, j);
    CursorPoints(r.states[j], t);
    RegistrationsGrow(r, i, j);
    var k := r.states[j].threads[t].i;
    PrefixLoc(r.states[i].registered, r.states[j].registered, k);
    assert OfRegistration(r.states[i].registered, k, place);
  }

  lemma PrefixLoc(p: seq<nat>, q: seq<nat>, k: nat)
    requires p <= q && k < |p|
    ensures LocOf(p, k) == LocOf(q, k) && p[k] == q[k]
  {
  }

  /** No step writes a pointer to a published registration, or the callback in it. */
  lemma WritesBehind(s: State, t: nat, e: Event, k: nat)
    requires Inv(s) && Enabled(s, t, e) && k < |s.registered|
    ensures Pointer(LocOf(s.registered, k)) !in Writes(s, e) && Fields(s.registered[k]) !in Writes(s, e)
  {
    hide Enabled, Load, TailLoc, ThreadOk, LockOk, Indices, DistinctOwners, MidAppend;
    if e.Link? {
      LinkStep(s, t);
      LinkingAtTail(s, t);
    } else if e.Alloc? {
      assert s.registered[k] < |s.mem.nodes| && (k > 0 ==> s.registered[k - 1] < |s.mem.nodes|);
    }
  }

  lemma LinkingAtTail(s: State, t: nat)
    requires Inv(s) && At(s, t, Loaded)
    ensures TailLoc(s.mem) == LocOf(s.registered, |s.registered|)
    ensures forall k :: 0 <= k < |s.registered| ==> LocOf(s.registered, k) != TailLoc(s.mem)
  {
    NotAppending(s, t);
    hide Inv, Load, Enabled, Pointers;
    TailIsNew(s.mem, s.registered);
  }

  lemma NotAppending(s: State, t: nat)
    requires Inv(s) && At(s, t, Loaded)
    ensures Ended(s.mem, s.registered) && Chain(s.mem, s.registered) && s.lock == Some(t)
  {
    hide Load, LocOf, LastOf, Ended, Chain, ThreadOk, Indices, DistinctOwners;
  }

  /** From its load on, what a reader reads is written by nobody: the walk needs no lock. */
  lemma RaceFree(r: Run, t: nat, i: nat, j: nat, k: nat)
    requires Walking(r, t, i, j) && j < |r.events| && r.actors[j] == t && i <= k < |r.events|
    requires Enabled(r.states[j], t, r.events[j])
    ensures Writes(r.states[k], r.events[k]) !! Reads(r.states[j], t, r.events[j])
  {
    hide Inv, Load, LocOf, Writes, Enabled;
    RunInv(r, k);
    assert StepAt(r, k);
    RegistrationsGrow(r, i, k);
    forall place | place in Reads(r.states[j], t, r.events[j]) ensures place !in Writes(r.states[k], r.events[k]) {
      ReadsPublished(r, t, i, j, place);
      var m :| OfRegistration(r.states[i].registered, m, place);
      PrefixLoc(r.states[i].registered, r.states[k].registered, m);
      WritesBehind(r.states[k], r.actors[k], r.events[k], m);
    }
  }

  lemma ReadsInside(s: State, t: nat, e: Event)
    requires Enabled(s, t, e) && Reads(s, t, e) != {}
    ensures Inside(s, t)
  {
  }

  /** Every read without the lock belongs to a walk, and from the load of that walk on nobody writes what it reads. */
  lemma EveryReadRaceFree(r: Run, j: nat) returns (i: nat)
    requires IsRun(r) && j < |r.events|
    requires Enabled(r.states[j], r.actors[j], r.events[j]) && Reads(r.states[j], r.actors[j], r.events[j]) != {}
    ensures Walking(r, r.actors[j], i, j)
    ensures forall k :: i <= k < |r.events| ==> Writes(r.states[k], r.events[k]) !! Reads(r.states[j], r.actors[j], r.events[j])
  {
    ReadsInside(r.states[j], r.actors[j], r.events[j]);
    i := LoadPoint(r, r.actors[j], j);
    hide IsRun, Walking, Reads, Writes, Enabled, Apply;
    forall k | i <= k < |r.events| ensures Writes(r.states[k], r.events[k]) !! Reads(r.states[j], r.actors[j], r.events[j]) {
      RaceFree(r, r.actors[j], i, j, k);
    }
  }

  /** What a step changes is among the places it writes; the callback in a node stays for good. */
  lemma ChangesAreWrites(s: State, t: nat, e: Event, loc: Loc, k: nat)
    requires Enabled(s, t, e)
    ensures var m' := Apply(s, t, e).mem;
            && (Load(m', loc) != Load(s.mem, loc) ==> Pointer(loc) in Writes(s, e))
            && |s.mem.nodes| <= |m'.nodes|
            && (k < |s.mem.nodes| ==> m'.nodes[k].func == s.mem.nodes[k].func)
            && (|s.mem.nodes| <= k < |m'.nodes| ==> Fields(k) in Writes(s, e))
  {
  }

  lemma {:induction false} FuncStays(r: Run, i: nat, j: nat, k: nat)
    requires IsRun(r) && i <= j < |r.states| && k < |r.states[i].mem.nodes|
    ensures k < |r.states[j].mem.nodes| && r.states[j].mem.nodes[k].func == r.states[i].mem.nodes[k].func
    decreases j
  {
    hide Enabled, Apply, Initial;
    if i < j {
      FuncStays(r, i, j - 1, k);
      assert StepAt(r, j - 1);
      ChangesAreWrites(r.states[j - 1], r.actors[j - 1], r.events[j - 1], Head, k);
    }
  }

  /** A finished walk called back for exactly the registrations that were there at its load, in order, with their indices. */
  lemma VisitsAll(r: Run, t: nat, i: nat, j: nat)
    requires Walking(r, t, i, j) && j < |r.events| && r.actors[j] == t && r.events[j] == EndRead
    ensures r.states[j].threads[t].visited == Pairs(r.states[i].registered, r.states[i].reserved, |r.states[i].registered|)
  {
    hide Inv, Load, LocOf, LockOk, Enabled, Apply, Initial;
    RunInv(r, i);
    RunInv(r, j);
    assert StepAt(r, j);
    EndReadStep(r.states[j], t);
    LoadedLength(r, t, i, j);
    InvParts(r.states[j], t);
    RegistrationsGrow(r, i, j);
    assert r.states[i].reserved == r.states[j].reserved;
    PairsPrefix(r.states[i].registered, r.states[j].registered, r.states[i].reserved);
    hide IsRun, Pairs;
  }

  lemma PairsPrefix(p: seq<nat>, q: seq<nat>, reserved: nat)
    requires p <= q
    ensures Pairs(p, reserved, |p|) == Pairs(q, reserved, |p|)
  {
  }

  // ----- indices

  /** Returned indices start at the reserved number, come without gap or repetition, and fit in an int. */
  lemma IndicesContiguous(r: Run, j: nat, k: nat)
    requires IsRun(r) && j < |r.states| && k < |r.states[j].returned|
    ensures r.states[j].returned[k] == k + r.states[0].reserved <= 0x7fff_ffff
  {
    RunInv(r, j);
    hide Chain, Ended, LockOk, DistinctOwners, ThreadOk;
  }

  /** The index a registration returns is its place in the order. */
  lemma ReturnsItsPlace(r: Run, j: nat)
    requires IsRun(r) && j < |r.events| && r.events[j] == Return
    ensures var s, t := r.states[j], r.actors[j];
            && At(s, t, Stored) && s.threads[t].count < |s.registered| && s.registered[s.threads[t].count] == s.threads[t].node
            && r.states[j + 1].returned == s.returned + [s.threads[t].count + s.reserved]
  {
    hide Inv, Load, LocOf, LockOk, Enabled, Apply, Initial;
    RunInv(r, j);
    assert StepAt(r, j);
    ReturnStep(r.states[j], r.actors[j]);
    InvParts(r.states[j], r.actors[j]);
  }

  /** Every callback is made with the very index that registering its node returned. */
  lemma CallbackIndexIsReturned(r: Run, t: nat, i: nat, j: nat, m: nat, k: nat)
    requires Walking(r, t, i, j) && j < |r.events| && r.actors[j] == t && r.events[j] == EndRead
    requires m < |r.states[j].threads[t].visited|
    requires k < |r.events| && r.events[k] == Return && At(r.states[k], r.actors[k], Stored)
    requires r.states[k].threads[r.actors[k]].node == r.states[j].threads[t].visited[m].0
    ensures r.states[k + 1].returned != []
    ensures r.states[k + 1].returned[|r.states[k + 1].returned| - 1] == r.states[j].threads[t].visited[m].1
  {
    hide Enabled, Apply, Load, LocOf, Pairs;
    VisitsAll(r, t, i, j);
    ReturnsItsPlace(r, k);
    RunInv(r, i);
    RunInv(r, k);
    var s := r.states[k];
    var c := s.threads[r.actors[k]].count;
    if i <= k { RegistrationsGrow(r, i, k); } else { RegistrationsGrow(r, k, i); }
    SamePlace(s.mem, s.registered, r.states[i].mem, r.states[i].registered, c, m);
  }

  lemma SamePlace(p: Memory, order: seq<nat>, q: Memory, order': seq<nat>, c: nat, m: nat)
    requires Chain(p, order) && Chain(q, order') && (order <= order' || order' <= order)
    requires c < |order| && m < |order'| && order[c] == order'[m]
    ensures c == m
  {
    hide Load, LocOf;
  }

  // ----- how often was published

  /** Step k publishes the registration that returns the given index. */
  predicate PublishedAt(r: Run, k: nat, index: int) {
    && k < |r.events| == |r.actors| < |r.states| && r.events[k] == Publish
    && At(r.states[k], r.actors[k], Appended) && r.states[k].threads[r.actors[k]].count + r.states[0].reserved == index
  }

  /** How many of the first n steps publish. */
  function Publishes(r: Run, n: nat): nat
    requires n <= |r.events|
  {
    if n == 0 then 0 else Publishes(r, n - 1) + if r.events[n - 1] == Publish then 1 else 0
  }

  lemma PublishStep(s: State, t: nat)
    requires Inv(s) && Enabled(s, t, Publish)
    ensures At(s, t, Appended) && s.threads[t].count == s.mem.numFuncs && Apply(s, t, Publish).mem.numFuncs == s.mem.numFuncs + 1
  {
    hide Enabled, Apply;
    PublishEnabled(s, t);
    InvParts(s, t);
    hide Inv, LockOk, Load, LocOf, LastOf;
  }

  lemma PublishEnabled(s: State, t: nat)
    requires Enabled(s, t, Publish)
    ensures At(s, t, Appended) && Apply(s, t, Publish) == DoPublish(s, t)
  {
  }

  lemma CountOnlyPublished(s: State, t: nat, e: Event)
    requires Enabled(s, t, e) && e != Publish
    ensures Apply(s, t, e).mem.numFuncs == s.mem.numFuncs
  {
  }

  /** The length counts the publishing steps, and each of them is for the index that the length before it leads to. */
  lemma {:induction false} LengthCountsPublishes(r: Run, n: nat)
    requires IsRun(r) && n < |r.states|
    ensures r.states[n].mem.numFuncs == Publishes(r, n)
    ensures forall k :: 0 <= k < n && r.events[k] == Publish ==> PublishedAt(r, k, r.states[k].mem.numFuncs + r.states[0].reserved)
  {
    hide Inv, Enabled, Apply, Load;
    if n > 0 {
      LengthCountsPublishes(r, n - 1);
      RunInv(r, n - 1);
      assert StepAt(r, n - 1);
      if r.events[n - 1] == Publish {
        PublishStep(r.states[n - 1], r.actors[n - 1]);
      } else {
        CountOnlyPublished(r.states[n - 1], r.actors[n - 1], r.events[n - 1]);
      }
    }
  }

  /** Each index up to the length was published. */
  lemma {:induction false} EachCountPublished(r: Run, n: nat, count: nat) returns (k: nat)
    requires IsRun(r) && n < |r.states| && count < Publishes(r, n)
    ensures k < n && PublishedAt(r, k, count + r.states[0].reserved)
  {
    hide Inv, Enabled, Apply, Load;
    if n > 0 && count < Publishes(r, n - 1) {
      k := EachCountPublished(r, n - 1, count);
    } else {
      k := n - 1;
      LengthCountsPublishes(r, n);
      LengthCountsPublishes(r, n - 1);
    }
  }

  lemma {:induction false} PublishesGrow(r: Run, i: nat, j: nat)
    requires i <= j <= |r.events|
    ensures Publishes(r, i) <= Publishes(r, j)
    decreases j
  {
    if i < j { PublishesGrow(r, i, j - 1); }
  }

  // ----- from the call that registers to the callback

  /** The last step before n in which thread t allocates a node. */
  function LastAlloc(r: Run, t: nat, n: nat): (a: Option<nat>)
    requires n <= |r.events| == |r.actors|
    ensures a.Some? ==> a.value < n && r.actors[a.value] == t && r.events[a.value].Alloc?
  {
    if n == 0 then None
    else if r.actors[n - 1] == t && r.events[n - 1].Alloc? then Some(n - 1)
    else LastAlloc(r, t, n - 1)
  }

  lemma AllocStep(s: State, t: nat, func: Option<nat>)
    requires Enabled(s, t, Alloc(func))
    ensures var s' := Apply(s, t, Alloc(func));
            && |s'.mem.nodes| == |s.mem.nodes| + 1 && s'.mem.nodes[|s.mem.nodes|].func == func
            && t < |s'.threads| && s'.threads[t].Writing? && s'.threads[t].node == |s.mem.nodes|
  {
  }

  /** A writer keeps the node it allocated until it is done. */
  lemma NodeStays(s: State, u: nat, e: Event, t: nat)
    requires Enabled(s, u, e) && t < |s.threads| && !(u == t && e.Alloc?)
    ensures var s' := Apply(s, u, e);
            |s'.threads| == |s.threads| && (s'.threads[t].Writing? ==> s.threads[t].Writing? && s'.threads[t].node == s.threads[t].node)
  {
    hide Load, Store, TailLoc;
    if u == t {
      match e
      case Visit =>
      case Advance =>
      case Link =>
      case MoveLast =>
      case Publish =>
      case _ =>
    }
  }

  /** The node of an allocating step holds the callback passed to it in every later state. */
  lemma AllocHolds(r: Run, a: nat, n: nat)
    requires IsRun(r) && a < n < |r.states| && r.events[a].Alloc?
    ensures |r.states[a].mem.nodes| < |r.states[n].mem.nodes|
    ensures r.states[n].mem.nodes[|r.states[a].mem.nodes|].func == r.events[a].func
  {
    assert StepAt(r, a);
    AllocStep(r.states[a], r.actors[a], r.events[a].func);
    FuncStays(r, a + 1, n, |r.states[a].mem.nodes|);
  }

  /** Whoever registers does so with the node of its last allocation. */
  lemma {:induction false} WriterNode(r: Run, t: nat, n: nat)
    requires IsRun(r) && n < |r.states| && t < |r.states[n].threads| && r.states[n].threads[t].Writing?
    ensures var a := LastAlloc(r, t, n);
            a.Some? && r.states[n].threads[t].node == |r.states[a.value].mem.nodes|
  {
    hide Enabled, Apply, Inv;
    RunInv(r, n);
    if n > 0 {
      RunInv(r, n - 1);
      assert StepAt(r, n - 1);
      if r.actors[n - 1] == t && r.events[n - 1].Alloc? {
        AllocStep(r.states[n - 1], t, r.events[n - 1].func);
      } else {
        NodeStays(r.states[n - 1], r.actors[n - 1], r.events[n - 1], t);
        WriterNode(r, t, n - 1);
      }
    }
  }

  /** The callbacks passed to the registrations published in the first n steps, in order. */
  function PassedBefore(r: Run, n: nat): (fs: seq<Option<nat>>)
    requires n <= |r.events| == |r.actors|
    ensures |fs| == Publishes(r, n)
  {
    if n == 0 then []
    else if r.events[n - 1] != Publish then PassedBefore(r, n - 1)
    else
      var a := LastAlloc(r, r.actors[n - 1], n - 1);
      PassedBefore(r, n - 1) + [if a.None? then None else r.events[a.value].func]
  }

  lemma PublishNode(s: State, t: nat)
    requires Enabled(s, t, Publish)
    ensures At(s, t, Appended) && Apply(s, t, Publish).registered == s.registered + [s.threads[t].node]
    ensures Apply(s, t, Publish).mem.nodes == s.mem.nodes
  {
  }

  lemma OnlyPublishRegisters(s: State, t: nat, e: Event)
    requires Enabled(s, t, e) && e != Publish
    ensures Apply(s, t, e).registered == s.registered
  {
  }

  /** The registered nodes hold, in order, the callbacks that were passed in. */
  lemma {:induction false} PassedAreHeld(r: Run, n: nat)
    requires IsRun(r) && n < |r.states|
    ensures NodesExist(r.states[n].mem, r.states[n].registered)
    ensures |r.states[n].registered| == |PassedBefore(r, n)|
    ensures forall k :: 0 <= k < |r.states[n].registered| ==>
              r.states[n].mem.nodes[r.states[n].registered[k]].func == PassedBefore(r, n)[k]
  {
    hide Inv, Enabled, Apply, Load;
    RunInv(r, n);
    NodesThere(r.states[n]);
    if n > 0 {
      PassedAreHeld(r, n - 1);
      PassedStep(r, n - 1);
      hide IsRun, LastAlloc, NodesExist;
    }
  }

  lemma NodesThere(s: State)
    requires Inv(s)
    ensures NodesExist(s.mem, s.registered)
  {
  }

  lemma PassedStep(r: Run, n: nat)
    requires IsRun(r) && n < |r.events| && NodesExist(r.states[n].mem, r.states[n].registered)
    requires NodesExist(r.states[n + 1].mem, r.states[n + 1].registered)
    ensures var s, s' := r.states[n], r.states[n + 1];
            && |s.mem.nodes| <= |s'.mem.nodes|
            && (forall k :: 0 <= k < |s.registered| ==> s'.mem.nodes[s.registered[k]].func == s.mem.nodes[s.registered[k]].func)
            && (r.events[n] != Publish ==> s'.registered == s.registered)
            && (r.events[n] == Publish ==>
                  var a := LastAlloc(r, r.actors[n], n);
                  && a.Some? && |s'.registered| == |s.registered| + 1 && s'.registered[..|s.registered|] == s.registered
                  && s'.mem.nodes[s'.registered[|s.registered|]].func == r.events[a.value].func)
  {
    hide Inv, Enabled, Apply, Load;
    var s, t := r.states[n], r.actors[n];
    assert StepAt(r, n);
    ChangesAreWrites(s, t, r.events[n], Head, 0);
    forall k | 0 <= k < |s.registered|
      ensures s.registered[k] < |r.states[n + 1].mem.nodes| && r.states[n + 1].mem.nodes[s.registered[k]].func == s.mem.nodes[s.registered[k]].func
    {
      FuncStays(r, n, n + 1, s.registered[k]);
    }
    if r.events[n] == Publish {
      PublishNode(s, t);
      WriterNode(r, t, n);
      AllocHolds(r, LastAlloc(r, t, n).value, n);
    } else {
      OnlyPublishRegisters(s, t, r.events[n]);
    }
  }

  /** In step a a thread is called with a callback, in step p it publishes it, in step b it returns. */
  predicate Registers(r: Run, a: nat, p: nat, b: nat) {
    && a < p < b < |r.events| == |r.actors| && r.actors[a] == r.actors[p] == r.actors[b]
    && r.events[a].Alloc? && r.events[p] == Publish && r.events[b] == Return
    && forall i :: a < i < b && r.actors[i] == r.actors[a] ==> !r.events[i].Alloc?
  }

  lemma {:induction false} LastAllocIs(r: Run, t: nat, a: nat, n: nat)
    requires a < n <= |r.events| == |r.actors| && r.actors[a] == t && r.events[a].Alloc?
    requires forall i :: a < i < n && r.actors[i] == t ==> !r.events[i].Alloc?
    ensures LastAlloc(r, t, n) == Some(a)
    decreases n
  {
    if a < n - 1 { LastAllocIs(r, t, a, n - 1); }
  }

  lemma {:induction false} PassedPrefix(r: Run, m: nat, n: nat)
    requires m <= n <= |r.events| == |r.actors|
    ensures PassedBefore(r, m) <= PassedBefore(r, n)
    decreases n
  {
    hide LastAlloc;
    if m < n { PassedPrefix(r, m, n - 1); }
  }

  /** The callback of a registration stands in the order at the place of its publishing step. */
  lemma PassedAt(r: Run, a: nat, p: nat, b: nat, n: nat)
    requires Registers(r, a, p, b) && p < n <= |r.events|
    ensures Publishes(r, p) < |PassedBefore(r, n)| && PassedBefore(r, n)[Publishes(r, p)] == r.events[a].func
  {
    LastAllocIs(r, r.actors[a], a, p);
    PassedPrefix(r, p + 1, n);
    assert PassedBefore(r, p + 1)[Publishes(r, p)] == r.events[a].func;
  }

  /** Once it has published, a thread goes on to return and does nothing else. */
  lemma StoredStep(s: State, u: nat, e: Event, t: nat)
    requires Enabled(s, u, e) && At(s, t, Stored) && !(u == t && e == Return)
    ensures At(Apply(s, u, e), t, Stored) && Apply(s, u, e).threads[t] == s.threads[t]
  {
    hide Load, Store, TailLoc;
  }

  lemma IdleAfterReturn(s: State, u: nat, e: Event, t: nat)
    requires Enabled(s, u, e) && t < |s.threads| && !s.threads[t].Writing? && !(u == t && e.Alloc?)
    ensures |Apply(s, u, e).threads| == |s.threads| && !Apply(s, u, e).threads[t].Writing?
  {
    NodeStays(s, u, e, t);
  }

  /** Between publishing and returning the thread of a registration waits with the count it published. */
  lemma {:induction false} WaitsToReturn(r: Run, a: nat, p: nat, b: nat, n: nat)
    requires IsRun(r) && Registers(r, a, p, b) && p < n <= b
    ensures var t := r.actors[a];
            && t < |r.states[n].threads|
            && (At(r.states[n], t, Stored) ==> r.states[n].threads[t].count == Publishes(r, p))
            && (r.states[n].threads[t].Writing? ==> At(r.states[n], t, Stored))
    decreases n
  {
    hide Inv, Enabled, Apply, Load, Publishes;
    var t := r.actors[a];
    assert StepAt(r, n - 1);
    if n - 1 == p {
      LengthCountsPublishes(r, p);
      RunInv(r, p);
      PublishStep(r.states[p], t);
      PublishedPc(r.states[p], t);
    } else {
      WaitsToReturn(r, a, p, b, n - 1);
      var s, u, e := r.states[n - 1], r.actors[n - 1], r.events[n - 1];
      if At(s, t, Stored) && !(u == t && e == Return) {
        StoredStep(s, u, e, t);
      } else if At(s, t, Stored) {
        ReturnStep(s, t);
      } else {
        IdleAfterReturn(s, u, e, t);
      }
    }
  }

  lemma PublishedPc(s: State, t: nat)
    requires Enabled(s, t, Publish)
    ensures At(s, t, Appended) && At(Apply(s, t, Publish), t, Stored) && Apply(s, t, Publish).threads[t].count == s.threads[t].count
  {
  }

  /** What a registration returns is the number of those published before it, counted from the reserved number. */
  lemma ReturnsPublished(r: Run, a: nat, p: nat, b: nat)
    requires IsRun(r) && Registers(r, a, p, b)
    ensures r.states[b + 1].returned == r.states[b].returned + [Publishes(r, p) + r.states[0].reserved]
  {
    hide Inv, Enabled, Apply, Load, Publishes;
    assert StepAt(r, b);
    RunInv(r, b);
    WaitsToReturn(r, a, p, b, b);
    ReturnStep(r.states[b], r.actors[b]);
  }

  // ----- the debug assertions

  /** The debug assertion of CRYPTO_get_ex_new_index_ex does hold: without a last node nothing is registered yet. */
  lemma EmptyListAssertionHolds(r: Run, j: nat)
    requires IsRun(r) && j < |r.events| && r.events[j] == Link && r.states[j].mem.last.None?
    ensures At(r.states[j], r.actors[j], Loaded) && r.states[j].threads[r.actors[j]].count == 0
  {
    RunInv(r, j);
    hide Inv, Load, LocOf, Enabled, Apply, Initial;
    assert StepAt(r, j);
    LinkStep(r.states[j], r.actors[j]);
    NotAppending(r.states[j], r.actors[j]);
    InvParts(r.states[j], r.actors[j]);
  }

  /** The length is at most the number of indices from the reserved number to INT_MAX. */
  lemma LengthBound(r: Run, j: nat)
    requires IsRun(r) && j < |r.states|
    ensures r.states[j].mem.numFuncs <= 0x8000_0000 - r.states[0].reserved
  {
    RunInv(r, j);
    hide Load, LocOf, LockOk, DistinctOwners, ThreadOk;
  }

  /** What CRYPTO_free_ex_data asserts of the length it loads. */
  predicate LengthAssertion(s: State) {
    s.mem.numFuncs <= INT_MAX - s.reserved
  }

  /** The assertion fails for a reader exactly if the registration of index INT_MAX was published before it. */
  lemma DebugAssertionFailsExactly(r: Run, i: nat)
    requires IsRun(r) && i < |r.events| && r.events[i] == StartRead
    ensures !LengthAssertion(r.states[i]) <==>
            exists k: nat :: k < i && PublishedAt(r, k, 0x7fff_ffff)
  {
    hide Inv, Enabled, Apply, Load, Publishes;
    RunInv(r, i);
    LengthBound(r, 0);
    LengthBound(r, i);
    LengthCountsPublishes(r, i);
    if !LengthAssertion(r.states[i]) {
      var k := EachCountPublished(r, i, INT_MAX - r.states[0].reserved);
    }
    forall k: nat | k < i && PublishedAt(r, k, 0x7fff_ffff) ensures !LengthAssertion(r.states[i]) {
      LengthCountsPublishes(r, k + 1);
      PublishedLength(r, k);
      PublishesGrow(r, k + 1, i);
    }
  }

  /** A registration is refused exactly if index INT_MAX is taken, and goes on otherwise. */
  lemma RefusedExactly(r: Run, j: nat)
    requires IsRun(r) && j < |r.events| && (r.events[j] == Overflow || r.events[j] == Link)
    ensures r.events[j] == Overflow <==> exists k: nat :: k < j && PublishedAt(r, k, 0x7fff_ffff)
  {
    hide Inv, Enabled, Apply, Load, Publishes;
    RunInv(r, j);
    assert StepAt(r, j);
    LoadedCount(r.states[j], r.actors[j], r.events[j]);
    LengthBound(r, j);
    LengthBound(r, 0);
    LengthCountsPublishes(r, j);
    var top := INT_MAX - r.states[0].reserved;
    if r.states[j].mem.numFuncs > top { var k := EachCountPublished(r, j, top); }
    forall k: nat | k < j && PublishedAt(r, k, 0x7fff_ffff) ensures r.states[j].mem.numFuncs > top {
      LengthCountsPublishes(r, k + 1);
      PublishedLength(r, k);
      PublishesGrow(r, k + 1, j);
    }
  }

  lemma LoadedCount(s: State, t: nat, e: Event)
    requires Inv(s) && Enabled(s, t, e) && (e == Overflow || e == Link)
    ensures s.reserved < 256 && (e == Overflow <==> s.mem.numFuncs > INT_MAX - s.reserved)
  {
    LoadedAt(s, t, e);
    InvParts(s, t);
    hide Enabled, Load, LocOf, LockOk, Ended, DistinctOwners;
  }

  lemma LoadedAt(s: State, t: nat, e: Event)
    requires Enabled(s, t, e) && (e == Overflow || e == Link)
    ensures At(s, t, Loaded) && (e == Overflow <==> s.threads[t].count > INT_MAX - s.reserved)
  {
  }

  /** The step a thread can take next. */
  function NextStep(s: State, t: nat): Event
    requires t < |s.threads|
  {
    match s.threads[t]
    case Idle => StartRead
    case Writing(stage, node, count) =>
      (match stage
       case Allocated => Lock
       case Locked => LoadCount
       case Loaded => if count > INT_MAX - s.reserved then Overflow else Link
       case Refused => Refuse
       case Linked => MoveLast
       case Appended => Publish
       case Stored => Return)
    case Reading(n, i, cursor, called, visited) => if called then Advance else if i < n then Visit else EndRead
  }

  /** In every run every thread can take its next step, unless it waits for the lock; and then its holder can. */
  lemma NeverStuck(r: Run, i: nat, t: nat)
    requires IsRun(r) && i < |r.states| && t < |r.states[i].threads|
    ensures var s := r.states[i];
            if At(s, t, Allocated) && s.lock.Some?
            then s.lock.value < |s.threads| && !At(s, s.lock.value, Allocated) && Enabled(s, s.lock.value, NextStep(s, s.lock.value))
            else Enabled(s, t, NextStep(s, t))
  {
    RunInv(r, i);
    hide IsRun;
    var s := r.states[i];
    if At(s, t, Allocated) && s.lock.Some? {
      HolderIs(s);
      CanStep(s, s.lock.value);
    } else {
      CanStep(s, t);
    }
  }

  lemma HolderIs(s: State)
    requires Inv(s) && s.lock.Some?
    ensures s.lock.value < |s.threads| && InCritical(s.threads[s.lock.value])
  {
    hide ThreadOk, Chain, Ended, DistinctOwners, Indices;
  }

  lemma CanStep(s: State, t: nat)
    requires Inv(s) && t < |s.threads| && !(At(s, t, Allocated) && s.lock.Some?)
    ensures Enabled(s, t, NextStep(s, t))
  {
    hide Inv, Load, LocOf, LockOk, WriterOk, ReaderOk, Pairs, InCritical, Owns, Appending;
    if s.threads[t].Reading? {
      ReaderFits(s, t);
      if AtCursor(s, t, false) || AtCursor(s, t, true) { CursorPoints(s, t); }
    }
  }

  lemma ReaderFits(s: State, t: nat)
    requires Inv(s) && Inside(s, t)
    ensures s.threads[t].called ==> s.threads[t].i < s.threads[t].n
  {
    InvParts(s, t);
    hide Inv, Load, LocOf, LockOk, Pairs;
  }

  lemma PublishedLength(r: Run, k: nat)
    requires IsRun(r) && k < |r.events| && r.events[k] == Publish
    ensures PublishedAt(r, k, r.states[k].mem.numFuncs + r.states[0].reserved) && r.states[k + 1].mem.numFuncs == r.states[k].mem.numFuncs + 1
  {
    hide Inv, Enabled, Apply, Load;
    RunInv(r, k);
    assert StepAt(r, k);
    PublishStep(r.states[k], r.actors[k]);
  }

  function Extended(r: Run, t: nat, e: Event): Run
    requires r.states != [] && Enabled(r.states[|r.states| - 1], t, e)
  {
    Run(r.states + [Apply(r.states[|r.states| - 1], t, e)], r.actors + [t], r.events + [e])
  }

  lemma ExtendedIsRun(r: Run, t: nat, e: Event)
    requires IsRun(r) && Enabled(r.states[|r.states| - 1], t, e)
    ensures IsRun(Extended(r, t, e))
  {
    hide Enabled, Apply, Initial;
    var r' := Extended(r, t, e);
    forall i | 0 <= i < |r'.events| ensures StepAt(r', i) {
      if i < |r.events| { assert StepAt(r, i); }
    }
  }

  /** One thread, outside, and the list complete with n registrations. */
  predicate Resting(s: State, reserved: nat, n: nat) {
    s.threads == [Idle] && s.lock.None? && s.mem.numFuncs == n && s.reserved == reserved
  }

  /** One registration by the only thread: its seven steps lead from rest to rest. */
  lemma RegisterOnce(r: Run, reserved: nat, n: nat) returns (r': Run)
    requires IsRun(r) && Resting(r.states[|r.states| - 1], reserved, n) && n <= INT_MAX - reserved
    ensures IsRun(r') && Resting(r'.states[|r'.states| - 1], reserved, n + 1)
  {
    hide Load, Store, TailLoc;
    hide IsRun;
    r' := RegisterHalf(r, reserved, n);
    ExtendedIsRun(r', 0, Link); r' := Extended(r', 0, Link);
    ExtendedIsRun(r', 0, MoveLast); r' := Extended(r', 0, MoveLast);
    ExtendedIsRun(r', 0, Publish); r' := Extended(r', 0, Publish);
    ExtendedIsRun(r', 0, Return); r' := Extended(r', 0, Return);
  }

  lemma RegisterHalf(r: Run, reserved: nat, n: nat) returns (r': Run)
    requires IsRun(r) && Resting(r.states[|r.states| - 1], reserved, n) && n <= INT_MAX - reserved
    ensures IsRun(r') && r'.states != []
    ensures var s := r'.states[|r'.states| - 1];
            At(s, 0, Loaded) && |s.threads| == 1 && s.threads[0].count == n && s.lock == Some(0) && s.reserved == reserved
  {
    assert r.states != [];
    hide IsRun, Load, Store, TailLoc;
    r' := r;
    ExtendedIsRun(r', 0, Alloc(None)); r' := Extended(r', 0, Alloc(None));
    ExtendedIsRun(r', 0, Lock); r' := Extended(r', 0, Lock);
    ExtendedIsRun(r', 0, LoadCount); r' := Extended(r', 0, LoadCount);
  }

  /** Every length up to the bound is reached, so the assertion fails in the run that uses up all indices. */
  lemma {:induction false} EveryLengthReached(reserved: nat, n: nat) returns (r: Run)
    requires reserved < 256 && n <= 0x8000_0000 - reserved
    ensures IsRun(r) && Resting(r.states[|r.states| - 1], reserved, n)
  {
    if n == 0 {
      r := Run([State(Memory([], None, None, 0), reserved, None, [Idle], [], [])], [], []);
    } else {
      r := EveryLengthReached(reserved, n - 1);
      r := RegisterOnce(r, reserved, n - 1);
    }
  }

  lemma LastStates(r: Run)
    requires IsRun(r)
    ensures |r.states| == |r.events| + 1
  {
  }

  /** Such a run exists: one thread registers until the indices are used up, then loads the length. */
  lemma DebugAssertionCanFail(reserved: nat) returns (r: Run)
    requires reserved < 256
    ensures IsRun(r) && r.states[0].reserved == reserved && r.events != [] && r.events[|r.events| - 1] == StartRead
    ensures !LengthAssertion(r.states[|r.events| - 1])
  {
    hide IsRun;
    r := EveryLengthReached(reserved, INT_MAX - reserved + 1);
    ExtendedIsRun(r, 0, StartRead);
    r := Extended(r, 0, StartRead);
    RunInv(r, |r.events| - 1);
    LastStates(r);
  }
}
