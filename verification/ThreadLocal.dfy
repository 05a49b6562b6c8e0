/**
 * Thread-local values and their destructors (crypto/thread_pthread.c): each thread keeps an array of
 * values, a shared array under a mutex keeps the destructors, and a thread's exit destroys its values.
 */
module ThreadLocal {
  import opened Wrappers

  /** NUM_OPENSSL_THREAD_LOCALS. */
  const SLOTS: nat := 5

  const NULL: nat := 0

  /** A value given to CRYPTO_set_thread_local, with the destructor given along with it. */
  datatype Item = Item(value: nat, destructor: nat)

  const EMPTY := Item(NULL, 0)

  /** How far CRYPTO_set_thread_local has come. */
  datatype SetStage =
    | Entered     // the key exists
    | Ready       // the thread has its array
    | Locked      // the mutex is held
    | Registered  // the destructor is stored, the mutex still held
    | Unlocked

  /** How far thread_local_destructor has come; Running walks over the array. */
  datatype ExitStage = Started | ExitLocked | Copied | Running

  datatype Pc =
    | Idle
    | Setting(stage: SetStage, index: nat, item: Item)
    | Exiting(at: ExitStage, copy: seq<Option<nat>>, i: nat)
    | Exited

  /** used holds the indices the thread has called set for. */
  datatype Thread = Thread(slots: Option<seq<Item>>, used: set<nat>, pc: Pc)

  /** The last four fields are history; foreign holds what was destroyed by a destructor not its own. */
  datatype State = State(key: Option<bool>, destructors: seq<Option<nat>>, lock: Option<nat>, threads: seq<Thread>,
                         passed: multiset<Item>, destroyed: multiset<Item>, foreign: multiset<Item>, lost: multiset<Item>)

  datatype Event =
    | CallSet(index: nat, item: Item, keyOk: bool)
    | HaveSlots | AllocSlots | AllocFails
    | Lock | LockFails | Register | Unlock | StoreValue
    | Exit | ExitLock | ExitLockFails | Copy | ExitUnlock | DestroyNext | Finish

  /** Null pointers are not accounted for: destructors get them at will. */
  function Account(item: Item): multiset<Item> {
    if item.value == NULL then multiset{} else multiset{item}
  }

  function Emptied(): (r: seq<Item>)
    ensures |r| == SLOTS && forall i :: 0 <= i < SLOTS ==> r[i] == EMPTY
  {
    seq(SLOTS, _ => EMPTY)
  }

  predicate SetAt(s: State, t: nat, stage: SetStage) {
    t < |s.threads| && s.threads[t].pc.Setting? && s.threads[t].pc.stage == stage
  }

  predicate ExitAt(s: State, t: nat, stage: ExitStage) {
    t < |s.threads| && s.threads[t].pc.Exiting? && s.threads[t].pc.at == stage && s.threads[t].slots.Some?
  }

  predicate Enabled(s: State, t: nat, e: Event) {
    match e
    case CallSet(index, item, keyOk) => t < |s.threads| && s.threads[t].pc.Idle? && index < SLOTS
    case HaveSlots => SetAt(s, t, Entered) && s.threads[t].slots.Some?
    case AllocSlots => SetAt(s, t, Entered) && s.threads[t].slots.None?
    case AllocFails => SetAt(s, t, Entered) && s.threads[t].slots.None?
    case Lock => SetAt(s, t, Ready) && s.lock.None?
    case LockFails => SetAt(s, t, Ready)
    case Register => SetAt(s, t, Locked) && s.threads[t].pc.index < |s.destructors|
    case Unlock => SetAt(s, t, Registered)
    case StoreValue => SetAt(s, t, Unlocked) && s.threads[t].slots.Some? && s.threads[t].pc.index < |s.threads[t].slots.value|
    case Exit => t < |s.threads| && s.threads[t].pc.Idle?
    case ExitLock => ExitAt(s, t, Started) && s.lock.None?
    case ExitLockFails => ExitAt(s, t, Started)
    case Copy => ExitAt(s, t, ExitLocked)
    case ExitUnlock => ExitAt(s, t, Copied)
    case DestroyNext => ExitAt(s, t, Running) && s.threads[t].pc.i < |s.threads[t].slots.value| == |s.threads[t].pc.copy|
    case Finish => ExitAt(s, t, Running) && s.threads[t].pc.i >= |s.threads[t].slots.value|
  }

  function With(s: State, t: nat, th: Thread): State
    requires t < |s.threads|
  {
    s.(threads := s.threads[t := th])
  }

  /** The call failed: its destructor runs on its value at once. */
  function FailSet(s: State, t: nat): State
    requires t < |s.threads| && s.threads[t].pc.Setting?
  {
    With(s, t, s.threads[t].(pc := Idle)).(destroyed := s.destroyed + Account(s.threads[t].pc.item))
  }

  function DoCall(s: State, t: nat, index: nat, item: Item, keyOk: bool): State
    requires t < |s.threads|
  {
    var key := if s.key.None? then keyOk else s.key.value;
    var th := s.threads[t].(used := s.threads[t].used + {index});
    if key then With(s, t, th.(pc := Setting(Entered, index, item))).(key := Some(true), passed := s.passed + Account(item))
    else With(s, t, th).(key := Some(false), passed := s.passed + Account(item), destroyed := s.destroyed + Account(item))
  }

  function DoStore(s: State, t: nat): State
    requires SetAt(s, t, Unlocked) && s.threads[t].slots.Some? && s.threads[t].pc.index < |s.threads[t].slots.value|
  {
    var th := s.threads[t];
    With(s, t, th.(slots := Some(th.slots.value[th.pc.index := th.pc.item]), pc := Idle))
      .(lost := s.lost + Account(th.slots.value[th.pc.index]))
  }

  /** Destroys the value of the next slot, unless the slot has no destructor. */
  function DoDestroy(s: State, t: nat): State
    requires ExitAt(s, t, Running) && s.threads[t].pc.i < |s.threads[t].slots.value| == |s.threads[t].pc.copy|
  {
    var th := s.threads[t];
    var item, d := th.slots.value[th.pc.i], th.pc.copy[th.pc.i];
    var s' := With(s, t, th.(pc := Exiting(Running, th.pc.copy, th.pc.i + 1)));
    if d.None? then s'.(lost := s.lost + Account(item))
    else if d.value == item.destructor then s'.(destroyed := s.destroyed + Account(item))
    else s'.(destroyed := s.destroyed + Account(item), foreign := s.foreign + Account(item))
  }

  function SlotItems(slots: seq<Item>): multiset<Item> {
    if slots == [] then multiset{} else Account(slots[0]) + SlotItems(slots[1..])
  }

  /** The values a thread still has: in its array, and in the call it is in. */
  function HeldIn(th: Thread): multiset<Item> {
    match th.pc
    case Idle => if th.slots.None? then multiset{} else SlotItems(th.slots.value)
    case Setting(_, _, item) => (if th.slots.None? then multiset{} else SlotItems(th.slots.value)) + Account(item)
    case Exiting(_, _, i) => if th.slots.None? || i > |th.slots.value| then multiset{} else SlotItems(th.slots.value[i..])
    case Exited => multiset{}
  }

  function Apply(s: State, t: nat, e: Event): State
    requires Enabled(s, t, e)
  {
    match e
    case CallSet(index, item, keyOk) => DoCall(s, t, index, item, keyOk)
    case HaveSlots => With(s, t, s.threads[t].(pc := s.threads[t].pc.(stage := Ready)))
    case AllocSlots => With(s, t, s.threads[t].(slots := Some(Emptied()), pc := s.threads[t].pc.(stage := Ready)))
    case AllocFails => FailSet(s, t)
    case Lock => With(s, t, s.threads[t].(pc := s.threads[t].pc.(stage := Locked))).(lock := Some(t))
    case LockFails => FailSet(s, t)
    case Register =>
      With(s, t, s.threads[t].(pc := s.threads[t].pc.(stage := Registered)))
        .(destructors := s.destructors[s.threads[t].pc.index := Some(s.threads[t].pc.item.destructor)])
    case Unlock => With(s, t, s.threads[t].(pc := s.threads[t].pc.(stage := Unlocked))).(lock := None)
    case StoreValue => DoStore(s, t)
    case Exit => With(s, t, s.threads[t].(pc := if s.threads[t].slots.None? then Exited else Exiting(Started, [], 0)))
    case ExitLock => With(s, t, s.threads[t].(pc := Exiting(ExitLocked, [], 0))).(lock := Some(t))
    case ExitLockFails => With(s, t, s.threads[t].(pc := Exited)).(lost := s.lost + HeldIn(s.threads[t]))
    case Copy => With(s, t, s.threads[t].(pc := Exiting(Copied, s.destructors, 0)))
    case ExitUnlock => With(s, t, s.threads[t].(pc := s.threads[t].pc.(at := Running))).(lock := None)
    case DestroyNext => DoDestroy(s, t)
    case Finish => With(s, t, s.threads[t].(slots := None, pc := Exited))
  }

  predicate Initial(s: State) {
    && s.key.None? && |s.destructors| == SLOTS && (forall i :: 0 <= i < SLOTS ==> s.destructors[i].None?) && s.lock.None?
    && s.passed == s.destroyed == s.foreign == s.lost == multiset{}
    && forall t :: 0 <= t < |s.threads| ==> s.threads[t] == Thread(None, {}, Idle)
  }

  datatype Run = Run(states: seq<State>, actors: seq<nat>, events: seq<Event>)

  ghost predicate StepAt(r: Run, i: nat)
    requires i < |r.events| == |r.actors| && |r.states| == |r.events| + 1
  {
    Enabled(r.states[i], r.actors[i], r.events[i]) && r.states[i + 1] == Apply(r.states[i], r.actors[i], r.events[i])
  }

  /** Any interleaving of the steps of any number of threads. */
  ghost predicate IsRun(r: Run) {
    && |r.states| == |r.events| + 1 == |r.actors| + 1
    && Initial(r.states[0])
    && forall i :: 0 <= i < |r.events| ==> StepAt(r, i)
  }

  // ----- conservation

  function HeldAll(ts: seq<Thread>): multiset<Item> {
    if ts == [] then multiset{} else HeldIn(ts[0]) + HeldAll(ts[1..])
  }

  lemma AddFront(h: multiset<Item>, a: multiset<Item>, b: multiset<Item>, c: multiset<Item>, d: multiset<Item>)
    requires a + b == c + d
    ensures (h + a) + b == (h + c) + d
  {
    assert (h + a) + b == h + (a + b) && (h + c) + d == h + (c + d);
  }

  lemma Swap(a: multiset<Item>, b: multiset<Item>, r: multiset<Item>)
    ensures (a + r) + b == (b + r) + a
  {
  }

  lemma {:induction false} HeldUpdate(ts: seq<Thread>, t: nat, th: Thread)
    requires t < |ts|
    ensures HeldAll(ts[t := th]) + HeldIn(ts[t]) == HeldAll(ts) + HeldIn(th)
  {
    hide HeldIn;
    if t == 0 {
      assert ts[t := th][1..] == ts[1..];
      Swap(HeldIn(th), HeldIn(ts[0]), HeldAll(ts[1..]));
    } else {
      assert ts[t := th][1..] == ts[1..][t - 1 := th];
      HeldUpdate(ts[1..], t - 1, th);
      AddFront(HeldIn(ts[0]), HeldAll(ts[1..][t - 1 := th]), HeldIn(ts[t]), HeldAll(ts[1..]), HeldIn(th));
    }
  }

  lemma {:induction false} SlotUpdate(slots: seq<Item>, i: nat, item: Item)
    requires i < |slots|
    ensures SlotItems(slots[i := item]) + Account(slots[i]) == SlotItems(slots) + Account(item)
  {
    hide Account;
    if i == 0 {
      assert slots[i := item][1..] == slots[1..];
      Swap(Account(item), Account(slots[0]), SlotItems(slots[1..]));
    } else {
      assert slots[i := item][1..] == slots[1..][i - 1 := item];
      SlotUpdate(slots[1..], i - 1, item);
      AddFront(Account(slots[0]), SlotItems(slots[1..][i - 1 := item]), Account(slots[i]), SlotItems(slots[1..]), Account(item));
    }
  }

  lemma {:induction false} NoItems(slots: seq<Item>)
    requires forall i :: 0 <= i < |slots| ==> slots[i].value == NULL
    ensures SlotItems(slots) == multiset{}
  {
    if slots != [] { NoItems(slots[1..]); }
  }

  /** Nothing is lost from the books: what was passed in is destroyed, still held, or lost. */
  predicate Conserved(s: State) {
    s.passed == s.destroyed + HeldAll(s.threads) + s.lost
  }

  /** A thread gives up some of what it holds, and the books say where it went. */
  lemma Balanced(s: State, s': State, t: nat)
    requires Conserved(s) && t < |s.threads| && |s'.threads| == |s.threads| && s'.threads == s.threads[t := s'.threads[t]]
    requires s'.passed + s.destroyed + HeldIn(s.threads[t]) + s.lost == s.passed + s'.destroyed + HeldIn(s'.threads[t]) + s'.lost
    ensures Conserved(s')
  {
    HeldUpdate(s.threads, t, s'.threads[t]);
    hide HeldIn, HeldAll;
    var rest := HeldAll(s.threads) + HeldIn(s'.threads[t]);
    forall x ensures s'.passed[x] == (s'.destroyed + HeldAll(s'.threads) + s'.lost)[x] {
      assert (HeldAll(s'.threads) + HeldIn(s.threads[t]))[x] == rest[x];
      assert (s'.passed + s.destroyed + HeldIn(s.threads[t]) + s.lost)[x]
          == (s.passed + s'.destroyed + HeldIn(s'.threads[t]) + s'.lost)[x];
      assert s.passed[x] == (s.destroyed + HeldAll(s.threads) + s.lost)[x];
    }
  }

  lemma StoreConserves(s: State, t: nat)
    requires Conserved(s) && Enabled(s, t, StoreValue)
    ensures Conserved(DoStore(s, t))
  {
    var th := s.threads[t];
    SlotUpdate(th.slots.value, th.pc.index, th.pc.item);
    hide Conserved, SlotItems, Account;
    Balanced(s, DoStore(s, t), t);
  }

  lemma DestroyConserves(s: State, t: nat)
    requires Conserved(s) && Enabled(s, t, DestroyNext)
    ensures Conserved(DoDestroy(s, t))
  {
    hide Conserved, SlotItems, Account, HeldIn;
    var th, s' := s.threads[t], DoDestroy(s, t);
    var item, rest := th.slots.value[th.pc.i], th.slots.value[th.pc.i + 1..];
    DestroyHeld(th);
    DestroyBooks(s, t);
    HeldAfter(th);
    hide DoDestroy;
    MovedOut(s.passed, s.destroyed, s.lost, Account(item), SlotItems(rest), s'.destroyed, s'.lost);
    Balanced(s, s', t);
  }

  lemma HeldAfter(th: Thread)
    requires th.slots.Some? && th.pc.Exiting? && th.pc.i < |th.slots.value|
    ensures HeldIn(th.(pc := Exiting(Running, th.pc.copy, th.pc.i + 1))) == SlotItems(th.slots.value[th.pc.i + 1..])
  {
    hide SlotItems;
  }

  lemma DestroyHeld(th: Thread)
    requires th.slots.Some? && th.pc.Exiting? && th.pc.i < |th.slots.value|
    ensures HeldIn(th) == Account(th.slots.value[th.pc.i]) + SlotItems(th.slots.value[th.pc.i + 1..])
  {
    var held := th.slots.value[th.pc.i..];
    assert held[0] == th.slots.value[th.pc.i] && held[1..] == th.slots.value[th.pc.i + 1..];
    hide Account;
  }

  lemma DestroyBooks(s: State, t: nat)
    requires Enabled(s, t, DestroyNext)
    ensures var s', th := DoDestroy(s, t), s.threads[t];
            && s'.passed == s.passed && |s'.threads| == |s.threads| && s'.threads == s.threads[t := s'.threads[t]]
            && s'.destroyed + s'.lost == s.destroyed + s.lost + Account(th.slots.value[th.pc.i])
            && s'.threads[t] == th.(pc := Exiting(Running, th.pc.copy, th.pc.i + 1))
  {
    hide Account;
  }

  lemma MovedOut(p: multiset<Item>, d: multiset<Item>, l: multiset<Item>, a: multiset<Item>, rest: multiset<Item>,
                 d': multiset<Item>, l': multiset<Item>)
    requires d' + l' == d + l + a
    ensures p + d + (a + rest) + l == p + d' + rest + l'
  {
    forall x ensures (p + d + (a + rest) + l)[x] == (p + d' + rest + l')[x] {
      assert (d' + l')[x] == (d + l + a)[x];
    }
  }

  lemma FailConserves(s: State, t: nat)
    requires Conserved(s) && t < |s.threads| && s.threads[t].pc.Setting?
    ensures Conserved(FailSet(s, t))
  {
    hide Conserved, SlotItems, Account;
    Balanced(s, FailSet(s, t), t);
  }

  lemma CallConserves(s: State, t: nat, index: nat, item: Item, keyOk: bool)
    requires Conserved(s) && t < |s.threads| && s.threads[t].pc.Idle?
    ensures Conserved(DoCall(s, t, index, item, keyOk))
  {
    hide Conserved, SlotItems, Account;
    Balanced(s, DoCall(s, t, index, item, keyOk), t);
  }

  /** Steps that move a thread along without touching what it holds. */
  lemma MoveConserves(s: State, s': State, t: nat)
    requires Conserved(s) && t < |s.threads| && |s'.threads| == |s.threads| && s'.threads == s.threads[t := s'.threads[t]]
    requires s'.passed == s.passed && s'.destroyed == s.destroyed && s'.lost == s.lost
    requires HeldIn(s'.threads[t]) == HeldIn(s.threads[t])
    ensures Conserved(s')
  {
    hide Conserved, HeldIn;
    Balanced(s, s', t);
  }

  /** Nothing passed in disappears unaccounted, whatever the threads do. */
  lemma StepConserves(s: State, t: nat, e: Event)
    requires Conserved(s) && Shape(s) && Enabled(s, t, e)
    ensures Conserved(Apply(s, t, e))
  {
    hide Conserved, SlotItems, Account, Shape;
    match e
    case CallSet(index, item, keyOk) => CallConserves(s, t, index, item, keyOk);
    case AllocFails => FailConserves(s, t);
    case LockFails => FailConserves(s, t);
    case StoreValue => StoreConserves(s, t);
    case DestroyNext => DestroyConserves(s, t);
    case AllocSlots =>
      assert SlotItems(Emptied()) == multiset{} by { NoItems(Emptied()); }
      MoveConserves(s, Apply(s, t, AllocSlots), t);
    case Exit => ExitHolds(s, t); MoveConserves(s, Apply(s, t, Exit), t);
    case ExitLock => ExitHolds(s, t); MoveConserves(s, Apply(s, t, ExitLock), t);
    case Copy => ExitHolds(s, t); MoveConserves(s, Apply(s, t, Copy), t);
    case ExitLockFails => Balanced(s, Apply(s, t, ExitLockFails), t);
    case Finish => FinishHolds(s, t); MoveConserves(s, Apply(s, t, Finish), t);
    case HaveSlots => MoveConserves(s, Apply(s, t, HaveSlots), t);
    case Lock => MoveConserves(s, Apply(s, t, Lock), t);
    case Register => MoveConserves(s, Apply(s, t, Register), t);
    case Unlock => MoveConserves(s, Apply(s, t, Unlock), t);
    case ExitUnlock => MoveConserves(s, Apply(s, t, ExitUnlock), t);
  }

  /** Before the walk over the array begins, the thread still holds the whole array. */
  lemma ExitHolds(s: State, t: nat)
    requires Shape(s) && t < |s.threads|
    ensures var th := s.threads[t];
            && (th.slots.Some? ==> th.slots.value[0..] == th.slots.value)
            && (th.pc.Exiting? && th.pc.at != Running ==> th.pc.i == 0)
  {
    assert ThreadShape(s.destructors, s.threads[t]);
  }

  lemma FinishHolds(s: State, t: nat)
    requires Shape(s) && Enabled(s, t, Finish)
    ensures HeldIn(s.threads[t]) == multiset{}
  {
    assert ThreadShape(s.destructors, s.threads[t]);
    var th := s.threads[t];
    assert th.slots.value[th.pc.i..] == [];
  }

  // ----- a value in a slot has a registered destructor

  predicate Covered(slots: seq<Item>, ds: seq<Option<nat>>) {
    |slots| == |ds| == SLOTS && forall i :: 0 <= i < SLOTS && slots[i].value != NULL ==> ds[i].Some?
  }

  predicate ThreadShape(ds: seq<Option<nat>>, th: Thread)
    requires |ds| == SLOTS
  {
    && (th.slots.Some? ==> Covered(th.slots.value, ds))
    && (th.pc.Setting? ==>
          && th.pc.index < SLOTS
          && (th.pc.stage != Entered ==> th.slots.Some?)
          && (th.pc.stage == Registered || th.pc.stage == Unlocked ==> ds[th.pc.index].Some?))
    && (th.pc.Exiting? ==>
          && th.slots.Some? && th.pc.i <= SLOTS
          && (th.pc.at != Running ==> th.pc.i == 0)
          && (th.pc.at == Copied || th.pc.at == Running ==> Covered(th.slots.value, th.pc.copy)))
  }

  predicate Shape(s: State) {
    |s.destructors| == SLOTS && forall t :: 0 <= t < |s.threads| ==> ThreadShape(s.destructors, s.threads[t])
  }

  /** Registering a destructor leaves every other thread covered. */
  lemma RegisterShape(ds: seq<Option<nat>>, index: nat, d: nat, th: Thread)
    requires |ds| == SLOTS && index < SLOTS && ThreadShape(ds, th)
    ensures ThreadShape(ds[index := Some(d)], th)
  {
  }

  lemma SetShape(s: State, t: nat, e: Event)
    requires Shape(s) && Enabled(s, t, e)
    requires e.CallSet? || e.HaveSlots? || e.AllocSlots? || e.AllocFails? || e.Lock? || e.LockFails? || e.Unlock?
    ensures var s' := Apply(s, t, e); |s'.threads| == |s.threads| && ThreadShape(s.destructors, s'.threads[t])
  {
    assert ThreadShape(s.destructors, s.threads[t]);
    assert Covered(Emptied(), s.destructors);
    hide Shape, HeldIn, Account, Covered;
  }

  lemma StoreShape(s: State, t: nat)
    requires Shape(s) && Enabled(s, t, StoreValue)
    ensures ThreadShape(s.destructors, DoStore(s, t).threads[t])
  {
    var th := s.threads[t];
    assert ThreadShape(s.destructors, th);
    assert Covered(th.slots.value[th.pc.index := th.pc.item], s.destructors);
    hide Shape, HeldIn, Account, Covered;
  }

  lemma ExitShape(s: State, t: nat, e: Event)
    requires Shape(s) && Enabled(s, t, e)
    requires e.Exit? || e.ExitLock? || e.ExitLockFails? || e.Copy? || e.ExitUnlock? || e.Finish?
    ensures var s' := Apply(s, t, e); |s'.threads| == |s.threads| && ThreadShape(s.destructors, s'.threads[t])
  {
    assert ThreadShape(s.destructors, s.threads[t]);
    hide Shape, HeldIn, Account, Covered;
  }

  lemma DestroyShape(s: State, t: nat)
    requires Shape(s) && Enabled(s, t, DestroyNext)
    ensures ThreadShape(s.destructors, DoDestroy(s, t).threads[t])
  {
    assert ThreadShape(s.destructors, s.threads[t]);
    assert Covered(s.threads[t].slots.value, s.destructors);
    hide Shape, HeldIn, Account, Covered;
  }

  /** What one step makes of its thread keeps the shape. */
  lemma OwnShape(s: State, t: nat, e: Event)
    requires Shape(s) && Enabled(s, t, e)
    ensures var s' := Apply(s, t, e);
            |s'.destructors| == SLOTS && |s'.threads| == |s.threads| && ThreadShape(s'.destructors, s'.threads[t])
  {
    if e == StoreValue { StoreShape(s, t); }
    else if e == DestroyNext { DestroyShape(s, t); }
    else if e == Register { RegisterOwn(s, t); }
    else if e.Exit? || e.ExitLock? || e.ExitLockFails? || e.Copy? || e.ExitUnlock? || e.Finish? { ExitShape(s, t, e); }
    else { SetShape(s, t, e); }
    OthersSame(s, t, e);
    assert |s.destructors| == SLOTS;
    hide Shape, ThreadShape, HeldIn, Account, Enabled;
    if e == StoreValue { assert Apply(s, t, StoreValue) == DoStore(s, t); }
    else if e == DestroyNext { assert Apply(s, t, DestroyNext) == DoDestroy(s, t); }
    hide Apply;
  }

  lemma RegisterOwn(s: State, t: nat)
    requires Shape(s) && Enabled(s, t, Register)
    ensures var s' := Apply(s, t, Register);
            |s'.destructors| == SLOTS && |s'.threads| == |s.threads| && ThreadShape(s'.destructors, s'.threads[t])
  {
    var th := s.threads[t];
    assert ThreadShape(s.destructors, th);
    RegisterShape(s.destructors, th.pc.index, th.pc.item.destructor, th);
    hide Shape, Covered;
  }

  /** The other threads are as they were, and so are the destructors unless one is registered. */
  lemma OthersSame(s: State, t: nat, e: Event)
    requires Enabled(s, t, e)
    ensures var s' := Apply(s, t, e);
            && |s'.threads| == |s.threads| && s'.threads == s.threads[t := s'.threads[t]]
            && (e != Register ==> s'.destructors == s.destructors)
  {
    hide HeldIn, Account;
  }

  lemma StepShape(s: State, t: nat, e: Event)
    requires Shape(s) && Enabled(s, t, e)
    ensures Shape(Apply(s, t, e))
  {
    OwnShape(s, t, e);
    OthersSame(s, t, e);
    var s' := Apply(s, t, e);
    if e == Register { RegisterStep(s, t); }
    hide Enabled, Apply, ThreadShape;
    forall u | 0 <= u < |s'.threads| ensures ThreadShape(s'.destructors, s'.threads[u]) {
      if u != t {
        assert ThreadShape(s.destructors, s.threads[u]);
        if e == Register { RegisterShape(s.destructors, s.threads[t].pc.index, s.threads[t].pc.item.destructor, s.threads[u]); }
      }
    }
  }

  lemma RegisterStep(s: State, t: nat)
    requires Shape(s) && Enabled(s, t, Register)
    ensures s.threads[t].pc.Setting? && s.threads[t].pc.index < SLOTS
    ensures Apply(s, t, Register).destructors == s.destructors[s.threads[t].pc.index := Some(s.threads[t].pc.item.destructor)]
  {
  }

  lemma {:induction false} RunConserves(r: Run, i: nat)
    requires IsRun(r) && i < |r.states|
    ensures Shape(r.states[i]) && Conserved(r.states[i])
  {
    hide Conserved, Shape, Enabled, Apply, Initial;
    if i > 0 {
      RunConserves(r, i - 1);
      assert StepAt(r, i - 1);
      StepShape(r.states[i - 1], r.actors[i - 1], r.events[i - 1]);
      StepConserves(r.states[i - 1], r.actors[i - 1], r.events[i - 1]);
    } else {
      StartConserved(r.states[0]);
    }
  }

  lemma StartConserved(s: State)
    requires Initial(s)
    ensures Shape(s) && Conserved(s)
  {
    NothingHeld(s.threads);
  }

  lemma {:induction false} NothingHeld(ts: seq<Thread>)
    requires forall t :: 0 <= t < |ts| ==> HeldIn(ts[t]) == multiset{}
    ensures HeldAll(ts) == multiset{}
  {
    if ts != [] { NothingHeld(ts[1..]); }
  }

  // ----- which destructor runs

  /** The destructor that the last of the first n steps to register one at the index gave. */
  function LastRegistered(r: Run, index: nat, n: nat): Option<nat>
    requires n <= |r.events| == |r.actors| && n < |r.states|
  {
    if n == 0 then None
    else
      var s, t := r.states[n - 1], r.actors[n - 1];
      if r.events[n - 1] == Register && SetAt(s, t, Locked) && s.threads[t].pc.index == index then Some(s.threads[t].pc.item.destructor)
      else LastRegistered(r, index, n - 1)
  }

  lemma DestructorStep(s: State, t: nat, e: Event, index: nat)
    requires Shape(s) && Enabled(s, t, e) && index < SLOTS
    ensures |s.destructors| == |Apply(s, t, e).destructors| == SLOTS
    ensures Apply(s, t, e).destructors[index]
            == if e == Register && SetAt(s, t, Locked) && s.threads[t].pc.index == index then Some(s.threads[t].pc.item.destructor)
               else s.destructors[index]
  {
    StepShape(s, t, e);
    if e == Register { RegisterStep(s, t); RegisterAt(s, t); } else { OthersSame(s, t, e); }
    hide Enabled, Apply, ThreadShape;
  }

  lemma RegisterAt(s: State, t: nat)
    requires Enabled(s, t, Register)
    ensures SetAt(s, t, Locked)
  {
  }

  /** An index has the destructor that was registered for it last. */
  lemma {:induction false} DestructorsAreLast(r: Run, index: nat, n: nat)
    requires IsRun(r) && n < |r.states| && index < SLOTS
    ensures |r.states[n].destructors| == SLOTS && r.states[n].destructors[index] == LastRegistered(r, index, n)
  {
    hide Conserved, Enabled, Apply, Shape, SetAt;
    if n > 0 {
      hide Initial;
      DestructorsAreLast(r, index, n - 1);
      assert StepAt(r, n - 1);
      RunConserves(r, n - 1);
      DestructorStep(r.states[n - 1], r.actors[n - 1], r.events[n - 1], index);
      hide IsRun;
    }
  }

  /** Thread t took its copy of the destructors in step k and is walking over its array with it in state j. */
  ghost predicate CopiedAt(r: Run, t: nat, k: nat, j: nat) {
    && IsRun(r) && k < j < |r.states| && r.actors[k] == t && r.events[k] == Copy
    && t < |r.states[j].threads| && r.states[j].threads[t].pc.Exiting? && r.states[j].threads[t].pc.at == Running
    && forall i :: k < i < j && r.actors[i] == t ==> r.events[i] == ExitUnlock || r.events[i] == DestroyNext
  }

  lemma {:induction false} FindCopy(r: Run, t: nat, j: nat) returns (k: nat)
    requires IsRun(r) && j < |r.states| && t < |r.states[j].threads| && r.states[j].threads[t].pc.Exiting?
    requires r.states[j].threads[t].pc.at == Running || r.states[j].threads[t].pc.at == Copied
    ensures k < j && r.actors[k] == t && r.events[k] == Copy && r.states[j].threads[t].pc.copy == r.states[k].destructors
    ensures forall i :: k < i < j && r.actors[i] == t ==> r.events[i] == ExitUnlock || r.events[i] == DestroyNext
  {
    assert j > 0;
    assert StepAt(r, j - 1);
    var s, u, e := r.states[j - 1], r.actors[j - 1], r.events[j - 1];
    OthersSame(s, u, e);
    if u == t { CopyStep(s, t, e); }
    hide Enabled, Apply, Initial;
    if u == t && e == Copy {
      k := j - 1;
    } else {
      k := FindCopy(r, t, j - 1);
    }
  }

  lemma CopyStep(s: State, t: nat, e: Event)
    requires Enabled(s, t, e) && |Apply(s, t, e).threads| == |s.threads| && t < |s.threads|
    requires var pc := Apply(s, t, e).threads[t].pc; pc.Exiting? && (pc.at == Running || pc.at == Copied)
    ensures var pc, pc' := s.threads[t].pc, Apply(s, t, e).threads[t].pc;
            if e == Copy then pc'.copy == s.destructors
            else (e == ExitUnlock || e == DestroyNext) && pc.Exiting? && (pc.at == Running || pc.at == Copied) && pc'.copy == pc.copy
  {
    hide HeldIn, Account;
  }

  /** A value is destroyed by the destructor registered last for its index when its thread took the copy. */
  lemma DestroyedByLast(r: Run, t: nat, k: nat, j: nat)
    requires CopiedAt(r, t, k, j) && j < |r.events| && r.actors[j] == t && r.events[j] == DestroyNext
    ensures var th := r.states[j].threads[t];
            && th.slots.Some? && th.pc.i < |th.slots.value|
            && (th.slots.value[th.pc.i].value != NULL ==>
                  var d := LastRegistered(r, th.pc.i, k);
                  && d.Some? && r.states[j + 1].destroyed == r.states[j].destroyed + multiset{th.slots.value[th.pc.i]}
                  && (r.states[j + 1].foreign == r.states[j].foreign <==> d.value == th.slots.value[th.pc.i].destructor))
  {
    var m := FindCopy(r, t, j);
    assert m == k;
    assert StepAt(r, j);
    RunConserves(r, j);
    RunConserves(r, k);
    DestroyStep(r.states[j], t);
    var th := r.states[j].threads[t];
    if th.slots.value[th.pc.i].value != NULL { DestructorsAreLast(r, th.pc.i, k); }
    hide Enabled, Apply, Initial, Conserved, Shape;
  }

  lemma DestroyStep(s: State, t: nat)
    requires Shape(s) && Enabled(s, t, DestroyNext)
    ensures var th, s' := s.threads[t], Apply(s, t, DestroyNext);
            && th.slots.Some? && th.pc.Exiting? && th.pc.i < |th.slots.value| == SLOTS == |th.pc.copy|
            && var item, d := th.slots.value[th.pc.i], th.pc.copy[th.pc.i];
               (item.value != NULL ==>
                  && d.Some? && s'.destroyed == s.destroyed + multiset{item}
                  && (s'.foreign == s.foreign <==> d.value == item.destructor))
  {
    assert ThreadShape(s.destructors, s.threads[t]);
    var item := s.threads[t].slots.value[s.threads[t].pc.i];
    MoreOf(s.foreign, Account(item));
  }

  // ----- which steps lose a value

  predicate HasValue(slots: seq<Item>) {
    exists i :: 0 <= i < |slots| && slots[i].value != NULL
  }

  /** A value is stored over another, or the mutex fails while a thread with values exits. */
  predicate Loses(s: State, t: nat, e: Event)
    requires Enabled(s, t, e)
  {
    || (e == StoreValue && s.threads[t].slots.value[s.threads[t].pc.index].value != NULL)
    || (e == ExitLockFails && HasValue(s.threads[t].slots.value))
  }

  lemma {:induction false} ItemsExactly(slots: seq<Item>)
    ensures SlotItems(slots) != multiset{} <==> HasValue(slots)
  {
    if slots != [] {
      ItemsExactly(slots[1..]);
      if HasValue(slots[1..]) {
        var i :| 0 <= i < |slots[1..]| && slots[1..][i].value != NULL;
        assert slots[i + 1].value != NULL;
      }
      if slots[0].value != NULL {
        assert slots[0] in Account(slots[0]) + SlotItems(slots[1..]);
      } else if HasValue(slots) {
        var i :| 0 <= i < |slots| && slots[i].value != NULL;
        assert slots[1..][i - 1].value != NULL;
      }
    }
  }

  /** What a failing mutex at exit loses is the whole array. */
  lemma ExitLoss(s: State, t: nat)
    requires Shape(s) && Enabled(s, t, ExitLockFails)
    ensures HeldIn(s.threads[t]) == SlotItems(s.threads[t].slots.value)
  {
    ExitHolds(s, t);
    hide Account, SlotItems;
  }

  /** A step loses a value exactly if it is of one of the two kinds, and nothing lost comes back. */
  lemma LossExact(s: State, t: nat, e: Event)
    requires Shape(s) && Enabled(s, t, e)
    ensures s.lost <= Apply(s, t, e).lost
    ensures Apply(s, t, e).lost != s.lost <==> Loses(s, t, e)
  {
    assert t < |s.threads| ==> ThreadShape(s.destructors, s.threads[t]);
    if e == ExitLockFails {
      ExitLoss(s, t);
      ItemsExactly(s.threads[t].slots.value);
    }
    hide Shape, HeldIn, SlotItems, HasValue;
    match e
    case CallSet(index, item, keyOk) =>
    case StoreValue => MoreOf(s.lost, Account(s.threads[t].slots.value[s.threads[t].pc.index]));
    case DestroyNext =>
    case ExitLockFails => MoreOf(s.lost, HeldIn(s.threads[t]));
    case _ =>
  }

  lemma MoreOf(a: multiset<Item>, b: multiset<Item>)
    ensures a <= a + b && (a + b != a <==> b != multiset{})
  {
    if a + b == a {
      forall x ensures b[x] == 0 { assert (a + b)[x] == a[x] + b[x]; }
    }
  }

  ghost predicate LosesAt(r: Run, i: nat)
    requires IsRun(r) && i < |r.events|
  {
    StepAt(r, i) && Loses(r.states[i], r.actors[i], r.events[i])
  }

  lemma {:induction false} LostGrows(r: Run, i: nat, j: nat)
    requires IsRun(r) && i <= j < |r.states|
    ensures r.states[i].lost <= r.states[j].lost
    decreases j
  {
    hide Conserved, Shape, Enabled, Apply, Initial, Loses;
    if i < j {
      LostGrows(r, i, j - 1);
      RunConserves(r, j - 1);
      assert StepAt(r, j - 1);
      LossExact(r.states[j - 1], r.actors[j - 1], r.events[j - 1]);
    }
  }

  /** A run has lost nothing exactly if none of its steps stored over a value or failed to lock at exit with values left. */
  lemma {:induction false} NothingLostExactly(r: Run, n: nat)
    requires IsRun(r) && n < |r.states|
    ensures r.states[n].lost == multiset{} <==> forall i :: 0 <= i < n ==> !LosesAt(r, i)
  {
    hide Conserved, Shape, Enabled, Apply, Loses;
    if n > 0 {
      NothingLostExactly(r, n - 1);
      RunConserves(r, n - 1);
      assert StepAt(r, n - 1);
      LossExact(r.states[n - 1], r.actors[n - 1], r.events[n - 1]);
      hide Initial, IsRun;
      assert r.states[n].lost == multiset{} <==> r.states[n - 1].lost == multiset{} && !LosesAt(r, n - 1);
    }
  }

  /** The item is in the slot, unless its thread is exiting or gone. */
  predicate Keeps(s: State, t: nat, index: nat, item: Item) {
    && t < |s.threads|
    && var th := s.threads[t];
       th.pc.Exiting? || th.pc.Exited? || (th.slots.Some? && index < |th.slots.value| && th.slots.value[index] == item)
  }

  lemma StoreKeeps(s: State, t: nat)
    requires Enabled(s, t, StoreValue)
    ensures Keeps(Apply(s, t, StoreValue), t, s.threads[t].pc.index, s.threads[t].pc.item)
  {
    hide Account;
  }

  /** An item leaves its slot only by being stored over, and then it is lost. */
  lemma SlotStep(s: State, u: nat, e: Event, t: nat, index: nat, item: Item)
    requires Enabled(s, u, e) && Keeps(s, t, index, item) && item.value != NULL
    ensures Keeps(Apply(s, u, e), t, index, item) || item in Apply(s, u, e).lost
    ensures u == t && e == StoreValue && s.threads[t].pc.index == index ==> item in Apply(s, u, e).lost
  {
    OthersSame(s, u, e);
    hide HeldIn;
    if u == t {
      match e
      case CallSet(_, _, _) =>
      case StoreValue =>
      case DestroyNext =>
      case _ =>
    } else {
      hide Apply, Enabled;
    }
  }

  lemma {:induction false} StoredStays(r: Run, i: nat, j: nat)
    requires IsRun(r) && i < j < |r.states| && r.events[i] == StoreValue && Enabled(r.states[i], r.actors[i], StoreValue)
    requires r.states[i].threads[r.actors[i]].pc.item.value != NULL
    ensures var t, pc := r.actors[i], r.states[i].threads[r.actors[i]].pc;
            Keeps(r.states[j], t, pc.index, pc.item) || pc.item in r.states[j].lost
    decreases j
  {
    hide Conserved, Shape, Apply, Initial, Keeps;
    assert StepAt(r, i) && StepAt(r, j - 1);
    var t, pc := r.actors[i], r.states[i].threads[r.actors[i]].pc;
    hide Enabled;
    if i + 1 == j {
      StoreKeeps(r.states[i], t);
    } else {
      StoredStays(r, i, j - 1);
      LostGrows(r, j - 1, j);
      if Keeps(r.states[j - 1], t, pc.index, pc.item) {
        SlotStep(r.states[j - 1], r.actors[j - 1], r.events[j - 1], t, pc.index, pc.item);
      }
    }
  }

  /** Whatever happens in between, a thread that stores at an index a second time has lost what it stored there first. */
  lemma StoredTwiceLoses(r: Run, i: nat, j: nat)
    requires IsRun(r) && i < j < |r.events| && r.actors[i] == r.actors[j] && r.events[i] == r.events[j] == StoreValue
    requires Enabled(r.states[i], r.actors[i], StoreValue) && Enabled(r.states[j], r.actors[j], StoreValue)
    requires var first, second := r.states[i].threads[r.actors[i]].pc, r.states[j].threads[r.actors[j]].pc;
             first.index == second.index && first.item.value != NULL
    ensures r.states[i].threads[r.actors[i]].pc.item in r.states[j + 1].lost
  {
    hide Conserved, Shape, Apply, Initial, Keeps;
    var t, pc := r.actors[i], r.states[i].threads[r.actors[i]].pc;
    assert StepAt(r, j);
    StoredStays(r, i, j);
    LostGrows(r, j, j + 1);
    if Keeps(r.states[j], t, pc.index, pc.item) {
      SlotStep(r.states[j], t, StoreValue, t, pc.index, pc.item);
    }
  }

  /** Values are destroyed at once where a call fails, and otherwise by the exit of the thread that holds them. */
  lemma DestroyedWhere(s: State, t: nat, e: Event)
    requires Enabled(s, t, e) && Apply(s, t, e).destroyed != s.destroyed
    ensures var destroyed := Apply(s, t, e).destroyed;
            || (e.CallSet? && destroyed == s.destroyed + Account(e.item) && Apply(s, t, e).threads[t].pc.Idle?)
            || ((e == AllocFails || e == LockFails) && destroyed == s.destroyed + Account(s.threads[t].pc.item))
            || (e == DestroyNext && destroyed == s.destroyed + Account(s.threads[t].slots.value[s.threads[t].pc.i]))
  {
    hide HeldIn, Account;
  }

  // ----- reading back

  /** CRYPTO_get_thread_local by thread t. */
  function Get(s: State, t: nat, index: nat): nat
    requires t < |s.threads|
  {
    if s.key != Some(true) || s.threads[t].slots.None? || index >= |s.threads[t].slots.value| then NULL
    else s.threads[t].slots.value[index].value
  }

  /** A successful set is what the thread reads back, and it changes no other index. */
  lemma SetThenGet(s: State, t: nat, index: nat)
    requires Enabled(s, t, StoreValue) && s.key == Some(true)
    ensures Get(DoStore(s, t), t, index) == if index == s.threads[t].pc.index then s.threads[t].pc.item.value else Get(s, t, index)
  {
    hide Account;
  }

  /** What a thread reads does not depend on what other threads do, once the key exists. */
  lemma OthersDoNotShow(s: State, t: nat, u: nat, e: Event, index: nat)
    requires Enabled(s, u, e) && t < |s.threads| && t != u && s.key.Some?
    ensures t < |Apply(s, u, e).threads| && Get(Apply(s, u, e), t, index) == Get(s, t, index)
  {
    OthersSame(s, u, e);
    KeyStays(s, u, e);
    hide Enabled, Apply;
  }

  lemma KeyStays(s: State, u: nat, e: Event)
    requires Enabled(s, u, e) && s.key.Some?
    ensures Apply(s, u, e).key == s.key
  {
    hide HeldIn, Account;
  }

  // ----- the documented discipline

  /** One destructor for each index. */
  predicate Matches(ds: seq<Option<nat>>, own: seq<nat>) {
    |own| == SLOTS && forall i :: 0 <= i < |ds| && i < SLOTS && ds[i].Some? ==> ds[i].value == own[i]
  }

  predicate SlotsOwn(slots: seq<Item>, used: set<nat>, own: seq<nat>) {
    && |own| == |slots| == SLOTS
    && forall i :: 0 <= i < SLOTS && slots[i].value != NULL ==> slots[i].destructor == own[i] && i in used
  }

  predicate ThreadOrderly(th: Thread, own: seq<nat>) {
    && |own| == SLOTS
    && (th.slots.Some? ==> SlotsOwn(th.slots.value, th.used, own))
    && (th.pc.Setting? ==>
          && th.pc.index < SLOTS && th.pc.item.destructor == own[th.pc.index] && th.pc.index in th.used
          && (th.slots.Some? ==> th.slots.value[th.pc.index].value == NULL))
    && (th.pc.Exiting? ==> Matches(th.pc.copy, own))
  }

  predicate Orderly(s: State, own: seq<nat>) {
    && Shape(s) && Matches(s.destructors, own)
    && s.lost == s.foreign == multiset{}
    && forall t :: 0 <= t < |s.threads| ==> ThreadOrderly(s.threads[t], own)
  }

  /** Each thread sets an index once, always with the destructor of that index, and the mutex works at exit. */
  predicate Entitled(s: State, t: nat, e: Event, own: seq<nat>) {
    && |own| == SLOTS && e != ExitLockFails
    && (e.CallSet? ==> t < |s.threads| && e.index < SLOTS && e.index !in s.threads[t].used && e.item.destructor == own[e.index])
  }

  ghost predicate Disciplined(r: Run, own: seq<nat>) {
    IsRun(r) && |own| == SLOTS && forall i :: 0 <= i < |r.events| ==> Entitled(r.states[i], r.actors[i], r.events[i], own)
  }

  lemma CallOrderly(s: State, t: nat, e: Event, own: seq<nat>)
    requires Orderly(s, own) && Enabled(s, t, e) && Entitled(s, t, e, own) && e.CallSet?
    ensures var s' := DoCall(s, t, e.index, e.item, e.keyOk); |s'.threads| == |s.threads| && ThreadOrderly(s'.threads[t], own)
  {
    var th := s.threads[t];
    assert ThreadOrderly(th, own);
    if th.slots.Some? {
      assert th.slots.value[e.index].value == NULL;
      assert SlotsOwn(th.slots.value, th.used + {e.index}, own);
    }
    hide Orderly, Matches, SlotsOwn, Account;
  }

  lemma SetOrderly(s: State, t: nat, e: Event, own: seq<nat>)
    requires Orderly(s, own) && Enabled(s, t, e)
    requires e.HaveSlots? || e.AllocSlots? || e.AllocFails? || e.Lock? || e.LockFails? || e.Register? || e.Unlock?
    ensures var s' := Apply(s, t, e);
            |s'.threads| == |s.threads| && ThreadOrderly(s'.threads[t], own) && s'.lost == s.lost && s'.foreign == s.foreign
  {
    assert ThreadOrderly(s.threads[t], own);
    assert SlotsOwn(Emptied(), s.threads[t].used, own);
    hide Orderly, Matches, SlotsOwn, HeldIn, Account;
  }

  lemma StoreOrderly(s: State, t: nat, own: seq<nat>)
    requires Orderly(s, own) && Enabled(s, t, StoreValue)
    ensures var s' := DoStore(s, t);
            |s'.threads| == |s.threads| && ThreadOrderly(s'.threads[t], own) && s'.lost == s.lost && s'.foreign == s.foreign
  {
    var th := s.threads[t];
    assert ThreadOrderly(th, own);
    assert SlotsOwn(th.slots.value[th.pc.index := th.pc.item], th.used, own);
    hide Orderly, Matches, SlotsOwn;
  }

  lemma ExitOrderly(s: State, t: nat, e: Event, own: seq<nat>)
    requires Orderly(s, own) && Enabled(s, t, e)
    requires e.Exit? || e.ExitLock? || e.Copy? || e.ExitUnlock? || e.Finish?
    ensures var s' := Apply(s, t, e);
            |s'.threads| == |s.threads| && ThreadOrderly(s'.threads[t], own) && s'.lost == s.lost && s'.foreign == s.foreign
  {
    assert ThreadOrderly(s.threads[t], own);
    assert Matches(s.destructors, own) && Matches([], own);
    hide Orderly, Matches, SlotsOwn, HeldIn, Account;
  }

  /** A slot that holds a value has its own destructor in the copy, so nothing is lost and nothing misdirected. */
  lemma DestroyOrderly(s: State, t: nat, own: seq<nat>)
    requires Orderly(s, own) && Enabled(s, t, DestroyNext)
    ensures var s' := DoDestroy(s, t);
            |s'.threads| == |s.threads| && ThreadOrderly(s'.threads[t], own) && s'.lost == s.lost && s'.foreign == s.foreign
  {
    var th := s.threads[t];
    assert ThreadOrderly(th, own) && ThreadShape(s.destructors, th);
    var item, d := th.slots.value[th.pc.i], th.pc.copy[th.pc.i];
    if item.value != NULL {
      assert d.Some? && d.value == own[th.pc.i] == item.destructor;
    }
    hide Orderly, Matches, SlotsOwn, Covered;
  }

  lemma StepOrderly(s: State, t: nat, e: Event, own: seq<nat>)
    requires Orderly(s, own) && Enabled(s, t, e) && Entitled(s, t, e, own)
    ensures Orderly(Apply(s, t, e), own)
  {
    var s' := Apply(s, t, e);
    StepShape(s, t, e);
    OthersSame(s, t, e);
    OwnOrderly(s, t, e, own);
    if e == Register { RegisterMatches(s, t, own); }
    hide Enabled, Apply, ThreadOrderly, Shape, Matches;
  }

  lemma OwnOrderly(s: State, t: nat, e: Event, own: seq<nat>)
    requires Orderly(s, own) && Enabled(s, t, e) && Entitled(s, t, e, own)
    ensures var s' := Apply(s, t, e);
            |s'.threads| == |s.threads| && ThreadOrderly(s'.threads[t], own) && s'.lost == s.lost && s'.foreign == s.foreign
  {
    hide Orderly, Enabled, ThreadOrderly, HeldIn, Account;
    match e
    case CallSet(index, item, keyOk) => CallOrderly(s, t, e, own);
    case StoreValue => StoreOrderly(s, t, own);
    case DestroyNext => DestroyOrderly(s, t, own);
    case Exit => ExitOrderly(s, t, e, own);
    case ExitLock => ExitOrderly(s, t, e, own);
    case Copy => ExitOrderly(s, t, e, own);
    case ExitUnlock => ExitOrderly(s, t, e, own);
    case Finish => ExitOrderly(s, t, e, own);
    case _ => SetOrderly(s, t, e, own);
  }

  lemma RegisterMatches(s: State, t: nat, own: seq<nat>)
    requires Orderly(s, own) && Enabled(s, t, Register)
    ensures Matches(Apply(s, t, Register).destructors, own)
  {
    assert ThreadOrderly(s.threads[t], own);
  }

  lemma {:induction false} RunOrderly(r: Run, own: seq<nat>, i: nat)
    requires Disciplined(r, own) && i < |r.states|
    ensures Orderly(r.states[i], own)
  {
    if i > 0 {
      RunOrderly(r, own, i - 1);
      assert StepAt(r, i - 1) && Entitled(r.states[i - 1], r.actors[i - 1], r.events[i - 1], own);
      hide Orderly, Enabled, Apply, Entitled, IsRun;
      StepOrderly(r.states[i - 1], r.actors[i - 1], r.events[i - 1], own);
    } else {
      StartConserved(r.states[0]);
    }
  }

  /** Under the discipline nothing is lost and nothing meets another index's destructor; what is not held is destroyed. */
  lemma DestroyedOrHeld(r: Run, own: seq<nat>, i: nat)
    requires Disciplined(r, own) && i < |r.states|
    ensures r.states[i].passed == r.states[i].destroyed + HeldAll(r.states[i].threads)
    ensures r.states[i].foreign == multiset{}
  {
    RunOrderly(r, own, i);
    RunConserves(r, i);
    hide IsRun, Shape, HeldAll;
  }

  /** Once every thread has exited, each value passed in was destroyed exactly as often as it was passed, by its own destructor. */
  lemma EveryValueDestroyedOnce(r: Run, own: seq<nat>, i: nat)
    requires Disciplined(r, own) && i < |r.states|
    requires forall t :: 0 <= t < |r.states[i].threads| ==> r.states[i].threads[t].pc.Exited?
    ensures r.states[i].destroyed == r.states[i].passed
    ensures r.states[i].foreign == multiset{}
  {
    DestroyedOrHeld(r, own, i);
    NothingHeld(r.states[i].threads);
    hide Disciplined, HeldAll;
  }

  // ----- what happens without it

  /** The steps of one call that succeeds, by a thread that has no array yet. */
  function FirstSet(index: nat, item: Item): seq<Event> {
    [CallSet(index, item, true), AllocSlots, Lock, Register, Unlock, StoreValue]
  }

  /** The state after a thread makes these steps one after the other, if it can. */
  function After(s: State, t: nat, es: seq<Event>): Option<State>
    decreases |es|
  {
    if es == [] then Some(s) else if Enabled(s, t, es[0]) then After(Apply(s, t, es[0]), t, es[1..]) else None
  }

  function Start(): State {
    State(None, [None, None, None, None, None], None, [Thread(None, {}, Idle)],
          multiset{}, multiset{}, multiset{}, multiset{})
  }

  /** An instance: the first thread sets an index twice, and the first value is never destroyed. */
  lemma SecondSetLosesFirst(index: nat, a: Item, b: Item)
    requires index < SLOTS && a.value != NULL
    ensures var s := After(Start(), 0, FirstSet(index, a) + SecondSet(index, b));
            s.Some? && s.value.lost == multiset{a} && s.value.destroyed == multiset{}
  {
    hide After, Start, HeldIn, SlotItems;
    var s1 := AfterFirstSet(index, a);
    AfterConcat(Start(), 0, FirstSet(index, a), SecondSet(index, b), s1);
    var t1 := Apply(s1, 0, CallSet(index, b, true));
    var t2 := Apply(t1, 0, HaveSlots);
    var t3 := Apply(t2, 0, Lock);
    var t4, t5, t6 := FinishSet(t3, index, b);
    AfterSix(s1, 0, SecondSet(index, b), t1, t2, t3, t4, t5, t6);
  }

  function SecondSet(index: nat, item: Item): seq<Event> {
    [CallSet(index, item, true), HaveSlots, Lock, Register, Unlock, StoreValue]
  }

  lemma AfterFirstSet(index: nat, a: Item) returns (s: State)
    requires index < SLOTS
    ensures After(Start(), 0, FirstSet(index, a)) == Some(s)
    ensures |s.threads| == 1 && s.threads[0].pc.Idle? && s.key == Some(true) && s.lock.None? && |s.destructors| == SLOTS
    ensures s.threads[0].slots == Some(Emptied()[index := a]) && s.lost == s.destroyed == multiset{}
  {
    hide After, HeldIn, SlotItems;
    var t1 := Apply(Start(), 0, CallSet(index, a, true));
    var t2 := Apply(t1, 0, AllocSlots);
    var t3 := Apply(t2, 0, Lock);
    var t4, t5;
    t4, t5, s := FinishSet(t3, index, a);
    AfterSix(Start(), 0, FirstSet(index, a), t1, t2, t3, t4, t5, s);
  }

  /** From taking the mutex to storing the value. */
  lemma FinishSet(s: State, index: nat, item: Item) returns (s1: State, s2: State, s3: State)
    requires |s.threads| == 1 && s.threads[0].pc == Setting(Locked, index, item) && index < |s.destructors| == SLOTS
    requires s.threads[0].slots.Some? && |s.threads[0].slots.value| == SLOTS
    ensures Leads(s, 0, Register, s1) && Leads(s1, 0, Unlock, s2) && Leads(s2, 0, StoreValue, s3)
    ensures |s3.threads| == 1 && s3.threads[0].pc.Idle? && s3.key == s.key && s3.lock.None? && |s3.destructors| == SLOTS
    ensures s3.threads[0].slots == Some(s.threads[0].slots.value[index := item]) && s3.destroyed == s.destroyed
    ensures s3.lost == s.lost + Account(s.threads[0].slots.value[index])
  {
    hide HeldIn, SlotItems, Account;
    s1 := Apply(s, 0, Register);
    s2 := Apply(s1, 0, Unlock);
    s3 := Apply(s2, 0, StoreValue);
  }

  predicate Leads(s: State, t: nat, e: Event, s': State) {
    Enabled(s, t, e) && Apply(s, t, e) == s'
  }

  lemma AfterSix(s: State, t: nat, es: seq<Event>, s1: State, s2: State, s3: State, s4: State, s5: State, s6: State)
    requires |es| == 6
    requires Leads(s, t, es[0], s1) && Leads(s1, t, es[1], s2) && Leads(s2, t, es[2], s3)
    requires Leads(s3, t, es[3], s4) && Leads(s4, t, es[4], s5) && Leads(s5, t, es[5], s6)
    ensures After(s, t, es) == Some(s6)
  {
    hide Enabled, Apply;
    assert After(s5, t, es[5..]) == Some(s6) by { assert es[5..][1..] == []; }
    assert After(s4, t, es[4..]) == Some(s6) by { assert es[4..][1..] == es[5..]; }
    assert After(s3, t, es[3..]) == Some(s6) by { assert es[3..][1..] == es[4..]; }
    assert After(s2, t, es[2..]) == Some(s6) by { assert es[2..][1..] == es[3..]; }
    assert After(s1, t, es[1..]) == Some(s6) by { assert es[1..][1..] == es[2..]; }
  }

  lemma {:induction false} AfterConcat(s: State, t: nat, es: seq<Event>, fs: seq<Event>, s': State)
    requires After(s, t, es) == Some(s')
    ensures After(s, t, es + fs) == After(s', t, fs)
    decreases |es|
  {
    hide Enabled, Apply;
    if es == [] {
      assert es + fs == fs;
    } else {
      assert (es + fs)[1..] == es[1..] + fs;
      AfterConcat(Apply(s, t, es[0]), t, es[1..], fs, s');
    }
  }
}
