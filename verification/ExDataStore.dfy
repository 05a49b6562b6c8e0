/** The values one object keeps under ex_data indices (CRYPTO_set_ex_data and its companions in crypto/ex_data.c). */
module ExDataStore {
  import opened Wrappers
  import ExData

  const NULL: nat := 0

  datatype Outcome = Aborted | OutOfMemory | Stored

  /** One call of a free callback. */
  datatype Call = Call(freeFunc: nat, index: int, ptr: nat)

  /** The value at an index: null where nothing was stored. */
  function ValueIn(sk: Option<seq<nat>>, index: int): nat {
    if sk.None? || index < 0 || index >= |sk.value| then NULL else sk.value[index]
  }

  /** The calls for the first n registrations, given by their callbacks, None for null: one for each callback, in order. */
  function CallsFor(funcs: seq<Option<nat>>, reserved: nat, sk: Option<seq<nat>>, n: nat): seq<Call>
    requires n <= |funcs|
  {
    if n == 0 then []
    else
      var before := CallsFor(funcs, reserved, sk, n - 1);
      match funcs[n - 1]
      case None => before
      case Some(f) => before + [Call(f, n - 1 + reserved, ValueIn(sk, n - 1 + reserved))]
  }

  /** CRYPTO_EX_DATA: a stack of pointers that exists once something was stored. */
  class CryptoExData {
    var sk: Option<seq<nat>>

    constructor ()
      ensures sk.None?
    {
      sk := None;
    }

    /** newOk and pushOk say which allocations succeed. */
    method Set(index: int, val: nat, newOk: bool, pushOk: nat -> bool) returns (r: Outcome)
      modifies this
      ensures r.Aborted? <==> index < 0
      ensures r.Stored? ==> ValueIn(sk, index) == val && forall j :: j != index ==> ValueIn(sk, j) == old(ValueIn(sk, j))
      ensures !r.Stored? ==> forall j :: ValueIn(sk, j) == old(ValueIn(sk, j))
      ensures index >= 0 && newOk && (forall n :: pushOk(n)) ==> r.Stored?
    {
      if index < 0 { return Aborted; }
      if sk.None? {
        if !newOk { return OutOfMemory; }
        sk := Some([]);
      }
      var i := |sk.value|;
      while i <= index
        invariant sk.Some? && i >= |sk.value| && (i <= index + 1 ==> i == |sk.value|) && (i > index ==> |sk.value| > index)
        invariant forall j :: ValueIn(sk, j) == old(ValueIn(sk, j))
        decreases index - i
      {
        if !pushOk(i) { return OutOfMemory; }
        sk := Some(sk.value + [NULL]);
        i := i + 1;
      }
      sk := Some(sk.value[index := val]);
      return Stored;
    }

    method Get(index: int) returns (v: nat)
      ensures v == ValueIn(sk, index)
    {
      if sk.None? || index < 0 || index >= |sk.value| { return NULL; }
      return sk.value[index];
    }

    /** CRYPTO_free_ex_data over the registrations that the walk of the list visits. */
    method Free(funcs: seq<Option<nat>>, reserved: nat) returns (calls: seq<Call>)
      modifies this
      ensures calls == if old(sk).None? then [] else CallsFor(funcs, reserved, old(sk), |funcs|)
      ensures sk.None?
    {
      calls := [];
      if sk.None? { return; }
      for i := 0 to |funcs|
        invariant sk == old(sk)
        invariant calls == CallsFor(funcs, reserved, sk, i)
      {
        if funcs[i].Some? {
          var index := i + reserved;
          var ptr := Get(index);
          calls := calls + [Call(funcs[i].value, index, ptr)];
        }
      }
      sk := None;
    }
  }

  /** A call is for a registration with a callback, at its own index, with the value stored there. */
  lemma {:induction false} CallsAreOwn(funcs: seq<Option<nat>>, reserved: nat, sk: Option<seq<nat>>, n: nat, c: Call)
    requires n <= |funcs|
    ensures c in CallsFor(funcs, reserved, sk, n) <==>
            reserved <= c.index < n + reserved && funcs[c.index - reserved] == Some(c.freeFunc) && c.ptr == ValueIn(sk, c.index)
  {
    if n > 0 { CallsAreOwn(funcs, reserved, sk, n - 1, c); }
  }

  predicate Increasing(cs: seq<Call>) {
    forall i, j :: 0 <= i < j < |cs| ==> cs[i].index < cs[j].index
  }

  /** No registration is called twice: the indices of the calls increase. */
  lemma {:induction false} CallsIncrease(funcs: seq<Option<nat>>, reserved: nat, sk: Option<seq<nat>>, n: nat)
    requires n <= |funcs|
    ensures Increasing(CallsFor(funcs, reserved, sk, n))
  {
    if n > 0 {
      CallsIncrease(funcs, reserved, sk, n - 1);
      var before := CallsFor(funcs, reserved, sk, n - 1);
      forall i | 0 <= i < |before| ensures before[i].index < n - 1 + reserved {
        assert before[i] in before;
        CallsAreOwn(funcs, reserved, sk, n - 1, before[i]);
      }
      hide ValueIn;
    }
  }

  // ----- the registrations a walk of the list finds

  /** The callbacks of the registrations complete in a state, in their order. */
  function RegistrationsOf(s: ExData.State): seq<Option<nat>>
    requires ExData.NodesExist(s.mem, s.registered)
  {
    seq(|s.registered|, k requires 0 <= k < |s.registered| => s.mem.nodes[s.registered[k]].func)
  }

  /** The call a reader about to visit a node makes: none for a null callback. */
  function CallAt(s: ExData.State, t: nat, sk: Option<seq<nat>>): seq<Call>
    requires ExData.Enabled(s, t, ExData.Visit)
  {
    var node := ExData.Load(s.mem, s.threads[t].cursor).value;
    var index := s.threads[t].i + s.reserved;
    if node >= |s.mem.nodes| || s.mem.nodes[node].func.None? then []
    else [Call(s.mem.nodes[node].func.value, index, ValueIn(sk, index))]
  }

  /** The two memories hold the same in a place: the pointer, or the callback of the node. */
  predicate SameIn(m: ExData.Memory, m': ExData.Memory, place: ExData.Place) {
    match place
    case Pointer(loc) => ExData.Load(m, loc) == ExData.Load(m', loc)
    case Fields(k) => k < |m.nodes| && k < |m'.nodes| && m.nodes[k].func == m'.nodes[k].func
  }

  /** What a reader does and calls is decided by its own variables and by the places it is said to read. */
  lemma ReadsSuffice(s: ExData.State, s': ExData.State, t: nat, e: ExData.Event, sk: Option<seq<nat>>)
    requires ExData.Inside(s, t) && ExData.Inside(s', t) && s'.threads[t] == s.threads[t] && s'.reserved == s.reserved
    requires ExData.Enabled(s, t, e) && forall place :: place in ExData.Reads(s, t, e) ==> SameIn(s.mem, s'.mem, place)
    ensures ExData.Enabled(s', t, e)
    ensures t < |ExData.Apply(s, t, e).threads| && t < |ExData.Apply(s', t, e).threads|
    ensures ExData.Apply(s', t, e).threads[t] == ExData.Apply(s, t, e).threads[t]
    ensures e == ExData.Visit ==> CallAt(s', t, sk) == CallAt(s, t, sk)
  {
    hide ExData.Load, ExData.Store, ExData.TailLoc, ValueIn;
    match e
    case Visit =>
      assert ExData.Pointer(s.threads[t].cursor) in ExData.Reads(s, t, e);
      assert ExData.Fields(ExData.Load(s.mem, s.threads[t].cursor).value) in ExData.Reads(s, t, e);
    case Advance => assert ExData.Pointer(s.threads[t].cursor) in ExData.Reads(s, t, e);
    case NullDereference => assert ExData.Pointer(s.threads[t].cursor) in ExData.Reads(s, t, e);
    case EndRead =>
    case _ =>
  }

  /** The calls thread t makes in the steps from i up to j, for an object with the given values. */
  ghost function CallsMade(r: ExData.Run, t: nat, i: nat, j: nat, sk: Option<seq<nat>>): seq<Call>
    requires ExData.IsRun(r) && i <= j < |r.states|
    decreases j
  {
    if i == j then []
    else
      var before := CallsMade(r, t, i, j - 1, sk);
      if r.actors[j - 1] == t && r.events[j - 1] == ExData.Visit && ExData.StepAt(r, j - 1)
        then before + CallAt(r.states[j - 1], t, sk) else before
  }

  /** How many registrations a reader has called back for. */
  function Called(s: ExData.State, t: nat): nat
    requires ExData.Inside(s, t)
  {
    if s.threads[t].called then s.threads[t].i + 1 else s.threads[t].i
  }

  lemma RegistrationsExist(s: ExData.State)
    requires ExData.Inv(s)
    ensures ExData.NodesExist(s.mem, s.registered)
  {
  }

  /** A visit makes one more call, of the registration due; other steps of any thread make none. */
  lemma CallStep(s: ExData.State, u: nat, e: ExData.Event, t: nat)
    requires ExData.Enabled(s, u, e) && ExData.Inside(s, t) && ExData.Inside(ExData.Apply(s, u, e), t)
    ensures Called(ExData.Apply(s, u, e), t) == if u == t && e == ExData.Visit then s.threads[t].i + 1 else Called(s, t)
    ensures u == t && e == ExData.Visit ==> ExData.AtCursor(s, t, false)
  {
    hide ExData.Load, ExData.Store, ExData.TailLoc;
  }

  lemma CallAtNode(s: ExData.State, t: nat, sk: Option<seq<nat>>, node: nat)
    requires ExData.Enabled(s, t, ExData.Visit) && ExData.AtCursor(s, t, false)
    requires ExData.Load(s.mem, s.threads[t].cursor) == Some(node) && node < |s.mem.nodes|
    ensures CallAt(s, t, sk) == match s.mem.nodes[node].func
                                case None => []
                                case Some(f) => [Call(f, s.threads[t].i + s.reserved, ValueIn(sk, s.threads[t].i + s.reserved))]
  {
    hide ExData.Load, ValueIn;
  }

  lemma CallDue(s: ExData.State, t: nat, sk: Option<seq<nat>>)
    requires ExData.Inv(s) && ExData.Enabled(s, t, ExData.Visit) && ExData.AtCursor(s, t, false)
    ensures var i := s.threads[t].i;
            && i < s.threads[t].n <= |s.registered| && s.registered[i] < |s.mem.nodes|
            && CallAt(s, t, sk) == match s.mem.nodes[s.registered[i]].func
                                   case None => []
                                   case Some(f) => [Call(f, i + s.reserved, ValueIn(sk, i + s.reserved))]
  {
    ExData.CursorPoints(s, t);
    RegistrationsExist(s);
    hide ExData.Inv, ExData.Load, ExData.LocOf, ExData.Enabled, ValueIn, CallAt, ExData.Chain;
    CallAtNode(s, t, sk, s.registered[s.threads[t].i]);
  }

  lemma CallsUnfold(r: ExData.Run, t: nat, i: nat, j: nat, sk: Option<seq<nat>>)
    requires ExData.IsRun(r) && i <= j < |r.events| && ExData.StepAt(r, j)
    ensures CallsMade(r, t, i, i, sk) == []
    ensures CallsMade(r, t, i, j + 1, sk) ==
            if r.actors[j] == t && r.events[j] == ExData.Visit then CallsMade(r, t, i, j, sk) + CallAt(r.states[j], t, sk)
            else CallsMade(r, t, i, j, sk)
  {
    hide ExData.IsRun, ExData.StepAt, CallAt;
  }

  /** What a walk has called so far is what Free calls for the registrations present at its load, up to that point. */
  lemma {:induction false} WalkCalls(r: ExData.Run, t: nat, i: nat, j: nat, sk: Option<seq<nat>>)
    requires ExData.Walking(r, t, i, j)
    ensures ExData.NodesExist(r.states[i].mem, r.states[i].registered)
    ensures Called(r.states[j], t) <= |r.states[i].registered|
    ensures CallsMade(r, t, i, j, sk) == CallsFor(RegistrationsOf(r.states[i]), r.states[0].reserved, sk, Called(r.states[j], t))
    decreases j
  {
    hide ExData.Inv, ExData.Load, ExData.LocOf, ExData.Enabled, ExData.Apply, ExData.Initial, ExData.NodesExist, CallsMade;
    ExData.RunInv(r, i);
    RegistrationsExist(r.states[i]);
    assert ExData.StepAt(r, j - 1);
    CallsUnfold(r, t, i, j - 1, sk);
    if i + 1 == j {
      ExData.StartReadStep(r.states[i], t);
    } else {
      WalkCalls(r, t, i, j - 1, sk);
      assert ExData.Inside(r.states[j - 1], t);
      WalkStep(r, t, i, j - 1, sk);
    }
  }

  lemma WalkStep(r: ExData.Run, t: nat, i: nat, j: nat, sk: Option<seq<nat>>)
    requires ExData.Walking(r, t, i, j) && j < |r.events| && ExData.StepAt(r, j) && ExData.Inside(r.states[j + 1], t)
    requires ExData.NodesExist(r.states[i].mem, r.states[i].registered)
    requires var funcs := RegistrationsOf(r.states[i]);
             && Called(r.states[j], t) <= |funcs|
             && CallsMade(r, t, i, j, sk) == CallsFor(funcs, r.states[0].reserved, sk, Called(r.states[j], t))
    ensures var funcs := RegistrationsOf(r.states[i]);
            && Called(r.states[j + 1], t) <= |funcs|
            && CallsMade(r, t, i, j + 1, sk) == CallsFor(funcs, r.states[0].reserved, sk, Called(r.states[j + 1], t))
  {
    hide ExData.Inv, ExData.Load, ExData.LocOf, ExData.Enabled, ExData.Apply, ExData.Initial, ExData.NodesExist, CallsMade, CallsFor, CallAt;
    assert ExData.Inside(r.states[j], t);
    CallsUnfold(r, t, i, j, sk);
    CallStep(r.states[j], r.actors[j], r.events[j], t);
    if r.actors[j] == t && r.events[j] == ExData.Visit {
      VisitCalls(r, t, i, j, sk);
    }
  }

  /** The call of a visit is the one Free makes for the registration at that place. */
  lemma VisitCalls(r: ExData.Run, t: nat, i: nat, j: nat, sk: Option<seq<nat>>)
    requires ExData.Walking(r, t, i, j) && j < |r.events| && ExData.Enabled(r.states[j], t, ExData.Visit)
    requires ExData.AtCursor(r.states[j], t, false) && ExData.NodesExist(r.states[i].mem, r.states[i].registered)
    ensures var k, funcs := r.states[j].threads[t].i, RegistrationsOf(r.states[i]);
            && k < |funcs|
            && CallsFor(funcs, r.states[0].reserved, sk, k + 1) == CallsFor(funcs, r.states[0].reserved, sk, k) + CallAt(r.states[j], t, sk)
  {
    hide ExData.Inv, ExData.Load, ExData.LocOf, ExData.Enabled, ExData.Apply, ExData.Initial, ValueIn;
    ExData.RunInv(r, j);
    ExData.LoadedLength(r, t, i, j);
    ExData.RegistrationsGrow(r, i, j);
    CallDue(r.states[j], t, sk);
    var k := r.states[j].threads[t].i;
    ExData.FuncStays(r, i, j, r.states[i].registered[k]);
  }

  /** The calls of a finished walk are those CryptoExData.Free makes for the callbacks passed to the
      registrations published before its load, in their order. */
  lemma FinishedWalkCalls(r: ExData.Run, t: nat, i: nat, j: nat, sk: Option<seq<nat>>)
    requires ExData.Walking(r, t, i, j) && j < |r.events| && r.actors[j] == t && r.events[j] == ExData.EndRead
    ensures CallsMade(r, t, i, j, sk) == CallsFor(ExData.PassedBefore(r, i), r.states[0].reserved, sk, ExData.Publishes(r, i))
  {
    hide ExData.Inv, ExData.Load, ExData.LocOf, ExData.Enabled, ExData.Apply, ExData.Initial, ExData.PassedBefore;
    WalkCalls(r, t, i, j, sk);
    assert ExData.StepAt(r, j);
    ExData.EndReadStep(r.states[j], t);
    ExData.LoadedLength(r, t, i, j);
    ExData.PassedAreHeld(r, i);
    assert RegistrationsOf(r.states[i]) == ExData.PassedBefore(r, i);
  }

  /** What a thread registers, every walk that loads the length later calls: the callback passed in, once, with the index
      that the registration returns and the value stored there; and nothing at that index for a null callback. */
  lemma RegisteredIsCalled(r: ExData.Run, t: nat, i: nat, j: nat, sk: Option<seq<nat>>, a: nat, p: nat, b: nat, c: Call)
    requires ExData.Walking(r, t, i, j) && j < |r.events| && r.actors[j] == t && r.events[j] == ExData.EndRead
    requires ExData.Registers(r, a, p, b) && p < i
    ensures r.states[b + 1].returned != []
    ensures var index := r.states[b + 1].returned[|r.states[b + 1].returned| - 1];
            c in CallsMade(r, t, i, j, sk) && c.index == index
            <==> r.events[a].func.Some? && c == Call(r.events[a].func.value, index, ValueIn(sk, index))
  {
    hide ExData.Enabled, ExData.PassedBefore, ExData.Publishes, CallsMade, CallsFor, ValueIn;
    var reserved := r.states[0].reserved;
    FinishedWalkCalls(r, t, i, j, sk);
    ExData.ReturnsPublished(r, a, p, b);
    ExData.PassedAt(r, a, p, b, i);
    CallsAreOwn(ExData.PassedBefore(r, i), reserved, sk, ExData.Publishes(r, i), c);
  }
}
