/** The reference count of crypto/refcount.c, updated by any number of threads with compare-and-swap loops. */
module RefCount {
  /** CRYPTO_REFCOUNT_MAX, where the count saturates. */
  const MAX: nat := 0xffff_ffff

  /** Where a thread is: outside, or at the head of one of the two loops with the value it last saw. */
  datatype Pc = Idle | Inc(expected: nat) | Dec(expected: nat)

  /** The count, the threads, and how many references each thread owns. */
  datatype State = State(count: nat, threads: seq<Pc>, held: seq<int>)

  /** What one step does; every step but Transfer is one access to the count, or the decision that follows from one. */
  datatype Event =
    | StartInc                 // load, entering CRYPTO_refcount_inc
    | StartDec                 // load, entering CRYPTO_refcount_dec_and_test_zero
    | Retry                    // the compare-and-swap fails, perhaps for no reason, and reports the value it saw
    | IncDone                  // the increment is over
    | DecDone(zero: bool)      // the decrement is over and returns whether it reached zero
    | Abort                    // the decrement saw zero
    | Transfer(receiver: nat)  // outside of this code: a reference changes hands

  ghost predicate WellFormed(s: State) {
    |s.threads| == |s.held| && s.count <= MAX && forall t :: 0 <= t < |s.threads| ==> SawMaxOnlyAtMax(s, t)
  }

  /** The saturated value is sticky, so a thread that saw it can rely on it. */
  predicate SawMaxOnlyAtMax(s: State, t: nat)
    requires t < |s.threads|
  {
    !s.threads[t].Idle? ==> s.threads[t].expected <= MAX && (s.threads[t].expected == MAX ==> s.count == MAX)
  }

  /** Thread t takes a step. */
  ghost predicate Step(s: State, t: nat, e: Event, s': State) {
    && t < |s.threads| && |s.threads| == |s.held|
    && |s'.threads| == |s.threads| && |s'.held| == |s.held|
    && (forall u :: 0 <= u < |s.threads| && u != t ==> s'.threads[u] == s.threads[u])
    && var pc, pc' := s.threads[t], s'.threads[t];
    match e
    case StartInc => pc.Idle? && pc' == Inc(s.count) && s'.count == s.count && s'.held == s.held
    case StartDec => pc.Idle? && pc' == Dec(s.count) && s'.count == s.count && s'.held == s.held
    case Retry =>
      && ((pc.Inc? && pc.expected != MAX && pc' == Inc(s.count)) || (pc.Dec? && pc.expected != 0 && pc.expected != MAX && pc' == Dec(s.count)))
      && s'.count == s.count && s'.held == s.held
    case IncDone =>
      && pc.Inc? && pc'.Idle? && s'.held == s.held[t := s.held[t] + 1]
      && (if pc.expected == MAX then s'.count == s.count else s.count == pc.expected && s'.count == pc.expected + 1)
    case DecDone(zero) =>
      && pc.Dec? && pc.expected != 0 && pc'.Idle? && s'.held == s.held[t := s.held[t] - 1]
      && (if pc.expected == MAX then s'.count == s.count && !zero
          else s.count == pc.expected && s'.count == pc.expected - 1 && (zero <==> pc.expected - 1 == 0))
    case Abort => pc == Dec(0) && s' == s
    case Transfer(u) =>
      && u < |s.threads| && u != t && pc.Idle? && s.held[t] >= 1 && pc' == pc
      && s'.count == s.count && s'.held == s.held[t := s.held[t] - 1][u := s.held[u] + 1]
  }

  datatype Run = Run(states: seq<State>, actors: seq<nat>, events: seq<Event>)

  /** Any interleaving of any number of threads, from a count that no thread is looking at. */
  ghost predicate IsRun(r: Run) {
    && |r.states| == |r.events| + 1 == |r.actors| + 1
    && r.states[0].count <= MAX && |r.states[0].threads| == |r.states[0].held|
    && (forall t :: 0 <= t < |r.states[0].threads| ==> r.states[0].threads[t].Idle?)
    && forall i :: 0 <= i < |r.events| ==> Step(r.states[i], r.actors[i], r.events[i], r.states[i + 1])
  }

  lemma StepWellFormed(s: State, t: nat, e: Event, s': State)
    requires WellFormed(s) && Step(s, t, e, s')
    ensures WellFormed(s')
    ensures s.count == MAX ==> s'.count == MAX && e != DecDone(true)
  {
    assert SawMaxOnlyAtMax(s, t);
    forall u | 0 <= u < |s'.threads| ensures SawMaxOnlyAtMax(s', u) {
      assert SawMaxOnlyAtMax(s, u);
    }
  }

  lemma {:induction false} RunWellFormed(r: Run, i: nat)
    requires IsRun(r) && i < |r.states|
    ensures WellFormed(r.states[i]) && |r.states[i].threads| == |r.states[0].threads|
  {
    if i > 0 {
      RunWellFormed(r, i - 1);
      StepWellFormed(r.states[i - 1], r.actors[i - 1], r.events[i - 1], r.states[i]);
    }
  }

  // ----- every call takes effect at one step

  function SaturatingInc(c: nat): nat {
    if c == MAX then MAX else c + 1
  }

  function SaturatingDec(c: nat): nat {
    if c == MAX then MAX else if c == 0 then 0 else c - 1
  }

  /** The count after the calls that ended in these steps, made one after the other. */
  function Replay(c: nat, es: seq<Event>): nat {
    if es == [] then c
    else
      var before := Replay(c, es[..|es| - 1]);
      match es[|es| - 1]
      case IncDone => SaturatingInc(before)
      case DecDone(_) => SaturatingDec(before)
      case _ => before
  }

  /** The step changes the count as the whole call does in one piece, and returns what that returns. */
  lemma StepIsAtomic(s: State, t: nat, e: Event, s': State)
    requires WellFormed(s) && Step(s, t, e, s')
    ensures e == IncDone ==> s'.count == SaturatingInc(s.count)
    ensures e.DecDone? ==> s.count > 0 && s'.count == SaturatingDec(s.count) && (e.zero <==> s'.count == 0)
    ensures e != IncDone && !e.DecDone? ==> s'.count == s.count
  {
    assert SawMaxOnlyAtMax(s, t);
  }

  /** Every run is equivalent to making its calls one at a time, each at the step that ends it. */
  lemma {:induction false} RunIsSequential(r: Run, i: nat)
    requires IsRun(r) && i < |r.states|
    ensures r.states[i].count == Replay(r.states[0].count, r.events[..i])
    ensures i > 0 && r.events[i - 1].DecDone? ==>
              var before := Replay(r.states[0].count, r.events[..i - 1]);
              before > 0 && (r.events[i - 1].zero <==> SaturatingDec(before) == 0)
  {
    if i > 0 {
      RunIsSequential(r, i - 1);
      RunWellFormed(r, i - 1);
      StepIsAtomic(r.states[i - 1], r.actors[i - 1], r.events[i - 1], r.states[i]);
      assert r.events[..i][..i - 1] == r.events[..i - 1];
    }
  }

  /** How often thread t took a step of the kind of e among the first n. */
  function Steps(r: Run, t: nat, kind: Event -> bool, n: nat): nat
    requires n <= |r.events| == |r.actors|
  {
    if n == 0 then 0
    else Steps(r, t, kind, n - 1) + (if r.actors[n - 1] == t && kind(r.events[n - 1]) then 1 else 0)
  }

  predicate StartsInc(e: Event) { e.StartInc? }
  predicate EndsInc(e: Event) { e.IncDone? }
  predicate StartsDec(e: Event) { e.StartDec? }
  predicate EndsDec(e: Event) { e.DecDone? }

  /** Each call ends in exactly one step: a thread has ended every call it started, but for the one it is in. */
  lemma {:induction false} OneEffectPerCall(r: Run, t: nat, n: nat)
    requires IsRun(r) && n < |r.states| && t < |r.states[0].threads|
    ensures |r.states[n].threads| == |r.states[0].threads|
    ensures Steps(r, t, StartsInc, n) == Steps(r, t, EndsInc, n) + (if r.states[n].threads[t].Inc? then 1 else 0)
    ensures Steps(r, t, StartsDec, n) == Steps(r, t, EndsDec, n) + (if r.states[n].threads[t].Dec? then 1 else 0)
  {
    if n > 0 {
      OneEffectPerCall(r, t, n - 1);
      assert Step(r.states[n - 1], r.actors[n - 1], r.events[n - 1], r.states[n]);
    }
  }

  // ----- saturation

  /** Once saturated the count never changes, and no decrement reports zero. */
  lemma {:induction false} SaturatedForever(r: Run, i: nat, j: nat)
    requires IsRun(r) && i <= j < |r.states| && r.states[i].count == 0xffff_ffff
    ensures r.states[j].count == 0xffff_ffff
    ensures j > i ==> r.events[j - 1] != DecDone(true)
    decreases j
  {
    hide Step, WellFormed;
    if j > i {
      SaturatedForever(r, i, j - 1);
      RunWellFormed(r, j - 1);
      StepWellFormed(r.states[j - 1], r.actors[j - 1], r.events[j - 1], r.states[j]);
    }
  }

  // ----- references

  function Sum(s: seq<int>): int {
    if s == [] then 0 else s[0] + Sum(s[1..])
  }

  lemma {:induction false} SumUpdate(s: seq<int>, t: nat, v: int)
    requires t < |s|
    ensures Sum(s[t := v]) == Sum(s) - s[t] + v
  {
    if t == 0 {
      assert s[t := v][1..] == s[1..];
    } else {
      assert s[t := v][1..] == s[1..][t - 1 := v];
      SumUpdate(s[1..], t - 1, v);
    }
  }

  lemma {:induction false} SumAtLeast(s: seq<int>, t: nat)
    requires t < |s| && forall i :: 0 <= i < |s| ==> s[i] >= 0
    ensures Sum(s) >= s[t]
  {
    SumNonNegative(s[1..]);
    if t > 0 { SumAtLeast(s[1..], t - 1); }
  }

  lemma {:induction false} SumNonNegative(s: seq<int>)
    requires forall i :: 0 <= i < |s| ==> s[i] >= 0
    ensures Sum(s) >= 0
  {
    if s != [] { SumNonNegative(s[1..]); }
  }

  // ----- when a decrement aborts, whoever calls

  /** Each step changes the number of references as the call it ends says; a thread may end up with less than none. */
  lemma StepSum(s: State, t: nat, e: Event, s': State)
    requires Step(s, t, e, s')
    ensures Sum(s'.held) == Sum(s.held) + (if e == IncDone then 1 else if e.DecDone? then -1 else 0)
  {
    if e == IncDone { SumUpdate(s.held, t, s.held[t] + 1); }
    if e.DecDone? { SumUpdate(s.held, t, s.held[t] - 1); }
    if e.Transfer? {
      SumUpdate(s.held, t, s.held[t] - 1);
      SumUpdate(s.held[t := s.held[t] - 1], e.receiver, s.held[e.receiver] + 1);
    }
  }

  lemma StepBalance(s: State, t: nat, e: Event, s': State)
    requires WellFormed(s) && Step(s, t, e, s') && (s.count == MAX || s.count == Sum(s.held))
    ensures s'.count == MAX || s'.count == Sum(s'.held)
  {
    StepSum(s, t, e, s');
    StepIsAtomic(s, t, e, s');
    hide Step, Sum, WellFormed;
  }

  /** Unless it saturated, the count is the number of references, entitled or not the calls. */
  lemma {:induction false} Balance(r: Run, i: nat)
    requires IsRun(r) && r.states[0].count == Sum(r.states[0].held) && i < |r.states|
    ensures r.states[i].count == MAX || r.states[i].count == Sum(r.states[i].held)
  {
    hide Step, Sum, WellFormed;
    if i > 0 {
      Balance(r, i - 1);
      RunWellFormed(r, i - 1);
      StepBalance(r.states[i - 1], r.actors[i - 1], r.events[i - 1], r.states[i]);
    }
  }

  /** In step k thread t reads the count for its call, and it takes no other step up to state j but to abort again. */
  predicate LastRead(r: Run, t: nat, k: nat, j: nat) {
    && k < j <= |r.events| == |r.actors|
    && r.actors[k] == t && (r.events[k] == StartInc || r.events[k] == StartDec || r.events[k] == Retry)
    && forall i :: k < i < j && r.actors[i] == t ==> r.events[i] == Abort
  }

  /** Whoever is in a call goes by the count it last read. */
  lemma {:induction false} FindLastRead(r: Run, t: nat, j: nat) returns (k: nat)
    requires IsRun(r) && j < |r.states| && t < |r.states[j].threads| && !r.states[j].threads[t].Idle?
    ensures LastRead(r, t, k, j) && r.states[j].threads[t].expected == r.states[k].count
    ensures r.states[j].threads[t].Dec? ==> r.events[k] == StartDec || r.events[k] == Retry
  {
    assert j > 0;
    assert Step(r.states[j - 1], r.actors[j - 1], r.events[j - 1], r.states[j]);
    if r.actors[j - 1] == t && r.events[j - 1] != Abort {
      k := j - 1;
    } else {
      k := FindLastRead(r, t, j - 1);
    }
  }

  /** A call that is not over can end with its next step unless the count changed since it was last read: what makes one
      thread try again is another thread's success. */
  lemma EndsUnlessChanged(r: Run, t: nat, k: nat, j: nat) returns (e: Event, s': State)
    requires IsRun(r) && j < |r.states| && t < |r.states[j].threads| && !r.states[j].threads[t].Idle?
    requires LastRead(r, t, k, j) && r.states[j].count == r.states[k].count
    ensures (e == IncDone || e.DecDone? || e == Abort) && Step(r.states[j], t, e, s')
  {
    var m := FindLastRead(r, t, j);
    LastReadUnique(r, t, k, m, j);
    RunWellFormed(r, j);
    var s := r.states[j];
    var c, idle := s.count, s.threads[t := Idle];
    match s.threads[t]
    case Inc(_) =>
      e, s' := IncDone, State(if c == MAX then c else c + 1, idle, s.held[t := s.held[t] + 1]);
    case Dec(_) =>
      if c == 0 {
        e, s' := Abort, s;
      } else {
        e := DecDone(c == 1);
        s' := State(if c == MAX then c else c - 1, idle, s.held[t := s.held[t] - 1]);
      }
  }

  lemma LastReadUnique(r: Run, t: nat, k: nat, m: nat, j: nat)
    requires LastRead(r, t, k, j) && LastRead(r, t, m, j)
    ensures k == m
  {
  }

  /** A decrement aborts exactly if no reference was left, and the count not saturated, when it last read the count. */
  lemma AbortExact(r: Run, t: nat, k: nat, j: nat)
    requires IsRun(r) && r.states[0].count == Sum(r.states[0].held)
    requires j < |r.events| && r.actors[j] == t && t < |r.states[j].threads| && r.states[j].threads[t].Dec? && LastRead(r, t, k, j)
    ensures r.events[j] == Abort <==> r.states[k].count < 0xffff_ffff && Sum(r.states[k].held) == 0
  {
    hide Sum;
    var m := FindLastRead(r, t, j);
    LastReadUnique(r, t, k, m, j);
    Balance(r, k);
    assert Step(r.states[j], t, r.events[j], r.states[j + 1]);
    hide LastRead;
  }

  // ----- calls by owners

  /** Only a thread that owns a reference calls. */
  ghost predicate Disciplined(r: Run) {
    && IsRun(r)
    && r.states[0].count == Sum(r.states[0].held)
    && (forall t :: 0 <= t < |r.states[0].held| ==> r.states[0].held[t] >= 0)
    && forall i :: 0 <= i < |r.events| ==> Entitled(r.states[i], r.actors[i], r.events[i])
  }

  predicate Entitled(s: State, t: nat, e: Event) {
    e.StartInc? || e.StartDec? ==> t < |s.held| && s.held[t] >= 1
  }

  /** Below saturation the count is the number of references, and whoever is in a call owns one. */
  ghost predicate Counted(s: State) {
    && WellFormed(s)
    && (s.count == MAX || s.count == Sum(s.held))
    && (forall t :: 0 <= t < |s.held| ==> s.held[t] >= 0)
    && forall t :: 0 <= t < |s.threads| ==> CallerOwns(s, t)
  }

  predicate CallerOwns(s: State, t: nat)
    requires t < |s.threads| == |s.held|
  {
    !s.threads[t].Idle? ==> s.held[t] >= 1 && s.threads[t].expected >= 1
  }

  lemma StepHeld(s: State, t: nat, e: Event, s': State)
    requires Counted(s) && Step(s, t, e, s')
    ensures forall u :: 0 <= u < |s'.held| ==> s'.held[u] >= 0
    ensures Sum(s'.held) == Sum(s.held) + (if e == IncDone then 1 else if e.DecDone? then -1 else 0)
  {
    assert CallerOwns(s, t);
    StepSum(s, t, e, s');
  }

  lemma StepCounted(s: State, t: nat, e: Event, s': State)
    requires Counted(s) && Step(s, t, e, s')
    requires Entitled(s, t, e)
    ensures Counted(s') && e != Abort
  {
    hide Sum;
    assert CallerOwns(s, t);
    StepWellFormed(s, t, e, s');
    StepIsAtomic(s, t, e, s');
    StepHeld(s, t, e, s');
    SumAtLeast(s.held, t);
    forall u | 0 <= u < |s'.threads| ensures CallerOwns(s', u) {
      assert CallerOwns(s, u);
    }
  }

  lemma {:induction false} RunCounted(r: Run, i: nat)
    requires Disciplined(r) && i < |r.states|
    ensures Counted(r.states[i]) && |r.states[i].threads| == |r.states[0].threads|
  {
    if i > 0 {
      RunCounted(r, i - 1);
      StepCounted(r.states[i - 1], r.actors[i - 1], r.events[i - 1], r.states[i]);
    } else {
      RunWellFormed(r, 0);
    }
  }

  /** With references respected no decrement ever sees zero: at its last read its own reference was there. */
  lemma NeverAborts(r: Run)
    requires Disciplined(r)
    ensures Abort !in r.events
  {
    forall j | 0 <= j < |r.events| ensures r.events[j] != Abort {
      var t := r.actors[j];
      assert Step(r.states[j], t, r.events[j], r.states[j + 1]);
      if r.events[j] == Abort {
        var k := FindLastRead(r, t, j);
        AbortExact(r, t, k, j);
        ReaderOwns(r, k);
      }
    }
  }

  lemma ReaderOwns(r: Run, k: nat)
    requires Disciplined(r) && k < |r.events| && (r.events[k] == StartDec || r.events[k] == Retry)
    ensures Sum(r.states[k].held) >= 1
  {
    hide Sum;
    RunCounted(r, k);
    var s, t := r.states[k], r.actors[k];
    assert Step(s, t, r.events[k], r.states[k + 1]) && Entitled(s, t, r.events[k]);
    assert CallerOwns(s, t);
    SumAtLeast(s.held, t);
  }

  lemma NothingWithoutReferences(s: State, t: nat, e: Event, s': State)
    requires Counted(s) && Sum(s.held) == 0
    ensures !(Step(s, t, e, s') && Entitled(s, t, e))
  {
    if t < |s.held| { SumAtLeast(s.held, t); assert CallerOwns(s, t); }
  }

  /** The decrement that returns one is the last thing that ever happens to the count: nobody holds it any more. */
  lemma ZeroIsLastRelease(r: Run, i: nat)
    requires Disciplined(r) && i < |r.events| && r.events[i] == DecDone(true)
    ensures i == |r.events| - 1 && r.states[i + 1].count == 0
    ensures var last := r.states[|r.events|].held; forall t :: 0 <= t < |last| ==> last[t] == 0
  {
    hide Sum;
    var s := r.states[i + 1];
    RunCounted(r, i);
    RunCounted(r, i + 1);
    StepIsAtomic(r.states[i], r.actors[i], r.events[i], s);
    forall t | 0 <= t < |s.held| ensures s.held[t] == 0 { SumAtLeast(s.held, t); }
    if i + 1 < |r.events| {
      NothingWithoutReferences(s, r.actors[i + 1], r.events[i + 1], r.states[i + 2]);
    }
  }

  /** When all references are gone and the count never saturated, exactly one decrement returned one: the last step. */
  lemma {:induction false} ExactlyOneZero(r: Run)
    requires Disciplined(r) && r.states[0].count > 0
    requires var last := r.states[|r.events|]; last.count < 0xffff_ffff && Sum(last.held) == 0
    ensures r.events != [] && r.events[|r.events| - 1] == DecDone(true)
    ensures forall i :: 0 <= i < |r.events| - 1 ==> r.events[i] != DecDone(true)
  {
    hide Sum;
    var n := |r.events|;
    RunCounted(r, n);
    var s, e := r.states[n - 1], r.events[n - 1];
    RunCounted(r, n - 1);
    StepIsAtomic(s, r.actors[n - 1], e, r.states[n]);
    if s.count == 0 {
      NothingWithoutReferences(s, r.actors[n - 1], e, r.states[n]);
    }
    forall i | 0 <= i < n - 1 ensures r.events[i] != DecDone(true) {
      if r.events[i] == DecDone(true) { ZeroIsLastRelease(r, i); }
    }
  }

  /** An instance without the discipline: one reference, and two threads releasing it. */
  lemma AbortsWhenReleasedTwice() returns (r: Run)
    ensures IsRun(r) && r.states[0] == State(1, [Idle, Idle], [1, 0])
    ensures |r.events| == 4 && r.events[3] == Abort && LastRead(r, 1, 2, 3) && Sum(r.states[2].held) == 0
  {
    var s0 := State(1, [Idle, Idle], [1, 0]);
    var s1 := State(1, [Dec(1), Idle], [1, 0]);
    var s2 := State(0, [Idle, Idle], [0, 0]);
    var s3 := State(0, [Idle, Dec(0)], [0, 0]);
    r := Run([s0, s1, s2, s3, s3], [0, 0, 1, 1], [StartDec, DecDone(true), StartDec, Abort]);
    assert Step(s0, 0, StartDec, s1);
    assert Step(s1, 0, DecDone(true), s2);
    assert Step(s2, 1, StartDec, s3);
    assert Step(s3, 1, Abort, s3);
    assert Sum([1, 0]) == 1 by { assert [1, 0][1..] == [0] && [0][1..] == []; }
    AbortExact(r, 1, 2, 3);
  }
}
