/**
 The volatile dequeue token with any number of threads.  qbman_swp_pull is three atomic actions apart: the
 dec-and-test, then either the write of VDQCR or the increment that undoes a failed attempt.
 */
module BusyToken {

  /** Where a thread is inside qbman_swp_pull. */
  datatype Pc = Idle | Writing | Undoing

  /** `inFlight` counts commands written whose token has not been given back. */
  datatype State = State(busy: int, threads: seq<Pc>, inFlight: nat)

  datatype Action =
    | DecAndTest(t: nat)
    | Write(t: nat)
    | Undo(t: nat)
    | Release

  predicate Enabled(s: State, a: Action) {
    match a
    case DecAndTest(t) => t < |s.threads| && s.threads[t] == Idle
    case Write(t) => t < |s.threads| && s.threads[t] == Writing
    case Undo(t) => t < |s.threads| && s.threads[t] == Undoing
    case Release => s.inFlight > 0
  }

  function Do(s: State, a: Action): State
    requires Enabled(s, a)
  {
    match a
    case DecAndTest(t) =>
      var busy := s.busy - 1;
      State(busy, s.threads[t := if busy == 0 then Writing else Undoing], s.inFlight)
    case Write(t) => State(s.busy, s.threads[t := Idle], s.inFlight + 1)
    case Undo(t) => State(s.busy + 1, s.threads[t := Idle], s.inFlight)
    case Release => State(s.busy + 1, s.threads, s.inFlight - 1)
  }

  /** The state after a run, if every action was enabled when it was taken. */
  predicate Reaches(s: State, run: seq<Action>, s': State)
    decreases run
  {
    if run == [] then s' == s
    else Enabled(s, run[0]) && Reaches(Do(s, run[0]), run[1..], s')
  }

  function Initial(threads: nat): State {
    State(1, seq(threads, t => Idle), 0)
  }

  function Count(threads: seq<Pc>, pc: Pc): nat {
    if threads == [] then 0
    else (if threads[0] == pc then 1 else 0) + Count(threads[1..], pc)
  }

  /** Threads and commands that hold the right to VDQCR. */
  function Holders(s: State): nat {
    Count(s.threads, Writing) + s.inFlight
  }

  function Undos(s: State): nat {
    Count(s.threads, Undoing)
  }

  ghost predicate Inv(s: State) {
    s.busy + Holders(s) + Undos(s) == 1 && Holders(s) <= 1
  }

  lemma {:induction false} CountUpdate(threads: seq<Pc>, t: nat, pc': Pc, pc: Pc)
    requires t < |threads|
    ensures Count(threads[t := pc'], pc)
         == Count(threads, pc) - (if threads[t] == pc then 1 else 0) + (if pc' == pc then 1 else 0)
  {
    if t > 0 {
      CountUpdate(threads[1..], t - 1, pc', pc);
      assert threads[t := pc'][1..] == threads[1..][t - 1 := pc'];
    } else {
      assert threads[t := pc'][1..] == threads[1..];
    }
  }

  lemma {:induction false} CountNone(threads: seq<Pc>, pc: Pc)
    ensures Count(threads, pc) == 0 <==> forall t :: 0 <= t < |threads| ==> threads[t] != pc
  {
    if threads != [] {
      CountNone(threads[1..], pc);
      assert forall t :: 0 < t < |threads| ==> threads[t] == threads[1..][t - 1];
    }
  }

  lemma StepKeeps(s: State, a: Action)
    requires Inv(s) && Enabled(s, a)
    ensures Inv(Do(s, a))
  {
    if a != Release {
      var pc' := Do(s, a).threads[a.t];
      CountUpdate(s.threads, a.t, pc', Writing);
      CountUpdate(s.threads, a.t, pc', Undoing);
    }
  }

  /** In every run of any number of threads: busy + holders + pending undos is 1, and at most one holds VDQCR. */
  lemma {:induction false} Conservation(s: State, run: seq<Action>, s': State)
    requires Inv(s) && Reaches(s, run, s')
    ensures Inv(s') && |s'.threads| == |s.threads|
    decreases run
  {
    if run != [] {
      StepKeeps(s, run[0]);
      Conservation(Do(s, run[0]), run[1..], s');
    }
  }

  lemma Mutex(threads: nat, run: seq<Action>, s: State, t: nat, u: nat)
    requires Reaches(Initial(threads), run, s)
    requires t < |s.threads| && u < |s.threads| && s.threads[t] == s.threads[u] == Writing
    ensures t == u && s.inFlight == 0
  {
    var others := s.threads[t := Idle];
    assert u == t || others[u] == Writing;
    InitialInv(threads);
    Conservation(Initial(threads), run, s);
    CountUpdate(s.threads, t, Idle, Writing);
    CountNone(others, Writing);
  }

  lemma InitialInv(threads: nat)
    ensures Inv(Initial(threads))
  {
    CountNone(Initial(threads).threads, Writing);
    CountNone(Initial(threads).threads, Undoing);
  }

  /** The counter stays within the number of threads, so it cannot leave the range of an int. */
  lemma BusyInRange(threads: nat, run: seq<Action>, s: State)
    requires Reaches(Initial(threads), run, s)
    ensures |s.threads| == threads && s.busy <= 1 && -s.busy <= threads
  {
    InitialInv(threads);
    Conservation(Initial(threads), run, s);
    CountAtMost(s.threads, Undoing);
  }

  lemma {:induction false} CountAtMost(threads: seq<Pc>, pc: Pc)
    ensures Count(threads, pc) <= |threads|
  {
    if threads != [] { CountAtMost(threads[1..], pc); }
  }

  /** An attempt is refused exactly when someone holds the token or an earlier refusal is not undone yet. */
  lemma RefusedExactly(s: State, t: nat)
    requires Inv(s) && Enabled(s, DecAndTest(t))
    ensures Do(s, DecAndTest(t)).threads[t] == Undoing <==> Holders(s) + Undos(s) > 0
  {
  }

  /** When no thread is inside pull and no command is out, every refusal has been undone: the token is back. */
  lemma QuiescentIsFree(threads: nat, run: seq<Action>, s: State)
    requires Reaches(Initial(threads), run, s)
    requires s.inFlight == 0 && forall t :: 0 <= t < |s.threads| ==> s.threads[t] == Idle
    ensures s.busy == 1
  {
    InitialInv(threads);
    Conservation(Initial(threads), run, s);
    CountNone(s.threads, Writing);
    CountNone(s.threads, Undoing);
  }

  /** So -EBUSY can be spurious: here thread 2 is refused although nobody holds the token. */
  lemma SpuriousBusy()
    ensures var run := [DecAndTest(0), Write(0), DecAndTest(1), Release];
            exists s :: Reaches(Initial(3), run, s) && Holders(s) == 0
                        && Enabled(s, DecAndTest(2)) && Do(s, DecAndTest(2)).threads[2] == Undoing
  {
    var run := [DecAndTest(0), Write(0), DecAndTest(1), Release];
    var s0 := Initial(3);
    var s1 := Do(s0, run[0]);
    var s2 := Do(s1, run[1]);
    var s3 := Do(s2, run[2]);
    var s4 := Do(s3, run[3]);
    assert run[1..][1..][1..][1..] == [];
    assert Reaches(s4, run[1..][1..][1..][1..], s4);
    assert Reaches(s3, run[1..][1..][1..], s4);
    assert Reaches(s2, run[1..][1..], s4);
    assert Reaches(s1, run[1..], s4);
    assert s4.threads == [Idle, Undoing, Idle];
    CountNone(s4.threads, Writing);
    assert Holders(s4) == 0 && s4.busy == 0;
    assert Enabled(s4, DecAndTest(2)) && Do(s4, DecAndTest(2)).threads[2] == Undoing;
  }
}
