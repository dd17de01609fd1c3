/**
 Once vertices stop arriving, the concurrent inserts come to rest: some step is possible
 until every job is finished, and every step uses up some of the work the jobs have left.
 */
module Settling {
  import opened Dag
  import opened StorageDag
  import opened ConcurrentInserts

  // ----- how much a job has left to do

  /** The calls a getChildren call with this iteration count can make, itself included. */
  function Calls(iteration: nat): nat {
    if iteration == 0 then 1 else 1 + 2 * Calls(iteration - 1)
  }

  ghost function StackCalls(stack: seq<Frame>): nat
    decreases |stack|
  {
    if stack == [] then 0
    else StackCalls(stack[..|stack| - 1]) + Calls(stack[|stack| - 1].iteration)
  }

  /** An upper bound on the steps a job still takes; each read can add two hashes to raise. */
  ghost function JobWork(p: Phase): nat {
    match p
    case Verifying => 3 * Calls(BIT_LEN) + 4
    case Inserting => 3 * Calls(BIT_LEN) + 3
    case Reading(stack, children) => 3 * StackCalls(stack) + |children| + 2
    case Raising(todo) => |todo| + 1
    case Finished => 0
  }

  ghost function Pick(hs: set<Hash>): (h: Hash)
    requires hs != {}
    ensures h in hs
  {
    var h :| h in hs;
    h
  }

  ghost function Work(jobs: map<Hash, Job>, hs: set<Hash>): nat
    requires hs <= jobs.Keys
    decreases |hs|
  {
    if hs == {} then 0
    else Work(jobs, hs - {Pick(hs)}) + JobWork(jobs[Pick(hs)].phase)
  }

  lemma {:induction false} WorkSplit(jobs: map<Hash, Job>, hs: set<Hash>, h: Hash)
    requires hs <= jobs.Keys && h in hs
    ensures Work(jobs, hs) == Work(jobs, hs - {h}) + JobWork(jobs[h].phase)
    decreases |hs|
  {
    var k := Pick(hs);
    if k != h {
      WorkSplit(jobs, hs - {k}, h);
      WorkSplit(jobs, hs - {h}, k);
      assert hs - {k} - {h} == hs - {h} - {k};
    }
  }

  lemma {:induction false} WorkSame(jobs: map<Hash, Job>, jobs': map<Hash, Job>, hs: set<Hash>)
    requires hs <= jobs.Keys && hs <= jobs'.Keys && forall h :: h in hs ==> jobs'[h].phase == jobs[h].phase
    ensures Work(jobs', hs) == Work(jobs, hs)
    decreases |hs|
  {
    if hs != {} {
      var h := Pick(hs);
      WorkSame(jobs, jobs', hs - {h});
      WorkSplit(jobs, hs, h);
      WorkSplit(jobs', hs, h);
    }
  }

  ghost function TotalWork(s: State): nat {
    Work(s.jobs, s.jobs.Keys)
  }

  /** The job an action belongs to. */
  function Actor(a: Action): Hash {
    match a
    case Arrive(v) => v.tx.hash
    case Verify(h) => h
    case Commit(h) => h
    case Read(h) => h
    case Collected(h) => h
    case Bump(h, _) => h
    case Finish(h) => h
  }

  lemma {:induction false} ReadUsesWork(t: TipMap, stack: seq<Frame>, children: set<Hash>)
    requires stack != []
    ensures JobWork(ReadFrame(t, stack, children)) < JobWork(Reading(stack, children))
  {
    var rest, f := stack[..|stack| - 1], stack[|stack| - 1];
    if f.iteration > 0 && f.hash in t {
      var l, r := Frame(t[f.hash].left, f.iteration - 1), Frame(t[f.hash].right, f.iteration - 1);
      var s1, s2 := rest + [r], rest + [r] + [l];
      assert s2[..|s2| - 1] == s1 && s1[..|s1| - 1] == rest && rest + [r, l] == s2;
      assert StackCalls(s2) == StackCalls(rest) + 2 * Calls(f.iteration - 1);
      var more := {l.hash, r.hash};
      assert |children + more| <= |children| + |more| && |more| <= 2;
    }
  }

  /** A step changes its own job only. */
  lemma {:induction false} StepIsLocal(s: State, a: Action)
    requires Enabled(s, a) && !a.Arrive?
    ensures Actor(a) in s.jobs
    ensures var h, s' := Actor(a), Apply(s, a);
      && s'.jobs.Keys - {h} == s.jobs.Keys - {h}
      && forall k :: k in s.jobs && k != h ==> s'.jobs[k] == s.jobs[k]
  {}

  lemma {:induction false} FirstReadWork(h: Hash)
    ensures JobWork(Reading([Frame(h, BIT_LEN)], {})) == 3 * Calls(BIT_LEN) + 2
  {
    var stack := [Frame(h, BIT_LEN)];
    assert stack[..0] == [];
    assert StackCalls(stack[..0]) == 0;
  }

  /** It leaves that job less to do. */
  lemma {:induction false} StepUsesOwnWork(s: State, a: Action)
    requires Enabled(s, a) && !a.Arrive?
    ensures var h, jobs' := Actor(a), Apply(s, a).jobs;
      h in s.jobs && JobWork(s.jobs[h].phase) > 0
      && (h in jobs' ==> JobWork(jobs'[h].phase) < JobWork(s.jobs[h].phase))
  {
    var h := Actor(a);
    match a {
      case Verify(_) =>
      case Commit(_) =>
        FirstReadWork(h);
      case Read(_) =>
        ReadUsesWork(TipsOf(s.graph), s.jobs[h].phase.stack, s.jobs[h].phase.children);
      case Collected(_) =>
        assert StackCalls([]) == 0;
      case Bump(_, x) =>
        var todo := s.jobs[h].phase.todo;
        assert |todo| == |todo - {x}| + 1;
      case Finish(_) =>
    }
  }

  lemma {:induction false} StepUsesWork(s: State, a: Action)
    requires Enabled(s, a) && !a.Arrive?
    ensures TotalWork(Apply(s, a)) < TotalWork(s)
  {
    var h, s' := Actor(a), Apply(s, a);
    StepIsLocal(s, a);
    StepUsesOwnWork(s, a);
    WorkSplit(s.jobs, s.jobs.Keys, h);
    WorkSame(s.jobs, s'.jobs, s.jobs.Keys - {h});
    if h in s'.jobs {
      WorkSplit(s'.jobs, s'.jobs.Keys, h);
    } else {
      assert s'.jobs.Keys == s.jobs.Keys - {h};
    }
  }

  ghost predicate NoArrivals(schedule: seq<Action>) {
    forall i :: 0 <= i < |schedule| ==> !schedule[i].Arrive?
  }

  /** Without arrivals no schedule is longer than the work left at its start. */
  lemma {:induction false} SchedulesEnd(s: State, schedule: seq<Action>, s': State)
    requires Runs(s, schedule, s') && NoArrivals(schedule)
    ensures |schedule| + TotalWork(s') <= TotalWork(s)
    decreases |schedule|
  {
    if schedule != [] {
      assert !schedule[0].Arrive?;
      StepUsesWork(s, schedule[0]);
      SchedulesEnd(Apply(s, schedule[0]), schedule[1..], s');
    }
  }

  /** Until everybody is finished somebody can move. */
  lemma {:induction false} NoDeadlock(s: State) returns (a: Action)
    requires !Quiescent(s)
    ensures Enabled(s, a) && !a.Arrive?
  {
    var h :| h in s.jobs && !s.jobs[h].phase.Finished?;
    match s.jobs[h].phase {
      case Verifying => a := Verify(h);
      case Inserting => a := Commit(h);
      case Reading(stack, _) => a := if stack != [] then Read(h) else Collected(h);
      case Raising(todo) =>
        if x :| x in todo {
          a := Bump(h, x);
        } else {
          assert todo == {};
          a := Finish(h);
        }
    }
  }

  /** So a schedule that cannot be continued ends with every weight exact. */
  lemma {:induction false} MaximalScheduleWeighed(genesis: Transaction, s: State)
    requires genesis.hash != ZERO && genesis.leftTip == ZERO && genesis.rightTip == ZERO
    requires Reachable(genesis, s) && forall a :: Enabled(s, a) ==> a.Arrive?
    ensures Quiescent(s) && Weighed(s.graph, s.base)
  {
    if !Quiescent(s) {
      var a := NoDeadlock(s);
    }
    QuiescentWeighed(genesis, s);
  }
}
