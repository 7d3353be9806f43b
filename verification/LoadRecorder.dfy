/**
  The load generator's per-operation results: latencies, successes and errors by
  kind. Latencies are kept as the multiset of samples, which determines the
  histogram; an error tally by kind is a multiset of kinds.
 */
module LoadRecorder {

  datatype Outcome = Success | Failure(kind: string)

  /** A finished call; one started before the measurement window is not recorded. */
  datatype Call = Call(op: string, measured: bool, us: nat, outcome: Outcome)

  datatype OpStats = OpStats(latency: multiset<nat>, ok: nat, errors: multiset<string>)

  type Ops = map<string, OpStats>

  const NO_STATS := OpStats(multiset{}, 0, multiset{})

  function StatsOf(ops: Ops, op: string): OpStats {
    if op in ops then ops[op] else NO_STATS
  }

  function WithCall(stats: OpStats, call: Call): OpStats {
    match call.outcome
    case Success => stats.(latency := stats.latency + multiset{call.us}, ok := stats.ok + 1)
    case Failure(kind) => stats.(latency := stats.latency + multiset{call.us}, errors := stats.errors + multiset{kind})
  }

  function Both(a: OpStats, b: OpStats): OpStats {
    OpStats(a.latency + b.latency, a.ok + b.ok, a.errors + b.errors)
  }

  /** One call added to its operation. */
  function Added(ops: Ops, call: Call): Ops {
    if call.measured then ops[call.op := WithCall(StatsOf(ops, call.op), call)] else ops
  }

  /** What a list of calls amounts to, operation by operation. */
  ghost function Tally(calls: seq<Call>): Ops {
    if calls == [] then map[] else Added(Tally(calls[..|calls| - 1]), calls[|calls| - 1])
  }

  ghost function Merged(a: Ops, b: Ops): Ops {
    map op | op in a.Keys + b.Keys :: Both(StatsOf(a, op), StatsOf(b, op))
  }

  class Recorder {
    var ops: Ops
    /** The calls recorded here or merged in. */
    ghost var calls: seq<Call>

    ghost predicate Valid()
      reads this
    {
      ops == Tally(calls)
    }

    constructor ()
      ensures Valid() && calls == []
    {
      ops := map[];
      calls := [];
    }

    method Record(call: Call)
      requires Valid()
      modifies this
      ensures Valid() && calls == old(calls) + [call]
    {
      hide WithCall, StatsOf, Tally;
      TallyAppend(calls, call);
      if call.measured {
        ops := ops[call.op := WithCall(StatsOf(ops, call.op), call)];
      }
      calls := calls + [call];
    }

    /** Another worker's recorder folded in, operation by operation. */
    method Merge(other: Recorder)
      requires other != this && Valid() && other.Valid()
      modifies this
      ensures Valid() && calls == old(calls) + other.calls
    {
      hide Both, Tally;
      ghost var before := ops;
      var left := other.ops.Keys;
      while left != {}
        invariant left <= other.ops.Keys && calls == old(calls)
        invariant ops.Keys == before.Keys + (other.ops.Keys - left)
        invariant forall op :: op in ops ==>
          (ops[op] == if op in other.ops && op !in left then Both(StatsOf(before, op), other.ops[op]) else StatsOf(before, op))
        decreases left
      {
        var op :| op in left;
        BothWithNone(NO_STATS, other.ops[op]);
        if op in ops {
          ops := ops[op := Both(ops[op], other.ops[op])];
        } else {
          ops := ops[op := other.ops[op]];
        }
        left := left - {op};
      }
      MergedTallies(calls, other.calls);
      forall stats
        ensures Both(stats, NO_STATS) == stats
      {
        BothWithNone(stats, NO_STATS);
      }
      assert ops == Merged(before, other.ops);
      calls := calls + other.calls;
    }
  }

  lemma TallyAppend(calls: seq<Call>, call: Call)
    ensures Tally(calls + [call]) == Added(Tally(calls), call)
  {
    hide Added;
    assert (calls + [call])[..|calls|] == calls;
  }

  lemma WithCallDistributes(a: OpStats, b: OpStats, call: Call)
    ensures Both(a, WithCall(b, call)) == WithCall(Both(a, b), call)
  {
    assert a.latency + (b.latency + multiset{call.us}) == (a.latency + b.latency) + multiset{call.us};
    if call.outcome.Failure? {
      var kind := call.outcome.kind;
      assert a.errors + (b.errors + multiset{kind}) == (a.errors + b.errors) + multiset{kind};
    }
  }

  lemma AddedDistributes(a: Ops, b: Ops, call: Call)
    ensures Merged(a, Added(b, call)) == Added(Merged(a, b), call)
  {
    hide Both, WithCall;
    WithCallDistributes(StatsOf(a, call.op), StatsOf(b, call.op), call);
    BothWithNone(StatsOf(a, call.op), StatsOf(b, call.op));
  }

  lemma BothWithNone(a: OpStats, b: OpStats)
    ensures Both(NO_STATS, b) == b && Both(a, NO_STATS) == a
  {
  }

  /** Recorders of two workers, merged, are the recorder of all their calls. */
  lemma {:induction false} MergedTallies(a: seq<Call>, b: seq<Call>)
    ensures Merged(Tally(a), Tally(b)) == Tally(a + b)
    decreases |b|
  {
    hide Added, Both;
    if b == [] {
      assert a + b == a;
      forall op | op in Tally(a)
        ensures Both(Tally(a)[op], NO_STATS) == Tally(a)[op]
      {
        BothWithNone(Tally(a)[op], NO_STATS);
      }
    } else {
      var all, front := a + b, b[..|b| - 1];
      assert all[..|all| - 1] == a + front && all[|all| - 1] == b[|b| - 1];
      MergedTallies(a, front);
      AddedDistributes(Tally(a), Tally(front), b[|b| - 1]);
    }
  }

  /** The order of merging does not matter. */
  lemma MergeCommutes(a: Ops, b: Ops)
    ensures Merged(a, b) == Merged(b, a)
  {
    forall op | op in a.Keys + b.Keys
      ensures Both(StatsOf(a, op), StatsOf(b, op)) == Both(StatsOf(b, op), StatsOf(a, op))
    {
    }
  }

  /** Calls of an operation that fall in the measurement window, and those among them that succeeded. */
  ghost function Measured(calls: seq<Call>, op: string): nat {
    if calls == [] then 0
    else
      var last := calls[|calls| - 1];
      Measured(calls[..|calls| - 1], op) + if last.measured && last.op == op then 1 else 0
  }

  ghost function Succeeded(calls: seq<Call>, op: string): nat {
    if calls == [] then 0
    else
      var last := calls[|calls| - 1];
      Succeeded(calls[..|calls| - 1], op) + if last.measured && last.op == op && last.outcome.Success? then 1 else 0
  }

  /** The latencies and the kinds of error of an operation's measured calls. */
  ghost function Latencies(calls: seq<Call>, op: string): multiset<nat> {
    if calls == [] then multiset{}
    else
      var rest, last := Latencies(calls[..|calls| - 1], op), calls[|calls| - 1];
      if last.measured && last.op == op then rest + multiset{last.us} else rest
  }

  ghost function Errors(calls: seq<Call>, op: string): multiset<string> {
    if calls == [] then multiset{}
    else
      var rest, last := Errors(calls[..|calls| - 1], op), calls[|calls| - 1];
      if last.measured && last.op == op && last.outcome.Failure? then rest + multiset{last.outcome.kind} else rest
  }

  lemma AddedStats(ops: Ops, call: Call, op: string)
    ensures var counts := call.measured && call.op == op;
            && StatsOf(Added(ops, call), op) == (if counts then WithCall(StatsOf(ops, op), call) else StatsOf(ops, op))
            && (op in Added(ops, call) <==> op in ops || counts)
  {
    hide WithCall;
  }

  /** The results of an operation are the latencies, successes and errors of its measured calls. */
  lemma {:induction false} ResultsAreTheCalls(calls: seq<Call>, op: string)
    ensures StatsOf(Tally(calls), op) == OpStats(Latencies(calls, op), Succeeded(calls, op), Errors(calls, op))
  {
    if calls != [] {
      hide Added, StatsOf;
      ResultsAreTheCalls(calls[..|calls| - 1], op);
      AddedStats(Tally(calls[..|calls| - 1]), calls[|calls| - 1], op);
    }
  }

  /** An operation has results exactly when one of its calls was measured. */
  lemma {:induction false} ReportedIffMeasured(calls: seq<Call>, op: string)
    ensures op in Tally(calls) <==> Measured(calls, op) > 0
  {
    if calls != [] {
      hide Added, StatsOf, WithCall;
      ReportedIffMeasured(calls[..|calls| - 1], op);
      AddedStats(Tally(calls[..|calls| - 1]), calls[|calls| - 1], op);
    }
  }

  /**
    Every measured call leaves one latency and is a success or one error: the
    report's failure count, their difference, never goes below zero.
   */
  lemma {:induction false} CallsAreConserved(calls: seq<Call>, op: string)
    ensures var stats := StatsOf(Tally(calls), op);
            && |stats.latency| == Measured(calls, op) && stats.ok == Succeeded(calls, op)
            && stats.ok + |stats.errors| == |stats.latency|
  {
    if calls != [] {
      CallsAreConserved(calls[..|calls| - 1], op);
    }
  }
}
