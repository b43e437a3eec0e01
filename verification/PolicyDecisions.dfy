/** What one policy decision reports, and the decisions a whole workload trace produces. */
module PolicyDecisions {
  import opened Basics
  import opened Capacity
  import opened PolicyModel

  /** The part of a policy configuration that decisions depend on. */
  datatype Settings = Settings(lookup: Lookup, minimum: int, maximum: int, factor: real, params: Params)

  datatype Action = Keep | ScaleUp | ScaleDown

  datatype Decision = Decision(
    sequence: nat, workload: real, adjusted: real, raw: int, bounded: int,
    stabilized: int, prior: int, commanded: int, action: Action, held: bool)

  function Change(prior: int, commanded: int): Action {
    if commanded > prior then ScaleUp else if commanded < prior then ScaleDown else Keep
  }

  function Adjusted(s: Settings, workload: real): real {
    workload * s.factor
  }

  predicate Servable(s: Settings, workload: real) {
    Required(s.lookup, Adjusted(s, workload)).Some?
  }

  predicate AllServable(s: Settings, workloads: seq<real>) {
    workloads == [] || (AllServable(s, Front(workloads)) && Servable(s, Last(workloads)))
  }

  function Bounded(s: Settings, workload: real): int
    requires Servable(s, workload)
  {
    Min(s.maximum, Max(s.minimum, Required(s.lookup, Adjusted(s, workload)).value))
  }

  /** The bounded requirement of every workload in a trace. */
  function Requirements(s: Settings, workloads: seq<real>): (b: seq<int>)
    requires AllServable(s, workloads)
    ensures |b| == |workloads|
  {
    if workloads == [] then [] else Requirements(s, Front(workloads)) + [Bounded(s, Last(workloads))]
  }

  /** The decision on `workload` when it completes the history of bounded requirements. */
  function DecisionOf(s: Settings, history: seq<int>, workload: real): Decision
    requires history != [] && Servable(s, workload)
  {
    var prior := Command(s.params, Front(history));
    var commanded := Command(s.params, history);
    Decision(
      |history| - 1, workload, Adjusted(s, workload), Required(s.lookup, Adjusted(s, workload)).value,
      Last(history), Stabilized(s.params, history), prior, commanded, Change(prior, commanded),
      Last(history) < prior && commanded >= prior)
  }

  /** The decisions on a trace, one per workload, in order. */
  function Decisions(s: Settings, workloads: seq<real>): (d: seq<Decision>)
    requires AllServable(s, workloads)
    ensures |d| == |workloads|
  {
    if workloads == [] then []
    else Decisions(s, Front(workloads)) + [DecisionOf(s, Requirements(s, workloads), Last(workloads))]
  }

  function Commands(s: Settings, workloads: seq<real>): (c: seq<int>)
    requires AllServable(s, workloads)
    ensures |c| == |workloads|
  {
    if workloads == [] then []
    else Commands(s, Front(workloads)) + [Command(s.params, Requirements(s, workloads))]
  }

  lemma TakeOneMore(workloads: seq<real>, k: nat)
    requires k < |workloads|
    ensures workloads[..k + 1] == workloads[..k] + [workloads[k]]
  {
  }

  lemma TakeAll(workloads: seq<real>)
    ensures workloads[..|workloads|] == workloads
  {
  }

  /** One more workload appends one requirement, one decision and one command. */
  lemma {:induction false} Extend(s: Settings, done: seq<real>, workload: real)
    requires AllServable(s, done) && Servable(s, workload)
    ensures AllServable(s, done + [workload])
    ensures Requirements(s, done + [workload]) == Requirements(s, done) + [Bounded(s, workload)]
    ensures Decisions(s, done + [workload])
         == Decisions(s, done) + [DecisionOf(s, Requirements(s, done) + [Bounded(s, workload)], workload)]
    ensures Commands(s, done + [workload])
         == Commands(s, done) + [Command(s.params, Requirements(s, done) + [Bounded(s, workload)])]
  {
    assert Front(done + [workload]) == done;
  }

  lemma {:induction false} ServableAt(s: Settings, workloads: seq<real>)
    ensures AllServable(s, workloads) <==> forall i :: 0 <= i < |workloads| ==> Servable(s, workloads[i])
  {
    if workloads != [] {
      var f := Front(workloads);
      ServableAt(s, f);
      assert forall i :: 0 <= i < |f| ==> f[i] == workloads[i];
      if AllServable(s, workloads) {
        forall i | 0 <= i < |workloads|
          ensures Servable(s, workloads[i])
        {
          if i < |f| {
            assert Servable(s, f[i]);
          }
        }
      }
    }
  }

  /** Prefixes of a trace have prefixes of its requirements. */
  lemma {:induction false} RequirementsPrefix(s: Settings, workloads: seq<real>, n: nat)
    requires AllServable(s, workloads) && n <= |workloads|
    ensures AllServable(s, workloads[..n])
    ensures Requirements(s, workloads[..n]) == Requirements(s, workloads)[..n]
    ensures n < |workloads| ==>
              Servable(s, workloads[n]) && Requirements(s, workloads)[n] == Bounded(s, workloads[n])
  {
    if n == |workloads| {
      assert workloads[..n] == workloads;
    } else {
      var f := Front(workloads);
      RequirementsPrefix(s, f, n);
      assert f[..n] == workloads[..n];
    }
  }

  /** Every decision depends only on the workloads up to it. */
  lemma {:induction false} At(s: Settings, workloads: seq<real>, i: nat)
    requires AllServable(s, workloads) && i < |workloads|
    ensures Servable(s, workloads[i])
    ensures Decisions(s, workloads)[i] == DecisionOf(s, Requirements(s, workloads)[..i + 1], workloads[i])
    ensures Commands(s, workloads)[i] == Command(s.params, Requirements(s, workloads)[..i + 1])
  {
    var f := Front(workloads);
    var b, b' := Requirements(s, workloads), Requirements(s, f);
    if i == |f| {
      assert b[..i + 1] == b;
    } else {
      At(s, f, i);
      assert b'[..i + 1] == b[..i + 1];
    }
  }

  lemma CommandAt(s: Settings, workloads: seq<real>, i: nat) returns (b: seq<int>)
    requires AllServable(s, workloads) && i < |workloads|
    ensures b == Requirements(s, workloads)[..i + 1] && Commands(s, workloads)[i] == Command(s.params, b)
  {
    At(s, workloads, i);
    b := Requirements(s, workloads)[..i + 1];
  }

  /** Every decision continues from the command of the one before it. */
  lemma DecisionsChain(s: Settings, workloads: seq<real>, i: nat)
    requires AllServable(s, workloads) && i < |workloads|
    ensures Decisions(s, workloads)[i].sequence == i
    ensures Decisions(s, workloads)[i].prior ==
            if i == 0 then s.params.initial else Decisions(s, workloads)[i - 1].commanded
  {
    var b := Requirements(s, workloads);
    At(s, workloads, i);
    assert Front(b[..i + 1]) == b[..i];
    if i > 0 {
      At(s, workloads, i - 1);
    }
  }

  /** A deque of bounded length keeps exactly the suffix of everything appended to it. */
  function DequeAppend(deque: seq<int>, x: int, maxlen: nat): seq<int> {
    var d := deque + [x];
    if |d| > maxlen then d[|d| - maxlen..] else d
  }

  lemma DequeKeepsSuffix(all: seq<int>, x: int, maxlen: nat)
    ensures DequeAppend(Suffix(all, maxlen), x, maxlen) == Suffix(all + [x], maxlen)
  {
  }
}
