/** The campaign over its whole command history: which commands can follow each other, and what the
    ledger keeps of them. */
module CampaignHistory {
  import opened Basics
  import opened Campaign

  /** The state before command `t`. */
  function Before(order: seq<string>, paused: bool, commands: seq<Command>, t: nat): (s: State)
    requires t <= |commands|
    ensures Covers(order, s.runs)
  {
    Run(order, paused, commands[..t])
  }

  /** Command `t` is carried out. */
  predicate Done(order: seq<string>, paused: bool, commands: seq<Command>, t: int) {
    0 <= t < |commands| && Accepts(order, Before(order, paused, commands, t), commands[t])
  }

  lemma NextState(order: seq<string>, paused: bool, commands: seq<Command>, t: nat)
    requires t < |commands|
    ensures Before(order, paused, commands, t + 1) == Step(order, Before(order, paused, commands, t), commands[t])
  {
    assert Front(commands[..t + 1]) == commands[..t];
  }

  lemma WholeRun(order: seq<string>, paused: bool, commands: seq<Command>)
    ensures Before(order, paused, commands, |commands|) == Run(order, paused, commands)
  {
    assert commands[..|commands|] == commands;
  }

  // ---------------------------------------------------------------- pauses

  /** Some command pauses the campaign: a pause, or the end of an attempt. */
  predicate Pauses(c: Command) {
    c.Pause? || c.Finish?
  }

  /** No resume is carried out from command `first` up to but not including command `last`. */
  ghost predicate NoResume(order: seq<string>, paused: bool, commands: seq<Command>, first: int, last: int) {
    forall t :: first <= t < last && Done(order, paused, commands, t) ==> !commands[t].Resume?
  }

  /** What the history says of the pause: the campaign began paused, or was paused by a command, and no
      resume was carried out since. */
  ghost predicate PausedByHistory(order: seq<string>, paused: bool, commands: seq<Command>, n: int) {
    || (paused && NoResume(order, paused, commands, 0, n))
    || exists t :: 0 <= t < n && PausedAt(order, paused, commands, t, n)
  }

  /** Command `t` paused the campaign, and no resume was carried out since. */
  ghost predicate PausedAt(order: seq<string>, paused: bool, commands: seq<Command>, t: int, n: int) {
    Done(order, paused, commands, t) && Pauses(commands[t]) && NoResume(order, paused, commands, t + 1, n)
  }

  /** The campaign is paused exactly when its history says so: every end of an attempt pauses it, and only
      a resume ends the pause. */
  lemma {:induction false} PausedMeaning(order: seq<string>, paused: bool, commands: seq<Command>, n: nat)
    requires n <= |commands|
    ensures Before(order, paused, commands, n).paused <==> PausedByHistory(order, paused, commands, n)
  {
    if n > 0 {
      PausedMeaning(order, paused, commands, n - 1);
      NextState(order, paused, commands, n - 1);
      PausedStep(order, paused, commands, n - 1);
    }
  }

  lemma PausedStep(order: seq<string>, paused: bool, commands: seq<Command>, n: nat)
    requires n < |commands|
    ensures PausedByHistory(order, paused, commands, n + 1)
       <==> if Done(order, paused, commands, n) && commands[n].Resume? then false
            else PausedByHistory(order, paused, commands, n)
                 || (Done(order, paused, commands, n) && Pauses(commands[n]))
  {
    var m, resumed := n + 1, Done(order, paused, commands, n) && commands[n].Resume?;
    if t :| 0 <= t < n && PausedAt(order, paused, commands, t, n) {
      assert !resumed ==> PausedAt(order, paused, commands, t, n + 1);
    }
    if t :| 0 <= t < m && PausedAt(order, paused, commands, t, m) {
      assert t < n ==> PausedAt(order, paused, commands, t, n);
    }
    assert NoResume(order, paused, commands, 0, n + 1) <==> NoResume(order, paused, commands, 0, n) && !resumed;
    if Done(order, paused, commands, n) && Pauses(commands[n]) {
      assert PausedAt(order, paused, commands, n, n + 1);
    }
  }

  /** No claim is carried out while the campaign is paused or an attempt is active, and none after the end
      of an attempt without a resume in between. */
  lemma ResumeBeforeClaim(order: seq<string>, paused: bool, commands: seq<Command>, t: nat)
    requires Done(order, paused, commands, t) && commands[t].Claim?
    ensures !PausedByHistory(order, paused, commands, t)
    ensures forall f :: 0 <= f < t && Done(order, paused, commands, f) && commands[f].Finish? ==>
              exists r :: f < r < t && Done(order, paused, commands, r) && commands[r].Resume?
  {
    PausedMeaning(order, paused, commands, t);
    forall f | 0 <= f < t && Done(order, paused, commands, f) && commands[f].Finish?
      ensures exists r :: f < r < t && Done(order, paused, commands, r) && commands[r].Resume?
    {
      assert !PausedAt(order, paused, commands, f, t);
    }
  }

  // ---------------------------------------------------------------- one attempt at a time

  ghost predicate NoFinish(order: seq<string>, paused: bool, commands: seq<Command>, first: int, last: int) {
    forall t :: first <= t < last && Done(order, paused, commands, t) ==> !commands[t].Finish?
  }

  /** An active attempt stays the active one over every command but its finish. */
  lemma StepKeepsActive(order: seq<string>, s: State, c: Command)
    requires Covers(order, s.runs) && s.active.Some?
    ensures (Accepts(order, s, c) && c.Finish?) || Step(order, s, c).active == s.active
  {
  }

  lemma ClaimActivates(order: seq<string>, s: State, c: Command)
    requires Covers(order, s.runs) && Accepts(order, s, c) && c.Claim?
    ensures Step(order, s, c).active.Some?
  {
  }

  /** After a claim the attempt stays the active one until it is finished. */
  lemma {:induction false} ActiveUntilFinish(order: seq<string>, paused: bool, commands: seq<Command>, t: nat, n: nat)
    requires Done(order, paused, commands, t) && commands[t].Claim? && t < n <= |commands|
    requires NoFinish(order, paused, commands, t + 1, n)
    ensures Before(order, paused, commands, n).active.Some?
    ensures Before(order, paused, commands, n).active == Before(order, paused, commands, t + 1).active
  {
    var s := Before(order, paused, commands, n - 1);
    NextState(order, paused, commands, n - 1);
    if n > t + 1 {
      ActiveUntilFinish(order, paused, commands, t, n - 1);
      StepKeepsActive(order, s, commands[n - 1]);
      assert Done(order, paused, commands, n - 1) <==> Accepts(order, s, commands[n - 1]);
    } else {
      ClaimActivates(order, s, commands[t]);
    }
  }

  /** Between two claims, and between a claim and a resume, an attempt is finished. */
  lemma FinishBetween(order: seq<string>, paused: bool, commands: seq<Command>, t: nat, u: nat)
    requires Done(order, paused, commands, t) && commands[t].Claim?
    requires t < u && Done(order, paused, commands, u) && (commands[u].Claim? || commands[u].Resume?)
    ensures exists f :: t < f < u && Done(order, paused, commands, f) && commands[f].Finish?
  {
    if NoFinish(order, paused, commands, t + 1, u) {
      ActiveUntilFinish(order, paused, commands, t, u);
    }
  }

  // ---------------------------------------------------------------- what the ledger keeps

  /** Attempt `n` of a run, as recorded. */
  predicate IsRecord(s: State, runId: string, n: nat, a: Attempt) {
    runId in s.runs && 1 <= n <= |s.runs[runId].attempts| && s.runs[runId].attempts[n - 1] == a
  }

  /** A command changes the record of an attempt only while it is claimed or running, and never sets it
      back to claimed. */
  lemma StepKeepsRecord(order: seq<string>, s: State, c: Command, runId: string, n: nat, a: Attempt)
    returns (a': Attempt)
    requires Covers(order, s.runs) && IsRecord(s, runId, n, a)
    ensures IsRecord(Step(order, s, c), runId, n, a')
    ensures a.status !in {Claimed, Running} ==> a' == a
    ensures a.status != Claimed ==> a'.status != Claimed
  {
    var s' := Step(order, s, c);
    a' := s'.runs[runId].attempts[n - 1];
  }

  lemma {:induction false} RecordStays(order: seq<string>, paused: bool, commands: seq<Command>, t: nat, u: nat,
                                       runId: string, n: nat, a: Attempt)
    requires t <= u <= |commands| && IsRecord(Before(order, paused, commands, t), runId, n, a)
    requires a.status !in {Claimed, Running}
    ensures IsRecord(Before(order, paused, commands, u), runId, n, a)
  {
    if t < u {
      RecordStays(order, paused, commands, t, u - 1, runId, n, a);
      NextState(order, paused, commands, u - 1);
      var a' := StepKeepsRecord(order, Before(order, paused, commands, u - 1), commands[u - 1], runId, n, a);
    }
  }

  /** The active attempt is the last one of its run. */
  lemma ActiveIsLast(order: seq<string>, paused: bool, commands: seq<Command>, t: nat, runId: string, n: nat)
    requires Matrix(order) && t <= |commands| && IsActive(Before(order, paused, commands, t), runId, n)
    ensures var s := Before(order, paused, commands, t);
            runId in s.runs && |s.runs[runId].attempts| == n >= 1 && Last(s.runs[runId].attempts).number == n
  {
    var k := Ledger(order, paused, commands[..t]);
    assert CellOk(Before(order, paused, commands, t).runs[order[k]]);
  }

  /** The result and the reason of a finished attempt stay on record, whatever commands follow. */
  lemma FinishedForever(order: seq<string>, paused: bool, commands: seq<Command>, t: nat)
    requires Matrix(order) && Done(order, paused, commands, t) && commands[t].Finish?
    ensures var f := commands[t];
            && f.result in {Valid, Invalid, Aborted}
            && IsRecord(Run(order, paused, commands), f.runId, f.attempt, Attempt(f.attempt, f.result, f.reason))
  {
    var f := commands[t];
    ActiveIsLast(order, paused, commands, t, f.runId, f.attempt);
    NextState(order, paused, commands, t);
    RecordStays(order, paused, commands, t + 1, |commands|, f.runId, f.attempt, Attempt(f.attempt, f.result, f.reason));
    WholeRun(order, paused, commands);
  }

  lemma {:induction false} StartedStays(order: seq<string>, paused: bool, commands: seq<Command>, t: nat, u: nat,
                                        runId: string, n: nat, a: Attempt)
    returns (a': Attempt)
    requires t <= u <= |commands| && IsRecord(Before(order, paused, commands, t), runId, n, a)
    requires a.status != Claimed
    ensures IsRecord(Before(order, paused, commands, u), runId, n, a') && a'.status != Claimed
  {
    a' := a;
    if t < u {
      var b := StartedStays(order, paused, commands, t, u - 1, runId, n, a);
      NextState(order, paused, commands, u - 1);
      a' := StepKeepsRecord(order, Before(order, paused, commands, u - 1), commands[u - 1], runId, n, b);
    }
  }

  /** An attempt is started at most once. */
  lemma StartedOnce(order: seq<string>, paused: bool, commands: seq<Command>, t: nat, u: nat)
    requires Matrix(order) && Done(order, paused, commands, t) && Done(order, paused, commands, u)
    requires commands[t].Start? && commands[u].Start? && t < u
    ensures (commands[t].runId, commands[t].attempt) != (commands[u].runId, commands[u].attempt)
  {
    var c := commands[t];
    ActiveIsLast(order, paused, commands, t, c.runId, c.attempt);
    ActiveIsLast(order, paused, commands, u, commands[u].runId, commands[u].attempt);
    NextState(order, paused, commands, t);
    var s := Before(order, paused, commands, t + 1);
    assert IsRecord(s, c.runId, c.attempt, Last(s.runs[c.runId].attempts));
    var a := StartedStays(order, paused, commands, t + 1, u, c.runId, c.attempt, Last(s.runs[c.runId].attempts));
  }

  /** A claim takes the first run that is not valid yet, and only if it is the one asked for. */
  lemma ClaimTakesNext(order: seq<string>, paused: bool, commands: seq<Command>, t: nat) returns (k: nat)
    requires Matrix(order) && Done(order, paused, commands, t) && commands[t].Claim?
    ensures k < |order| && (commands[t].runId == "" || commands[t].runId == order[k])
    ensures var s, s' := Before(order, paused, commands, t), Before(order, paused, commands, t + 1);
            && (forall i :: 0 <= i < k ==> s.runs[order[i]].status == Valid) && s.runs[order[k]].status != Valid
            && s'.active == Some(Active(order[k], |s.runs[order[k]].attempts| + 1))
  {
    k := Ledger(order, paused, commands[..t]);
    NextIsFrontier(order, Before(order, paused, commands, t), k);
    NextState(order, paused, commands, t);
  }
}
