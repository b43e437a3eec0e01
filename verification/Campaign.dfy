/** The campaign ledger: runs are executed in matrix order, one attempt at a time. */
module Campaign {
  import opened Basics

  datatype Status = Pending | Claimed | Running | Valid | Invalid | Aborted

  datatype Attempt = Attempt(number: nat, status: Status, reason: string)

  datatype Cell = Cell(status: Status, attempts: seq<Attempt>, validAttempt: Option<nat>)

  datatype Active = Active(runId: string, attempt: nat)

  datatype State = State(runs: map<string, Cell>, active: Option<Active>, paused: bool)

  /** An empty run id on a claim means no particular run is asked for. */
  datatype Command =
    | Pause
    | Resume
    | Claim(runId: string)
    | Start(runId: string, attempt: nat)
    | Finish(runId: string, attempt: nat, result: Status, reason: string)

  ghost predicate Matrix(order: seq<string>) {
    forall i, j :: 0 <= i < j < |order| ==> order[i] != order[j]
  }

  predicate Covers(order: seq<string>, runs: map<string, Cell>) {
    forall i :: 0 <= i < |order| ==> order[i] in runs
  }

  /** Position of the first run that is neither valid nor being executed. */
  function NextRow(order: seq<string>, runs: map<string, Cell>): (k: nat)
    requires Covers(order, runs)
    ensures k <= |order|
    ensures k < |order| ==> runs[order[k]].status !in {Valid, Claimed, Running}
    ensures forall i :: 0 <= i < k ==> runs[order[i]].status in {Valid, Claimed, Running}
  {
    NextRowFrom(order, runs, 0)
  }

  function NextRowFrom(order: seq<string>, runs: map<string, Cell>, i: nat): (k: nat)
    requires Covers(order, runs) && i <= |order|
    ensures i <= k <= |order|
    ensures k < |order| ==> runs[order[k]].status !in {Valid, Claimed, Running}
    ensures forall j :: i <= j < k ==> runs[order[j]].status in {Valid, Claimed, Running}
    decreases |order| - i
  {
    if i == |order| || runs[order[i]].status !in {Valid, Claimed, Running} then i
    else NextRowFrom(order, runs, i + 1)
  }

  predicate Blank(reason: string) {
    forall i :: 0 <= i < |reason| ==> reason[i] in {' ', '\t', '\n', '\r'}
  }

  predicate IsActive(s: State, runId: string, attempt: nat) {
    s.active == Some(Active(runId, attempt))
  }

  /** The active attempt is the last one of a recorded run. */
  predicate Recorded(s: State, runId: string, attempt: nat) {
    IsActive(s, runId, attempt) && runId in s.runs && s.runs[runId].attempts != []
  }

  /** The commands that are carried out; the others are refused. */
  predicate Accepts(order: seq<string>, s: State, c: Command)
    requires Covers(order, s.runs)
  {
    match c
    case Pause => true
    case Resume => s.active.None?
    case Claim(runId) =>
      var k := NextRow(order, s.runs);
      !s.paused && s.active.None? && k < |order| && (runId == "" || runId == order[k])
    case Start(runId, attempt) =>
      Recorded(s, runId, attempt) && Last(s.runs[runId].attempts).status == Claimed
    case Finish(runId, attempt, result, reason) =>
      && Recorded(s, runId, attempt) && Last(s.runs[runId].attempts).status in {Claimed, Running}
      && result in {Valid, Invalid, Aborted} && !(result == Invalid && Blank(reason))
  }

  /** The run after its next attempt has been claimed. */
  function ClaimedCell(cell: Cell): Cell {
    cell.(status := Claimed, attempts := cell.attempts + [Attempt(|cell.attempts| + 1, Claimed, "")])
  }

  /** The run after its last attempt has moved to a status. */
  function MovedCell(cell: Cell, status: Status, reason: string, validAttempt: Option<nat>): Cell
    requires cell.attempts != []
  {
    Cell(status, Front(cell.attempts) + [Last(cell.attempts).(status := status, reason := reason)], validAttempt)
  }

  /** A command changes the state as described, or is refused and changes nothing. */
  function Step(order: seq<string>, s: State, c: Command): State
    requires Covers(order, s.runs)
  {
    if !Accepts(order, s, c) then s
    else
      match c
      case Pause => s.(paused := true)
      case Resume => s.(paused := false)
      case Claim(_) =>
        var next := order[NextRow(order, s.runs)];
        s.(runs := s.runs[next := ClaimedCell(s.runs[next])],
           active := Some(Active(next, |s.runs[next].attempts| + 1)))
      case Start(runId, _) =>
        var cell := s.runs[runId];
        s.(runs := s.runs[runId := MovedCell(cell, Running, Last(cell.attempts).reason, cell.validAttempt)])
      case Finish(runId, attempt, result, reason) =>
        var cell := s.runs[runId];
        var valid := if result == Valid then Some(attempt) else cell.validAttempt;
        s.(runs := s.runs[runId := MovedCell(cell, result, reason, valid)], active := None, paused := true)
  }

  // ---------------------------------------------------------------- the ledger

  class Manager {
    const order: seq<string>
    var state: State

    constructor (order: seq<string>, state: State)
      ensures this.order == order && this.state == state
    {
      this.order, this.state := order, state;
    }

    method Next() returns (k: nat)
      requires Covers(order, state.runs)
      ensures k == NextRow(order, state.runs)
    {
      k := 0;
      while k < |order|
        invariant k <= |order| && NextRow(order, state.runs) == NextRowFrom(order, state.runs, k)
      {
        if state.runs[order[k]].status !in {Valid, Claimed, Running} {
          return;
        }
        k := k + 1;
      }
    }

    method SetPaused(paused: bool) returns (ok: bool)
      requires Covers(order, state.runs)
      modifies this
      ensures ok <==> Accepts(order, old(state), if paused then Pause else Resume)
      ensures state == Step(order, old(state), if paused then Pause else Resume)
    {
      if !paused && state.active.Some? {
        return false;
      }
      state := state.(paused := paused);
      return true;
    }

    method ClaimNext(runId: string) returns (ok: bool)
      requires Covers(order, state.runs)
      modifies this
      ensures ok <==> Accepts(order, old(state), Claim(runId))
      ensures state == Step(order, old(state), Claim(runId))
    {
      if state.paused { return false; }
      if state.active.Some? { return false; }
      var k := Next();
      if k == |order| { return false; }
      if runId != "" && runId != order[k] { return false; }
      var cell := state.runs[order[k]];
      var attempt := |cell.attempts| + 1;
      cell := cell.(attempts := cell.attempts + [Attempt(attempt, Claimed, "")], status := Claimed);
      state := state.(runs := state.runs[order[k] := cell], active := Some(Active(order[k], attempt)));
      return true;
    }

    method StartAttempt(runId: string, attempt: nat) returns (ok: bool)
      requires Covers(order, state.runs)
      modifies this
      ensures ok <==> Accepts(order, old(state), Start(runId, attempt))
      ensures state == Step(order, old(state), Start(runId, attempt))
    {
      if !IsActive(state, runId, attempt) { return false; }
      if runId !in state.runs || state.runs[runId].attempts == [] { return false; }
      var cell := state.runs[runId];
      var record := Last(cell.attempts);
      if record.status != Claimed { return false; }
      record := record.(status := Running);
      cell := cell.(attempts := Front(cell.attempts) + [record], status := Running);
      state := state.(runs := state.runs[runId := cell]);
      return true;
    }

    method FinishAttempt(runId: string, attempt: nat, result: Status, reason: string) returns (ok: bool)
      requires Covers(order, state.runs) && result in {Valid, Invalid, Aborted}
      modifies this
      ensures ok <==> Accepts(order, old(state), Finish(runId, attempt, result, reason))
      ensures state == Step(order, old(state), Finish(runId, attempt, result, reason))
    {
      if !IsActive(state, runId, attempt) { return false; }
      if runId !in state.runs || state.runs[runId].attempts == [] { return false; }
      var cell := state.runs[runId];
      var record := Last(cell.attempts);
      if record.status !in {Claimed, Running} { return false; }
      if result == Invalid && Blank(reason) { return false; }
      record := record.(status := result, reason := reason);
      cell := cell.(attempts := Front(cell.attempts) + [record], status := result);
      if result == Valid {
        cell := cell.(validAttempt := Some(attempt));
      }
      state := state.(runs := state.runs[runId := cell], active := None, paused := true);
      return true;
    }
  }

  const FRESH: Cell := Cell(Pending, [], None)

  /** Attempts are numbered from 1, all but the last ended without success, an invalid one has a reason,
      and the last one has the status of the run. */
  ghost predicate CellOk(c: Cell) {
    && (forall i :: 0 <= i < |c.attempts| ==> c.attempts[i].number == i + 1)
    && (forall i :: 0 <= i < |c.attempts| - 1 ==> c.attempts[i].status in {Invalid, Aborted})
    && (forall i :: 0 <= i < |c.attempts| && c.attempts[i].status == Invalid ==> !Blank(c.attempts[i].reason))
    && (if c.attempts == [] then c.status == Pending
        else c.status != Pending && Last(c.attempts).status == c.status)
    && c.validAttempt == (if c.status == Valid then Some(|c.attempts|) else None)
  }

  /** The first `k` runs are valid, run `k` is the one in progress, and later runs are untouched. */
  ghost predicate LedgerAt(order: seq<string>, s: State, k: nat) {
    && k <= |order| && Covers(order, s.runs)
    && (forall i :: 0 <= i < |order| ==> CellOk(s.runs[order[i]]))
    && (forall i :: 0 <= i < k ==> s.runs[order[i]].status == Valid)
    && (forall i :: k < i < |order| ==> s.runs[order[i]] == FRESH)
    && (k < |order| ==> s.runs[order[k]].status != Valid)
    && (s.active.Some? <==> k < |order| && s.runs[order[k]].status in {Claimed, Running})
    && (s.active.Some? ==> s.active.value == Active(order[k], |s.runs[order[k]].attempts|))
  }

  function Started(order: seq<string>, paused: bool): State {
    State(map i | 0 <= i < |order| :: order[i] := FRESH, None, paused)
  }

  function Run(order: seq<string>, paused: bool, commands: seq<Command>): (s: State)
    ensures Covers(order, s.runs)
  {
    if commands == [] then Started(order, paused)
    else Step(order, Run(order, paused, Front(commands)), Last(commands))
  }

  /** Replacing the run at the frontier, and nothing else, keeps the ledger. */
  lemma FrontierChanges(order: seq<string>, s: State, k: nat, s': State)
    requires Matrix(order) && LedgerAt(order, s, k) && k < |order| && order[k] in s'.runs
    requires s'.runs == s.runs[order[k] := s'.runs[order[k]]] && CellOk(s'.runs[order[k]])
    requires s'.active.Some? <==> s'.runs[order[k]].status in {Claimed, Running}
    requires s'.active.Some? ==> s'.active.value == Active(order[k], |s'.runs[order[k]].attempts|)
    ensures s'.runs[order[k]].status != Valid ==> LedgerAt(order, s', k)
    ensures s'.runs[order[k]].status == Valid ==> LedgerAt(order, s', k + 1)
  {
  }

  lemma ClaimedIsOk(c: Cell)
    requires CellOk(c) && c.status in {Pending, Invalid, Aborted}
    ensures CellOk(ClaimedCell(c))
  {
    var c' := ClaimedCell(c);
    assert forall i :: 0 <= i < |c.attempts| ==> c'.attempts[i] == c.attempts[i];
  }

  lemma MovedIsOk(c: Cell, status: Status, reason: string, validAttempt: Option<nat>)
    requires CellOk(c) && c.status in {Claimed, Running} && status in {Running, Valid, Invalid, Aborted}
    requires validAttempt == if status == Valid then Some(|c.attempts|) else None
    requires status == Invalid ==> !Blank(reason)
    ensures CellOk(MovedCell(c, status, reason, validAttempt))
  {
  }

  /** The next row of a ledger without an active attempt is its frontier. */
  lemma NextIsFrontier(order: seq<string>, s: State, k: nat)
    requires LedgerAt(order, s, k) && s.active.None?
    ensures NextRow(order, s.runs) == k
  {
  }

  lemma ClaimKeepsLedger(order: seq<string>, s: State, k: nat, runId: string)
    requires Matrix(order) && LedgerAt(order, s, k) && Accepts(order, s, Claim(runId))
    ensures LedgerAt(order, Step(order, s, Claim(runId)), k)
  {
    NextIsFrontier(order, s, k);
    ClaimedIsOk(s.runs[order[k]]);
    FrontierChanges(order, s, k, Step(order, s, Claim(runId)));
  }

  lemma StartKeepsLedger(order: seq<string>, s: State, k: nat, runId: string, attempt: nat)
    requires Matrix(order) && LedgerAt(order, s, k) && Accepts(order, s, Start(runId, attempt))
    ensures LedgerAt(order, Step(order, s, Start(runId, attempt)), k)
  {
    var cell := s.runs[order[k]];
    MovedIsOk(cell, Running, Last(cell.attempts).reason, None);
    FrontierChanges(order, s, k, Step(order, s, Start(runId, attempt)));
  }

  lemma FinishKeepsLedger(order: seq<string>, s: State, k: nat, runId: string, attempt: nat, result: Status,
                          reason: string)
    requires Matrix(order) && LedgerAt(order, s, k) && Accepts(order, s, Finish(runId, attempt, result, reason))
    ensures LedgerAt(order, Step(order, s, Finish(runId, attempt, result, reason)),
                     if result == Valid then k + 1 else k)
  {
    var cell := s.runs[order[k]];
    MovedIsOk(cell, result, reason, if result == Valid then Some(attempt) else None);
    FrontierChanges(order, s, k, Step(order, s, Finish(runId, attempt, result, reason)));
  }

  /** An accepted command ends the frontier's run with success. */
  predicate Advances(order: seq<string>, s: State, c: Command)
    requires Covers(order, s.runs)
  {
    c.Finish? && c.result == Valid && Accepts(order, s, c)
  }

  /** One command keeps the ledger; the frontier moves exactly when an attempt ends valid. */
  lemma StepKeepsLedger(order: seq<string>, s: State, k: nat, c: Command)
    requires Matrix(order) && LedgerAt(order, s, k)
    ensures LedgerAt(order, Step(order, s, c), if Advances(order, s, c) then k + 1 else k)
  {
    if Accepts(order, s, c) {
      match c
      case Pause =>
      case Resume =>
      case Claim(runId) => ClaimKeepsLedger(order, s, k, runId);
      case Start(runId, attempt) => StartKeepsLedger(order, s, k, runId, attempt);
      case Finish(runId, attempt, result, reason) => FinishKeepsLedger(order, s, k, runId, attempt, result, reason);
    }
  }

  lemma {:induction false} Ledger(order: seq<string>, paused: bool, commands: seq<Command>) returns (k: nat)
    requires Matrix(order)
    ensures LedgerAt(order, Run(order, paused, commands), k)
  {
    if commands == [] {
      k := 0;
    } else {
      k := Ledger(order, paused, Front(commands));
      var s := Run(order, paused, Front(commands));
      StepKeepsLedger(order, s, k, Last(commands));
      if Advances(order, s, Last(commands)) {
        k := k + 1;
      }
    }
  }

  // ---------------------------------------------------------------- totals

  function CountStatus(attempts: seq<Attempt>, status: Status): nat {
    if attempts == [] then 0
    else CountStatus(Front(attempts), status) + (if Last(attempts).status == status then 1 else 0)
  }

  /** Attempts with a status over the first `n` runs. */
  function Total(order: seq<string>, runs: map<string, Cell>, status: Status, n: nat): nat
    requires Covers(order, runs) && n <= |order|
  {
    if n == 0 then 0 else Total(order, runs, status, n - 1) + CountStatus(runs[order[n - 1]].attempts, status)
  }

  function AllAttempts(order: seq<string>, runs: map<string, Cell>, n: nat): nat
    requires Covers(order, runs) && n <= |order|
  {
    if n == 0 then 0 else AllAttempts(order, runs, n - 1) + |runs[order[n - 1]].attempts|
  }

  lemma {:induction false} EndedAttempts(a: seq<Attempt>)
    requires forall i :: 0 <= i < |a| ==> a[i].status in {Invalid, Aborted}
    ensures CountStatus(a, Invalid) + CountStatus(a, Aborted) == |a| && CountStatus(a, Valid) == 0
  {
    if a != [] {
      EndedAttempts(Front(a));
    }
  }

  lemma CellTotals(c: Cell)
    requires CellOk(c)
    ensures |c.attempts| == CountStatus(c.attempts, Valid) + CountStatus(c.attempts, Invalid)
                            + CountStatus(c.attempts, Aborted) + (if c.status in {Claimed, Running} then 1 else 0)
    ensures CountStatus(c.attempts, Valid) == if c.status == Valid then 1 else 0
  {
    if c.attempts != [] {
      EndedAttempts(Front(c.attempts));
    }
  }

  lemma {:induction false} LedgerTotals(order: seq<string>, s: State, k: nat, n: nat)
    requires LedgerAt(order, s, k) && n <= |order|
    ensures AllAttempts(order, s.runs, n)
         == Total(order, s.runs, Valid, n) + Total(order, s.runs, Invalid, n) + Total(order, s.runs, Aborted, n)
            + (if k < n && s.active.Some? then 1 else 0)
    ensures Total(order, s.runs, Valid, n) == Min(k, n)
  {
    if n > 0 {
      LedgerTotals(order, s, k, n - 1);
      CellTotals(s.runs[order[n - 1]]);
    }
  }

  /** Every attempt of a campaign is accounted for: valid ones are the valid runs, and at most one,
      the active one, has not ended. */
  lemma AttemptsAccounted(order: seq<string>, paused: bool, commands: seq<Command>)
    requires Matrix(order)
    ensures var s := Run(order, paused, commands); var n := |order|;
            && AllAttempts(order, s.runs, n)
               == Total(order, s.runs, Valid, n) + Total(order, s.runs, Invalid, n)
                  + Total(order, s.runs, Aborted, n) + (if s.active.Some? then 1 else 0)
            && exists k: nat :: LedgerAt(order, s, k) && Total(order, s.runs, Valid, n) == k
  {
    var k := Ledger(order, paused, commands);
    LedgerTotals(order, Run(order, paused, commands), k, |order|);
  }
}
