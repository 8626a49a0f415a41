/** The account-DNS scan registry (acctdns.rs): one locked slot, background
    scanner threads that fill it chunk by chunk, stale takeover, row updates and
    reset, in every interleaving. */
module ScanRegistry {
  import opened Options
  import opened Finding

  /** A checked domain; `result` stands for its three cells. */
  datatype Row = Row(domain: string, result: int)

  datatype Scan = Scan(id: nat, total: nat, rows: seq<Row>, errors: seq<string>, finished: Option<nat>, done: bool)

  /** The scan in the slot and when it started. */
  datatype Live = Live(scan: Scan, at: nat)

  type Slot = Option<Live>

  /** A running scan older than this is assumed dead and may be replaced. */
  const STALE_AFTER := 1800

  /** Domains checked between two visits to the slot. */
  const CHUNK := 25

  datatype StartResult = Started(id: nat) | Busy(running: nat)

  // ---- what each visit to the slot does ---------------------------------------------

  predicate Holds(slot: Slot, id: nat) {
    slot.Some? && slot.value.scan.id == id
  }

  predicate Fresh(live: Live, now: nat) {
    (if now >= live.at then now - live.at else 0) < STALE_AFTER
  }

  /** An unfinished scan, not yet stale, keeps the slot. */
  predicate Occupied(slot: Slot, now: nat) {
    slot.Some? && !slot.value.scan.done && Fresh(slot.value, now)
  }

  function NewScan(id: nat, total: nat): Scan {
    Scan(id, total, [], [], None, false)
  }

  function Merged(errors: seq<string>, more: seq<string>): seq<string>
    decreases |more|
  {
    if more == [] then errors
    else Merged(if more[0] in errors then errors else errors + [more[0]], more[1..])
  }

  function WithChunk(scan: Scan, rows: seq<Row>, errors: seq<string>): Scan {
    scan.(rows := scan.rows + rows, errors := Merged(scan.errors, errors))
  }

  /** Index of the first row of a domain, or the length. */
  function RowAt(rows: seq<Row>, domain: string): (i: nat)
    ensures i <= |rows| && (i < |rows| ==> rows[i].domain == domain)
    ensures forall j :: 0 <= j < i ==> rows[j].domain != domain
  {
    IndexWhere(rows, (r: Row) => r.domain == domain)
  }

  function Replaced(rows: seq<Row>, row: Row): seq<Row> {
    var i := RowAt(rows, row.domain);
    if i < |rows| then rows[i := row] else rows + [row]
  }

  /** The first row of the domain is the new one and every other row is as it was; with no row of the
      domain, the new one comes last. */
  ghost predicate PutIn(rows: seq<Row>, row: Row, out: seq<Row>) {
    if exists i :: 0 <= i < |rows| && rows[i].domain == row.domain then
      && |out| == |rows|
      && exists i :: 0 <= i < |rows| && rows[i].domain == row.domain && out[i] == row
                     && (forall j :: 0 <= j < i ==> rows[j].domain != row.domain)
                     && forall j :: 0 <= j < |rows| && j != i ==> out[j] == rows[j]
    else out == rows + [row]
  }

  lemma ReplacedPuts(rows: seq<Row>, row: Row)
    ensures PutIn(rows, row, Replaced(rows, row))
  {
    var i := RowAt(rows, row.domain);
    if i < |rows| { assert Replaced(rows, row)[i] == row; }
  }

  /** Errors are kept, in the order they first came, each once. */
  lemma {:induction false} MergedOne(errors: seq<string>, more: seq<string>, e: string)
    ensures Merged(errors, []) == errors
    ensures var m := Merged(errors, more);
            Merged(errors, more + [e]) == if e in m then m else m + [e]
    decreases |more|
  {
    if more == [] {
      assert more + [e] == [e] && [e][1..] == [];
    } else {
      assert (more + [e])[1..] == more[1..] + [e] && (more + [e])[0] == more[0];
      MergedOne(if more[0] in errors then errors else errors + [more[0]], more[1..], e);
    }
  }

  function AfterStart(slot: Slot, id: nat, total: nat, now: nat): Slot {
    if Occupied(slot, now) then slot else Some(Live(NewScan(id, total), now))
  }

  function AfterChunk(slot: Slot, id: nat, rows: seq<Row>, errors: seq<string>): Slot {
    if Holds(slot, id) then Some(slot.value.(scan := WithChunk(slot.value.scan, rows, errors))) else slot
  }

  function AfterFinish(slot: Slot, id: nat, now: nat): Slot {
    if Holds(slot, id) then Some(slot.value.(scan := slot.value.scan.(done := true, finished := Some(now)))) else slot
  }

  /** A scan still running is left alone. */
  function AfterUpdate(slot: Slot, row: Row): Slot {
    if slot.Some? && slot.value.scan.done then
      Some(slot.value.(scan := slot.value.scan.(rows := Replaced(slot.value.scan.rows, row))))
    else slot
  }

  /** The slot, under its lock. */
  class Registry {
    var slot: Slot

    constructor ()
      ensures slot == None
    {
      slot := None;
    }

    method Start(id: nat, total: nat, now: nat) returns (r: StartResult)
      modifies this
      ensures slot == AfterStart(old(slot), id, total, now)
      ensures r.Busy? <==> old(slot).Some? && !old(slot).value.scan.done && now < old(slot).value.at + 1800
      ensures r.Busy? ==> r.running == old(slot).value.scan.id && slot == old(slot)
      ensures r.Started? ==> r.id == id && slot == Some(Live(Scan(id, total, [], [], None, false), now))
    {
      if slot.Some? {
        var l := slot.value;
        if !l.scan.done && Fresh(l, now) {
          return Busy(l.scan.id);
        }
      }
      slot := Some(Live(NewScan(id, total), now));
      r := Started(id);
    }

    /** One completed chunk; `alive` tells its thread to go on. */
    method AddChunk(id: nat, rows: seq<Row>, errors: seq<string>) returns (alive: bool)
      modifies this
      ensures slot == AfterChunk(old(slot), id, rows, errors)
      ensures alive <==> old(slot).Some? && old(slot).value.scan.id == id
      ensures !alive ==> slot == old(slot)
      ensures alive ==>
                var before := old(slot).value;
                slot == Some(before.(scan := before.scan.(rows := before.scan.rows + rows,
                                                          errors := Merged(before.scan.errors, errors))))
    {
      if slot.None? || slot.value.scan.id != id { return false; }
      var all := slot.value.scan.errors;
      assert errors[0..] == errors;
      for i := 0 to |errors|
        invariant Merged(slot.value.scan.errors, errors) == Merged(all, errors[i..])
        invariant slot == old(slot)
      {
        assert errors[i..][1..] == errors[i + 1..];
        if errors[i] !in all {
          all := all + [errors[i]];
        }
      }
      assert errors[|errors|..] == [];
      slot := Some(slot.value.(scan := slot.value.scan.(rows := slot.value.scan.rows + rows, errors := all)));
      alive := true;
    }

    method Finish(id: nat, now: nat) returns (finished: Option<Scan>)
      modifies this
      ensures slot == AfterFinish(old(slot), id, now)
      ensures finished.Some? <==> old(slot).Some? && old(slot).value.scan.id == id
      ensures finished == None ==> slot == old(slot)
      ensures finished.Some? ==>
                && finished.value == old(slot).value.scan.(done := true, finished := Some(now))
                && slot == Some(old(slot).value.(scan := finished.value))
    {
      if slot.None? || slot.value.scan.id != id { return None; }
      slot := Some(slot.value.(scan := slot.value.scan.(done := true, finished := Some(now))));
      finished := Some(slot.value.scan);
    }

    method UpdateRow(row: Row) returns (updated: Option<Scan>)
      modifies this
      ensures slot == AfterUpdate(old(slot), row)
      ensures updated.Some? <==> old(slot).Some? && old(slot).value.scan.done
      ensures updated == None ==> slot == old(slot)
      ensures updated.Some? ==>
                && slot == Some(old(slot).value.(scan := updated.value))
                && updated.value == old(slot).value.scan.(rows := updated.value.rows)
                && PutIn(old(slot).value.scan.rows, row, updated.value.rows)
    {
      if slot.None? || !slot.value.scan.done { return None; }
      var rows := ReplaceRow(slot.value.scan.rows, row);
      slot := Some(slot.value.(scan := slot.value.scan.(rows := rows)));
      updated := Some(slot.value.scan);
    }

    method ReplaceRow(rows: seq<Row>, row: Row) returns (out: seq<Row>)
      ensures out == Replaced(rows, row) && PutIn(rows, row, out)
    {
      ReplacedPuts(rows, row);
      for i := 0 to |rows|
        invariant forall j :: 0 <= j < i ==> rows[j].domain != row.domain
      {
        if rows[i].domain == row.domain {
          return rows[i := row];
        }
      }
      out := rows + [row];
    }

    method Reset()
      modifies this
      ensures slot == None
    {
      slot := None;
    }
  }

  // ---- the protocol -------------------------------------------------------------------

  /** A scanner thread: the domains it was given, how many it has reported, the rows
      it reported, and whether it has ended. */
  datatype Thread = Thread(domains: seq<string>, reported: nat, rows: seq<Row>, ended: bool)

  /** The slot, every thread ever started, and the clock. */
  datatype System = System(slot: Slot, threads: map<nat, Thread>, now: nat)

  function Domains(rows: seq<Row>): (names: seq<string>)
    ensures |names| == |rows| && forall i :: 0 <= i < |rows| ==> names[i] == rows[i].domain
  {
    seq(|rows|, i requires 0 <= i < |rows| => rows[i].domain)
  }

  predicate Init(s: System) {
    s.slot == None && s.threads == map[]
  }

  datatype Step =
    | StartStep(id: nat, domains: seq<string>)
    | ChunkStep(thread: nat, rows: seq<Row>, errors: seq<string>)
    | FinishStep(thread: nat)
    | UpdateStep(row: Row)
    | ResetStep
    | ClockStep(now: nat)

  /** The chunk a thread checks next: one row a domain, in order. */
  predicate IsChunk(t: Thread, rows: seq<Row>)
    requires t.reported <= |t.domains|
  {
    var rest := t.domains[t.reported..];
    rest != [] && Domains(rows) == if |rest| <= CHUNK then rest else rest[..CHUNK]
  }

  predicate Running(s: System, id: nat) {
    id in s.threads && !s.threads[id].ended
  }

  predicate Next(s: System, step: Step, s': System) {
    match step
    case StartStep(id, domains) =>
      // ids are drawn fresh; a busy slot starts no thread
      && id !in s.threads
      && s' == s.(slot := AfterStart(s.slot, id, |domains|, s.now),
                  threads := if Occupied(s.slot, s.now) then s.threads
                      else s.threads[id := Thread(domains, 0, [], false)])
    case ChunkStep(id, rows, errors) =>
      && Running(s, id) && s.threads[id].reported <= |s.threads[id].domains| && IsChunk(s.threads[id], rows)
      && var t := s.threads[id];
         var t' := if Holds(s.slot, id) then t.(reported := t.reported + |rows|, rows := t.rows + rows)
             else t.(ended := true);
         s' == s.(slot := AfterChunk(s.slot, id, rows, errors), threads := s.threads[id := t'])
    case FinishStep(id) =>
      && Running(s, id) && s.threads[id].reported == |s.threads[id].domains|
      && s' == s.(slot := AfterFinish(s.slot, id, s.now), threads := s.threads[id := s.threads[id].(ended := true)])
    case UpdateStep(row) => s' == s.(slot := AfterUpdate(s.slot, row))
    case ResetStep => s' == s.(slot := None)
    case ClockStep(now) => s' == s.(now := now)   // no step relies on how time passes
  }

  ghost predicate IsRun(states: seq<System>, steps: seq<Step>) {
    && |states| == |steps| + 1 && Init(states[0])
    && forall i :: 0 <= i < |steps| ==> Next(states[i], steps[i], states[i + 1])
  }

  predicate ThreadOk(t: Thread) {
    t.reported <= |t.domains| && Domains(t.rows) == t.domains[..t.reported]
  }

  predicate SlotOk(s: System) {
    s.slot.Some? ==>
      var scan := s.slot.value.scan;
      && scan.id in s.threads
      && var t := s.threads[scan.id];
         && scan.total == |t.domains|
         && (scan.done <==> t.ended)
         && (scan.finished.Some? <==> scan.done)
         && (!scan.done ==> scan.rows == t.rows)
         && (scan.done ==> |scan.rows| >= |t.domains| && Domains(scan.rows)[..|t.domains|] == t.domains)
  }

  ghost predicate Inv(s: System) {
    SlotOk(s) && forall id :: id in s.threads ==> ThreadOk(s.threads[id])
  }

  lemma ReplacedDomains(rows: seq<Row>, row: Row, n: nat)
    requires n <= |rows|
    ensures |Replaced(rows, row)| >= |rows| && Domains(Replaced(rows, row))[..n] == Domains(rows)[..n]
  {
  }

  lemma ChunkDomains(t: Thread, rows: seq<Row>)
    requires ThreadOk(t) && IsChunk(t, rows)
    ensures ThreadOk(t.(reported := t.reported + |rows|, rows := t.rows + rows))
  {
    assert Domains(t.rows + rows) == Domains(t.rows) + Domains(rows);
    assert |Domains(rows)| == |rows|;
    assert t.domains[..t.reported + |rows|] == t.domains[..t.reported] + t.domains[t.reported..][..|rows|];
  }

  lemma InvNext(s: System, step: Step, s': System)
    requires Inv(s) && Next(s, step, s')
    ensures Inv(s')
  {
    match step
    case StartStep(id, domains) =>
    case ChunkStep(id, rows, errors) =>
      ChunkDomains(s.threads[id], rows);
    case FinishStep(id) =>
      if Holds(s.slot, id) {
        var t := s.threads[id];
        assert t.domains[..t.reported] == t.domains;
        assert Domains(t.rows)[..|t.domains|] == t.domains;
      }
    case UpdateStep(row) =>
      if s.slot.Some? && s.slot.value.scan.done {
        ReplacedDomains(s.slot.value.scan.rows, row, s.slot.value.scan.total);
      }
    case ResetStep =>
    case ClockStep(now) =>
  }

  /** Every state of every run. */
  lemma {:induction false} RunInv(states: seq<System>, steps: seq<Step>, i: nat)
    requires IsRun(states, steps) && i < |states|
    ensures Inv(states[i])
  {
    if i > 0 {
      RunInv(states, steps, i - 1);
      InvNext(states[i - 1], steps[i - 1], states[i]);
    }
  }

  // ---- what the runs guarantee ------------------------------------------------------------

  /** A running scan's rows are exactly its own thread's completed chunks, in order:
      one row for each of the domains reported so far. */
  lemma RunningRows(states: seq<System>, steps: seq<Step>, i: nat)
    requires IsRun(states, steps) && i < |states|
    requires states[i].slot.Some? && !states[i].slot.value.scan.done
    ensures var scan := states[i].slot.value.scan;
            && Running(states[i], scan.id)
            && var t := states[i].threads[scan.id];
               scan.rows == t.rows && t.reported <= |t.domains| && Domains(scan.rows) == t.domains[..t.reported]
  {
    RunInv(states, steps, i);
  }

  /** The step that finishes a scan leaves one row per requested domain, in order. */
  lemma FinishedComplete(states: seq<System>, steps: seq<Step>, i: nat)
    requires IsRun(states, steps) && i < |steps|
    requires states[i + 1].slot.Some? && states[i + 1].slot.value.scan.done
    requires states[i].slot.None? || !states[i].slot.value.scan.done
    ensures var scan := states[i + 1].slot.value.scan;
            && steps[i] == FinishStep(scan.id) && scan.id in states[i + 1].threads
            && Domains(scan.rows) == states[i + 1].threads[scan.id].domains && |scan.rows| == scan.total
  {
    RunInv(states, steps, i);
    RunInv(states, steps, i + 1);
    var id := states[i + 1].slot.value.scan.id;
    assert steps[i] == FinishStep(id);
    var t := states[i].threads[id];
    assert t.domains[..t.reported] == t.domains;
  }

  /** Whatever is updated later, a finished scan keeps a row for each requested domain in its place. */
  lemma FinishedKept(states: seq<System>, steps: seq<Step>, i: nat)
    requires IsRun(states, steps) && i < |states|
    requires states[i].slot.Some? && states[i].slot.value.scan.done
    ensures var scan := states[i].slot.value.scan;
            && scan.id in states[i].threads
            && scan.total <= |scan.rows| && Domains(scan.rows)[..scan.total] == states[i].threads[scan.id].domains
  {
    RunInv(states, steps, i);
  }

  /** Threads are never forgotten, and keep the domains they were given. */
  lemma {:induction false} ThreadsKept(states: seq<System>, steps: seq<Step>, id: nat, i: nat, j: nat)
    requires IsRun(states, steps) && i <= j < |states| && id in states[i].threads
    ensures id in states[j].threads && states[j].threads[id].domains == states[i].threads[id].domains
    decreases j
  {
    if i < j {
      ThreadsKept(states, steps, id, i, j - 1);
      assert Next(states[j - 1], steps[j - 1], states[j]);
    }
  }

  /** A thread once superseded or reset never holds the slot again. */
  lemma {:induction false} SupersededForever(states: seq<System>, steps: seq<Step>, id: nat, i: nat, j: nat)
    requires IsRun(states, steps) && i <= j < |states|
    requires id in states[i].threads && !Holds(states[i].slot, id)
    ensures !Holds(states[j].slot, id)
    decreases j
  {
    if i < j {
      SupersededForever(states, steps, id, i, j - 1);
      ThreadsKept(states, steps, id, i, j - 1);
      assert Next(states[j - 1], steps[j - 1], states[j]);
    }
  }

  predicate StepOf(step: Step, id: nat) {
    (step.ChunkStep? && step.thread == id) || (step.FinishStep? && step.thread == id)
  }

  /** From then on no step of that thread changes the slot. */
  lemma SupersededHarmless(states: seq<System>, steps: seq<Step>, id: nat, i: nat, j: nat)
    requires IsRun(states, steps) && i <= j < |steps|
    requires id in states[i].threads && !Holds(states[i].slot, id)
    requires StepOf(steps[j], id)
    ensures states[j + 1].slot == states[j].slot
    ensures !Running(states[j + 1], id)
  {
    SupersededForever(states, steps, id, i, j);
    assert Next(states[j], steps[j], states[j + 1]);
  }

  /** A running scan changes only by its own thread's steps, until it is replaced by
      another scan or forgotten. */
  lemma OnlyItsThread(states: seq<System>, steps: seq<Step>, i: nat)
    requires IsRun(states, steps) && i < |steps|
    requires states[i].slot.Some? && !states[i].slot.value.scan.done
    requires !StepOf(steps[i], states[i].slot.value.scan.id)
    ensures || states[i + 1].slot == states[i].slot
            || (steps[i] == ResetStep && states[i + 1].slot == None)
            || (steps[i].StartStep? && !Fresh(states[i].slot.value, states[i].now)
                && states[i + 1].slot == Some(Live(NewScan(steps[i].id, |steps[i].domains|), states[i].now)))
  {
    assert Next(states[i], steps[i], states[i + 1]);
  }

  /** An update of a finished scan shows: its row is the one given, and every other row stays. */
  lemma UpdateShows(states: seq<System>, steps: seq<Step>, i: nat, row: Row)
    requires IsRun(states, steps) && i < |steps| && steps[i] == UpdateStep(row)
    requires states[i].slot.Some? && states[i].slot.value.scan.done
    ensures states[i + 1].slot.Some? && states[i + 1].slot.value.scan.done
    ensures PutIn(states[i].slot.value.scan.rows, row, states[i + 1].slot.value.scan.rows)
    ensures row in states[i + 1].slot.value.scan.rows
  {
    assert Next(states[i], steps[i], states[i + 1]);
    var before, after := states[i].slot.value.scan.rows, states[i + 1].slot.value.scan.rows;
    ReplacedPuts(before, row);
    if exists k :: 0 <= k < |before| && before[k].domain == row.domain {
      var k :| 0 <= k < |before| && before[k].domain == row.domain && after[k] == row;
    } else {
      assert after[|before|] == row;
    }
  }

  /** A chunk is what is left to check, up to 25 domains of it. */
  lemma ChunkSize(t: Thread, rows: seq<Row>)
    requires t.reported <= |t.domains| && IsChunk(t, rows)
    ensures 0 < |rows| && |rows| == if |t.domains| - t.reported <= 25 then |t.domains| - t.reported else 25
  {
    assert |Domains(rows)| == |rows|;
  }
}
