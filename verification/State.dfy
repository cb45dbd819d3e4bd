/** The persisted ownership record and the file that holds it. */
module State {
  import opened Net
  import opened Model
  import opened Planner

  datatype RuntimeState = RuntimeState(
    allocatedTable: nat,
    rulePriority: nat,
    routesOwned: seq<Route>,
    rulesOwned: seq<RpdbRule>,
    firewallWhitelist: seq<Allowance>,
    firewallBlacklist: seq<Cidr>,
    firewallInterfaces: seq<string>,
    generation: nat)

  const DEFAULT_STATE := RuntimeState(52000, 12000, [], [], [], [], [], 1)

  datatype StateFile = Absent | Corrupt | Saved(state: RuntimeState)

  function Recorded(f: StateFile): RuntimeState {
    if f.Saved? then f.state else DEFAULT_STATE
  }

  /** `to_actual_state` */
  function ActualOf(s: RuntimeState): ActualState {
    ActualState(s.routesOwned, s.rulesOwned, s.allocatedTable, s.rulePriority)
  }

  /** The record written at commit. */
  function Commit(s: RuntimeState, d: DesiredState, ifaces: seq<string>): RuntimeState {
    var ids := if d.rules != [] then d.rules[0] else RpdbRule(s.rulePriority, s.allocatedTable);
    RuntimeState(ids.table, ids.priority, d.routes, d.rules, d.firewallWhitelist, d.blacklist, ifaces,
                 s.generation + 1)
  }

  /** What a commit records: what was desired, the identifiers of the first rule if there is one, and
      one generation more. */
  lemma CommitRecords(s: RuntimeState, d: DesiredState, ifaces: seq<string>)
    ensures var r := Commit(s, d, ifaces);
            && r.routesOwned == d.routes && r.rulesOwned == d.rules && r.generation == s.generation + 1
            && r.firewallWhitelist == d.firewallWhitelist && r.firewallBlacklist == d.blacklist
            && r.firewallInterfaces == ifaces
            && (if d.rules == [] then r.allocatedTable == s.allocatedTable && r.rulePriority == s.rulePriority
                else d.rules[0] == RpdbRule(r.rulePriority, r.allocatedTable))
  {
  }

  /** `generate_desired_state` as the daemon completes it: one rule, and every route in its table. */
  predicate OneTable(d: DesiredState) {
    |d.rules| == 1 && forall r <- d.routes :: r.table == d.rules[0].table
  }

  /** All owned records carry the allocated table and priority. */
  predicate Consistent(s: RuntimeState) {
    && (forall r <- s.routesOwned :: r.table == s.allocatedTable)
    && (forall r <- s.rulesOwned :: r.table == s.allocatedTable && r.priority == s.rulePriority)
  }

  /** Every commit of a generated state makes the record consistent, and then planning against
      it converges; planning the committed state once more finds nothing to do. */
  lemma CommitConverges(s: RuntimeState, d: DesiredState, ifaces: seq<string>, next: DesiredState)
    requires OneTable(d)
    ensures Consistent(Commit(s, d, ifaces))
    ensures Owns(ActualOf(Commit(s, d, ifaces)), next)
    ensures Diff(ActualOf(Commit(s, d, ifaces)), d).IsEmpty()
  {
    EmptyDiffIff(ActualOf(Commit(s, d, ifaces)), d);
  }

  /** The store fails at its own choice, like the host; `failed` counts how often it did. */
  class StateStore {
    var file: StateFile
    ghost var failed: nat

    constructor ()
      ensures file == Absent && failed == 0
    {
      file, failed := Absent, 0;
    }

    /** An absent file reads as the default record and a corrupt one never reads. */
    method Load() returns (r: Option<RuntimeState>)
      modifies `failed
      ensures r.Some? ==> r.value == Recorded(file)
      ensures failed == old(failed) ==> (r.Some? <==> !file.Corrupt?)
      ensures failed > old(failed) ==> r.None? && file.Saved?
      ensures failed >= old(failed)
    {
      if file.Absent? { return Some(DEFAULT_STATE); }
      if file.Corrupt? { return None; }
      var readable: bool := *;
      if !readable {
        failed := failed + 1;
        return None;
      }
      return Some(file.state);
    }

    /** A failing write may leave a file that cannot be read back. */
    method Save(s: RuntimeState) returns (ok: bool)
      modifies this
      ensures ok ==> file == Saved(s)
      ensures !ok ==> file == old(file) || file == Corrupt
      ensures failed == old(failed) + if ok then 0 else 1
    {
      ok := *;
      if ok {
        file := Saved(s);
      } else {
        failed := failed + 1;
        var torn: bool := *;
        if torn { file := Corrupt; }
      }
    }

    method Clear() returns (ok: bool)
      modifies this
      ensures ok ==> file == Absent
      ensures !ok ==> file == old(file)
      ensures failed == old(failed) + if ok then 0 else 1
    {
      ok := *;
      if ok { file := Absent; } else { failed := failed + 1; }
    }
  }
}
