/**
  The hypervisor's bookkeeping as values: the virtual machine record kept in
  `self.virtualmachines`, the rows of the sqlite table `virtualmachines`, the
  trace of workers started, worker calls made and hooks fired, and the
  invariant that ties the map to the table.
 */
module Registry {
  import opened Options
  import opened Text
  import opened Jids

  // ---------------------------------------------------------------------
  // libvirt domain states (virDomainState, the value of `info()[0]`)
  // ---------------------------------------------------------------------

  const DomainRunning := 1
  const DomainBlocked := 2
  const DomainPaused := 3
  const DomainShutdown := 4
  const DomainShutoff := 5

  /** The states in which `free` destroys the domain first. */
  predicate IsActive(state: int) {
    state == DomainRunning || state == DomainBlocked || state == DomainPaused
  }

  /** The states in which `clone` accepts a source machine. */
  predicate IsStopped(state: int) {
    state == DomainShutoff || state == DomainShutdown
  }

  // ---------------------------------------------------------------------
  // Virtual machines and table rows
  // ---------------------------------------------------------------------

  /** A one-shot hook registered on a machine's own hook points. */
  datatype OneShot =
    | AddRequesterOnAuth(requester: Jid)
      // on HOOK_ARCHIPELENTITY_XMPP_AUTHENTICATED: add the requester to the machine's roster
    | CloneOnInitialize(definition: string, path: string, parentUuid: string, parentName: string)
      // on HOOK_VM_INITIALIZE: copy the parent's definition and folder

  /**
    A managed machine with its worker thread reduced to `started`. `domain` is
    the libvirt domain's state when a domain exists, `fullControl` the users
    granted the `all` permission on it.
   */
  datatype Vm = Vm(
    name: string,
    jid: Jid,
    password: string,
    isMigrating: bool,
    domain: Option<int>,
    definition: Option<string>,
    folder: string,
    started: bool,
    fullControl: set<string>,
    oneShots: seq<OneShot>)

  /** A freshly built machine (`TNThreadedVirtualMachine(...)`): no domain yet, not started. */
  function Worker(jid: Jid, password: string, name: string, folder: string): Vm {
    Vm(name, jid, password, false, None, None, folder, false, {}, [])
  }

  /** A row `(jid, password, creation_date, comment, name)` of the table `virtualmachines`. */
  datatype Row = Row(jid: string, password: string, creationDate: int, comment: string, name: string)

  /** `delete from virtualmachines where jid = j`: every other row stays, in order. */
  function RemoveRows(rows: seq<Row>, j: string): (r: seq<Row>)
    ensures forall i :: 0 <= i < |r| ==> r[i].jid != j
    ensures forall i :: 0 <= i < |rows| && rows[i].jid != j ==> rows[i] in r
    ensures forall x :: x in r ==> x in rows
    decreases |rows|
  {
    if rows == [] then []
    else if rows[0].jid == j then RemoveRows(rows[1..], j)
    else [rows[0]] + RemoveRows(rows[1..], j)
  }

  /** The delete works row by row: deleting from two parts of a table is deleting from each, in order. */
  lemma {:induction false} RemoveRowsAppend(a: seq<Row>, b: seq<Row>, j: string)
    ensures RemoveRows(a + b, j) == RemoveRows(a, j) + RemoveRows(b, j)
    decreases |a|
  {
    if a != [] {
      assert (a + b)[0] == a[0] && (a + b)[1..] == a[1..] + b;
      RemoveRowsAppend(a[1..], b, j);
    } else {
      assert a + b == b;
    }
  }

  // ---------------------------------------------------------------------
  // The trace
  // ---------------------------------------------------------------------

  datatype HookName =
    | HypervisorAlloc     // HOOK_HYPERVISOR_ALLOC
    | HypervisorFree      // HOOK_HYPERVISOR_FREE
    | MigratedVmLeave     // HOOK_HYPERVISOR_MIGRATEDVM_LEAVE
    | MigratedVmArrive    // HOOK_HYPERVISOR_MIGRATEDVM_ARRIVE
    | HypervisorClone     // HOOK_HYPERVISOR_CLONE

  /** The calls the hypervisor makes into a machine or its libvirt domain. */
  datatype WorkerCall =
    | Destroy                 // vm.domain.destroy()
    | Undefine                // vm.domain.undefine()
    | Terminate               // vm.terminate()
    | InbandUnregistration    // vm.inband_unregistration()
    | UndefineAndDisconnect   // vm.undefine_and_disconnect()

  datatype Action = Fire(hook: HookName) | Start | Call(call: WorkerCall)

  /**
    One entry of the trace: what happened, to which machine (its uuid, or the
    jid text a migration hook is fired with), and the registry at that moment:
    the number of table rows and whether the machine's key was in the map.
   */
  datatype Event = Event(action: Action, subject: string, rows: nat, registered: bool)

  /** The same call-trace entry for each call in order. */
  function CallEvents(calls: seq<WorkerCall>, subject: string, rows: nat, registered: bool): (es: seq<Event>)
    ensures |es| == |calls|
    ensures forall i :: 0 <= i < |calls| ==> es[i] == Event(Call(calls[i]), subject, rows, registered)
  {
    if calls == [] then [] else [Event(Call(calls[0]), subject, rows, registered)] + CallEvents(calls[1..], subject, rows, registered)
  }

  /** The trace of one more call is the trace so far followed by that call's entry. */
  lemma CallEventsNext(calls: seq<WorkerCall>, k: nat, subject: string, rows: nat, registered: bool)
    requires k < |calls|
    ensures CallEvents(calls[..k + 1], subject, rows, registered) ==
            CallEvents(calls[..k], subject, rows, registered) + [Event(Call(calls[k]), subject, rows, registered)]
  {
    var x, y := CallEvents(calls[..k + 1], subject, rows, registered), CallEvents(calls[..k], subject, rows, registered);
    assert forall i :: 0 <= i < k ==> x[i] == y[i];
  }

  /** The calls `free` makes before touching the table, in order. */
  function TeardownCalls(vm: Vm): seq<WorkerCall> {
    (if vm.domain.Some? && IsActive(vm.domain.value) then [Destroy] else [])
    + (if vm.domain.Some? then [Undefine] else [])
    + [Terminate]
  }

  /** The first call in `calls` that raises, or `|calls|` when none does. */
  function FirstFailure(calls: seq<WorkerCall>, faults: set<WorkerCall>): (n: nat)
    ensures n <= |calls|
    ensures n < |calls| ==> calls[n] in faults
    ensures forall i :: 0 <= i < n ==> calls[i] !in faults
    decreases |calls|
  {
    if calls == [] then 0
    else if calls[0] in faults then 0
    else 1 + FirstFailure(calls[1..], faults)
  }

  /** The first raising call is the one after a run of calls that do not raise. */
  lemma FirstFailureAt(calls: seq<WorkerCall>, faults: set<WorkerCall>, k: nat)
    requires k <= |calls|
    requires forall i :: 0 <= i < k ==> calls[i] !in faults
    requires k < |calls| ==> calls[k] in faults
    ensures FirstFailure(calls, faults) == k
  {
  }

  // ---------------------------------------------------------------------
  // Errors
  // ---------------------------------------------------------------------

  datatype Error =
    | NameConflict(name: string)   // "This hypervisor already has virtual machine named ..."
    | UnknownVm(key: string)       // KeyError on the map, or a lookup that gave None
    | Migrating                    // "Virtual machine is migrating. Can't free."
    | NotDefined                   // "The mother vm has to be defined to be cloned."
    | NoDomain                     // `info()` on a machine without a domain
    | NotStopped                   // "The mother vm has to be stopped to be cloned."
    | CallFailed(call: WorkerCall) // the named call raised
    | EmptyNameList                // `randint(0, -1)` on an empty names file
    | NamesExhausted               // every drawn name was taken

  datatype Result<T> = Ok(value: T) | Err(error: Error)

  // ---------------------------------------------------------------------
  // Random material
  // ---------------------------------------------------------------------

  /** `string.letters + string.digits` in the C locale. */
  const PasswordAlphabet := "abcdefghijklmnopqrstuvwxyzABCDEFGHIJKLMNOPQRSTUVWXYZ0123456789"

  /** The number of characters `range(size)` draws. */
  function PasswordLength(size: int): nat {
    if size < 0 then 0 else size
  }

  /** One `random.choice` index per password character. */
  predicate ValidChoices(choices: seq<nat>, size: int) {
    |choices| == PasswordLength(size) && forall i :: 0 <= i < |choices| ==> choices[i] < |PasswordAlphabet|
  }

  /** The password the choices spell: letters and digits only, one per choice. */
  function Password(choices: seq<nat>): (pw: string)
    requires forall i :: 0 <= i < |choices| ==> choices[i] < |PasswordAlphabet|
    ensures |pw| == |choices|
    ensures forall i :: 0 <= i < |pw| ==> pw[i] in PasswordAlphabet
  {
    seq(|choices|, i requires 0 <= i < |choices| => PasswordAlphabet[choices[i]])
  }

  /** Letters and digits exclude `:`, so no password holds one. */
  lemma AlphabetHasNoColon()
    ensures ':' !in PasswordAlphabet
  {
    assert |PasswordAlphabet| == 62;
    forall k | 0 <= k < 62 ensures PasswordAlphabet[k] != ':' {
      if k < 26 {
        assert PasswordAlphabet[k] == "abcdefghijklmnopqrstuvwxyz"[k];
      } else if k < 52 {
        assert PasswordAlphabet[k] == "ABCDEFGHIJKLMNOPQRSTUVWXYZ"[k - 26];
      } else {
        assert PasswordAlphabet[k] == "0123456789"[k - 52];
      }
    }
  }

  /** The text of `str(uuid.uuid1())`: 36 characters, lower-case hex digits and dashes. */
  predicate IsUuidText(u: string) {
    |u| == 36 &&
    forall i :: 0 <= i < |u| ==>
      if i == 8 || i == 13 || i == 18 || i == 23 then u[i] == '-' else u[i] in "0123456789abcdef"
  }

  /** A uuid text is its own lower-case form and a proper node. */
  lemma UuidTextIsNode(u: string)
    requires IsUuidText(u)
    ensures Lower(u) == u && IsNodeText(u)
  {
    assert |Lower(u)| == |u|;
    forall i | 0 <= i < |u|
      ensures Lower(u)[i] == u[i] && u[i] != '@'
    {
      assert u[i] == '-' || u[i] in "0123456789abcdef";
    }
  }

  // ---------------------------------------------------------------------
  // Names
  // ---------------------------------------------------------------------

  /** `get_vm_by_name(n)` finds something: a registered name equals `n` once both are upper-cased. */
  ghost predicate NameTaken(vms: map<string, Vm>, n: string) {
    exists k :: k in vms && Upper(vms[k].name) == Upper(n)
  }

  /** No two registered machines have the same name up to case. */
  ghost predicate NamesUnique(vms: map<string, Vm>) {
    forall k1, k2 :: k1 in vms && k2 in vms && k1 != k2 ==> Upper(vms[k1].name) != Upper(vms[k2].name)
  }

  /** Registering a machine under a fresh key with an untaken name keeps names unique. */
  lemma InsertKeepsNamesUnique(vms: map<string, Vm>, u: string, vm: Vm)
    requires NamesUnique(vms) && u !in vms && !NameTaken(vms, vm.name)
    ensures NamesUnique(vms[u := vm])
  {
    var m := vms[u := vm];
    forall k1, k2 | k1 in m && k2 in m && k1 != k2
      ensures Upper(m[k1].name) != Upper(m[k2].name)
    {
      if k1 == u {
        assert !(Upper(vms[k2].name) == Upper(vm.name));
      } else if k2 == u {
        assert !(Upper(vms[k1].name) == Upper(vm.name));
      }
    }
  }

  /** Updating a registered machine without renaming it keeps names unique. */
  lemma UpdateKeepsNamesUnique(vms: map<string, Vm>, k: string, vm: Vm)
    requires NamesUnique(vms) && k in vms && vm.name == vms[k].name
    ensures NamesUnique(vms[k := vm])
  {
    var m := vms[k := vm];
    assert forall k' :: k' in m ==> m[k'].name == vms[k'].name;
  }

  /** Name lookup ignores case: asking with the lower-cased name finds the same. */
  lemma NameTakenIgnoresCase(vms: map<string, Vm>, n: string)
    ensures NameTaken(vms, Lower(n)) <==> NameTaken(vms, n)
  {
    UpperOfLower(n);
  }

  /** No two registered machines match the same name: a name lookup has one answer. */
  lemma NameMatchUnique(vms: map<string, Vm>, n: string, k1: string, k2: string)
    requires NamesUnique(vms)
    requires k1 in vms && Upper(vms[k1].name) == Upper(n)
    requires k2 in vms && Upper(vms[k2].name) == Upper(n)
    ensures k1 == k2
  {
  }

  /** Removing machines keeps names unique. */
  lemma RemoveKeepsNamesUnique(vms: map<string, Vm>, u: string)
    requires NamesUnique(vms)
    ensures NamesUnique(vms - {u})
  {
  }

  /** `get_vm_by_uuid`: the machine registered under the lower-cased key, if any. */
  function FindByUuid(vms: map<string, Vm>, uuid: string): (r: Option<Vm>)
    ensures r.Some? <==> Lower(uuid) in vms
    ensures r.Some? ==> r.value == vms[Lower(uuid)]
  {
    if Lower(uuid) in vms then Some(vms[Lower(uuid)]) else None
  }

  /** The uuid lookup ignores the case of its argument. */
  lemma FindByUuidIgnoresCase(vms: map<string, Vm>, uuid: string)
    ensures FindByUuid(vms, Upper(uuid)) == FindByUuid(vms, uuid)
    ensures FindByUuid(vms, Lower(uuid)) == FindByUuid(vms, uuid)
  {
    LowerOfUpper(uuid);
    LowerIdempotent(uuid);
  }

  /** In a well-keyed registry, the uuid lookup finds exactly the machine whose jid node is that uuid. */
  lemma FindByUuidFindsNode(vms: map<string, Vm>, uuid: string)
    requires WellKeyed(vms) && Lower(uuid) == uuid
    ensures FindByUuid(vms, uuid).Some? <==> exists k :: k in vms && vms[k].jid.node == uuid
    ensures FindByUuid(vms, uuid).Some? ==> FindByUuid(vms, uuid).value.jid.node == uuid
  {
  }

  // ---------------------------------------------------------------------
  // Map and table agree
  // ---------------------------------------------------------------------

  /** The bare jids stored in the table. */
  function RowJids(rows: seq<Row>): set<string> {
    set i | 0 <= i < |rows| :: rows[i].jid
  }

  /** The bare jids of the registered machines. */
  function VmJids(vms: map<string, Vm>): set<string> {
    set k | k in vms :: Bare(vms[k].jid)
  }

  /** Every machine is keyed by its own jid's node, and that jid is well formed. */
  ghost predicate WellKeyed(vms: map<string, Vm>) {
    forall k :: k in vms ==> vms[k].jid.node == k && IsNodeText(k) && '/' !in vms[k].jid.domain
  }

  /**
    The registry invariant: the machines in the map and the rows in the table
    name the same set of bare jids.
   */
  ghost predicate Consistent(vms: map<string, Vm>, rows: seq<Row>) {
    WellKeyed(vms) && RowJids(rows) == VmJids(vms)
  }

  /** Adding a machine under a fresh, proper key together with its row keeps the invariant. */
  lemma InsertKeepsConsistent(vms: map<string, Vm>, rows: seq<Row>, u: string, vm: Vm, row: Row)
    requires Consistent(vms, rows)
    requires u !in vms && vm.jid.node == u && IsNodeText(u) && '/' !in vm.jid.domain
    requires row.jid == Bare(vm.jid)
    ensures Consistent(vms[u := vm], rows + [row])
  {
    var m, t := vms[u := vm], rows + [row];
    assert RowJids(t) == RowJids(rows) + {row.jid} by {
      forall x | x in RowJids(t) ensures x in RowJids(rows) + {row.jid} {
        var i :| 0 <= i < |t| && t[i].jid == x;
        if i < |rows| { assert rows[i] == t[i]; }
      }
      forall x | x in RowJids(rows) + {row.jid} ensures x in RowJids(t) {
        if x == row.jid {
          assert t[|rows|] == row;
        } else {
          var i :| 0 <= i < |rows| && rows[i].jid == x;
          assert t[i] == rows[i];
        }
      }
    }
    forall x | x in VmJids(vms) ensures x in VmJids(m) {
      var k :| k in vms && Bare(vms[k].jid) == x;
      assert k in m && m[k] == vms[k];
    }
    assert u in m && Bare(m[u].jid) == Bare(vm.jid);
    assert VmJids(m) == VmJids(vms) + {Bare(vm.jid)};
  }

  /** Updating a registered machine without changing its jid keeps the invariant. */
  lemma UpdateKeepsConsistent(vms: map<string, Vm>, rows: seq<Row>, k: string, vm: Vm)
    requires Consistent(vms, rows) && k in vms && vm.jid == vms[k].jid
    ensures Consistent(vms[k := vm], rows)
  {
    var m := vms[k := vm];
    forall x | x in VmJids(m) ensures x in VmJids(vms) {
      var k' :| k' in m && Bare(m[k'].jid) == x;
      assert Bare(vms[k'].jid) == x;
    }
    forall x | x in VmJids(vms) ensures x in VmJids(m) {
      var k' :| k' in vms && Bare(vms[k'].jid) == x;
      assert Bare(m[k'].jid) == x;
    }
  }

  lemma RemoveRowsJids(rows: seq<Row>, j: string)
    ensures RowJids(RemoveRows(rows, j)) == RowJids(rows) - {j}
  {
    var t := RemoveRows(rows, j);
    forall x | x in RowJids(t) ensures x in RowJids(rows) - {j} {
      var i :| 0 <= i < |t| && t[i].jid == x;
      assert t[i] in rows;
      var k :| 0 <= k < |rows| && rows[k] == t[i];
    }
    forall x | x in RowJids(rows) - {j} ensures x in RowJids(t) {
      var i :| 0 <= i < |rows| && rows[i].jid == x;
      assert rows[i] in t;
      var k :| 0 <= k < |t| && t[k] == rows[i];
    }
  }

  /**
    Removing a registered machine together with every row of its bare jid keeps
    the invariant: no other machine shares that bare jid.
   */
  lemma RemoveKeepsConsistent(vms: map<string, Vm>, rows: seq<Row>, u: string, j: string)
    requires Consistent(vms, rows)
    requires u in vms && j == Bare(vms[u].jid)
    ensures Consistent(vms - {u}, RemoveRows(rows, j))
  {
    RemoveRowsJids(rows, j);
    var m := vms - {u};
    forall x | x in VmJids(vms) - {j} ensures x in VmJids(m) {
      var k :| k in vms && Bare(vms[k].jid) == x;
      assert k != u && k in m && m[k] == vms[k];
    }
    forall x | x in VmJids(m) ensures x in VmJids(vms) - {j} {
      var k :| k in m && Bare(m[k].jid) == x;
      if x == j {
        BareInjective(vms[k].jid, vms[u].jid);
      }
    }
  }

  // ---------------------------------------------------------------------
  // Startup replay
  // ---------------------------------------------------------------------

  /** The index of the first row whose jid text `xmpp.JID` refuses, or `|rows|`. */
  function FirstUnparsable(rows: seq<Row>): (n: nat)
    ensures n <= |rows|
    ensures n < |rows| ==> ParseJid(rows[n].jid).None?
    ensures forall i :: 0 <= i < n ==> ParseJid(rows[i].jid).Some?
    decreases |rows|
  {
    if rows == [] then 0
    else if ParseJid(rows[0].jid).None? then 0
    else 1 + FirstUnparsable(rows[1..])
  }

  predicate AllParse(rows: seq<Row>) {
    forall i :: 0 <= i < |rows| ==> ParseJid(rows[i].jid).Some?
  }

  /** The map key a stored row is replayed under: the node of its jid. */
  function ReplayKey(row: Row): string
    requires ParseJid(row.jid).Some?
  {
    ParseJid(row.jid).value.node
  }

  /** The machine a stored row is replayed as, its resource set to the hypervisor's node, started. */
  function ReplayedVm(row: Row, resource: string, folderFor: string -> string): Vm
    requires ParseJid(row.jid).Some?
  {
    var j := ParseJid(row.jid).value.(resource := resource);
    Worker(j, row.password, row.name, folderFor(j.node)).(started := true)
  }

  /** The map the replay of `rows` builds, later rows overwriting earlier ones with the same key. */
  function ReplayMap(rows: seq<Row>, resource: string, folderFor: string -> string): map<string, Vm>
    requires AllParse(rows)
    decreases |rows|
  {
    if rows == [] then map[]
    else
      var last := rows[|rows| - 1];
      ReplayMap(rows[..|rows| - 1], resource, folderFor)[ReplayKey(last) := ReplayedVm(last, resource, folderFor)]
  }

  /** A parsable row after a parsable prefix extends the parsable prefix. */
  lemma AllParseStep(rows: seq<Row>, i: nat)
    requires i < |rows| && AllParse(rows[..i]) && ParseJid(rows[i].jid).Some?
    ensures AllParse(rows[..i + 1])
  {
    var next := rows[..i + 1];
    forall j | 0 <= j < |next|
      ensures ParseJid(next[j].jid).Some?
    {
      if j < i {
        assert next[j] == rows[..i][j];
      }
    }
  }

  /** One more row of the replay registers its machine under its key. */
  lemma ReplayStep(rows: seq<Row>, i: nat, resource: string, folderFor: string -> string)
    requires i < |rows| && AllParse(rows[..i]) && ParseJid(rows[i].jid).Some?
    ensures AllParse(rows[..i + 1])
    ensures ReplayMap(rows[..i + 1], resource, folderFor) ==
            ReplayMap(rows[..i], resource, folderFor)[ReplayKey(rows[i]) := ReplayedVm(rows[i], resource, folderFor)]
  {
    AllParseStep(rows, i);
    var next := rows[..i + 1];
    assert next[..|next| - 1] == rows[..i];
    assert next[|next| - 1] == rows[i];
  }

  /** One more row of the replay logs one more start. */
  lemma ReplayEventsStep(rows: seq<Row>, i: nat, total: nat)
    requires i < |rows| && AllParse(rows[..i + 1])
    ensures AllParse(rows[..i])
    ensures ReplayEvents(rows[..i + 1], total) == ReplayEvents(rows[..i], total) + [Event(Start, ReplayKey(rows[i]), total, true)]
  {
    var next := rows[..i + 1];
    assert forall j | 0 <= j < i :: rows[..i][j] == next[j];
    assert AllParse(rows[..i]);
    var l, rs := ReplayEvents(next, total), ReplayEvents(rows[..i], total) + [Event(Start, ReplayKey(rows[i]), total, true)];
    assert |l| == |rs|;
    forall j | 0 <= j < |l| ensures l[j] == rs[j] {
      if j < i { assert next[j] == rows[..i][j]; } else { assert next[j] == rows[i]; }
    }
  }

  /** Overwriting one key after a merge is merging the overwritten map. */
  lemma MergeUpdate<V>(m: map<string, V>, n: map<string, V>, k: string, v: V)
    ensures (m + n)[k := v] == m + n[k := v]
  {
  }

  /** Every stored row's key is in the replayed map. */
  lemma {:induction false} ReplayMapHasRow(rows: seq<Row>, resource: string, folderFor: string -> string, i: nat)
    requires AllParse(rows) && i < |rows|
    ensures ReplayKey(rows[i]) in ReplayMap(rows, resource, folderFor)
    decreases |rows|
  {
    if i < |rows| - 1 {
      var init := rows[..|rows| - 1];
      assert init[i] == rows[i];
      ReplayMapHasRow(init, resource, folderFor, i);
    }
  }

  /** Every key of the replayed map comes from a stored row, and holds that row's machine. */
  lemma {:induction false} ReplayMapOnlyRows(rows: seq<Row>, resource: string, folderFor: string -> string, k: string)
    requires AllParse(rows) && k in ReplayMap(rows, resource, folderFor)
    ensures exists i :: 0 <= i < |rows| && ReplayKey(rows[i]) == k &&
                        ReplayMap(rows, resource, folderFor)[k] == ReplayedVm(rows[i], resource, folderFor)
    decreases |rows|
  {
    var init := rows[..|rows| - 1];
    if k != ReplayKey(rows[|rows| - 1]) {
      ReplayMapOnlyRows(init, resource, folderFor, k);
      var i :| 0 <= i < |init| && ReplayKey(init[i]) == k &&
               ReplayMap(init, resource, folderFor)[k] == ReplayedVm(init[i], resource, folderFor);
      assert rows[i] == init[i];
    } else {
      assert ReplayKey(rows[|rows| - 1]) == k;
    }
  }

  /** The trace the replay leaves: one start per stored row, each after its machine is registered. */
  function ReplayEvents(rows: seq<Row>, total: nat): seq<Event>
    requires AllParse(rows)
  {
    seq(|rows|, i requires 0 <= i < |rows| => Event(Start, ReplayKey(rows[i]), total, true))
  }

  /**
    Round trip of persistence: replaying a table that agrees with the map gives
    back exactly the map's keys.
   */
  lemma ReplayRoundTrip(vms: map<string, Vm>, rows: seq<Row>, resource: string, folderFor: string -> string)
    requires Consistent(vms, rows)
    ensures AllParse(rows)
    ensures ReplayMap(rows, resource, folderFor).Keys == vms.Keys
  {
    forall i | 0 <= i < |rows|
      ensures ParseJid(rows[i].jid).Some? && ReplayKey(rows[i]) in vms
    {
      assert rows[i].jid in RowJids(rows);
      var k :| k in vms && Bare(vms[k].jid) == rows[i].jid;
      ParseBare(vms[k].jid);
    }
    forall k | k in vms ensures k in ReplayMap(rows, resource, folderFor) {
      assert Bare(vms[k].jid) in VmJids(vms);
      var i :| 0 <= i < |rows| && rows[i].jid == Bare(vms[k].jid);
      ParseBare(vms[k].jid);
      assert ReplayKey(rows[i]) == k;
      ReplayMapHasRow(rows, resource, folderFor, i);
    }
    forall k | k in ReplayMap(rows, resource, folderFor) ensures k in vms {
      ReplayMapOnlyRows(rows, resource, folderFor, k);
    }
  }

  /** A stored row of a consistent table is the bare jid of the machine registered under its node. */
  lemma RowOfConsistent(vms: map<string, Vm>, rows: seq<Row>, i: nat)
    requires Consistent(vms, rows) && i < |rows|
    ensures ParseJid(rows[i].jid).Some?
    ensures var k := ReplayKey(rows[i]);
      k in vms && rows[i].jid == Bare(vms[k].jid) &&
      ParseJid(rows[i].jid).value == Jid(k, vms[k].jid.domain, "")
  {
    assert rows[i].jid in RowJids(rows);
    var a :| a in vms && Bare(vms[a].jid) == rows[i].jid;
    ParseBare(vms[a].jid);
  }

  /** Each replayed machine is keyed by its node, and its bare jid is a stored row. */
  lemma ReplayEntry(vms: map<string, Vm>, rows: seq<Row>, resource: string, folderFor: string -> string, k: string)
    requires Consistent(vms, rows) && AllParse(rows) && k in ReplayMap(rows, resource, folderFor)
    ensures var v := ReplayMap(rows, resource, folderFor)[k];
      v.jid.node == k && IsNodeText(k) && '/' !in v.jid.domain && Bare(v.jid) in RowJids(rows)
  {
    var m := ReplayMap(rows, resource, folderFor);
    ReplayMapOnlyRows(rows, resource, folderFor, k);
    var i :| 0 <= i < |rows| && ReplayKey(rows[i]) == k && m[k] == ReplayedVm(rows[i], resource, folderFor);
    RowOfConsistent(vms, rows, i);
    assert m[k].jid == Jid(k, vms[k].jid.domain, resource);
    assert rows[i].jid in RowJids(rows);
  }

  /** Each stored row is the bare jid of the machine replayed under its node. */
  lemma ReplayCovers(vms: map<string, Vm>, rows: seq<Row>, resource: string, folderFor: string -> string, i: nat)
    requires Consistent(vms, rows) && AllParse(rows) && i < |rows|
    ensures ReplayKey(rows[i]) in ReplayMap(rows, resource, folderFor)
    ensures Bare(ReplayMap(rows, resource, folderFor)[ReplayKey(rows[i])].jid) == rows[i].jid
  {
    var m := ReplayMap(rows, resource, folderFor);
    var k := ReplayKey(rows[i]);
    ReplayMapHasRow(rows, resource, folderFor, i);
    ReplayMapOnlyRows(rows, resource, folderFor, k);
    var i' :| 0 <= i' < |rows| && ReplayKey(rows[i']) == k && m[k] == ReplayedVm(rows[i'], resource, folderFor);
    RowOfConsistent(vms, rows, i);
    RowOfConsistent(vms, rows, i');
    assert m[k].jid == Jid(k, vms[k].jid.domain, resource);
  }

  /**
    A restart keeps the invariant: the map replayed from a table that agrees
    with some registry agrees with that table in turn.
   */
  lemma ReplayConsistent(vms: map<string, Vm>, rows: seq<Row>, resource: string, folderFor: string -> string)
    requires Consistent(vms, rows)
    ensures AllParse(rows)
    ensures Consistent(ReplayMap(rows, resource, folderFor), rows)
  {
    ReplayRoundTrip(vms, rows, resource, folderFor);
    var m := ReplayMap(rows, resource, folderFor);
    forall k | k in m
      ensures m[k].jid.node == k && IsNodeText(k) && '/' !in m[k].jid.domain
    {
      ReplayEntry(vms, rows, resource, folderFor, k);
    }
    assert WellKeyed(m);
    assert VmJids(m) <= RowJids(rows) by {
      forall x | x in VmJids(m) ensures x in RowJids(rows) {
        var k :| k in m && Bare(m[k].jid) == x;
        ReplayEntry(vms, rows, resource, folderFor, k);
      }
    }
    assert RowJids(rows) <= VmJids(m) by {
      forall x | x in RowJids(rows) ensures x in VmJids(m) {
        var i :| 0 <= i < |rows| && rows[i].jid == x;
        ReplayCovers(vms, rows, resource, folderFor, i);
        var k := ReplayKey(rows[i]);
        assert k in m && Bare(m[k].jid) == x;
      }
    }
  }
  /**
    A restart with an empty registry from a table that agrees with some
    registry replays every row and leaves a registry agreeing with the table.
   */
  lemma ReplayRestores(vms: map<string, Vm>, rows: seq<Row>, resource: string, folderFor: string -> string)
    requires Consistent(vms, rows)
    ensures FirstUnparsable(rows) == |rows|
    ensures Consistent(map[] + ReplayMap(rows[..FirstUnparsable(rows)], resource, folderFor), rows)
  {
    ReplayConsistent(vms, rows, resource, folderFor);
    var n := FirstUnparsable(rows);
    assert rows[..n] == rows;
    var m := ReplayMap(rows, resource, folderFor);
    assert map[] + m == m;
  }

}
