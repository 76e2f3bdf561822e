/**
  `TNArchipelHypervisor` as a class: the map of managed machines, the rows of
  its sqlite table, and the trace of starts, worker calls and hooks, updated
  step by step by allocation, release, cloning, migration and the startup
  replay. Random draws, the uuid, the clock and failing external calls are
  parameters of the operations that use them.
 */
module Hypervisors {
  import opened Options
  import opened Text
  import opened Jids
  import opened Registry
  import opened Migration
  import opened Dispatch

  /** Each draw is an index `randint(0, len(names) - 1)` can return. */
  predicate DrawsInRange(draws: seq<int>, count: nat) {
    forall i :: 0 <= i < |draws| ==> 0 <= draws[i] < count
  }

  /** A line of the names file with its line breaks removed. */
  function Candidate(line: string): (c: string)
    ensures '\n' !in c
  {
    ReplaceCharGone(line, '\n', "");
    Replace(line, "\n", "")
  }

  /** The position of the first draw whose candidate no registered machine holds, or `|draws|`. */
  ghost function FirstFreeDraw(vms: map<string, Vm>, names: seq<string>, draws: seq<int>): (n: nat)
    requires DrawsInRange(draws, |names|)
    ensures n <= |draws|
    ensures forall i :: 0 <= i < n ==> NameTaken(vms, Candidate(names[draws[i]]))
    ensures n < |draws| ==> !NameTaken(vms, Candidate(names[draws[n]]))
    decreases |draws|
  {
    if draws == [] then 0
    else if !NameTaken(vms, Candidate(names[draws[0]])) then 0
    else 1 + FirstFreeDraw(vms, names, draws[1..])
  }

  /** `replace(" ", "-")`. */
  function SpacesToDashes(s: string): (r: string)
    ensures ' ' !in r
  {
    ReplaceCharGone(s, ' ', "-");
    Replace(s, " ", "-")
  }

  /** Substituting twice is substituting once: the second substitution `alloc` makes on a requested name changes nothing. */
  lemma SpacesToDashesIdempotent(s: string)
    ensures SpacesToDashes(SpacesToDashes(s)) == SpacesToDashes(s)
  {
    ContainsChar(SpacesToDashes(s), ' ');
    ReplaceAbsent(SpacesToDashes(s), " ", "-");
  }

  /**
    The description of a machine `alloc` made, `uuid@domain::::password`, reads
    back to that machine on both migration paths: the departure handler finds
    its bare jid, and the arrival handler its bare jid, its node and its
    password, since a uuid and a password of letters and digits hold no `:`.
   */
  lemma AllocatedDescriptionRoundTrip(uuid: string, domain: string, choices: seq<nat>, vmName: string)
    requires IsUuidText(uuid) && ':' !in domain && '/' !in domain
    requires forall i :: 0 <= i < |choices| ==> choices[i] < |PasswordAlphabet|
    ensures var d := Description(uuid + "@" + domain, Password(choices));
      DepartingJidText(Some(d)) == Some(uuid + "@" + domain) &&
      ArrivalFields(Some(d), Some(vmName)) == Some(Arrival(uuid + "@" + domain, Password(choices), vmName)) &&
      ParseJid(uuid + "@" + domain) == Some(Jid(uuid, domain, ""))
  {
    var pw := Password(choices);
    AlphabetHasNoColon();
    assert ':' !in pw by {
      forall i | 0 <= i < |pw| ensures pw[i] != ':' {
        assert pw[i] in PasswordAlphabet;
      }
    }
    ColonFreeHasNoSeparator(pw);
    var jid := uuid + "@" + domain;
    assert ':' !in jid by {
      forall i | 0 <= i < |jid| ensures jid[i] != ':' {
        if i < |uuid| {
          assert jid[i] == uuid[i];
        } else if i > |uuid| {
          assert jid[i] == domain[i - |uuid| - 1];
        }
      }
    }
    DescriptionRoundTrip(jid, pw, vmName);
    UuidTextIsNode(uuid);
    ParseBare(Jid(uuid, domain, ""));
  }

  /** The reply a chat command gets. */
  datatype Reply =
    | WrongFormat                 // "I'm sorry, you use a wrong format..."
    | NoSuchVm(identifier: string) // "It seems that vm with identifer ... doesn't exists."
    | Done(vm: Vm)                // the success text naming the machine
    | Failed(error: Error)        // build_error_message

  /**
    The loop of `manage_persistance` over the stored rows: the machines it
    registers, later rows overwriting earlier ones with the same node, and the
    starts it logs, up to the first row whose jid cannot be parsed.
   */
  method Replay(rows: seq<Row>, resource: string, folderFor: string -> string)
    returns (n: nat, replayed: map<string, Vm>, started: seq<Event>)
    ensures n == FirstUnparsable(rows)
    ensures replayed == ReplayMap(rows[..n], resource, folderFor)
    ensures started == ReplayEvents(rows[..n], |rows|)
  {
    n := 0;
    replayed, started := map[], [];
    while n < |rows|
      invariant n <= FirstUnparsable(rows) && AllParse(rows[..n])
      invariant replayed == ReplayMap(rows[..n], resource, folderFor)
      invariant started == ReplayEvents(rows[..n], |rows|)
    {
      var parsed := ParseJid(rows[n].jid);
      if parsed.None? {
        return;
      }
      assert n != FirstUnparsable(rows);
      ReplayStep(rows, n, resource, folderFor);
      ReplayEventsStep(rows, n, |rows|);
      replayed := replayed[parsed.value.node := ReplayedVm(rows[n], resource, folderFor)];
      started := started + [Event(Start, parsed.value.node, |rows|, true)];
      n := n + 1;
    }
  }

  /**
    The part of `free` that works on the domain and the worker: the calls of
    `TeardownCalls` (destroy an active domain, undefine any domain, terminate
    the worker) made in that order, stopping at the first call in `faults`,
    which is returned. `made` lists the calls made, the raising one included.
   */
  method Teardown(vm: Vm, faults: set<WorkerCall>) returns (made: seq<WorkerCall>, failed: Option<WorkerCall>)
    ensures var calls := TeardownCalls(vm);
      var n := FirstFailure(calls, faults);
      failed == (if n < |calls| then Some(calls[n]) else None) &&
      made == calls[..if n < |calls| then n + 1 else n]
  {
    var calls := TeardownCalls(vm);
    made := [];
    var i := 0;
    while i < |calls|
      invariant i <= |calls|
      invariant forall k :: 0 <= k < i ==> calls[k] !in faults
      invariant made == calls[..i]
    {
      made := made + [calls[i]];
      assert calls[..i + 1] == calls[..i] + [calls[i]];
      if calls[i] in faults {
        FirstFailureAt(calls, faults, i);
        return made, Some(calls[i]);
      }
      i := i + 1;
    }
    FirstFailureAt(calls, faults, i);
    assert calls[..i] == calls;
    return made, None;
  }

  class Hypervisor {
    /** `self.virtualmachines`: uuid to machine. */
    var vms: map<string, Vm>
    /** The rows of the table `virtualmachines`, in insertion order. */
    var table: seq<Row>
    /** Starts, worker calls and hooks, in the order they happen. */
    var events: seq<Event>

    /** The lines of the name generation file. */
    const names: seq<string>
    /** `xmppserveraddr`: the domain of the hypervisor's own jid. */
    const serverDomain: string
    /** The node of the hypervisor's own jid, used as every machine's resource. */
    const node: string
    /** The hypervisor's name. */
    const name: string
    /** `xmpp_password_size` from the configuration. */
    const passwordSize: int
    /** `allow_blank_space_in_vm_name` is present and false. */
    const disallowSpaces: bool
    /** The folder a machine with a given uuid keeps its files in. */
    const folderFor: string -> string

    /** The map and the table name the same machines, and the server domain is a proper domain. */
    ghost predicate Valid()
      reads this
    {
      Consistent(vms, table) && '/' !in serverDomain
    }

    /**
      The hypervisor before its startup replay: no machine registered, the
      table as left by earlier runs.
     */
    constructor (names: seq<string>, serverDomain: string, node: string, name: string,
                 passwordSize: int, disallowSpaces: bool, folderFor: string -> string, stored: seq<Row>)
      ensures this.names == names && this.serverDomain == serverDomain && this.node == node
      ensures this.name == name && this.passwordSize == passwordSize && this.disallowSpaces == disallowSpaces
      ensures this.folderFor == folderFor
      ensures vms == map[] && table == stored && events == []
    {
      this.names := names;
      this.serverDomain := serverDomain;
      this.node := node;
      this.name := name;
      this.passwordSize := passwordSize;
      this.disallowSpaces := disallowSpaces;
      this.folderFor := folderFor;
      vms := map[];
      table := stored;
      events := [];
    }

    /** Record one trace entry, with the table size and whether `key` is registered at this moment. */
    method Log(action: Action, subject: string, key: string)
      modifies this
      ensures events == old(events) + [Event(action, subject, |table|, key in vms)]
      ensures vms == old(vms) && table == old(table)
    {
      events := events + [Event(action, subject, |table|, key in vms)];
    }

    // -------------------------------------------------------------------
    // Lookups
    // -------------------------------------------------------------------

    /** `get_vm_by_name`: a machine whose name matches up to case, or `None` when none does. */
    method GetVmByName(n: string) returns (r: Option<Vm>)
      ensures r.Some? ==> exists k :: k in vms && vms[k] == r.value && Upper(r.value.name) == Upper(n)
      ensures r.None? <==> !NameTaken(vms, n)
    {
      var keys := vms.Keys;
      while keys != {}
        invariant keys <= vms.Keys
        invariant forall k :: k in vms && k !in keys ==> Upper(vms[k].name) != Upper(n)
        decreases keys
      {
        var k :| k in keys;
        if Upper(vms[k].name) == Upper(n) {
          return Some(vms[k]);
        }
        keys := keys - {k};
      }
      return None;
    }

    /** `get_vm_by_identifer`: a machine matching by name if any, else the one registered under the uuid. */
    method GetVmByIdentifier(identifier: string) returns (r: Option<Vm>)
      ensures NameTaken(vms, identifier) ==>
        r.Some? && exists k :: k in vms && vms[k] == r.value && Upper(r.value.name) == Upper(identifier)
      ensures !NameTaken(vms, identifier) ==> r == FindByUuid(vms, identifier)
    {
      r := GetVmByName(identifier);
      if r.None? {
        r := FindByUuid(vms, identifier);
      }
    }

    /** What `generate_name` yields on the given draws. */
    ghost function GeneratedName(vms: map<string, Vm>, draws: seq<int>): Result<string>
      requires DrawsInRange(draws, |names|)
    {
      if |names| == 0 then Err(EmptyNameList)
      else
        var n := FirstFreeDraw(vms, names, draws);
        if n < |draws| then Ok(Candidate(names[draws[n]])) else Err(NamesExhausted)
    }

    /**
      `generate_name`: draw lines of the names file until one is free. The
      source draws without bound; here the draws are given, and running out of
      them is `NamesExhausted`.
     */
    method GenerateName(draws: seq<int>) returns (r: Result<string>)
      requires DrawsInRange(draws, |names|)
      ensures r == GeneratedName(vms, draws)
      ensures r.Ok? ==> !NameTaken(vms, r.value) && '\n' !in r.value
      ensures r.Ok? ==> exists i :: 0 <= i < |draws| && r.value == Candidate(names[draws[i]])
    {
      if |names| == 0 {
        return Err(EmptyNameList);
      }
      var i := 0;
      while i < |draws|
        invariant 0 <= i <= |draws|
        invariant forall j :: 0 <= j < i ==> NameTaken(vms, Candidate(names[draws[j]]))
      {
        var c := Candidate(names[draws[i]]);
        var found := GetVmByName(c);
        if found.None? {
          assert FirstFreeDraw(vms, names, draws) == i;
          return Ok(c);
        }
        i := i + 1;
      }
      return Err(NamesExhausted);
    }

    // -------------------------------------------------------------------
    // Allocation
    // -------------------------------------------------------------------

    /** The name `alloc` keeps: blanks become dashes when the configuration forbids them. */
    function Kept(s: string): (r: string)
      ensures disallowSpaces ==> ' ' !in r
    {
      if disallowSpaces then SpacesToDashes(s) else s
    }

    /**
      The name `alloc` settles on, or its error: a generated name is checked
      first and substituted after; a requested one is substituted first, then
      checked.
     */
    ghost function ChosenName(vms: map<string, Vm>, requestedName: string, draws: seq<int>): Result<string>
      requires DrawsInRange(draws, |names|)
    {
      if requestedName == "" then
        match GeneratedName(vms, draws)
        case Ok(g) => Ok(Kept(g))
        case Err(e) => Err(e)
      else if NameTaken(vms, Kept(requestedName)) then Err(NameConflict(Kept(requestedName)))
      else Ok(Kept(requestedName))
    }

    /**
      The naming step of `alloc`, which changes nothing. The requested name is
      substituted a second time after the check; that second substitution
      changes nothing, so the name kept is the one checked.
     */
    method ChooseName(requestedName: string, draws: seq<int>) returns (r: Result<string>)
      requires DrawsInRange(draws, |names|)
      ensures r == ChosenName(vms, requestedName, draws)
      ensures r.Ok? && disallowSpaces ==> ' ' !in r.value
      ensures r.Ok? && requestedName != "" ==> !NameTaken(vms, r.value)
      ensures requestedName != "" ==> (r == Err(NameConflict(Kept(requestedName))) <==> NameTaken(vms, Kept(requestedName)))
    {
      var vmName: string;
      if requestedName == "" {
        var g := GenerateName(draws);
        if g.Err? {
          return Err(g.error);
        }
        vmName := g.value;
      } else {
        var wanted := Kept(requestedName);
        var found := GetVmByName(wanted);
        if found.Some? {
          return Err(NameConflict(wanted));
        }
        vmName := wanted;
        if disallowSpaces {
          SpacesToDashesIdempotent(requestedName);
        }
      }
      return Ok(Kept(vmName));
    }

    /** Insert the row of a machine, then register it under `key`. */
    method Register(key: string, vm: Vm, date: int)
      modifies this
      ensures table == old(table) + [Row(Bare(vm.jid), vm.password, date, "", vm.name)]
      ensures vms == old(vms)[key := vm] && events == old(events)
      ensures old(Valid()) && key !in old(vms) && vm.jid.node == key && IsNodeText(key) && '/' !in vm.jid.domain ==> Valid()
      ensures old(NamesUnique(vms)) && key !in old(vms) && !NameTaken(old(vms), vm.name) ==> NamesUnique(vms)
    {
      ghost var oldVms, oldTable := vms, table;
      table := table + [Row(Bare(vm.jid), vm.password, date, "", vm.name)];
      vms := vms[key := vm];
      if old(Valid()) && key !in old(vms) && vm.jid.node == key && IsNodeText(key) && '/' !in vm.jid.domain {
        InsertKeepsConsistent(oldVms, oldTable, key, vm, table[|table| - 1]);
      }
      if old(NamesUnique(vms)) && key !in old(vms) && !NameTaken(old(vms), vm.name) {
        InsertKeepsNamesUnique(oldVms, key, vm);
      }
    }

    /** The jid of a machine allocated under `uuid`: lower-case uuid, domain and resource. */
    function NewJid(uuid: string): Jid {
      Jid(Lower(uuid), Lower(serverDomain), Lower(node))
    }

    /**
      The machine `alloc` registers: not yet started, and when there is a
      requester, with the requester granted every permission and added to the
      roster once the machine authenticates.
     */
    function Allocated(uuid: string, requester: Option<Jid>, vmName: string, password: string): Vm {
      var vm := Worker(NewJid(uuid), password, vmName, folderFor(Lower(uuid)));
      if requester.Some? then
        vm.(fullControl := {Bare(requester.value)}, oneShots := [AddRequesterOnAuth(requester.value)])
      else vm
    }

    /**
      `alloc`: choose the name, build the machine, insert its row, register it,
      fire `HOOK_HYPERVISOR_ALLOC`, and start it when asked. `requestedName`
      is `""` when no name is requested.
     */
    method Alloc(requester: Option<Jid>, requestedName: string, start: bool, uuid: string,
                 choices: seq<nat>, date: int, draws: seq<int>) returns (r: Result<Vm>)
      requires IsUuidText(uuid)
      requires ValidChoices(choices, passwordSize)
      requires DrawsInRange(draws, |names|)
      modifies this
      ensures r.Err? <==> ChosenName(old(vms), requestedName, draws).Err?
      ensures r.Err? ==> r.error == ChosenName(old(vms), requestedName, draws).error
      ensures r.Err? ==> vms == old(vms) && table == old(table) && events == old(events)
      ensures r.Ok? ==>
        r.value == Allocated(uuid, requester, ChosenName(old(vms), requestedName, draws).value, Password(choices)).(started := start) &&
        vms == old(vms)[uuid := r.value] &&
        table == old(table) + [Row(Bare(r.value.jid), r.value.password, date, "", r.value.name)] &&
        events == old(events) + [Event(Fire(HypervisorAlloc), uuid, |table|, true)]
                              + (if start then [Event(Start, uuid, |table|, true)] else [])
      ensures r.Ok? ==> Bare(r.value.jid) == uuid + "@" + Lower(serverDomain)
      ensures r.Ok? ==> |r.value.password| == PasswordLength(passwordSize)
      ensures r.Ok? && disallowSpaces ==> ' ' !in r.value.name
      ensures r.Ok? && requestedName != "" ==> !NameTaken(old(vms), r.value.name)
      ensures r.Ok? && old(Valid()) && uuid !in old(vms) ==> Valid()
      ensures r.Ok? && old(NamesUnique(vms)) && uuid !in old(vms) && !NameTaken(old(vms), r.value.name) ==> NamesUnique(vms)
    {
      var chosen := ChooseName(requestedName, draws);
      if chosen.Err? {
        return Err(chosen.error);
      }
      UuidTextIsNode(uuid);
      LowerKeepsNonLetter(serverDomain, '/');
      var vm := Allocated(uuid, requester, chosen.value, Password(choices)).(started := start);
      Register(uuid, vm, date);
      Log(Fire(HypervisorAlloc), uuid, uuid);
      if start {
        Log(Start, uuid, uuid);
      }
      return Ok(vm);
    }

    /** The machine `alloc_for_migration` registers: the incoming jid with this hypervisor's node as resource, started. */
    function Arrived(jid: Jid, vmName: string, password: string): Vm {
      Worker(jid.(resource := node), password, vmName, folderFor(jid.node)).(started := true)
    }

    /**
      `alloc_for_migration`: no name check and no requester; the machine is
      started before its row is inserted and before it is registered.
     */
    method AllocForMigration(jid: Jid, vmName: string, password: string, date: int) returns (vm: Vm)
      modifies this
      ensures vm == Arrived(jid, vmName, password)
      ensures vms == old(vms)[jid.node := vm]
      ensures table == old(table) + [Row(Bare(jid), password, date, "", vmName)]
      ensures events == old(events) + [Event(Start, jid.node, |old(table)|, jid.node in old(vms))]
      ensures old(Valid()) && jid.node !in old(vms) && IsNodeText(jid.node) && '/' !in jid.domain ==> Valid()
    {
      vm := Arrived(jid, vmName, password);
      Log(Start, jid.node, jid.node);
      Register(jid.node, vm, date);
    }

    // -------------------------------------------------------------------
    // Release
    // -------------------------------------------------------------------

    /**
      What `free` does, as a relation between the state before, the failure
      and the state after: an unknown or migrating machine changes nothing;
      a raising teardown call stops there with only the calls made logged;
      otherwise the rows and the key go, the unregistration is logged, and
      the free hook fires unless the unregistration raised.
     */
    ghost predicate FreeSpec(vms0: map<string, Vm>, table0: seq<Row>, events0: seq<Event>,
                             jid: Jid, faults: set<WorkerCall>,
                             failure: Option<Error>, vms1: map<string, Vm>, table1: seq<Row>, events1: seq<Event>)
    {
      if jid.node !in vms0 then
        failure == Some(UnknownVm(jid.node)) && vms1 == vms0 && table1 == table0 && events1 == events0
      else if vms0[jid.node].isMigrating then
        failure == Some(Migrating) && vms1 == vms0 && table1 == table0 && events1 == events0
      else
        var calls := TeardownCalls(vms0[jid.node]);
        var n := FirstFailure(calls, faults);
        if n < |calls| then
          failure == Some(CallFailed(calls[n])) && vms1 == vms0 && table1 == table0 &&
          events1 == events0 + CallEvents(calls[..n + 1], jid.node, |table0|, true)
        else
          vms1 == vms0 - {jid.node} && table1 == RemoveRows(table0, Bare(jid)) &&
          events1 == events0 + CallEvents(calls, jid.node, |table0|, true)
                             + [Event(Call(InbandUnregistration), jid.node, |table1|, false)]
                             + (if InbandUnregistration in faults then []
                                else [Event(Fire(HypervisorFree), jid.node, |table1|, false)]) &&
          failure == (if InbandUnregistration in faults then Some(CallFailed(InbandUnregistration)) else None)
    }

    /**
      `free`: refuse an unknown or migrating machine; then destroy an active
      domain, undefine any domain, terminate the worker, delete the rows of
      the given bare jid, unregister the key, unregister the account and fire
      `HOOK_HYPERVISOR_FREE`. The first call in `faults` raises and nothing
      after it happens.
     */
    method Free(jid: Jid, faults: set<WorkerCall>) returns (failure: Option<Error>)
      modifies this
      ensures FreeSpec(old(vms), old(table), old(events), jid, faults, failure, vms, table, events)
      ensures old(Valid()) && jid.node in old(vms) && jid.domain == old(vms)[jid.node].jid.domain ==> Valid()
      ensures old(NamesUnique(vms)) ==> NamesUnique(vms)
    {
      var u := jid.node;
      if u !in vms {
        return Some(UnknownVm(u));
      }
      var vm := vms[u];
      if vm.isMigrating {
        return Some(Migrating);
      }
      var made, failed := Teardown(vm, faults);
      events := events + CallEvents(made, u, |table|, true);
      if failed.Some? {
        return Some(CallFailed(failed.value));
      }
      failure := Release(jid, faults);
    }

    /**
      The end of `free`, once the worker is terminated: the rows and the key
      go, then the account is unregistered and `HOOK_HYPERVISOR_FREE` fires
      unless the unregistration raises.
     */
    method Release(jid: Jid, faults: set<WorkerCall>) returns (failure: Option<Error>)
      requires jid.node in vms
      modifies this
      ensures vms == old(vms) - {jid.node} && table == RemoveRows(old(table), Bare(jid))
      ensures events == old(events) + [Event(Call(InbandUnregistration), jid.node, |table|, false)]
                                    + (if InbandUnregistration in faults then []
                                       else [Event(Fire(HypervisorFree), jid.node, |table|, false)])
      ensures failure == (if InbandUnregistration in faults then Some(CallFailed(InbandUnregistration)) else None)
      ensures old(Valid()) && jid.domain == old(vms)[jid.node].jid.domain ==> Valid()
      ensures old(NamesUnique(vms)) ==> NamesUnique(vms)
    {
      Unregister(jid);
      Log(Call(InbandUnregistration), jid.node, jid.node);
      if InbandUnregistration in faults {
        return Some(CallFailed(InbandUnregistration));
      }
      Log(Fire(HypervisorFree), jid.node, jid.node);
      return None;
    }

    /** The removal shared by `free` and `free_for_migration`: delete the rows of the bare jid, then the key. */
    method Unregister(jid: Jid)
      requires jid.node in vms
      modifies this
      ensures table == RemoveRows(old(table), Bare(jid)) && vms == old(vms) - {jid.node} && events == old(events)
      ensures old(Valid()) && jid.domain == old(vms)[jid.node].jid.domain ==> Valid()
      ensures old(NamesUnique(vms)) ==> NamesUnique(vms)
    {
      if Valid() && jid.domain == vms[jid.node].jid.domain {
        RemoveKeepsConsistent(vms, table, jid.node, Bare(jid));
      }
      table := RemoveRows(table, Bare(jid));
      vms := vms - {jid.node};
    }

    /**
      `free_for_migration`: unknown key raises; then undefine and disconnect,
      delete the rows of the given bare jid and unregister the key. No hook,
      no account removal.
     */
    method FreeForMigration(jid: Jid, faults: set<WorkerCall>) returns (failure: Option<Error>)
      modifies this
      ensures jid.node !in old(vms) ==>
        failure == Some(UnknownVm(jid.node)) && vms == old(vms) && table == old(table) && events == old(events)
      ensures jid.node in old(vms) ==>
        events == old(events) + [Event(Call(UndefineAndDisconnect), jid.node, |old(table)|, true)] &&
        if UndefineAndDisconnect in faults then
          failure == Some(CallFailed(UndefineAndDisconnect)) && vms == old(vms) && table == old(table)
        else
          failure == None && vms == old(vms) - {jid.node} && table == RemoveRows(old(table), Bare(jid))
      ensures old(Valid()) && jid.node in old(vms) && jid.domain == old(vms)[jid.node].jid.domain ==> Valid()
      ensures old(NamesUnique(vms)) ==> NamesUnique(vms)
    {
      var u := jid.node;
      if u !in vms {
        return Some(UnknownVm(u));
      }
      Log(Call(UndefineAndDisconnect), u, u);
      if UndefineAndDisconnect in faults {
        return Some(CallFailed(UndefineAndDisconnect));
      }
      Unregister(jid);
      return None;
    }

    // -------------------------------------------------------------------
    // Cloning
    // -------------------------------------------------------------------

    /** The name `clone` asks `alloc` for: the wanted one, or a generated one marked as a clone of the source. */
    ghost function CloneName(vms: map<string, Vm>, source: Vm, wantedName: string, draws: seq<int>): Result<string>
      requires DrawsInRange(draws, |names|)
    {
      if wantedName != "" then Ok(wantedName)
      else
        match GeneratedName(vms, draws)
        case Ok(g) => Ok(g + " (clone of " + source.name + ")")
        case Err(e) => Err(e)
    }

    /** Why `clone` refuses a source machine, if it does. */
    function CloneRefusal(vms: map<string, Vm>, uuid: string): (refusal: Option<Error>)
      ensures refusal.None? ==> Lower(uuid) in vms && vms[Lower(uuid)].definition.Some?
    {
      if Lower(uuid) !in vms then Some(UnknownVm(uuid))
      else
        var source := vms[Lower(uuid)];
        if source.definition.None? || source.definition.value == "" then Some(NotDefined)
        else if source.domain.None? then Some(NoDomain)
        else if !IsStopped(source.domain.value) then Some(NotStopped)
        else None
    }

    /** A freshly allocated machine made a clone of `source`: the initialisation hook is added and it is started. */
    function Cloned(vm: Vm, source: Vm, uuid: string): Vm
      requires source.definition.Some?
    {
      vm.(oneShots := vm.oneShots + [CloneOnInitialize(source.definition.value, source.folder, uuid, name)],
          started := true)
    }

    /**
      What `clone` does, as a relation between the state before (`vms0`,
      `table0`, `events0`), the result and the state after: a refused source,
      a name that cannot be generated and a taken clone name are errors that
      change nothing; otherwise the copy is registered under `newUuid`, its
      row appended, and the alloc hook, the start and the clone hook logged.
     */
    ghost predicate CloneSpec(vms0: map<string, Vm>, table0: seq<Row>, events0: seq<Event>,
                              uuid: string, requester: Option<Jid>, wantedName: string, newUuid: string,
                              choices: seq<nat>, date: int, draws: seq<int>,
                              r: Result<Vm>, vms1: map<string, Vm>, table1: seq<Row>, events1: seq<Event>)
      requires ValidChoices(choices, passwordSize)
      requires DrawsInRange(draws, |names|)
    {
      var same := vms1 == vms0 && table1 == table0 && events1 == events0;
      if CloneRefusal(vms0, uuid).Some? then r == Err(CloneRefusal(vms0, uuid).value) && same
      else
        var source := vms0[Lower(uuid)];
        var asked := CloneName(vms0, source, wantedName, draws);
        if asked.Err? then r == Err(asked.error) && same
        else if NameTaken(vms0, Kept(asked.value)) then r == Err(NameConflict(Kept(asked.value))) && same
        else
          r.Ok? &&
          r.value == Cloned(Allocated(newUuid, requester, Kept(asked.value), Password(choices)), source, uuid) &&
          vms1 == vms0[newUuid := r.value] &&
          table1 == table0 + [Row(Bare(r.value.jid), r.value.password, date, "", r.value.name)] &&
          events1 == events0 + [Event(Fire(HypervisorAlloc), newUuid, |table1|, true),
                                Event(Start, newUuid, |table1|, true),
                                Event(Fire(HypervisorClone), newUuid, |table1|, true)]
    }

    /**
      `clone`: the source must exist, be defined and be stopped; the copy is
      allocated unstarted under the clone name, given the one-shot hook that
      copies the source's definition and folder on initialisation, started,
      and announced with `HOOK_HYPERVISOR_CLONE`. The parent name handed to
      the hook is the hypervisor's own name.
     */
    method Clone(uuid: string, requester: Option<Jid>, wantedName: string, newUuid: string,
                 choices: seq<nat>, date: int, draws: seq<int>) returns (r: Result<Vm>)
      requires IsUuidText(newUuid)
      requires ValidChoices(choices, passwordSize)
      requires DrawsInRange(draws, |names|)
      modifies this
      ensures CloneSpec(old(vms), old(table), old(events), uuid, requester, wantedName, newUuid, choices, date, draws,
                        r, vms, table, events)
      ensures r.Ok? && old(Valid()) && newUuid !in old(vms) ==> Valid()
      ensures r.Ok? && old(NamesUnique(vms)) && newUuid !in old(vms) ==> NamesUnique(vms)
    {
      var refusal := CloneRefusal(vms, uuid);
      if refusal.Some? {
        return Err(refusal.value);
      }
      var source := vms[Lower(uuid)];
      var asked: string;
      if wantedName == "" {
        var g := GenerateName(draws);
        if g.Err? {
          return Err(g.error);
        }
        asked := g.value + " (clone of " + source.name + ")";
      } else {
        asked := wantedName;
      }
      assert asked == CloneName(old(vms), source, wantedName, draws).value;
      r := CloneAs(source, uuid, asked, requester, newUuid, choices, date);
    }

    /** The second half of `clone`: allocate the copy under `asked`, attach the clone hook, start it, fire the hook. */
    method CloneAs(source: Vm, uuid: string, asked: string, requester: Option<Jid>, newUuid: string,
                   choices: seq<nat>, date: int) returns (r: Result<Vm>)
      requires asked != "" && source.definition.Some?
      requires IsUuidText(newUuid)
      requires ValidChoices(choices, passwordSize)
      modifies this
      ensures r.Err? <==> NameTaken(old(vms), Kept(asked))
      ensures r.Err? ==> r == Err(NameConflict(Kept(asked))) && vms == old(vms) && table == old(table) && events == old(events)
      ensures r.Ok? ==>
        r.value == Cloned(Allocated(newUuid, requester, Kept(asked), Password(choices)), source, uuid) &&
        vms == old(vms)[newUuid := r.value] &&
        table == old(table) + [Row(Bare(r.value.jid), r.value.password, date, "", r.value.name)] &&
        events == old(events) + [Event(Fire(HypervisorAlloc), newUuid, |table|, true),
                                 Event(Start, newUuid, |table|, true),
                                 Event(Fire(HypervisorClone), newUuid, |table|, true)]
      ensures r.Ok? && old(Valid()) && newUuid !in old(vms) ==> Valid()
      ensures r.Ok? && old(NamesUnique(vms)) && newUuid !in old(vms) ==> NamesUnique(vms)
    {
      var a := Alloc(requester, asked, false, newUuid, choices, date, []);
      if a.Err? {
        return Err(a.error);
      }
      var vm := StartClone(newUuid, source, uuid);
      return Ok(vm);
    }

    /** The clone hook is attached to the freshly allocated copy, which is then started, and `HOOK_HYPERVISOR_CLONE` fires. */
    method StartClone(newUuid: string, source: Vm, uuid: string) returns (vm: Vm)
      requires newUuid in vms && source.definition.Some?
      modifies this
      ensures vm == Cloned(old(vms)[newUuid], source, uuid)
      ensures vms == old(vms)[newUuid := vm] && table == old(table)
      ensures events == old(events) + [Event(Start, newUuid, |table|, true), Event(Fire(HypervisorClone), newUuid, |table|, true)]
      ensures old(Valid()) ==> Valid()
      ensures old(NamesUnique(vms)) ==> NamesUnique(vms)
    {
      vm := Cloned(vms[newUuid], source, uuid);
      if Valid() {
        UpdateKeepsConsistent(vms, table, newUuid, vm);
      }
      if NamesUnique(vms) {
        UpdateKeepsNamesUnique(vms, newUuid, vm);
      }
      vms := vms[newUuid := vm];
      Log(Start, newUuid, newUuid);
      Log(Fire(HypervisorClone), newUuid, newUuid);
    }

    // -------------------------------------------------------------------
    // libvirt lifecycle events
    // -------------------------------------------------------------------

    /**
      `hypervisor_on_domain_event`: a domain that left on migration is freed
      softly and `HOOK_HYPERVISOR_MIGRATEDVM_LEAVE` fired; a domain that
      arrived is allocated softly and `HOOK_HYPERVISOR_MIGRATEDVM_ARRIVE`
      fired. Any failure on the way is swallowed, and every other event is
      ignored. `description` and `domainName` are the texts of the `description`
      and `name` elements of the domain definition, `None` when absent.
     */
    method OnDomainEvent(event: int, detail: int, description: Option<string>, domainName: Option<string>,
                         faults: set<WorkerCall>, date: int)
      modifies this
      ensures !IsMigratedStop(event, detail) && !IsMigratedResume(event, detail) ==>
        vms == old(vms) && table == old(table) && events == old(events)
      ensures IsMigratedStop(event, detail) ==>
        var t := DepartingJidText(description);
        if t.None? || ParseJid(t.value).None? || ParseJid(t.value).value.node !in old(vms) then
          vms == old(vms) && table == old(table) && events == old(events)
        else
          var j := ParseJid(t.value).value;
          if UndefineAndDisconnect in faults then
            vms == old(vms) && table == old(table) &&
            events == old(events) + [Event(Call(UndefineAndDisconnect), j.node, |old(table)|, true)]
          else
            vms == old(vms) - {j.node} && table == RemoveRows(old(table), Bare(j)) &&
            events == old(events) + [Event(Call(UndefineAndDisconnect), j.node, |old(table)|, true),
                                     Event(Fire(MigratedVmLeave), t.value, |table|, false)]
      ensures IsMigratedResume(event, detail) ==>
        var a := ArrivalFields(description, domainName);
        if a.None? || ParseJid(a.value.jid).None? then
          vms == old(vms) && table == old(table) && events == old(events)
        else
          var j := ParseJid(a.value.jid).value;
          vms == old(vms)[j.node := Arrived(j, a.value.name, a.value.password)] &&
          table == old(table) + [Row(Bare(j), a.value.password, date, "", a.value.name)] &&
          events == old(events) + [Event(Start, j.node, |old(table)|, j.node in old(vms)),
                                   Event(Fire(MigratedVmArrive), a.value.jid, |table|, true)]
    {
      if IsMigratedStop(event, detail) {
        var t := DepartingJidText(description);
        if t.None? {
          return;
        }
        var parsed := ParseJid(t.value);
        if parsed.None? {
          return;
        }
        var failure := FreeForMigration(parsed.value, faults);
        if failure.None? {
          Log(Fire(MigratedVmLeave), t.value, parsed.value.node);
        }
      } else if IsMigratedResume(event, detail) {
        var a := ArrivalFields(description, domainName);
        if a.None? {
          return;
        }
        var parsed := ParseJid(a.value.jid);
        if parsed.None? {
          return;
        }
        var vm := AllocForMigration(parsed.value, a.value.name, a.value.password, date);
        Log(Fire(MigratedVmArrive), a.value.jid, parsed.value.node);
      }
    }

    // -------------------------------------------------------------------
    // Startup replay
    // -------------------------------------------------------------------

    /**
      `manage_persistance`: register and start a machine for every stored row,
      in table order, keyed by the node of its jid; the table only is read.
      A row whose jid text cannot be parsed raises and ends the replay there.
      The source runs the replay inside `__init__`, so that exception escapes
      the constructor and no hypervisor object is returned; the model returns
      `false` and leaves the machines of the earlier rows in the map, a state
      the source never exposes.
     */
    method ManagePersistance() returns (ok: bool)
      modifies this
      ensures table == old(table)
      ensures var n := FirstUnparsable(table);
        ok == (n == |table|) &&
        vms == old(vms) + ReplayMap(table[..n], node, folderFor) &&
        events == old(events) + ReplayEvents(table[..n], |table|)
      ensures old(vms) == map[] && '/' !in serverDomain && (exists m :: Consistent(m, table)) ==> ok && Valid()
    {
      ghost var before := vms;
      var n, replayed, started := Replay(table, node, folderFor);
      ok := n == |table|;
      vms, events := vms + replayed, events + started;
      if before == map[] && '/' !in serverDomain && exists m :: Consistent(m, table) {
        ghost var m :| Consistent(m, table);
        ReplayRestores(m, table, node, folderFor);
      }
    }

    // -------------------------------------------------------------------
    // Chat commands
    // -------------------------------------------------------------------

    /** `message_alloc`: allocate under the name after the command word, or a generated one, with the sender as requester. */
    method MessageAlloc(body: string, sender: Jid, uuid: string, choices: seq<nat>, date: int, draws: seq<int>)
      returns (reply: Reply)
      requires IsUuidText(uuid)
      requires ValidChoices(choices, passwordSize)
      requires DrawsInRange(draws, |names|)
      modifies this
      ensures var chosen := ChosenName(old(vms), MessageAllocName(body), draws);
        chosen.Err? ==> reply == Failed(chosen.error) && vms == old(vms) && table == old(table) && events == old(events)
      ensures var chosen := ChosenName(old(vms), MessageAllocName(body), draws);
        chosen.Ok? ==>
          reply.Done? && reply.vm == Allocated(uuid, Some(sender), chosen.value, Password(choices)).(started := true) &&
          vms == old(vms)[uuid := reply.vm] &&
          table == old(table) + [Row(Bare(reply.vm.jid), reply.vm.password, date, "", reply.vm.name)] &&
          events == old(events) + [Event(Fire(HypervisorAlloc), uuid, |table|, true)] + [Event(Start, uuid, |table|, true)]
      ensures old(Valid()) && uuid !in old(vms) ==> Valid()
    {
      var r := Alloc(Some(sender), MessageAllocName(body), true, uuid, choices, date, draws);
      if r.Err? {
        return Failed(r.error);
      }
      return Done(r.value);
    }

    /**
      The machine `get_vm_by_identifer` may return for `id`: a registered
      machine, matching the name up to case when some name matches, and
      otherwise the one under the lower-cased uuid.
     */
    ghost predicate Identifies(vms0: map<string, Vm>, id: string, vm: Vm) {
      (exists k :: k in vms0 && vms0[k] == vm) &&
      (NameTaken(vms0, id) ==> Upper(vm.name) == Upper(id)) &&
      (!NameTaken(vms0, id) ==> FindByUuid(vms0, id) == Some(vm))
    }

    /** The failure a `free` reply reports. */
    function FreeFailure(reply: Reply): Option<Error> {
      if reply.Failed? then Some(reply.error) else None
    }

    /** The result a `clone` reply reports. */
    function CloneResult(reply: Reply): Result<Vm>
      requires reply.Done? || reply.Failed?
    {
      if reply.Done? then Ok(reply.vm) else Err(reply.error)
    }

    /**
      `message_free`: the identifier after the command word names the machine
      by name or uuid; it is freed through its own jid. `target` is the
      machine the identifier named, if any.
     */
    method MessageFree(body: string, faults: set<WorkerCall>) returns (reply: Reply, target: Option<Vm>)
      modifies this
      ensures MessageIdentifier(body).None? ==> reply == WrongFormat && target.None?
      ensures MessageIdentifier(body).Some? ==>
        var id := MessageIdentifier(body).value;
        (target.None? <==> !NameTaken(old(vms), id) && FindByUuid(old(vms), id).None?) &&
        (target.None? ==> reply == NoSuchVm(id)) &&
        (target.Some? ==> Identifies(old(vms), id, target.value))
      ensures target.None? ==> vms == old(vms) && table == old(table) && events == old(events)
      ensures target.Some? ==>
        (reply.Done? || reply.Failed?) && (reply.Done? ==> reply.vm == target.value) &&
        FreeSpec(old(vms), old(table), old(events), target.value.jid, faults, FreeFailure(reply), vms, table, events)
      ensures reply.Done? ==> reply.vm.jid.node !in vms && Bare(reply.vm.jid) !in RowJids(table)
      ensures old(Valid()) ==> Valid()
    {
      var id := MessageIdentifier(body);
      if id.None? {
        return WrongFormat, None;
      }
      target := GetVmByIdentifier(id.value);
      if target.None? {
        return NoSuchVm(id.value), None;
      }
      ghost var k :| k in vms && vms[k] == target.value;
      if Valid() {
        assert target.value.jid.node == k;
      }
      var free := Free(target.value.jid, faults);
      if free.Some? {
        return Failed(free.value), target;
      }
      RemoveRowsJids(old(table), Bare(target.value.jid));
      return Done(target.value), target;
    }

    /**
      `message_clone`: the identifier after the command word names the source
      machine by name or uuid; it is cloned under a generated name with the
      sender as requester. `target` is the machine the identifier named, if any.
     */
    method MessageClone(body: string, sender: Jid, newUuid: string, choices: seq<nat>, date: int, draws: seq<int>)
      returns (reply: Reply, target: Option<Vm>)
      requires IsUuidText(newUuid)
      requires ValidChoices(choices, passwordSize)
      requires DrawsInRange(draws, |names|)
      modifies this
      ensures MessageIdentifier(body).None? ==> reply == WrongFormat && target.None?
      ensures MessageIdentifier(body).Some? ==>
        var id := MessageIdentifier(body).value;
        (target.None? <==> !NameTaken(old(vms), id) && FindByUuid(old(vms), id).None?) &&
        (target.None? ==> reply == NoSuchVm(id)) &&
        (target.Some? ==> Identifies(old(vms), id, target.value))
      ensures target.None? ==> vms == old(vms) && table == old(table) && events == old(events)
      ensures target.Some? ==>
        (reply.Done? || reply.Failed?) &&
        CloneSpec(old(vms), old(table), old(events), target.value.jid.node, Some(sender), "", newUuid,
                  choices, date, draws, CloneResult(reply), vms, table, events)
      ensures old(Valid()) && newUuid !in old(vms) ==> Valid()
    {
      var id := MessageIdentifier(body);
      if id.None? {
        return WrongFormat, None;
      }
      target := GetVmByIdentifier(id.value);
      if target.None? {
        return NoSuchVm(id.value), None;
      }
      var r := Clone(target.value.jid.node, Some(sender), "", newUuid, choices, date, draws);
      if r.Err? {
        return Failed(r.error), target;
      }
      return Done(r.value), target;
    }
  }
}
