# Archipel hypervisor orchestration, modelled in Dafny

This project models the orchestration core of the Archipel hypervisor agent,
`TNArchipelHypervisor` in `archipelHypervisor.py`. It covers:

- the registry of managed virtual machines (`self.virtualmachines`), keyed by
  uuid;
- the rows of the sqlite table `virtualmachines` behind that registry;
- the lifecycle operations `alloc`, `alloc_for_migration`, `free`,
  `free_for_migration` and `clone`;
- the startup replay `manage_persistance`;
- the libvirt lifecycle-event handler that reacts to live migration;
- the control-request dispatcher `process_iq` and its error codes;
- the chat commands `alloc`, `free` and `clone`;
- the migration URI handed to peer hypervisors.

It also models the naming and archive-layout logic of the appliance packager
`TNApplianceCompresser` in `appliancecompresser.py`.

The project has seven modules:

- `Options` and `Text` (`options.dfy`, `text.dfy`) hold the Python string
  operations the source relies on, restricted to ASCII case mapping and
  ASCII blanks:
  - `str.upper`/`str.lower` on the ASCII letters;
  - `str.replace`, which is leftmost and non-overlapping;
  - `split(sep)`;
  - `split('/')[-1]`;
  - `split(None, 1)`;
  - `"%d" % n`.
- `Jids` (`jids.dfy`) holds the parts of `xmpp.JID` the core uses: parsing a
  jid text and its bare form `getStripped()`.
- `Registry` (`registry.dfy`) holds the value-level data model:
  - the machine record `Vm`;
  - the table `Row`;
  - the trace of `Event`s;
  - the lookups;
  - the invariant `Consistent`: the map and the table name the same machines,
    and every machine sits under its jid's node;
  - the lemmas that show each mutation keeps that invariant;
  - the startup replay as a function.
- `Migration` (`migration.dfy`) holds the libvirt event constants and the
  parsing of the `jid::::password` description.
- `Dispatch` (`dispatch.dfy`) holds the `process_iq` handler selection and
  permission gate, the error codes, the chat-command token parsing and
  `migration_libvirt_uri`.
- `Hypervisors` (`hypervisor.dfy`) holds the class `Hypervisor`. Its fields
  are the registry map `vms`, the table `table` and an event trace `events`.
  Its methods change them step by step, as the source does.
- `Appliance` (`appliance.dfy`) holds the sanitised package name, the tar and
  zip paths, and the class `ApplianceCompresser`, whose `Run` builds the
  archive entry list and the rewritten definition text.

Effects the core hands to collaborators become entries in `events`: a worker
thread started, a call on a worker or its domain, or a hook fired. Each entry
records the table size and whether its machine was registered at that moment.
That makes the order of effects part of the contracts: for example, the
insert happens before the worker starts, and the hook fires after the removal.

Randomness and time are explicit parameters:

- the uuid text;
- the indexes into the password alphabet;
- the finite sequence of `randint` draws offered to `generate_name`;
- the creation date.

A worker call that raises is modelled as membership in a `faults` set.

Three behaviours of the code are easy to misread, and the model follows the
code:

- `process_iq` checks the permission for every action that is not a substring
  of `"uri"` (`('uri')` is a string, not a tuple), unmatched actions included.
- `free` runs its steps in sequence, and a raising step stops all the later
  ones.
- `generate_name` draws until it finds a name nobody holds.

The contracts in the table are written against a few plain definitions,
which have no row of their own:

- `Text.Replace` (`str.replace`) and `Text.SplitCommand` (`split(None, 1)`,
  `archipelHypervisor.py:657`, `:721` and `:773`);
- `Jids.ParseJid` (`xmpp.JID(text)`, used at `archipelHypervisor.py:294`, `:378`
  and `:391`) and `Jids.Bare` (`getStripped()`);
- `Registry.TeardownCalls` (the calls `free` makes at
  `archipelHypervisor.py:532-538`) and `Registry.FindByUuid`
  (`get_vm_by_uuid`, `:340-350`);
- `Hypervisors.Hypervisor.ChosenName` (the name `alloc` settles on, `:458-469`),
  `Hypervisors.Hypervisor.CloneRefusal` (the refusals of `clone`, `:578-586`)
  and `Hypervisors.Hypervisor.CloneName` (the clone name, `:587-590`);
- `Appliance.TarPath` (`appliancecompresser.py:71`) and
  `Appliance.SnapshotMembers` (the snapshot entries of `:81-89`).

## Model

| member | source | states |
|---|---|---|
| Text.LowerIdempotent | ArchipelAgent/archipel-agent/archipel/archipelHypervisor.py:348-350 | lower-casing a key twice is lower-casing it once, so `get_vm_by_uuid` of a lower-cased uuid is stable |
| Text.UpperOfLower | ArchipelAgent/archipel-agent/archipel/archipelHypervisor.py:335 | upper-casing forgets any earlier lower-casing, so the name comparison ignores case |
| Text.LowerKeepsNonLetter | ArchipelAgent/archipel-agent/archipel/archipelHypervisor.py:455 | lower-casing the server domain neither adds nor removes a non-letter such as `/` |
| Text.ContainsChar | ArchipelAgent/archipel-agent-vmcasting/archipelagentvmcasting/appliancecompresser.py:54 | a one-character substring occurs exactly when the character does |
| Text.ReplaceAbsent | ArchipelAgent/archipel-agent-vmcasting/archipelagentvmcasting/appliancecompresser.py:54 | `replace` of a pattern that does not occur returns the text unchanged |
| Text.ReplaceCharGone | ArchipelAgent/archipel-agent-vmcasting/archipelagentvmcasting/appliancecompresser.py:54 | replacing a character by a text without it leaves no occurrence of it |
| Text.ReplaceKeepsOut | ArchipelAgent/archipel-agent-vmcasting/archipelagentvmcasting/appliancecompresser.py:54 | a character absent from the text and the replacement stays absent after `replace` |
| Text.ReplaceSkipsPrefix | ArchipelAgent/archipel-agent/archipel/archipelHypervisor.py:617 | `replace` leaves a prefix that cannot start the pattern untouched |
| Text.ReplaceAtStart | ArchipelAgent/archipel-agent/archipel/archipelHypervisor.py:617 | an occurrence at the very start is the first one replaced, the rest of the text being replaced after it |
| Text.CollapseLeavesNoPair | ArchipelAgent/archipel-agent-vmcasting/archipelagentvmcasting/appliancecompresser.py:54 | after the leftmost non-overlapping `replace("..", "_")` no `..` remains |
| Text.Split | ArchipelAgent/archipel-agent/archipel/archipelHypervisor.py:376 | `split(sep)` always yields at least one piece |
| Text.JoinSplit | ArchipelAgent/archipel-agent/archipel/archipelHypervisor.py:376 | joining the pieces of `split(sep)` with `sep` gives back the text |
| Text.SplitWithout | ArchipelAgent/archipel-agent/archipel/archipelHypervisor.py:387-388 | a text without the separator splits into itself alone |
| Text.SplitWith | ArchipelAgent/archipel-agent/archipel/archipelHypervisor.py:387-388 | a text containing the separator splits into at least two pieces |
| Text.SplitAfterField | ArchipelAgent/archipel-agent/archipel/archipelHypervisor.py:387-388 | a leading field free of the separator is the first piece, and the rest splits on its own |
| Text.LastSegment | ArchipelAgent/archipel-agent-vmcasting/archipelagentvmcasting/appliancecompresser.py:116 | `split('/')[-1]` has no `/`, is a suffix of the path, and is the whole path or follows a `/` |
| Text.LastSegmentAfter | ArchipelAgent/archipel-agent-vmcasting/archipelagentvmcasting/appliancecompresser.py:94 | the last segment of `dir + "/" + file` is the slash-free `file` |
| Text.TrimLeft | ArchipelAgent/archipel-agent/archipel/archipelHypervisor.py:657 | the leading blanks removed are exactly the blank prefix |
| Text.TakeWord | ArchipelAgent/archipel-agent/archipel/archipelHypervisor.py:657 | the word taken is the longest blank-free prefix |
| Text.SplitCommandShape | ArchipelAgent/archipel-agent/archipel/archipelHypervisor.py:657 | `split(None, 1)` yields at most two non-empty tokens, none starting with a blank, the first blank-free, and none exactly for an all-blank body |
| Text.SplitCommandBlank | ArchipelAgent/archipel-agent/archipel/archipelHypervisor.py:657 | a body yields no tokens exactly when every character of it is a blank |
| Text.SplitCommandTokens | ArchipelAgent/archipel-agent/archipel/archipelHypervisor.py:657 | each of the at most two tokens is non-empty and starts with a non-blank |
| Text.CommandWithArgument | ArchipelAgent/archipel-agent/archipel/archipelHypervisor.py:721 | a command word, a blank and an argument split into exactly those two tokens |
| Text.CommandAlone | ArchipelAgent/archipel-agent/archipel/archipelHypervisor.py:721 | a lone command word splits into itself alone |
| Text.NatToStringInjective | ArchipelAgent/archipel-agent-vmcasting/archipelagentvmcasting/appliancecompresser.py:83 | `"%d"` gives distinct texts for distinct numbers |
| Jids.IndexOf | ArchipelAgent/archipel-agent/archipel/archipelHypervisor.py:294 | the position found is the first occurrence of the character, or the end |
| Jids.ParseBare | ArchipelAgent/archipel-agent/archipel/archipelHypervisor.py:294-295 | parsing the bare jid text stored in a row gives back the node and domain with no resource |
| Jids.BareInjective | ArchipelAgent/archipel-agent/archipel/archipelHypervisor.py:480 | two jids with proper nodes and the same bare text have the same node and domain |
| Registry.RemoveRows | ArchipelAgent/archipel-agent/archipel/archipelHypervisor.py:541 | `delete ... where jid=?` leaves no row with that jid, keeps every other row, adds none |
| Registry.RemoveRowsAppend | ArchipelAgent/archipel-agent/archipel/archipelHypervisor.py:541 | the delete works row by row: deleting from a table split in two parts is deleting from each part, so the kept rows stay in order |
| Registry.RemoveRowsJids | ArchipelAgent/archipel-agent/archipel/archipelHypervisor.py:541 | the jids left in the table are the old ones minus the deleted jid |
| Registry.CallEvents | ArchipelAgent/archipel-agent/archipel/archipelHypervisor.py:532-538 | one trace entry per worker call, in call order |
| Registry.FirstFailure | ArchipelAgent/archipel-agent/archipel/archipelHypervisor.py:532-538 | the index of the first call that raises: every earlier call succeeds, and that one raises |
| Registry.CallEventsNext | ArchipelAgent/archipel-agent/archipel/archipelHypervisor.py:532-538 | logging one more worker call appends exactly its event to the trace of the calls before it |
| Registry.Password | ArchipelAgent/archipel-agent/archipel/archipelHypervisor.py:454 | the password has one character per draw, each from letters and digits |
| Registry.AlphabetHasNoColon | ArchipelAgent/archipel-agent/archipel/archipelHypervisor.py:454 | the alphabet `string.letters + string.digits` holds no `:` |
| Registry.UuidTextIsNode | ArchipelAgent/archipel-agent/archipel/archipelHypervisor.py:453-455 | a `uuid1` text is already lower case and is a proper jid node |
| Registry.NameTakenIgnoresCase | ArchipelAgent/archipel-agent/archipel/archipelHypervisor.py:335 | whether a name is taken does not depend on its case |
| Registry.NameMatchUnique | ArchipelAgent/archipel-agent/archipel/archipelHypervisor.py:333-337 | with unique names, at most one registered machine matches a name case-insensitively |
| Registry.InsertKeepsNamesUnique | ArchipelAgent/archipel-agent/archipel/archipelHypervisor.py:462-466 | inserting a machine whose name is not taken keeps the names unique |
| Registry.UpdateKeepsNamesUnique | ArchipelAgent/archipel-agent/archipel/archipelHypervisor.py:593-599 | updating a machine without renaming it keeps the names unique |
| Registry.RemoveKeepsNamesUnique | ArchipelAgent/archipel-agent/archipel/archipelHypervisor.py:544 | removing a machine keeps the names unique |
| Registry.FindByUuidIgnoresCase | ArchipelAgent/archipel-agent/archipel/archipelHypervisor.py:348-350 | the uuid lookup gives the same answer for the upper-cased and the lower-cased query |
| Registry.FindByUuidFindsNode | ArchipelAgent/archipel-agent/archipel/archipelHypervisor.py:348-350 | in a well-keyed map, the uuid lookup finds exactly the machines whose jid node is the uuid |
| Registry.InsertKeepsConsistent | ArchipelAgent/archipel-agent/archipel/archipelHypervisor.py:481-483 | inserting a row and a map entry for a fresh machine keeps map and table in agreement |
| Registry.UpdateKeepsConsistent | ArchipelAgent/archipel-agent/archipel/archipelHypervisor.py:593-599 | replacing a machine by one with the same jid keeps map and table in agreement |
| Registry.RemoveKeepsConsistent | ArchipelAgent/archipel-agent/archipel/archipelHypervisor.py:541-544 | deleting a machine's rows and its map entry keeps map and table in agreement |
| Registry.FirstUnparsable | ArchipelAgent/archipel-agent/archipel/archipelHypervisor.py:292-294 | the replay stops at the first stored jid `xmpp.JID` refuses; every earlier row parses |
| Registry.ReplayStep | ArchipelAgent/archipel-agent/archipel/archipelHypervisor.py:292-297 | replaying one more row adds or overwrites that row's node with its started machine |
| Registry.AllParseStep | ArchipelAgent/archipel-agent/archipel/archipelHypervisor.py:292-294 | a parsable row after a parsable prefix leaves a parsable prefix one longer |
| Registry.ReplayEventsStep | ArchipelAgent/archipel-agent/archipel/archipelHypervisor.py:298 | replaying one more row adds one worker start to the trace |
| Registry.ReplayMapHasRow | ArchipelAgent/archipel-agent/archipel/archipelHypervisor.py:292-297 | every stored row's node is a key after the replay |
| Registry.ReplayMapOnlyRows | ArchipelAgent/archipel-agent/archipel/archipelHypervisor.py:292-297 | every key after the replay is a stored row's node, holding that row's started machine |
| Registry.ReplayRoundTrip | ArchipelAgent/archipel-agent/archipel/archipelHypervisor.py:286-298 | replaying a table that agrees with a map recovers exactly that map's keys |
| Registry.ReplayConsistent | ArchipelAgent/archipel-agent/archipel/archipelHypervisor.py:286-298 | the replayed map agrees with the table it came from |
| Migration.DepartingJidText | ArchipelAgent/archipel-agent/archipel/archipelHypervisor.py:376 | field 0 of the description split on `::::` exists exactly when there is a description, and is a prefix of it |
| Migration.ArrivalFields | ArchipelAgent/archipel-agent/archipel/archipelHypervisor.py:387-389 | the jid, password and name are found exactly when both texts exist and the description holds a `::::` |
| Migration.DescriptionRoundTrip | ArchipelAgent/archipel-agent/archipel/archipelHypervisor.py:376-389 | the description `jid::::password` parses back to that jid and password, with the domain name as name |
| Migration.ColonFreeHasNoSeparator | ArchipelAgent/archipel-agent/archipel/archipelHypervisor.py:387-388 | a text without `:`, such as a uuid jid or a generated password, cannot contain the separator `::::` |
| Dispatch.HandlerFor | ArchipelAgent/archipel-agent/archipel/archipelHypervisor.py:419-432 | a handler is selected only by its own action word |
| Dispatch.HandlerForActionName | ArchipelAgent/archipel-agent/archipel/archipelHypervisor.py:419-432 | every handler's action word selects that handler |
| Dispatch.SkipsPermissionCheckExactly | ArchipelAgent/archipel-agent/archipel/archipelHypervisor.py:416-417 | the permission check is skipped for exactly the seven substrings of `"uri"` |
| Dispatch.ProcessIq | ArchipelAgent/archipel-agent/archipel/archipelHypervisor.py:399-436 | denied exactly when the check runs and the permission is missing; handled exactly when allowed and the word is known, by the handler of that word |
| Dispatch.ProcessIqGuards | ArchipelAgent/archipel-agent/archipel/archipelHypervisor.py:416-432 | a handler runs exactly when it is the URI handler or its permission is granted |
| Dispatch.ErrorCode | ArchipelAgent/archipel-agent/archipel/archipelHypervisor.py:50-58 | each handler's error code lies in -9009..-9001 and is not one of the two migration codes |
| Dispatch.ErrorCodeInjective | ArchipelAgent/archipel-agent/archipel/archipelHypervisor.py:50-58 | distinct handlers answer with distinct codes |
| Dispatch.MessageAllocName | ArchipelAgent/archipel-agent/archipel/archipelHypervisor.py:657-661 | a name is requested exactly when the body splits into two tokens |
| Dispatch.MessageIdentifier | ArchipelAgent/archipel-agent/archipel/archipelHypervisor.py:721-723 | an identifier exists exactly when the body splits into two tokens, and it does not start with a blank |
| Dispatch.MessageArgument | ArchipelAgent/archipel-agent/archipel/archipelHypervisor.py:657-660 | `cmd arg` yields `arg` as the requested name and as the identifier |
| Dispatch.MessageWithoutArgument | ArchipelAgent/archipel-agent/archipel/archipelHypervisor.py:657-662 | a lone `cmd` requests no name and yields no identifier |
| Dispatch.MigrationUriOfLocal | ArchipelAgent/archipel-agent/archipel/archipelHypervisor.py:610-617 | a configured URI wins, else `scheme:///path` becomes `scheme://ip/path` |
| Hypervisors.Candidate | ArchipelAgent/archipel-agent/archipel/archipelHypervisor.py:321 | a generated candidate has no newline |
| Hypervisors.SpacesToDashes | ArchipelAgent/archipel-agent/archipel/archipelHypervisor.py:468-469 | the substituted name has no blank |
| Hypervisors.SpacesToDashesIdempotent | ArchipelAgent/archipel-agent/archipel/archipelHypervisor.py:461-469 | substituting twice is substituting once |
| Hypervisors.AllocatedDescriptionRoundTrip | ArchipelAgent/archipel-agent/archipel/archipelHypervisor.py:376-389 | the description `uuid@domain::::password` of an allocated machine reads back to its bare jid on departure, and to its bare jid, node and password on arrival |
| Hypervisors.FirstFreeDraw | ArchipelAgent/archipel-agent/archipel/archipelHypervisor.py:318-324 | the draws before the chosen one all name taken machines, and the chosen one does not |
| Hypervisors.Hypervisor.constructor | ArchipelAgent/archipel-agent/archipel/archipelHypervisor.py:118-162 | the registry starts empty over the stored table, with no event |
| Hypervisors.Hypervisor.Log | ArchipelAgent/archipel-agent/archipel/archipelHypervisor.py:487-489 | one trace entry is appended with the current table size and registration; nothing else changes |
| Hypervisors.Hypervisor.GetVmByName | ArchipelAgent/archipel-agent/archipel/archipelHypervisor.py:327-338 | returns a registered machine whose name equals the query when both are upper-cased, and none exactly when no name matches |
| Hypervisors.Hypervisor.GetVmByIdentifier | ArchipelAgent/archipel-agent/archipel/archipelHypervisor.py:352-363 | a matching name wins; otherwise the answer is the uuid lookup |
| Hypervisors.Hypervisor.GenerateName | ArchipelAgent/archipel-agent/archipel/archipelHypervisor.py:312-325 | the first drawn candidate nobody holds, case-insensitively, with its newline removed; an error when every draw is taken |
| Hypervisors.Hypervisor.Kept | ArchipelAgent/archipel-agent/archipel/archipelHypervisor.py:456-469 | a kept name has no blank when blanks are disallowed |
| Hypervisors.Hypervisor.ChooseName | ArchipelAgent/archipel-agent/archipel/archipelHypervisor.py:458-469 | a requested name, after blank substitution, is refused exactly when taken; the result has no blank when blanks are disallowed |
| Hypervisors.Hypervisor.Register | ArchipelAgent/archipel-agent/archipel/archipelHypervisor.py:481-483 | appends the row, then sets the map entry, keeping the map-table agreement and unique names for a fresh machine |
| Hypervisors.Hypervisor.Alloc | ArchipelAgent/archipel-agent/archipel/archipelHypervisor.py:441-493 | a name conflict changes nothing; otherwise exactly one entry and one row are added, the bare jid is `uuid@domain` in lower case, the password has the configured length, the ALLOC hook fires once, the worker starts iff `start`, and the invariants are kept |
| Hypervisors.Hypervisor.AllocForMigration | ArchipelAgent/archipel-agent/archipel/archipelHypervisor.py:495-519 | the arriving machine gets the hypervisor's node as resource, is started before the row and entry are added, and no name is checked |
| Hypervisors.Hypervisor.Free | ArchipelAgent/archipel-agent/archipel/archipelHypervisor.py:521-551 | an unknown or migrating machine changes nothing; destroy runs only in an active state and undefine whenever a domain exists; the first raising call stops the rest; on success the entry and its rows go before the FREE hook fires |
| Hypervisors.Teardown | ArchipelAgent/archipel-agent/archipel/archipelHypervisor.py:532-538 | runs destroy, undefine and terminate in order up to the first one that raises |
| Hypervisors.Hypervisor.Release | ArchipelAgent/archipel-agent/archipel/archipelHypervisor.py:541-548 | after the teardown: the row and map entry go, the in-band unregistration is logged, and the free hook fires unless that unregistration raised; the registry stays consistent |
| Hypervisors.Hypervisor.Unregister | ArchipelAgent/archipel-agent/archipel/archipelHypervisor.py:541-544 | deletes the machine's rows and its map entry and nothing else, keeping the registry consistent and names unique |
| Hypervisors.Hypervisor.FreeForMigration | ArchipelAgent/archipel-agent/archipel/archipelHypervisor.py:553-568 | `undefine_and_disconnect`, then the rows and the entry go; no hook fires |
| Hypervisors.Hypervisor.Clone | ArchipelAgent/archipel-agent/archipel/archipelHypervisor.py:570-601 | an unknown, undefined, domain-less or running source is refused with nothing changed; otherwise the copy is allocated unstarted under the wanted name or `<generated> (clone of <source>)`, given the one-shot clone hook, started, and the CLONE hook fires |
| Hypervisors.Hypervisor.CloneAs | ArchipelAgent/archipel-agent/archipel/archipelHypervisor.py:593-600 | `alloc(start=False)`, then the clone hook, then the start, then HOOK_HYPERVISOR_CLONE |
| Hypervisors.Hypervisor.StartClone | ArchipelAgent/archipel-agent/archipel/archipelHypervisor.py:594-600 | the copy gains the clone hook and is started in place, one start and the clone hook are logged, the table is untouched and consistency is kept |
| Hypervisors.Hypervisor.OnDomainEvent | ArchipelAgent/archipel-agent/archipel/archipelHypervisor.py:368-394 | only a migrated stop or a migrated resume changes anything; the stop frees softly and then fires LEAVE, and the resume allocates softly and then fires ARRIVE; failures are swallowed with no change |
| Hypervisors.Hypervisor.ManagePersistance | ArchipelAgent/archipel-agent/archipel/archipelHypervisor.py:280-298 | the table is only read; the map gains each parsed row's started machine in table order, stopping at the first unparsable jid |
| Hypervisors.Replay | ArchipelAgent/archipel-agent/archipel/archipelHypervisor.py:292-298 | stops at the first unparsable row; the machines and starts of the rows before it, later rows overwriting earlier ones |
| Hypervisors.Hypervisor.MessageAlloc | ArchipelAgent/archipel-agent/archipel/archipelHypervisor.py:657-666 | the name after the command word, or a generated one, is allocated with the sender as requester and started; a naming error changes nothing; otherwise the map, the table and the trace change exactly as `alloc`'s |
| Hypervisors.Hypervisor.MessageFree | ArchipelAgent/archipel-agent/archipel/archipelHypervisor.py:712-729 | a wrong format or an identifier naming no machine changes nothing; an identified machine (by name first, then by uuid) is always handed to `free`, and the map, the table and the trace end as `free`'s contract says on every path |
| Hypervisors.Hypervisor.MessageClone | ArchipelAgent/archipel-agent/archipel/archipelHypervisor.py:764-781 | a wrong format or an identifier naming no machine changes nothing; an identified source is always handed to `clone` with a generated name and the sender as requester, and the new state is `clone`'s on every path |
| Appliance.Sanitise | ArchipelAgent/archipel-agent-vmcasting/archipelagentvmcasting/appliancecompresser.py:54 | the package name has no blank, `/`, `\` or `..` |
| Appliance.SanitiseIdempotent | ArchipelAgent/archipel-agent-vmcasting/archipelagentvmcasting/appliancecompresser.py:54 | sanitising a sanitised name returns it unchanged |
| Appliance.SanitiseKeepsClean | ArchipelAgent/archipel-agent-vmcasting/archipelagentvmcasting/appliancecompresser.py:54 | a name with nothing to replace is kept as it is |
| Appliance.TarPathFileName | ArchipelAgent/archipel-agent-vmcasting/archipelagentvmcasting/appliancecompresser.py:71 | the tar file is `<name>.xvm2` directly inside the working directory |
| Appliance.ZipPath | ArchipelAgent/archipel-agent-vmcasting/archipelagentvmcasting/appliancecompresser.py:116 | the compressed disk sits directly in the working directory, named after the disk's file name plus `.gz` |
| Appliance.ZipPathInjective | ArchipelAgent/archipel-agent-vmcasting/archipelagentvmcasting/appliancecompresser.py:116 | two disks get the same compressed path exactly when their file names agree |
| Appliance.ZipPaths | ArchipelAgent/archipel-agent-vmcasting/archipelagentvmcasting/appliancecompresser.py:90-96 | one compressed path per disk, in input order, each the disk's `compress_disk` path |
| Appliance.ZipPathsStep | ArchipelAgent/archipel-agent-vmcasting/archipelagentvmcasting/appliancecompresser.py:90-96 | compressing one more disk appends just its compressed path |
| Appliance.RewritePathsStep | ArchipelAgent/archipel-agent-vmcasting/archipelagentvmcasting/appliancecompresser.py:94 | rewriting one more disk replaces its path in the text the earlier rewrites left |
| Appliance.ArchivedDefinitionForgetsDescription | ArchipelAgent/archipel-agent-vmcasting/archipelagentvmcasting/appliancecompresser.py:73-74 | the archived definition does not depend on the description text, so `jid::::password` stays out |
| Appliance.Layout | ArchipelAgent/archipel-agent-vmcasting/archipelagentvmcasting/appliancecompresser.py:79-99 | the archive has 1 + #snapshots + #disks entries |
| Appliance.LayoutOrder | ArchipelAgent/archipel-agent-vmcasting/archipelagentvmcasting/appliancecompresser.py:79-99 | the description first, then the snapshots in order, then `/<file>.gz` per disk in input order |
| Appliance.SnapshotNameInjective | ArchipelAgent/archipel-agent-vmcasting/archipelagentvmcasting/appliancecompresser.py:83 | distinct snapshot indexes give distinct entry names |
| Appliance.LayoutArcname | ArchipelAgent/archipel-agent-vmcasting/archipelagentvmcasting/appliancecompresser.py:79-99 | the name of each entry, position by position |
| Appliance.XmlEntryIsNotDisk | ArchipelAgent/archipel-agent-vmcasting/archipelagentvmcasting/appliancecompresser.py:79-99 | no description or snapshot entry shares its name with a disk entry |
| Appliance.XmlEntriesDiffer | ArchipelAgent/archipel-agent-vmcasting/archipelagentvmcasting/appliancecompresser.py:79-89 | the description and the snapshot entries all carry different names |
| Appliance.DiskEntriesDiffer | ArchipelAgent/archipel-agent-vmcasting/archipelagentvmcasting/appliancecompresser.py:97-99 | disks with different file names get different entry names |
| Appliance.ArcnameDiffers | ArchipelAgent/archipel-agent-vmcasting/archipelagentvmcasting/appliancecompresser.py:79-99 | with pairwise distinct disk file names, any two positions of the archive carry different entry names |
| Appliance.LayoutArcnamesDistinct | ArchipelAgent/archipel-agent-vmcasting/archipelagentvmcasting/appliancecompresser.py:79-99 | the entry names are all distinct exactly when no two disks share a file name |
| Appliance.ApplianceCompresser.constructor | ArchipelAgent/archipel-agent-vmcasting/archipelagentvmcasting/appliancecompresser.py:33-60 | keeps the sanitised name, the disks, the definition, the snapshots and the temporary directory |
| Appliance.ApplianceCompresser.SnapshotEntries | ArchipelAgent/archipel-agent-vmcasting/archipelagentvmcasting/appliancecompresser.py:81-89 | the snapshot loop adds exactly the snapshot entries, in order |
| Appliance.ApplianceCompresser.CompressDisk | ArchipelAgent/archipel-agent-vmcasting/archipelagentvmcasting/appliancecompresser.py:108-122 | the compressed disk is written into the working directory under the disk's file name plus `.gz` |
| Appliance.ApplianceCompresser.CompressDisks | ArchipelAgent/archipel-agent-vmcasting/archipelagentvmcasting/appliancecompresser.py:90-96 | the compressed paths of all disks in order, and each disk path in the text replaced by its compressed file name in turn |
| Appliance.DiskEntries | ArchipelAgent/archipel-agent-vmcasting/archipelagentvmcasting/appliancecompresser.py:97-100 | one entry per compressed disk, named `/` plus its file name, in order |
| Appliance.ApplianceCompresser.Run | ArchipelAgent/archipel-agent-vmcasting/archipelagentvmcasting/appliancecompresser.py:65-106 | the description is emptied; the tar path, the entries in layout order, and an archived definition written before the disk paths are rewritten, so the rewrite never reaches the archive |

## Left out

- Transport: XMPP stanzas, replies, `shout`, `push_change`, presence, vCard and the avatar. A reply is reduced to the `Reply` and `Outcome` values.
- The `iq_*` handlers: only the handler choice and their error codes are modelled. The handlers' own XML reading and reply building are left out.
- The `roster`, `ip`, `libvirt-uri` and `capabilities` handlers are reduced to their selection in `process_iq`, because none of them changes any state: `roster` lists the bare jid of every registered machine (`self.virtualmachines`, the model's `vms`) in an XMPP reply, and the other three read configuration or libvirt.
- libvirt: a domain is reduced to its `info()[0]` state, and `destroy`, `undefine`, `terminate`, `inband_unregistration` and `undefine_and_disconnect` are reduced to trace entries that may raise. Event registration and `get_capabilities` are left out.
- XML parsing and serialisation: the description and name texts of a domain, and a definition around its `description` element, are given as strings.
- sqlite is modelled as a sequence of rows. The creation of the table and the SQL text are left out.
- Threads: a worker's `start` is a flag and a trace entry. No concurrency is modelled, as the source has no locking.
- Randomness and time: `uuid1`, `random.choice`, `random.randint` and `datetime.now` are parameters.
- Configuration loading, module initialisation, the permission centre and the hook registry are left out. Grants are a set of permission names, and hooks are trace entries.
- The `folder` of a machine comes from the virtual machine class, which is not part of this model. It is a function parameter `folderFor`.
- Text.Upper, Text.Lower, Text.IsSpace: only ASCII letters are case-mapped and only ASCII blanks split. The source's texts are unicode, so `get_vm_by_name` (through `Hypervisors.Hypervisor.GetVmByName` and `Hypervisors.Hypervisor.ChooseName`) also treats "é" and "É" as equal, and `split(None, 1)` (through `Text.SplitCommand`) also splits on non-ASCII blanks such as U+00A0. The model does neither.
- Hypervisors.Hypervisor.GenerateName: the source draws until it finds a free name and loops forever when every name is taken. The model takes a finite sequence of draws and reports `NamesExhausted` when all of them name taken machines.
- Hypervisors.Hypervisor.Alloc: the absent requested name (`None`) and the empty one are both written `""`, as the source's `if not requested_name` treats them alike.
- Hypervisors.Hypervisor.Alloc: the names stay unique only on the requested-name path. A generated name is checked before blanks are substituted, so a generated name with a blank can collide after substitution. The contract states that condition explicitly instead of promising unique names.
- Hypervisors.Hypervisor.Free: an unregistered uuid raises `KeyError` in the source; the model returns `UnknownVm`. The rows deleted are those of the bare form of the jid given, as the source deletes by `jid.getStripped()` of its argument.
- Hypervisors.Hypervisor.FreeForMigration: the delete statement is built by string formatting; the model deletes the rows with that jid and does not model quoting.
- Hypervisors.Hypervisor.Clone: the parent name handed to the clone hook is the hypervisor's own `self.name`, as the source writes it.
- Appliance.ApplianceCompresser.Run: the tar, gzip, temporary-file, move and clean-up steps and the callback are left out. Disks from different directories with the same file name collide in the archive; `LayoutArcnamesDistinct` states when they do.
- Hypervisors.Hypervisor.MessageAlloc, Hypervisors.Hypervisor.MessageFree, Hypervisors.Hypervisor.MessageClone: the reply texts are reduced to `Reply` values, and `build_error_message` to `Failed`.
