/**
  The part of live migration the hypervisor decides on its own: which libvirt
  lifecycle events it reacts to, and how it reads a migrated machine's jid and
  password back from the `description` of the domain definition, where they
  are stored joined by `::::`.
 */
module Migration {
  import opened Options
  import opened Text

  // virDomainEventType and the details of its STOPPED and RESUMED events
  const EventResumed := 4
  const EventStopped := 5
  const ResumedMigrated := 1
  const StoppedMigrated := 3

  /** The domain left this host at the end of a live migration. */
  predicate IsMigratedStop(event: int, detail: int) {
    event == EventStopped && detail == StoppedMigrated
  }

  /** The domain arrived on this host at the end of a live migration. */
  predicate IsMigratedResume(event: int, detail: int) {
    event == EventResumed && detail == ResumedMigrated
  }

  const Separator := "::::"

  /** The description text a managed machine carries: its jid and password, joined by the separator. */
  function Description(jid: string, password: string): string {
    jid + Separator + password
  }

  /**
    The jid text of a departing machine: the first field of the description.
    `None` stands for a definition without a `description` element, on which the
    handler's attribute access raises.
   */
  function DepartingJidText(description: Option<string>): (r: Option<string>)
    ensures r.Some? <==> description.Some?
    ensures r.Some? ==> StartsWith(description.value, r.value)
  {
    match description
    case None => None
    case Some(d) =>
      var parts := Split(d, Separator);
      JoinSplit(d, Separator);
      FirstPieceIsPrefix(parts, Separator);
      Some(parts[0])
  }

  /** What the handler reads from an arriving domain: jid text, password, and the domain's name. */
  datatype Arrival = Arrival(jid: string, password: string, name: string)

  /**
    The fields of an arriving machine, or `None` where the handler raises: no
    description, no separator in it (field 1 is missing), or no name.
   */
  function ArrivalFields(description: Option<string>, name: Option<string>): (r: Option<Arrival>)
    ensures r.Some? <==> description.Some? && name.Some? && Contains(description.value, Separator)
    ensures r.Some? ==> r.value.name == name.value
  {
    if description.None? || name.None? then None
    else
      var parts := Split(description.value, Separator);
      SplitHasSecondField(description.value);
      if |parts| < 2 then None else Some(Arrival(parts[0], parts[1], name.value))
  }

  /** Field 1 exists exactly when the separator occurs. */
  lemma SplitHasSecondField(d: string)
    ensures |Split(d, Separator)| >= 2 <==> Contains(d, Separator)
  {
    if Contains(d, Separator) {
      SplitWith(d, Separator);
    } else {
      SplitWithout(d, Separator);
    }
  }

  lemma FirstPieceIsPrefix(parts: seq<string>, sep: string)
    requires |parts| > 0
    ensures StartsWith(Join(parts, sep), parts[0])
  {
    if |parts| > 1 {
      assert Join(parts, sep) == parts[0] + (sep + Join(parts[1..], sep));
    }
  }

  /**
    Round trip: a description written from a jid without `:` and a password
    without the separator gives back that jid to the departure handler and
    that jid and password to the arrival handler.
   */
  lemma DescriptionRoundTrip(jid: string, password: string, name: string)
    requires ':' !in jid && !Contains(password, Separator)
    ensures DepartingJidText(Some(Description(jid, password))) == Some(jid)
    ensures ArrivalFields(Some(Description(jid, password)), Some(name)) == Some(Arrival(jid, password, name))
  {
    SplitAfterField(jid, Separator, password);
    SplitWithout(password, Separator);
  }

  /** A text without `:`, such as a uuid jid or a password of letters and digits, never holds the separator. */
  lemma ColonFreeHasNoSeparator(s: string)
    requires ':' !in s
    ensures !Contains(s, Separator)
  {
    if Contains(s, Separator) {
      ContainsFirst(s, Separator);
    }
  }
}
