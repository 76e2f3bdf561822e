/**
  The control-namespace request dispatcher of the hypervisor, its error codes,
  the word parsing of the chat commands, and the libvirt URI it hands to
  migrating peers.
 */
module Dispatch {
  import opened Options
  import opened Text

  /** The request handlers `process_iq` can select. */
  datatype Handler =
    | AllocHandler
    | FreeHandler
    | RosterHandler
    | CloneHandler
    | IpHandler
    | UriHandler
    | CapabilitiesHandler

  /** The action word that selects each handler, which is also the permission guarding it. */
  function ActionName(h: Handler): string {
    match h
    case AllocHandler => "alloc"
    case FreeHandler => "free"
    case RosterHandler => "rostervm"
    case CloneHandler => "clone"
    case IpHandler => "ip"
    case UriHandler => "uri"
    case CapabilitiesHandler => "capabilities"
  }

  /** The `if ... elif` chain on the action: an exact match on one of seven words. */
  function HandlerFor(action: string): (h: Option<Handler>)
    ensures h.Some? ==> ActionName(h.value) == action
  {
    if action == "alloc" then Some(AllocHandler)
    else if action == "free" then Some(FreeHandler)
    else if action == "rostervm" then Some(RosterHandler)
    else if action == "clone" then Some(CloneHandler)
    else if action == "ip" then Some(IpHandler)
    else if action == "uri" then Some(UriHandler)
    else if action == "capabilities" then Some(CapabilitiesHandler)
    else None
  }

  /** Every handler is reached by its own action word: selection is a bijection onto the seven words. */
  lemma HandlerForActionName(h: Handler)
    ensures HandlerFor(ActionName(h)) == Some(h)
  {
  }

  /**
    The permission check is skipped when the action occurs inside the text
    `"uri"`: `('uri')` is a string, not a tuple, so `in` tests for a substring.
   */
  predicate SkipsPermissionCheck(action: string) {
    Contains("uri", action)
  }

  /** The actions that skip the check are exactly the seven substrings of `"uri"`. */
  lemma SkipsPermissionCheckExactly(action: string)
    ensures SkipsPermissionCheck(action) <==>
      action == "" || action == "u" || action == "r" || action == "i" ||
      action == "ur" || action == "ri" || action == "uri"
  {
    var s := "uri";
    assert s[1..] == "ri" && s[2..] == "i" && s[3..] == "";
    assert s[..0] == "" && s[..1] == "u" && s[..2] == "ur" && s[..3] == "uri";
    assert "ri"[..0] == "" && "ri"[..1] == "r" && "ri"[..2] == "ri";
    assert "i"[..0] == "" && "i"[..1] == "i";
    assert Contains("uri", action) ==
      (StartsWith("uri", action) || StartsWith("ri", action) || StartsWith("i", action) || StartsWith("", action));
  }

  /** What becomes of a control request. */
  datatype Outcome = PermissionDenied | Handled(handler: Handler) | Ignored

  /**
    `process_iq`: check the sender's permission named by the action unless the
    action skips the check, then run the one handler the action selects.
    `granted` is the set of permissions the sender holds.
   */
  function ProcessIq(action: string, granted: set<string>): (o: Outcome)
    ensures o == PermissionDenied <==> !SkipsPermissionCheck(action) && action !in granted
    ensures o.Handled? <==> o != PermissionDenied && HandlerFor(action).Some?
    ensures o.Handled? ==> ActionName(o.handler) == action
  {
    if !SkipsPermissionCheck(action) && action !in granted then PermissionDenied
    else
      match HandlerFor(action)
      case Some(h) => Handled(h)
      case None => Ignored
  }

  /** Without any grant, only the URI request is served; with its own grant, every handler is. */
  lemma ProcessIqGuards(h: Handler, granted: set<string>)
    ensures ProcessIq(ActionName(h), granted) == Handled(h) <==> h == UriHandler || ActionName(h) in granted
  {
    SkipsPermissionCheckExactly(ActionName(h));
  }

  // ---------------------------------------------------------------------
  // Error codes
  // ---------------------------------------------------------------------

  const AllocMigrationErrorCode := -9007
  const FreeMigrationErrorCode := -9008

  /** The code an error reply of each handler carries. */
  function ErrorCode(h: Handler): (code: int)
    ensures -9009 <= code <= -9001 && code != AllocMigrationErrorCode && code != FreeMigrationErrorCode
  {
    match h
    case AllocHandler => -9001
    case FreeHandler => -9002
    case RosterHandler => -9003
    case CloneHandler => -9004
    case IpHandler => -9005
    case UriHandler => -9006
    case CapabilitiesHandler => -9009
  }

  /** Distinct handlers answer with distinct error codes. */
  lemma ErrorCodeInjective(h1: Handler, h2: Handler)
    requires ErrorCode(h1) == ErrorCode(h2)
    ensures h1 == h2
  {
  }

  // ---------------------------------------------------------------------
  // Chat commands: `body.split(None, 1)`
  // ---------------------------------------------------------------------

  /** `message_alloc`'s requested name: the rest of the body after the command word; `""` for none. */
  function MessageAllocName(body: string): (name: string)
    ensures name != "" <==> |SplitCommand(body)| == 2
  {
    var tokens := SplitCommand(body);
    SplitCommandShape(body, tokens);
    if |tokens| == 2 then tokens[1] else ""
  }

  /** The identifier `message_free` and `message_clone` act on; `None` is the wrong-format reply. */
  function MessageIdentifier(body: string): (id: Option<string>)
    ensures id.Some? <==> |SplitCommand(body)| == 2
    ensures id.Some? ==> id.value != "" && !IsSpace(id.value[0])
  {
    var tokens := SplitCommand(body);
    SplitCommandShape(body, tokens);
    if |tokens| == 2 then Some(tokens[1]) else None
  }

  /** A command word followed by a blank and an argument yields that argument, blanks and all. */
  lemma MessageArgument(cmd: string, arg: string)
    requires cmd != "" && forall i :: 0 <= i < |cmd| ==> !IsSpace(cmd[i])
    requires arg != "" && !IsSpace(arg[0])
    ensures MessageAllocName(cmd + " " + arg) == arg
    ensures MessageIdentifier(cmd + " " + arg) == Some(arg)
  {
    CommandWithArgument(cmd, arg);
  }

  /** A command word alone carries no name (a generated one is used) and no identifier. */
  lemma MessageWithoutArgument(cmd: string)
    requires cmd != "" && forall i :: 0 <= i < |cmd| ==> !IsSpace(cmd[i])
    ensures MessageAllocName(cmd) == ""
    ensures MessageIdentifier(cmd) == None
  {
    CommandAlone(cmd);
  }

  // ---------------------------------------------------------------------
  // Migration URI
  // ---------------------------------------------------------------------

  /**
    `migration_libvirt_uri`: the configured URI when there is one, else the
    local URI with its `///` turned into `//ip/`.
   */
  function MigrationLibvirtUri(configured: Option<string>, localUri: string, ip: string): string {
    if configured.Some? then configured.value else Replace(localUri, "///", "//" + ip + "/")
  }

  /** A local URI `scheme:///path` becomes `scheme://ip/path`; a configured URI wins. */
  lemma MigrationUriOfLocal(scheme: string, path: string, ip: string)
    requires '/' !in scheme && !Contains(path, "///")
    ensures MigrationLibvirtUri(None, scheme + "///" + path, ip) == scheme + "//" + ip + "/" + path
    ensures forall c :: MigrationLibvirtUri(Some(c), scheme + "///" + path, ip) == c
  {
    var p, r := "///", "//" + ip + "/";
    var local := scheme + "///" + path;
    assert local == scheme + (p + path);
    ReplaceSkipsPrefix(scheme, p + path, p, r);
    ReplaceAtStart(p, path, r);
    ReplaceAbsent(path, p, r);
    assert Replace(local, p, r) == scheme + (r + path);
  }
}
