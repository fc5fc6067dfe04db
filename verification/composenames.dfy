/** The names and start commands the compose compiler derives for nodes
    and networks in `_compileNode` and `_compileNet`
    (seedemu/compiler/Docker.py). */
module ComposeNames {
  import opened Wrappers
  import opened Strings
  import opened Ipv4

  /** `_contextToPrefix`: `{type}_{scope}_`. */
  function ContextToPrefix(scope: string, kind: string): (r: string)
    ensures |r| == |kind| + |scope| + 2
  {
    kind + "_" + scope + "_"
  }

  /** The directory and service id of a node: its registry context
      followed by its name. */
  function NodeDirName(scope: string, kind: string, name: string): string
  {
    ContextToPrefix(scope, kind) + name
  }

  /** When the type and scope hold no underscore, splitting the node's
      directory name at underscores gives back the type, the scope and the
      pieces of the name. */
  lemma NodeDirNameSplit(scope: string, kind: string, name: string)
    requires '_' !in kind && '_' !in scope
    ensures Split(NodeDirName(scope, kind, name), '_') == [kind, scope] + Split(name, '_')
  {
    var rest := scope + "_" + name;
    assert NodeDirName(scope, kind, name) == kind + ("_" + rest);
    SplitPrefix(kind, "_" + rest, '_');
    assert ("_" + rest)[0] == '_' && ("_" + rest)[1..] == rest;
    assert Split("_" + rest, '_') == [""] + Split(rest, '_');
    assert rest == scope + ("_" + name);
    SplitPrefix(scope, "_" + name, '_');
    assert ("_" + name)[0] == '_' && ("_" + name)[1..] == name;
    assert Split("_" + name, '_') == [""] + Split(name, '_');
    assert kind + "" == kind && scope + "" == scope;
  }

  /** ... so distinct registry entries never share a directory. */
  lemma NodeDirNameInjective(s1: string, k1: string, n1: string, s2: string, k2: string, n2: string)
    requires '_' !in k1 && '_' !in s1 && '_' !in k2 && '_' !in s2
    requires NodeDirName(s1, k1, n1) == NodeDirName(s2, k2, n2)
    ensures s1 == s2 && k1 == k2 && n1 == n2
  {
    NodeDirNameSplit(s1, k1, n1);
    NodeDirNameSplit(s2, k2, n2);
    var p := Split(NodeDirName(s1, k1, n1), '_');
    assert Split(n1, '_') == p[2..] == Split(n2, '_');
    JoinSplit(n1, '_');
    JoinSplit(n2, '_');
  }

  /** The compose id of a network: a bridge keeps its bare name, any
      other network is prefixed with its `net` context. */
  function NetId(scope: string, name: string, bridge: bool): (r: string)
    ensures bridge ==> r == name
    ensures !bridge ==> r == ContextToPrefix(scope, "net") + name
  {
    (if bridge then "" else ContextToPrefix(scope, "net")) + name
  }

  /** The node roles `_nodeRoleToString` knows, and any other. */
  datatype NodeRole = Host | Router | RouteServer | OtherRole(roleName: string)

  /** `_nodeRoleToString`: the role letter(s); any other role fails the
      assertion. */
  function RoleText(role: NodeRole): (r: Result<string>)
    ensures r.Failure? <==> role.OtherRole?
    ensures r.Success? ==> r.value in {"h", "r", "rs"}
    ensures r.Success? ==> (r.value == "h" <==> role.Host?) && (r.value == "r" <==> role.Router?)
  {
    match role
    case Host => Success("h")
    case Router => Success("r")
    case RouteServer => Success("rs")
    case OtherRole(roleName) => Failure("unknow node role " + roleName)
  }

  /** The characters the name pattern `[^a-zA-Z0-9_.-]` leaves alone. */
  predicate NameChar(c: char)
  {
    ('a' <= c <= 'z') || ('A' <= c <= 'Z') || ('0' <= c <= '9') || c == '_' || c == '.' || c == '-'
  }

  /** `sub(r'[^a-zA-Z0-9_.-]', '_', name)`. */
  function Sanitize(s: string): (r: string)
    ensures |r| == |s|
  {
    if |s| == 0 then "" else [if NameChar(s[0]) then s[0] else '_'] + Sanitize(s[1..])
  }

  predicate AllNameChars(s: string)
  {
    forall i :: 0 <= i < |s| ==> NameChar(s[i])
  }

  /** Each character is kept when allowed and becomes `_` otherwise. */
  lemma {:induction false} SanitizeAt(s: string, i: nat)
    requires i < |s|
    ensures Sanitize(s)[i] == if NameChar(s[i]) then s[i] else '_'
  {
    if i > 0 {
      SanitizeAt(s[1..], i - 1);
    }
  }

  /** The sanitised name holds allowed characters only. */
  lemma SanitizeAllowed(s: string)
    ensures AllNameChars(Sanitize(s))
  {
    forall i | 0 <= i < |s| ensures NameChar(Sanitize(s)[i]) {
      SanitizeAt(s, i);
    }
  }

  /** A name is left unchanged exactly when it is already clean. */
  lemma SanitizeFixed(s: string)
    ensures Sanitize(s) == s <==> AllNameChars(s)
  {
    forall i | 0 <= i < |s| ensures Sanitize(s)[i] == if NameChar(s[i]) then s[i] else '_' {
      SanitizeAt(s, i);
    }
    if !AllNameChars(s) {
      var i :| 0 <= i < |s| && !NameChar(s[i]);
      assert Sanitize(s)[i] != s[i];
    }
  }

  lemma SanitizeIdempotent(s: string)
    ensures Sanitize(Sanitize(s)) == Sanitize(s)
  {
    SanitizeAllowed(s);
    SanitizeFixed(Sanitize(s));
  }

  /** The default naming scheme `as{asn}{role}-{displayName}-{primaryIp}`,
      sanitised: the display name falls back to the node name and the
      primary address is that of the first interface, so a node without
      interfaces, or with a role outside the three, fails. */
  function DefaultContainerName(asn: nat, role: NodeRole, name: string, displayName: Option<string>,
                                addresses: seq<Option<nat>>): (r: Result<string>)
    requires forall i :: 0 <= i < |addresses| ==> addresses[i].Some? ==> IsAddress(addresses[i].value)
    ensures r.Failure? <==> role.OtherRole? || |addresses| == 0
    ensures r.Success? ==> AllNameChars(r.value)
    ensures r.Success? ==> StartsWith(r.value, "as" + NatText(asn))
  {
    var roleText :- RoleText(role);
    if |addresses| == 0 then Failure("list index out of range")
    else
      var shown := if displayName.Some? then displayName.value else name;
      var rest := roleText + "-" + shown + "-" + OptAddrText(addresses[0]);
      AsnPrefixKept(NatText(asn), rest);
      Success(Sanitize("as" + NatText(asn) + rest))
  }

  /** The `as<digits>` head survives sanitising. */
  lemma AsnPrefixKept(digits: string, rest: string)
    requires IsDigits(digits)
    ensures StartsWith(Sanitize("as" + digits + rest), "as" + digits)
    ensures AllNameChars(Sanitize("as" + digits + rest))
  {
    SanitizeAllowed("as" + digits + rest);
    var s := "as" + digits + rest;
    var p := "as" + digits;
    forall i | 0 <= i < |p| ensures Sanitize(s)[i] == p[i] {
      SanitizeAt(s, i);
      assert s[i] == p[i];
    }
  }

  /** The script the boot sequence runs first under self-managed
      networking. */
  const ReplaceCommand := "/replace_address.sh"

  /** One start command: `cmd`, with ` &` appended when forked. */
  function CommandLine(cmd: string, fork: bool): (r: string)
    ensures fork <==> |r| == |cmd| + 2
    ensures StartsWith(r, cmd)
  {
    cmd + (if fork then " &" else "")
  }

  /** The lines of `start_commands`: the rewrite script first when the
      network is self-managed, then the node's commands in order. */
  function StartLines(selfManaged: bool, cmds: seq<(string, bool)>): (r: seq<string>)
    ensures |r| == |cmds| + (if selfManaged then 1 else 0)
    ensures selfManaged ==> r[0] == ReplaceCommand
    ensures var k := if selfManaged then 1 else 0;
            forall i :: 0 <= i < |cmds| ==> r[k + i] == CommandLine(cmds[i].0, cmds[i].1)
  {
    (if selfManaged then [ReplaceCommand] else [])
    + seq(|cmds|, i requires 0 <= i < |cmds| => CommandLine(cmds[i].0, cmds[i].1))
  }

  /** The `start_commands` text the start script receives. */
  function StartCommands(selfManaged: bool, cmds: seq<(string, bool)>): string
  {
    Terminated(StartLines(selfManaged, cmds))
  }

  /** Reading the start-command text back line by line gives the rewrite
      script (when self-managed) and then each command with its fork
      marker, in order, followed by the empty piece after the final
      newline. */
  lemma StartCommandsLines(selfManaged: bool, cmds: seq<(string, bool)>)
    requires forall i :: 0 <= i < |cmds| ==> '\n' !in cmds[i].0
    ensures Split(StartCommands(selfManaged, cmds), '\n') == StartLines(selfManaged, cmds) + [""]
  {
    var lines := StartLines(selfManaged, cmds);
    TerminatedIsJoin(lines);
    var k := if selfManaged then 1 else 0;
    forall i | 0 <= i < |lines + [""]| ensures '\n' !in (lines + [""])[i] {
      if k <= i < |lines| {
        assert lines[i] == CommandLine(cmds[i - k].0, cmds[i - k].1);
      }
    }
    SplitJoin(lines + [""], '\n');
  }
}
