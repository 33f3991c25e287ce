// Messages from the cloud to the edge: routing tokens, keys and resource versions.
module Messages {
  import opened Text

  const DELETE_OPERATION := "delete"
  const GROUP_RESOURCE := "resource"
  const SRC_MANAGER := "edgemgr"
  const RES_NODE := "node"
  const MAX_UINT64: nat := 0xFFFF_FFFF_FFFF_FFFF

  /** What meta.Accessor sees in a message body: not an object at all, or an object's metadata. */
  datatype Content = Opaque | Object(uid: string, deleting: bool)

  datatype Message = Message(id: string, group: string, source: string, resource: string,
                             operation: string, version: string, content: Content)

  /** The i-th token of the routing path, or the empty string when there are not that many. */
  function Token(m: Message, i: nat): string {
    var tokens := Split(m.resource, '/');
    if i < |tokens| then tokens[i] else ""
  }

  function Namespace(m: Message): string { Token(m, 2) }
  function ResourceType(m: Message): string { Token(m, 3) }
  function ResourceName(m: Message): string { Token(m, 4) }

  /** Only messages of the resource group have a key in the node store. */
  predicate HasKey(m: Message) { m.group == GROUP_RESOURCE }

  function Key(m: Message): string {
    Join([ResourceType(m), Namespace(m), ResourceName(m)], '/')
  }

  predicate IsDelete(m: Message) {
    m.operation == DELETE_OPERATION || (m.content.Object? && m.content.deleting)
  }

  /** strconv.ParseUint(s, 10, 64). */
  function ParseUint(s: string): Option<nat> {
    if IsDigits(s) && Decimal(s) <= MAX_UINT64 then Some(Decimal(s)) else None
  }

  /** CompareResourceVersion; None is the panic on a version that is not a number. */
  function Compare(a: string, b: string): Option<int> {
    var x, y := ParseUint(a), ParseUint(b);
    if x.None? || y.None? then None
    else Some(if x.value > y.value then 1 else if x.value == y.value then 0 else -1)
  }

  /** Strictly increasing versions, or the very same one. */
  ghost predicate NotNewer(a: string, b: string) {
    a == b || (ParseUint(a).Some? && ParseUint(b).Some? && ParseUint(a).value < ParseUint(b).value)
  }

  /** The very same version, or one whose value is not smaller. */
  ghost predicate NotLower(a: string, b: string) {
    a == b || (ParseUint(a).Some? && ParseUint(b).Some? && ParseUint(a).value <= ParseUint(b).value)
  }

  /** A numeral without leading zeros, as the API server writes versions, or no number at all. */
  ghost predicate Canonical(s: string) { ParseUint(s).Some? ==> Itoa(ParseUint(s).value) == s }

  /** BuildResource: the routing path of a message for one node. */
  function BuildResource(node: string, namespace: string, kind: string, name: string): Option<string> {
    if namespace == "" || kind == "" || node == "" then None
    else Some(Join([RES_NODE, node, namespace, kind] + (if name == "" then [] else [name]), '/'))
  }

  /** trimMessage: what goes over the wire has no node prefix. */
  function Trim(m: Message): Message {
    if RES_NODE <= m.resource then
      var tokens := Split(m.resource, '/');
      if |tokens| < 3 then m else m.(resource := Join(tokens[2..], '/'))
    else m
  }

  /** GetNodeID: the first non-empty token that follows a token "node". */
  function NodeIn(tokens: seq<string>): Option<string> {
    if |tokens| < 2 then None
    else if tokens[0] == RES_NODE && tokens[1] != "" then Some(tokens[1])
    else NodeIn(tokens[1..])
  }

  function NodeID(m: Message): Option<string> { NodeIn(Split(m.resource, '/')) }

  /** A message routed with BuildResource reaches that node under one key, and the wire copy loses only the node. */
  lemma RoutedMessage(m: Message, node: string, namespace: string, kind: string, name: string)
    requires SlashFree(node) && SlashFree(namespace) && SlashFree(kind) && SlashFree(name)
    requires node != "" && namespace != "" && kind != "" && name != ""
    requires BuildResource(node, namespace, kind, name) == Some(m.resource)
    ensures NodeID(m) == Some(node)
    ensures Namespace(m) == namespace && ResourceType(m) == kind && ResourceName(m) == name
    ensures Split(Key(m), '/') == [kind, namespace, name]
    ensures Split(Trim(m).resource, '/') == [namespace, kind, name]
  {
    var parts := [RES_NODE, node, namespace, kind] + [name];
    SplitJoin(parts, '/');
    assert Split(m.resource, '/') == parts;
    assert RES_NODE <= m.resource by {
      assert m.resource == RES_NODE + (['/'] + Join(parts[1..], '/'));
    }
    SplitJoin([kind, namespace, name], '/');
    assert parts[2..] == [namespace, kind, name];
    SplitJoin([namespace, kind, name], '/');
  }

  const OP_GET := "get"
  const OP_DELTA := "delta"
  const OP_DOC := "document"
  const OP_DELETED := "deleted"

  /** IsToEdge: everything but a few manager requests that stay in the cloud. */
  predicate IsToEdge(m: Message) {
    m.source != SRC_MANAGER ||
    var r := Trim(m).resource;
    !(|| (m.operation == OP_GET && Contains(r, "membership"))
      || (m.operation in {OP_DELTA, OP_DOC, OP_GET} && Contains(r, "twin"))
      || (m.operation == OP_GET && Contains(r, "auth_info"))
      || (m.operation == OP_DELETED && Contains(r, RES_NODE)))
  }

  /** Exactly the decimal numerals below 2 to the 64 are versions. */
  lemma ParseUintIff(s: string)
    ensures ParseUint(s).Some? <==>
            s != "" && (forall i :: 0 <= i < |s| ==> '0' <= s[i] <= '9') && Decimal(s) < 0x1_0000_0000_0000_0000
  {
  }

  lemma ParsesBack(v: nat)
    ensures ParseUint(Itoa(v)) == if v < 0x1_0000_0000_0000_0000 then Some(v) else None
  {
    DecimalItoa(v);
  }

  /** A routing path needs a node, a namespace and a kind; without a name it ends with the kind. */
  lemma PathIs(node: string, namespace: string, kind: string, name: string)
    requires SlashFree(node) && SlashFree(namespace) && SlashFree(kind) && SlashFree(name)
    ensures BuildResource(node, namespace, kind, name).Some? <==> node != "" && namespace != "" && kind != ""
    ensures BuildResource(node, namespace, kind, name).Some? ==>
            Split(BuildResource(node, namespace, kind, name).value, '/') ==
            if name == "" then ["node", node, namespace, kind] else ["node", node, namespace, kind, name]
  {
    var parts := [RES_NODE, node, namespace, kind] + (if name == "" then [] else [name]);
    SplitJoin(parts, '/');
  }

  /** The token pair at this position names a node. */
  ghost predicate NamesNode(tokens: seq<string>, i: nat) { i + 1 < |tokens| && tokens[i] == "node" && tokens[i + 1] != "" }

  /** The node of a message is the token after the first "node" that is followed by something. */
  lemma {:induction false} NodeIs(tokens: seq<string>, i: nat)
    requires NamesNode(tokens, i) && forall j: nat :: j < i ==> !NamesNode(tokens, j)
    ensures NodeIn(tokens) == Some(tokens[i + 1])
  {
    if i > 0 {
      assert !NamesNode(tokens, 0);
      forall j: nat | j < i - 1 ensures !NamesNode(tokens[1..], j) { assert !NamesNode(tokens, j + 1); }
      NodeIs(tokens[1..], i - 1);
    }
  }

  lemma {:induction false} NoNode(tokens: seq<string>)
    requires forall j: nat :: !NamesNode(tokens, j)
    ensures NodeIn(tokens) == None
  {
    if |tokens| >= 2 {
      assert !NamesNode(tokens, 0);
      forall j: nat ensures !NamesNode(tokens[1..], j) { assert !NamesNode(tokens, j + 1); }
      NoNode(tokens[1..]);
    }
  }
}
