// Keys of the edge meta server: printed from a request or an object, and parsed back.
module MetaKey {
  import opened Text

  const GROUP_CORE := "core"
  const NULL_NAMESPACE := "null"
  const NULL_NAME := "null"

  /** What the context says about a request; the legacy API has prefix "api" and no group. */
  datatype Request = Request(isResource: bool, prefix: string, group: string, version: string, resource: string, namespace: string, name: string)

  datatype Object = Object(group: string, version: string, resource: string, namespace: string, name: string)

  /** What a key stands for. */
  datatype Meaning = Meaning(group: string, version: string, resource: string, namespace: string, name: string)

  const NO_MEANING := Meaning("", "", "", "", "")

  function TrimSuffix(s: string): string { if s != "" && s[|s| - 1] == '/' then s[..|s| - 1] else s }

  function Print(group: string, version: string, resource: string, namespace: string, name: string): string {
    TrimSuffix("/" + group + "/" + version + "/" + resource + "/" + namespace + "/" + name)
  }

  /** KeyFuncReq. */
  function KeyOfRequest(r: Request): Option<string> {
    if !r.isResource || (r.prefix != "api" && (r.prefix != "apis" || r.group == "")) then None
    else Some(Print(if r.prefix == "api" then GROUP_CORE else r.group, r.version, r.resource,
                    if r.namespace != "" then r.namespace else NULL_NAMESPACE, if r.name != "" then r.name else NULL_NAME))
  }

  /** KeyFuncObj for an object whose kind is known by its resource name; an object without type information has no key. */
  function KeyOfObject(o: Object): Option<string> {
    if o.group == "" && o.version == "" && o.resource == "" then None
    else Some(Print(if o.group == "" then GROUP_CORE else o.group, o.version, o.resource,
                    if o.namespace != "" then o.namespace else NULL_NAMESPACE, o.name))
  }

  function TrimAll(s: string): (r: string)
    ensures r == "" || r[|r| - 1] != '/'
    ensures r <= s
  {
    if s != "" && s[|s| - 1] == '/' then TrimAll(s[..|s| - 1]) else s
  }

  /** The part at an index, or the first one when the index is out of range. */
  function Part(parts: seq<string>, i: nat): string
    requires parts != []
  {
    parts[if i >= |parts| then 0 else i]
  }

  /** What the parts of a key mean; the placeholders stand for empty parts. */
  function Interpret(parts: seq<string>): Meaning
    requires parts != []
  {
    var (group, namespace, name) := (Part(parts, 1), Part(parts, 4), Part(parts, 5));
    Meaning(if group == GROUP_CORE then "" else group, Part(parts, 2), Part(parts, 3),
            if namespace == NULL_NAMESPACE then "" else namespace, if name == NULL_NAME then "" else name)
  }

  /** ParseKey. No part can hold a slash, so parsing group and version cannot fail. */
  function Parse(key: string): Meaning {
    var trimmed := TrimAll(key);
    if trimmed == "" then NO_MEANING
    else
      var parts := Split(trimmed, '/');
      if parts[0] != "" then NO_MEANING else Interpret(parts)
  }

  // ---------------------------------------------------------------- properties

  ghost predicate Slashes(s: string) { forall i :: 0 <= i < |s| ==> s[i] == '/' }

  /** Trailing slashes never change what a key stands for. */
  lemma {:induction false} TrailingSlashes(key: string, tail: string)
    requires Slashes(tail)
    ensures Parse(key + tail) == Parse(key)
  {
    TrimTail(key, tail);
  }

  lemma {:induction false} TrimTail(key: string, tail: string)
    requires Slashes(tail)
    ensures TrimAll(key + tail) == TrimAll(key)
  {
    if tail == "" {
      assert key + tail == key;
    } else {
      var s := key + tail;
      assert s[..|s| - 1] == key + tail[..|tail| - 1];
      TrimTail(key, tail[..|tail| - 1]);
    }
  }

  ghost predicate AllSlashFree(r: Request) {
    SlashFree(r.group) && SlashFree(r.version) && SlashFree(r.resource) && SlashFree(r.namespace) && SlashFree(r.name)
  }

  function PartsOf(group: string, version: string, resource: string, namespace: string, name: string): seq<string> {
    ["", group, version, resource, namespace, name]
  }

  lemma JoinSix(a: string, b: string, c: string, d: string, e: string, f: string)
    ensures Join([a, b, c, d, e, f], '/') == a + "/" + b + "/" + c + "/" + d + "/" + e + "/" + f
  {
    var p := [a, b, c, d, e, f];
    assert p[1..] == [b, c, d, e, f] && p[1..][1..] == [c, d, e, f];
    assert Join([e, f], '/') == e + "/" + f by { assert [e, f][1..] == [f]; }
    assert Join([d, e, f], '/') == d + "/" + Join([e, f], '/') by { assert [d, e, f][1..] == [e, f]; }
    assert Join([c, d, e, f], '/') == c + "/" + Join([d, e, f], '/') by { assert [c, d, e, f][1..] == [d, e, f]; }
    assert Join([b, c, d, e, f], '/') == b + "/" + Join([c, d, e, f], '/') by { assert [b, c, d, e, f][1..] == [c, d, e, f]; }
  }

  /** A printed key with a name splits into exactly its parts. */
  lemma PrintedParts(group: string, version: string, resource: string, namespace: string, name: string)
    requires SlashFree(group) && SlashFree(version) && SlashFree(resource) && SlashFree(namespace) && SlashFree(name) && name != ""
    ensures var key := Print(group, version, resource, namespace, name);
            Parse(key) == Interpret(PartsOf(group, version, resource, namespace, name))
  {
    var raw := "/" + group + "/" + version + "/" + resource + "/" + namespace + "/" + name;
    assert raw[|raw| - 1] == name[|name| - 1];
    assert TrimSuffix(raw) == raw;
    JoinSix("", group, version, resource, namespace, name);
    assert "" + "/" + group == "/" + group;
    SplitJoin(PartsOf(group, version, resource, namespace, name), '/');
    ParseParts(raw, PartsOf(group, version, resource, namespace, name));
  }

  lemma ParseParts(key: string, parts: seq<string>)
    requires key != "" && key[|key| - 1] != '/' && Split(key, '/') == parts && parts[0] == ""
    ensures Parse(key) == Interpret(parts)
  {
  }

  /** Parsing a printed request key gives the request back exactly when no part is a reserved placeholder. */
  lemma RequestRoundTripIff(r: Request)
    requires AllSlashFree(r) && KeyOfRequest(r).Some?
    ensures Parse(KeyOfRequest(r).value) == Meaning(if r.prefix == "api" then "" else r.group, r.version, r.resource, r.namespace, r.name)
            <==> (r.prefix == "api" || r.group != GROUP_CORE) && r.namespace != NULL_NAMESPACE && r.name != NULL_NAME
  {
    var group := if r.prefix == "api" then GROUP_CORE else r.group;
    var namespace := if r.namespace != "" then r.namespace else NULL_NAMESPACE;
    var name := if r.name != "" then r.name else NULL_NAME;
    PrintedParts(group, r.version, r.resource, namespace, name);
  }

  /** The request that fetches an object. */
  function FetchOf(o: Object): Request {
    Request(true, if o.group == "" then "api" else "apis", o.group, o.version, o.resource, o.namespace, o.name)
  }

  /** An object and the request that fetches it have the same key exactly when the object has a name. */
  lemma ObjectAndRequestAgreeIff(o: Object)
    requires SlashFree(o.group) && SlashFree(o.version) && SlashFree(o.resource) && SlashFree(o.namespace) && SlashFree(o.name)
    requires KeyOfObject(o).Some?
    ensures KeyOfRequest(FetchOf(o)) == KeyOfObject(o) <==> o.name != ""
  {
    if o.name == "" {
      var head := "/" + (if o.group == "" then GROUP_CORE else o.group) + "/" + o.version + "/" + o.resource + "/"
                  + (if o.namespace != "" then o.namespace else NULL_NAMESPACE);
      assert KeyOfObject(o).value == TrimSuffix(head + "/" + "") == head by { assert head + "/" + "" == head + "/"; }
      assert KeyOfRequest(FetchOf(o)).value == TrimSuffix(head + "/" + NULL_NAME) == head + "/" + NULL_NAME;
    }
  }

  lemma NamelessParts(group: string, version: string, resource: string, namespace: string)
    requires SlashFree(group) && SlashFree(version) && SlashFree(resource) && SlashFree(namespace) && namespace != ""
    ensures Parse(Print(group, version, resource, namespace, "")) == Interpret(["", group, version, resource, namespace])
  {
    var five := ["", group, version, resource, namespace];
    var head := "/" + group + "/" + version + "/" + resource + "/" + namespace;
    assert head + "/" + "" == head + "/";
    assert Print(group, version, resource, namespace, "") == head;
    assert head[|head| - 1] == namespace[|namespace| - 1];
    JoinFive("", group, version, resource, namespace);
    assert "" + "/" + group == "/" + group;
    SplitJoin(five, '/');
    ParseParts(head, five);
  }

  lemma NullNameIsNone(group: string, version: string, resource: string, namespace: string)
    ensures Interpret(["", group, version, resource, namespace]) == Interpret(["", group, version, resource, namespace, NULL_NAME])
  {
  }

  /** Without a name the keys differ but still stand for the same thing. */
  lemma NamelessKeysMeanTheSame(o: Object)
    requires SlashFree(o.group) && SlashFree(o.version) && SlashFree(o.resource) && SlashFree(o.namespace) && o.name == ""
    requires KeyOfObject(o).Some?
    ensures KeyOfRequest(FetchOf(o)).Some? && Parse(KeyOfObject(o).value) == Parse(KeyOfRequest(FetchOf(o)).value)
  {
    var group := if o.group == "" then GROUP_CORE else o.group;
    var namespace := if o.namespace != "" then o.namespace else NULL_NAMESPACE;
    PrintedParts(group, o.version, o.resource, namespace, NULL_NAME);
    NamelessParts(group, o.version, o.resource, namespace);
    NullNameIsNone(group, o.version, o.resource, namespace);
  }

  lemma JoinFive(a: string, b: string, c: string, d: string, e: string)
    ensures Join([a, b, c, d, e], '/') == a + "/" + b + "/" + c + "/" + d + "/" + e
  {
    assert [a, b, c, d, e][1..] == [b, c, d, e];
    assert Join([d, e], '/') == d + "/" + e by { assert [d, e][1..] == [e]; }
    assert Join([c, d, e], '/') == c + "/" + Join([d, e], '/') by { assert [c, d, e][1..] == [d, e]; }
    assert Join([b, c, d, e], '/') == b + "/" + Join([c, d, e], '/') by { assert [b, c, d, e][1..] == [c, d, e]; }
  }

  // ---------------------------------------------------------------- as written

  /** IndexCheck: every index out of range becomes 0. */
  method IndexCheck(length: nat, indexes: array<nat>)
    modifies indexes
    ensures forall i :: 0 <= i < indexes.Length ==> indexes[i] == if old(indexes[i]) >= length then 0 else old(indexes[i])
  {
    for k := 0 to indexes.Length
      invariant forall i :: 0 <= i < k ==> indexes[i] == if old(indexes[i]) >= length then 0 else old(indexes[i])
      invariant forall i :: k <= i < indexes.Length ==> indexes[i] == old(indexes[i])
    {
      if indexes[k] >= length { indexes[k] := 0; }
    }
  }

  method ParseKey(key: string) returns (m: Meaning)
    ensures m == Parse(key)
  {
    var sl := key;
    while sl != "" && sl[|sl| - 1] == '/'
      invariant TrimAll(sl) == TrimAll(key)
      decreases |sl|
    {
      sl := sl[..|sl| - 1];
    }
    if sl == "" { return NO_MEANING; }
    var slices := Split(sl, '/');
    if slices[0] != "" { return NO_MEANING; }
    var indexes := new nat[] [1, 2, 3, 4, 5];
    IndexCheck(|slices|, indexes);
    var group := slices[indexes[0]];
    if group == GROUP_CORE { group := ""; }
    var namespace := slices[indexes[3]];
    if namespace == NULL_NAMESPACE { namespace := ""; }
    var name := slices[indexes[4]];
    if name == NULL_NAME { name := ""; }
    m := Meaning(group, slices[indexes[1]], slices[indexes[2]], namespace, name);
  }

  // ---------------------------------------------------------------- the text of a key

  /** A request has a key exactly when it is for a resource of the legacy API or of a named group. */
  lemma HasKeyIff(r: Request)
    ensures KeyOfRequest(r).Some? <==> r.isResource && (r.prefix == "api" || (r.prefix == "apis" && r.group != ""))
  {
  }

  /** The key of a request spells group, version, resource, namespace and name in this order, with placeholders for what is empty. */
  lemma RequestKeyText(r: Request)
    requires KeyOfRequest(r).Some? && (r.name != "" ==> r.name[|r.name| - 1] != '/')
    ensures KeyOfRequest(r).value ==
            "/" + (if r.prefix == "api" then "core" else r.group) + "/" + r.version + "/" + r.resource + "/" +
            (if r.namespace != "" then r.namespace else "null") + "/" + (if r.name != "" then r.name else "null")
  {
    var name := if r.name != "" then r.name else "null";
    var raw := "/" + (if r.prefix == "api" then "core" else r.group) + "/" + r.version + "/" + r.resource + "/" +
               (if r.namespace != "" then r.namespace else "null") + "/" + name;
    assert raw[|raw| - 1] == name[|name| - 1];
  }

  /** An object has a key exactly when it carries type information. */
  lemma ObjectHasKeyIff(o: Object)
    ensures KeyOfObject(o).Some? <==> o.group != "" || o.version != "" || o.resource != ""
  {
  }

  /** A key that does not start with a slash stands for nothing. */
  lemma RelativeKeyMeansNothing(key: string)
    requires key == "" || key[0] != '/'
    ensures Parse(key) == Meaning("", "", "", "", "")
  {
    var trimmed := TrimAll(key);
    if trimmed != "" { assert Split(trimmed, '/')[0][0] == trimmed[0]; }
  }
}
