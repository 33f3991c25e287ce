// The sync controller's comparison of recorded versions with the objects in the cluster.
module Reconcile {
  import opened Text
  import opened Messages
  import opened CloudHub
  import opened Delivery
  import opened SuccessPoints

  const UPDATE_OPERATION := "update"
  const EDGE_CONTROLLER := "edgecontroller"

  /** What the API server answers for the object an ObjectSync names. */
  datatype Lookup = Fails | NotFound | Found(uid: string, version: string, deleting: bool)

  datatype Outcome = Nothing | Sends(msg: Message) | Panics

  /** buildEdgeControllerMessage; sending its nil result is a panic. */
  function BuildMessage(id: string, node: string, ns: string, kind: string, name: string, op: string, obj: Lookup): Outcome
    requires obj.Found?
  {
    var r := BuildResource(node, ns, kind, name);
    if r.None? then Panics
    else Sends(Message(id, GROUP_RESOURCE, EDGE_CONTROLLER, r.value, op, obj.version, Object(obj.uid, obj.deleting)))
  }

  /** manageObject and sendEvents for one ObjectSync; id is the id of a new message. */
  function Manage(id: string, slot: Slot, sync: Sync, kind: string, obj: Lookup): Outcome {
    if !obj.Found? then Nothing
    else if ObjectUID(slot.1) != obj.uid then
      BuildMessage(id, NodeName(slot.1), slot.0, kind, sync.objectName, DELETE_OPERATION, obj)
    else if sync.version == "" then Nothing
    else
      var c := Compare(obj.version, sync.version);
      if c.None? then Panics
      else if c.value > 0 then BuildMessage(id, NodeName(slot.1), slot.0, kind, sync.objectName, UPDATE_OPERATION, obj)
      else Nothing
  }

  /** Silence for a live object of the same UID means the edge has acknowledged its version or a newer one. */
  lemma QuietMeansAcknowledged(init: map<Slot, Sync>, acts: seq<Action>, ns: string, node: string, uid: string,
                               id: string, kind: string, obj: Lookup)
    requires '.' !in uid && Run(Init(init), acts).Some? && forall a :: a in acts ==> PlainAction(a)
    requires var (h, slot) := (Run(Init(init), acts).value, (ns, SyncName(node, uid)));
             && slot in h.syncs && h.syncs[slot].version != ""
             && obj.Found? && obj.uid == uid && Manage(id, slot, h.syncs[slot], kind, obj).Nothing?
    ensures var (h, slot) := (Run(Init(init), acts).value, (ns, SyncName(node, uid)));
            var v := h.syncs[slot].version;
            && ParseUint(v).Some? && ParseUint(obj.version).Some? && ParseUint(obj.version).value <= ParseUint(v).value
            && ((slot in init && init[slot].version == v) || exists i: nat :: AckedVersion(h, node, i, slot, v))
  {
    SyncNameDecodes(node, uid);
    RecordedVersionsAreTheNodesOwn(init, acts, ns, node, uid);
  }

  /** For a live object of the same UID a message goes out exactly when the cluster is strictly ahead. */
  lemma UpdateIffNewer(id: string, ns: string, node: string, uid: string, sync: Sync, kind: string, version: string, deleting: bool)
    requires '.' !in uid && node != "" && ns != "" && kind != ""
    requires ParseUint(version).Some? && ParseUint(sync.version).Some?
    ensures var out := Manage(id, (ns, SyncName(node, uid)), sync, kind, Found(uid, version, deleting));
            && (out.Sends? <==> ParseUint(sync.version).value < ParseUint(version).value)
            && (out.Sends? ==> out.msg.operation == UPDATE_OPERATION && out.msg.version == version)
            && !out.Panics?
  {
    SyncNameDecodes(node, uid);
  }

  /** Exactly when a pass over one ObjectSync sends, what it sends, and when it panics. */
  lemma ManageIff(id: string, ns: string, node: string, uid: string, sync: Sync, kind: string, obj: Lookup)
    requires '.' !in uid && node != "" && ns != "" && kind != ""
    ensures var out := Manage(id, (ns, node + "." + uid), sync, kind, obj);
            && (out.Sends? <==>
                  obj.Found? &&
                  (|| obj.uid != uid
                   || (&& ParseUint(sync.version).Some? && ParseUint(obj.version).Some?
                       && ParseUint(sync.version).value < ParseUint(obj.version).value)))
            && (out.Sends? ==>
                  && BuildResource(node, ns, kind, sync.objectName).Some?
                  && out.msg == Message(id, "resource", "edgecontroller", BuildResource(node, ns, kind, sync.objectName).value,
                                        if obj.uid != uid then "delete" else "update", obj.version, Object(obj.uid, obj.deleting)))
            && (out.Panics? <==>
                  obj.Found? && obj.uid == uid && sync.version != "" &&
                  (ParseUint(sync.version).None? || ParseUint(obj.version).None?))
  {
    SyncNameDecodes(node, uid);
  }

  /**
   * Delivering an object, whatever was recorded before, makes reconciliation silent about that version and send an update
   * for every greater one.
   */
  lemma DeliveredIsSettled(n: string, m: Message, init: map<Slot, Sync>, listed: Option<Sync>, id: string, kind: string, version: string)
    requires m.group == "resource" && m.content.Object? && !IsDelete(m) && IsToEdge(m) && FirstVerdict(m.version, listed).Admit?
    requires '.' !in m.content.uid && n != "" && Namespace(m) != "" && kind != ""
    requires ParseUint(m.version).Some? && ParseUint(version).Some?
    ensures Run(Init(init), Deliver(n, m, listed)).Some?
    ensures var (slot, h) := ((Namespace(m), n + "." + m.content.uid), Run(Init(init), Deliver(n, m, listed)).value);
            && slot in h.syncs
            && var out := Manage(id, slot, h.syncs[slot], kind, Found(m.content.uid, version, false));
               if ParseUint(version).value <= ParseUint(m.version).value then out.Nothing?
               else out.Sends? && out.msg.operation == "update" && out.msg.version == version
  {
    FirstMessageRecords(n, m, init, listed);
    var (slot, h) := ((Namespace(m), n + "." + m.content.uid), Run(Init(init), Deliver(n, m, listed)).value);
    ManageIff(id, slot.0, n, m.content.uid, h.syncs[slot], kind, Found(m.content.uid, version, false));
  }

  /** Whatever is sent goes to the node the ObjectSync belongs to, under the object's key. */
  lemma SentToItsNode(id: string, ns: string, node: string, uid: string, sync: Sync, kind: string, obj: Lookup)
    requires '.' !in uid
    requires SlashFree(node) && SlashFree(ns) && SlashFree(kind) && SlashFree(sync.objectName) && sync.objectName != ""
    requires Manage(id, (ns, SyncName(node, uid)), sync, kind, obj).Sends?
    ensures var m := Manage(id, (ns, SyncName(node, uid)), sync, kind, obj).msg;
            NodeID(m) == Some(node) && HasKey(m) && Namespace(m) == ns && Split(Key(m), '/') == [kind, ns, sync.objectName]
  {
    SyncNameDecodes(node, uid);
    RoutedMessage(Manage(id, (ns, SyncName(node, uid)), sync, kind, obj).msg, node, ns, kind, sync.objectName);
  }

  /**
   * The update for a live object is admitted unless the node's store holds a delete, or a version that is not
   * older: for example the same one, given up after five unacknowledged writes.
   */
  lemma UpdateAdmittedIff(id: string, ns: string, node: string, uid: string, sync: Sync, kind: string, version: string,
                          store: map<string, Message>)
    requires '.' !in uid && SlashFree(node) && SlashFree(ns) && SlashFree(kind) && SlashFree(sync.objectName) && sync.objectName != ""
    requires ParseUint(version).Some? && ParseUint(sync.version).Some?
    requires Manage(id, (ns, SyncName(node, uid)), sync, kind, Found(uid, version, false)).Sends?
    ensures var m := Manage(id, (ns, SyncName(node, uid)), sync, kind, Found(uid, version, false)).msg;
            var verdict := Judge(store, m, Some(sync));
            && (verdict.Admit? <==>
                  Key(m) in store ==>
                    var was := ParseUint(store[Key(m)].version);
                    !IsDelete(store[Key(m)]) && was.Some? && was.value < ParseUint(version).value)
            && (verdict.Panic? <==> Key(m) in store && !IsDelete(store[Key(m)]) && ParseUint(store[Key(m)].version).None?)
  {
    SyncNameDecodes(node, uid);
    SentToItsNode(id, ns, node, uid, sync, kind, Found(uid, version, false));
  }

  /**
   * The delete sent for a replaced object carries the UID of the replacement, so acknowledging it
   * never removes or changes the stale ObjectSync it was sent for: the next pass sends it again.
   */
  lemma StaleSyncSurvivesItsDelete(id: string, ns: string, node: string, uid: string, syncs: map<Slot, Sync>, kind: string,
                                   obj: Lookup, api: Api, next: string)
    requires '.' !in uid && obj.Found? && '.' !in obj.uid
    requires obj.uid != uid && (ns, SyncName(node, uid)) in syncs
    requires Manage(id, (ns, SyncName(node, uid)), syncs[(ns, SyncName(node, uid))], kind, obj).Sends?
    ensures var slot := (ns, SyncName(node, uid));
            var m := Manage(id, slot, syncs[slot], kind, obj).msg;
            var after := SaveSync(syncs, node, m, api);
            && IsDelete(m) && Removes(m)
            && slot in after && after[slot] == syncs[slot]
            && Manage(next, slot, after[slot], kind, obj) == Sends(m.(id := next))
  {
    if SyncName(node, obj.uid) == SyncName(node, uid) {
      SyncNameInjective(node, obj.uid, node, uid);
    }
    SyncNameDecodes(node, uid);
  }

  /**
   * That delete names the live replacement: it has the replacement's key, so while it is stored no update of the
   * replacement is admitted, and acknowledging it removes the replacement's ObjectSync and no other.
   */
  lemma StaleDeleteHitsReplacement(id: string, ns: string, node: string, uid: string, syncs: map<Slot, Sync>, kind: string,
                                   obj: Lookup, store: map<string, Message>, update: Message, listed: Option<Sync>)
    requires '.' !in uid && obj.Found? && '.' !in obj.uid && obj.uid != uid && (ns, SyncName(node, uid)) in syncs
    requires var name := syncs[(ns, SyncName(node, uid))].objectName;
             && SlashFree(node) && SlashFree(ns) && SlashFree(kind) && SlashFree(name) && name != ""
             && HasKey(update) && !IsDelete(update) && Split(Key(update), '/') == [kind, ns, name]
    requires Manage(id, (ns, SyncName(node, uid)), syncs[(ns, SyncName(node, uid))], kind, obj).Sends?
    ensures var m := Manage(id, (ns, SyncName(node, uid)), syncs[(ns, SyncName(node, uid))], kind, obj).msg;
            && Key(m) == Key(update) && Judge(store, m, listed).Admit? && Judge(store[Key(m) := m], update, listed).Discard?
            && SaveSync(syncs, node, m, AllOk) == syncs - {(ns, SyncName(node, obj.uid))}
  {
    var slot := (ns, SyncName(node, uid));
    SyncNameDecodes(node, uid);
    SentToItsNode(id, ns, node, uid, syncs[slot], kind, obj);
    var m := Manage(id, slot, syncs[slot], kind, obj).msg;
    JoinSplit(Key(m), '/');
    JoinSplit(Key(update), '/');
  }
}
