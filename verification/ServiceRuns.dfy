// What the listener answers for a service after any recovery and any run of service events.
module ServiceRuns {
  import opened Text
  import opened AddressTables
  import opened FakeAddresses
  import opened RecoveryRows

  /** The port text found through the address of a service. */
  ghost function Served(l: Listener, svc: string): Option<string> {
    if svc in l.tables.ipBySvc && l.tables.ipBySvc[svc] in l.tables.portsByIP then Some(l.tables.portsByIP[l.tables.ipBySvc[svc]])
    else None
  }

  lemma ServedIffKnown(l: Listener, svc: string)
    requires Inv(l)
    ensures Served(l, svc).Some? <==> svc in l.tables.ipBySvc
  {
    if svc in l.tables.ipBySvc { OwnerKnown(l.tables, svc); }
  }

  // ---------------------------------------------------------------- one event

  /** A deletion removes the service from both tables and recycles its address; the others keep address and text. */
  lemma DeleteRemoves(l: Listener, svc: string, other: string)
    requires Inv(l)
    ensures var (t, t') := (l.tables, Step(l, Delete(svc)).tables);
            && svc !in t'.ipBySvc
            && (if svc in t.ipBySvc then t.ipBySvc[svc] !in t'.portsByIP && t'.unused == t.unused + [t.ipBySvc[svc]]
                else t' == t)
            && (other != svc ==>
                  && (other in t'.ipBySvc <==> other in t.ipBySvc)
                  && (other in t.ipBySvc ==> t'.ipBySvc[other] == t.ipBySvc[other])
                  && Served(Step(l, Delete(svc)), other) == Served(l, other))
  {
    if svc in l.tables.ipBySvc { OwnerKnown(l.tables, svc); }
    if other in l.tables.ipBySvc { OwnerKnown(l.tables, other); }
  }

  /** A registered service keeps its address and changes its text; the others keep both. */
  lemma RegisterAgain(l: Listener, svc: string, text: string, other: string)
    requires Inv(l) && text != "" && svc in l.tables.ipBySvc
    ensures var l' := Register(l, svc, text);
            && l'.tables.ipBySvc == l.tables.ipBySvc && l'.tables.unused == l.tables.unused && l'.next == l.next
            && Served(l', svc) == Some(text) && (other != svc ==> Served(l', other) == Served(l, other))
  {
    OwnerKnown(l.tables, svc);
    assert Register(l, svc, text).tables.ipBySvc == l.tables.ipBySvc;
  }

  /** A new service takes an address nobody uses, unless it is refused; the others keep theirs. */
  lemma RegisterFirst(l: Listener, svc: string, text: string, other: string)
    requires Inv(l) && text != "" && svc !in l.tables.ipBySvc
    ensures var l' := Register(l, svc, text);
            && (if Refused(l, svc, text) then l'.tables.ipBySvc == l.tables.ipBySvc && l'.tables.portsByIP == l.tables.portsByIP
                else Served(l', svc) == Some(text) && l'.tables.ipBySvc[svc] !in l.tables.portsByIP)
            && (other != svc ==>
                  && (other in l'.tables.ipBySvc <==> other in l.tables.ipBySvc)
                  && (other in l.tables.ipBySvc ==> l'.tables.ipBySvc[other] == l.tables.ipBySvc[other])
                  && Served(l', other) == Served(l, other))
  {
    GrownKeeps(l);
    var g := Grown(l);
    assert g.tables.portsByIP == l.tables.portsByIP;
    if g.tables.unused != [] {
      assert g.tables.unused[0] in g.tables.unused;
      if other in l.tables.ipBySvc { OwnerKnown(l.tables, other); }
    }
  }

  // ---------------------------------------------------------------- runs

  function NameOf(a: Action): string { if a.Delete? then a.svc else SvcName(a.service) }

  /** The last event about a service. */
  ghost function LastAbout(acts: seq<Action>, svc: string): (q: Option<nat>)
    ensures q.Some? ==> q.value < |acts| && NameOf(acts[q.value]) == svc
    ensures forall j :: 0 <= j < |acts| && NameOf(acts[j]) == svc ==> q.Some? && j <= q.value
  {
    if acts == [] then None
    else if NameOf(acts[|acts| - 1]) == svc then Some(|acts| - 1)
    else LastAbout(acts[..|acts| - 1], svc)
  }

  lemma {:induction false} RunSnoc(l: Listener, acts: seq<Action>, a: Action)
    ensures Run(l, acts + [a]) == Step(Run(l, acts), a)
    decreases |acts|
  {
    if acts == [] {
      assert [] + [a] == [a] && [a][1..] == [];
      assert Run(Step(l, a), []) == Step(l, a);
    } else {
      assert (acts + [a])[1..] == acts[1..] + [a];
      RunSnoc(Step(l, acts[0]), acts[1..], a);
    }
  }

  /** One event decides about its own service and about no other. */
  lemma StepServes(l: Listener, a: Action, svc: string)
    requires Inv(l)
    ensures Served(Step(l, a), svc) ==
            if NameOf(a) != svc then Served(l, svc)
            else if a.Delete? || Refused(l, svc, SvcPorts(a.service)) then None
            else Some(SvcPorts(a.service))
  {
    ServedIffKnown(l, svc);
    if a.Delete? {
      DeleteRemoves(l, a.svc, svc);
    } else if NameOf(a) in l.tables.ipBySvc {
      RegisterAgain(l, NameOf(a), SvcPorts(a.service), svc);
    } else {
      RegisterFirst(l, NameOf(a), SvcPorts(a.service), svc);
    }
  }

  /** After any run a service is answered with the text of its last event, unless that was a deletion or was refused. */
  lemma {:induction false} RunServes(l: Listener, acts: seq<Action>, svc: string)
    requires Inv(l)
    ensures var q := LastAbout(acts, svc);
            Served(Run(l, acts), svc) ==
            if q.None? then Served(l, svc)
            else if acts[q.value].Delete? || Refused(Run(l, acts[..q.value]), svc, SvcPorts(acts[q.value].service)) then None
            else Some(SvcPorts(acts[q.value].service))
    ensures svc in Run(l, acts).tables.ipBySvc <==> Served(Run(l, acts), svc).Some?
    decreases |acts|
  {
    RunKeeps(l, acts);
    ServedIffKnown(Run(l, acts), svc);
    if acts != [] {
      var (init, a) := (acts[..|acts| - 1], acts[|acts| - 1]);
      assert acts == init + [a];
      RunServes(l, init, svc);
      RunKeeps(l, init);
      RunSnoc(l, init, a);
      StepServes(Run(l, init), a, svc);
      var q := LastAbout(init, svc);
      assert q.Some? ==> acts[..q.value] == init[..q.value];
    }
  }

  /** Until it is deleted a service keeps its address. */
  lemma {:induction false} AddressStays(l: Listener, acts: seq<Action>, svc: string)
    requires Inv(l) && svc in l.tables.ipBySvc && Delete(svc) !in acts
    ensures svc in Run(l, acts).tables.ipBySvc && Run(l, acts).tables.ipBySvc[svc] == l.tables.ipBySvc[svc]
    decreases |acts|
  {
    if acts != [] {
      var a := acts[0];
      assert a in acts;
      if a.Delete? {
        DeleteRemoves(l, a.svc, svc);
      } else if NameOf(a) in l.tables.ipBySvc {
        RegisterAgain(l, NameOf(a), SvcPorts(a.service), svc);
      } else {
        RegisterFirst(l, NameOf(a), SvcPorts(a.service), svc);
      }
      StepKeeps(l, a);
      AddressStays(Step(l, a), acts[1..], svc);
    }
  }

  // ---------------------------------------------------------------- after recovery

  lemma RowServes(l: Listener, row: Row, svc: string)
    requires Inv(l) && row.svc !in l.tables.ipBySvc && row.text != ""
    requires row.stored.Some? ==> row.stored.value != "" && row.stored.value !in l.tables.portsByIP
    ensures Served(RecoverRow(l, row), svc) ==
            if row.svc != svc then Served(l, svc)
            else if row.stored.None? && Refused(l, svc, row.text) then None
            else Some(row.text)
    ensures row.stored.Some? ==> RecoverRow(l, row).tables.ipBySvc[row.svc] == row.stored.value
  {
    if row.stored.None? {
      RegisterFirst(l, row.svc, row.text, svc);
    } else if svc in l.tables.ipBySvc {
      OwnerKnown(l.tables, svc);
    }
  }

  /** The row of a service answers for it after recovery, unless it has no address and the pool gives none. */
  ghost predicate RowAnswers(rows: seq<Row>, q: nat)
    requires q < |rows|
  {
    rows[q].stored.Some? || !Refused(Recover(InitPool(), rows[..q]), rows[q].svc, rows[q].text)
  }

  lemma PrefixKeeps(rows: seq<Row>, q: nat)
    requires DistinctRows(InitPool(), rows) && !RowsClash(rows) && q <= |rows|
    ensures DistinctRows(InitPool(), rows[..q]) && !RowsClash(rows[..q]) && Inv(Recover(InitPool(), rows[..q]))
  {
    if RowsClash(rows[..q]) {
      var p: nat :| p < q && ClaimsUsed(Address, rows[..q], p);
      assert rows[..q][..p] == rows[..p];
      assert ClaimsUsed(Address, rows, p);
    }
    RecoveryKeepsOnRows(rows[..q]);
  }

  /** The last row names a new service and stores no address in use. */
  lemma LastRowIsFresh(rows: seq<Row>)
    requires rows != [] && DistinctRows(InitPool(), rows) && !RowsClash(rows)
    ensures var (l, row) := (Recover(InitPool(), rows[..|rows| - 1]), rows[|rows| - 1]);
            row.svc !in l.tables.ipBySvc && (row.stored.Some? ==> row.stored.value !in l.tables.portsByIP)
  {
    var init := rows[..|rows| - 1];
    PrefixKeeps(rows, |init|);
    NewService(init, rows[|rows| - 1].svc);
    AddressPool();
    RecoveryMatches(Address, init);
    assert !ClaimsUsed(Address, rows, |init|);
  }

  /** After recovery without a clash every listed service is answered with its row's text, and nothing else is answered. */
  lemma {:induction false} RecoveryServes(rows: seq<Row>, svc: string)
    requires DistinctRows(InitPool(), rows) && !RowsClash(rows)
    ensures forall q: nat :: q < |rows| && rows[q].svc == svc ==>
              Served(Recover(InitPool(), rows), svc) == if RowAnswers(rows, q) then Some(rows[q].text) else None
    ensures (forall q :: 0 <= q < |rows| ==> rows[q].svc != svc) ==> Served(Recover(InitPool(), rows), svc) == None
  {
    if rows != [] {
      var (init, row) := (rows[..|rows| - 1], rows[|rows| - 1]);
      var l := Recover(InitPool(), init);
      assert rows == init + [row];
      PrefixKeeps(rows, |init|);
      RecoveryServes(init, svc);
      RecoverSnoc(InitPool(), init, row);
      LastRowIsFresh(rows);
      RowServes(l, row, svc);
      forall q: nat | q < |init| ensures RowAnswers(rows, q) == RowAnswers(init, q) {
        assert rows[..q] == init[..q];
      }
    }
  }
}
