// Recovery of the fake addresses read off the database rows alone, without the tables of the listener.
module RecoveryRows {
  import opened Text
  import opened AddressTables
  import opened FakeAddresses

  /** The address of each pool number. */
  type Pool = nat -> string

  ghost predicate StoredIn(rows: seq<Row>, a: string) { exists i :: 0 <= i < |rows| && rows[i].stored == Some(a) }

  /** The first pool number from lo on, below hi, whose address no row stores; hi when there is none. */
  ghost function NextFree(at: Pool, lo: nat, hi: nat, rows: seq<Row>): (i: nat)
    requires lo <= hi
    ensures lo <= i <= hi
    decreases hi - lo
  {
    if lo == hi || !StoredIn(rows, at(lo)) then lo else NextFree(at, lo + 1, hi, rows)
  }

  /** Where the pool stands: numbers below from are spent, those below next have been added to it. */
  datatype Cursor = Cursor(from: nat, next: nat)

  /** The number the next row without an address takes, if any, and where the pool stands then. */
  ghost function Draw(at: Pool, c: Cursor, rows: seq<Row>): (r: (Option<nat>, Cursor))
    requires c.from <= c.next <= MAX_POOL + 1
    ensures r.1.from <= r.1.next <= MAX_POOL + 1
  {
    var i := NextFree(at, c.from, c.next, rows);
    if i < c.next then (Some(i), Cursor(i + 1, c.next))
    else
      var end := BlockEnd(c.next);
      var j := NextFree(at, c.next, end, rows);
      if j < end then (Some(j), Cursor(j + 1, end)) else (None, Cursor(end, end))
  }

  /** Where the pool stands after the rows. */
  ghost function After(at: Pool, rows: seq<Row>): (c: Cursor)
    ensures 1 <= c.from <= c.next <= MAX_POOL + 1
  {
    if rows == [] then Cursor(1, BLOCK)
    else
      var init := rows[..|rows| - 1];
      if rows[|rows| - 1].stored.Some? then After(at, init) else Draw(at, After(at, init), init).1
  }

  /** The addresses that the rows without one have been given. */
  ghost function Handed(at: Pool, rows: seq<Row>): set<string> {
    if rows == [] then {}
    else
      var init := rows[..|rows| - 1];
      if rows[|rows| - 1].stored.Some? then Handed(at, init)
      else
        var i := Draw(at, After(at, init), init).0;
        Handed(at, init) + if i.Some? then {at(i.value)} else {}
  }

  /** The row stores an address that an earlier row stores, or has been given. */
  ghost predicate ClaimsUsed(at: Pool, rows: seq<Row>, q: nat)
    requires q < |rows|
  {
    rows[q].stored.Some? && (StoredIn(rows[..q], rows[q].stored.value) || rows[q].stored.value in Handed(at, rows[..q]))
  }

  ghost predicate RowsClash(rows: seq<Row>) { exists q: nat :: q < |rows| && ClaimsUsed(Address, rows, q) }

  // ---------------------------------------------------------------- the free list

  /** The pool addresses from lo to hi that no row stores, in order. */
  ghost function FreeFrom(at: Pool, lo: nat, hi: nat, rows: seq<Row>): seq<string>
    requires lo <= hi
    decreases hi - lo
  {
    if lo == hi then []
    else if StoredIn(rows, at(lo)) then FreeFrom(at, lo + 1, hi, rows)
    else [at(lo)] + FreeFrom(at, lo + 1, hi, rows)
  }

  lemma {:induction false} FreeHead(at: Pool, lo: nat, hi: nat, rows: seq<Row>)
    requires lo <= hi
    ensures var i := NextFree(at, lo, hi, rows);
            FreeFrom(at, lo, hi, rows) == if i == hi then [] else [at(i)] + FreeFrom(at, i + 1, hi, rows)
    decreases hi - lo
  {
    if lo < hi && StoredIn(rows, at(lo)) { FreeHead(at, lo + 1, hi, rows); }
  }

  lemma StoredSnoc(rows: seq<Row>, row: Row, a: string)
    ensures StoredIn(rows + [row], a) <==> StoredIn(rows, a) || row.stored == Some(a)
  {
    if StoredIn(rows, a) {
      var i :| 0 <= i < |rows| && rows[i].stored == Some(a);
      assert (rows + [row])[i].stored == Some(a);
    }
    if row.stored == Some(a) { assert (rows + [row])[|rows|].stored == Some(a); }
  }

  /** A row that stores nothing between lo and hi does not matter there. */
  lemma {:induction false} FreeUnchanged(at: Pool, lo: nat, hi: nat, rows: seq<Row>, row: Row)
    requires lo <= hi && forall i: nat :: lo <= i < hi ==> row.stored != Some(at(i))
    ensures FreeFrom(at, lo, hi, rows + [row]) == FreeFrom(at, lo, hi, rows)
    decreases hi - lo
  {
    if lo < hi {
      StoredSnoc(rows, row, at(lo));
      FreeUnchanged(at, lo + 1, hi, rows, row);
    }
  }

  ghost predicate Distinct(at: Pool) { forall i: nat, j: nat :: i < j < UINT16 ==> at(i) != at(j) }

  /** Storing an address takes it out of the list, as reserveIP does. */
  lemma {:induction false} FreeWithout(at: Pool, lo: nat, hi: nat, rows: seq<Row>, row: Row)
    requires lo <= hi <= MAX_POOL + 1 && row.stored.Some? && Distinct(at)
    ensures FreeFrom(at, lo, hi, rows + [row]) == Without(FreeFrom(at, lo, hi, rows), row.stored.value)
    decreases hi - lo
  {
    if lo < hi {
      var (a, rest) := (at(lo), FreeFrom(at, lo + 1, hi, rows));
      StoredSnoc(rows, row, a);
      if StoredIn(rows, a) {
        FreeWithout(at, lo + 1, hi, rows, row);
      } else if row.stored == Some(a) {
        FreeUnchanged(at, lo + 1, hi, rows, row);
        assert ([a] + rest)[1..] == rest;
      } else {
        FreeWithout(at, lo + 1, hi, rows, row);
        assert ([a] + rest)[1..] == rest;
      }
    }
  }

  lemma {:induction false} FreeSnoc(at: Pool, lo: nat, hi: nat, rows: seq<Row>)
    requires lo <= hi
    ensures FreeFrom(at, lo, hi + 1, rows) == FreeFrom(at, lo, hi, rows) + if StoredIn(rows, at(hi)) then [] else [at(hi)]
    decreases hi - lo
  {
    if lo < hi { FreeSnoc(at, lo + 1, hi, rows); }
  }

  /** The address is in use exactly when a row stores it. */
  ghost predicate UsedIffStored(a: string, rows: seq<Row>, portsByIP: map<string, string>) {
    StoredIn(rows, a) <==> a in portsByIP && portsByIP[a] != ""
  }

  /** What expandPool adds, when exactly the stored addresses of the block are in use. */
  lemma {:induction false} FreeBlock(at: Pool, lo: nat, addrs: seq<string>, rows: seq<Row>, portsByIP: map<string, string>)
    requires forall i: nat :: i < |addrs| ==> addrs[i] == at(lo + i)
    requires forall i: nat :: i < |addrs| ==> UsedIffStored(addrs[i], rows, portsByIP)
    ensures Free(addrs, portsByIP) == FreeFrom(at, lo, lo + |addrs|, rows)
  {
    if addrs != [] {
      var init := addrs[..|addrs| - 1];
      FreeBlock(at, lo, init, rows, portsByIP);
      FreeSnoc(at, lo, lo + |init|, rows);
      assert UsedIffStored(addrs[|init|], rows, portsByIP);
    }
  }

  // ---------------------------------------------------------------- simulation

  ghost predicate Below(at: Pool, a: string, hi: nat) { exists i: nat :: 1 <= i < hi && a == at(i) }

  /** The listener after the rows is what the rows say. */
  ghost predicate Matches(at: Pool, l: Listener, rows: seq<Row>) {
    && l.next == After(at, rows).next
    && l.tables.unused == FreeFrom(at, After(at, rows).from, After(at, rows).next, rows)
    && (forall a :: a in l.tables.portsByIP <==> StoredIn(rows, a) || a in Handed(at, rows))
    && (forall a :: a in l.tables.portsByIP ==> l.tables.portsByIP[a] != "")
    && (forall a :: a in Handed(at, rows) ==> Below(at, a, After(at, rows).from))
  }

  lemma StoredRowMatches(at: Pool, l: Listener, rows: seq<Row>, row: Row)
    requires Matches(at, l, rows) && row.stored.Some? && row.text != "" && Distinct(at)
    ensures Matches(at, RecoverRow(l, row), rows + [row])
  {
    assert (rows + [row])[..|rows|] == rows;
    FreeWithout(at, After(at, rows).from, After(at, rows).next, rows, row);
    forall a ensures StoredIn(rows + [row], a) <==> StoredIn(rows, a) || row.stored == Some(a) {
      StoredSnoc(rows, row, a);
    }
  }

  lemma NotBelow(at: Pool, n: nat, hi: nat)
    requires Distinct(at) && hi <= n < UINT16
    ensures !Below(at, at(n), hi)
  {
  }

  /** What the listener knows about used addresses. */
  ghost predicate UsedAre(at: Pool, portsByIP: map<string, string>, rows: seq<Row>, from: nat) {
    && (forall a :: StoredIn(rows, a) ==> a in portsByIP)
    && (forall a :: a in portsByIP ==> portsByIP[a] != "" && (StoredIn(rows, a) || Below(at, a, from)))
  }

  /** In a block that is not in the pool yet, exactly the stored addresses are in use. */
  lemma BlockIsFree(at: Pool, portsByIP: map<string, string>, rows: seq<Row>, next: nat, addrs: seq<string>)
    requires Distinct(at) && UsedAre(at, portsByIP, rows, next) && next + |addrs| <= MAX_POOL + 1
    requires forall i: nat :: i < |addrs| ==> addrs[i] == at(next + i)
    ensures Free(addrs, portsByIP) == FreeFrom(at, next, next + |addrs|, rows)
  {
    forall i: nat | i < |addrs| ensures UsedIffStored(addrs[i], rows, portsByIP) {
      NotBelow(at, next + i, next);
    }
    FreeBlock(at, next, addrs, rows, portsByIP);
  }

  lemma MatchesUsed(at: Pool, l: Listener, rows: seq<Row>)
    requires Matches(at, l, rows)
    ensures UsedAre(at, l.tables.portsByIP, rows, l.next)
  {
    forall a | a in Handed(at, rows) ensures Below(at, a, l.next) {
      var i: nat :| 1 <= i < After(at, rows).from && a == at(i);
    }
  }

  /** The next block of the pool, as the listener computes it. */
  ghost predicate BlockIs(at: Pool, next: nat) {
    next <= BlockEnd(next) <= MAX_POOL + 1 &&
    forall i: nat :: i < BlockEnd(next) - next ==> Addresses(next, BlockEnd(next))[i] == at(next + i)
  }

  /** What is free after growing an empty pool. */
  ghost function GrownFree(at: Pool, c: Cursor, rows: seq<Row>): seq<string>
    requires c.from <= c.next <= BlockEnd(c.next)
  {
    var free := FreeFrom(at, c.from, c.next, rows);
    if free == [] then FreeFrom(at, c.next, BlockEnd(c.next), rows) else free
  }

  lemma ExpandedFree(at: Pool, l: Listener, rows: seq<Row>)
    requires UsedAre(at, l.tables.portsByIP, rows, l.next) && Distinct(at) && BlockIs(at, l.next) && l.tables.unused == []
    ensures ExpandPool(l).tables.unused == FreeFrom(at, l.next, BlockEnd(l.next), rows)
  {
    var addrs := Addresses(l.next, BlockEnd(l.next));
    BlockIsFree(at, l.tables.portsByIP, rows, l.next, addrs);
    assert [] + Free(addrs, l.tables.portsByIP) == Free(addrs, l.tables.portsByIP);
  }

  lemma GrownMatches(at: Pool, l: Listener, rows: seq<Row>)
    requires Matches(at, l, rows) && Distinct(at) && BlockIs(at, l.next)
    ensures Grown(l).tables.unused == GrownFree(at, After(at, rows), rows)
    ensures Grown(l).next == if l.tables.unused == [] then BlockEnd(l.next) else l.next
  {
    if l.tables.unused == [] {
      MatchesUsed(at, l, rows);
      ExpandedFree(at, l, rows);
    }
  }

  /** Draw takes the head of the grown pool. */
  lemma DrawIsHead(at: Pool, c: Cursor, rows: seq<Row>)
    requires c.from <= c.next <= MAX_POOL + 1
    ensures var (drawn, c') := Draw(at, c, rows);
            && c'.next == (if FreeFrom(at, c.from, c.next, rows) == [] then BlockEnd(c.next) else c.next)
            && (drawn.None? ==> c'.from == c'.next)
            && GrownFree(at, c, rows) == if drawn.Some? then [at(drawn.value)] + FreeFrom(at, c'.from, c'.next, rows) else []
  {
    FreeHead(at, c.from, c.next, rows);
    FreeHead(at, c.next, BlockEnd(c.next), rows);
  }

  lemma SameStored(at: Pool, rows: seq<Row>, row: Row, lo: nat, hi: nat)
    requires row.stored.None? && lo <= hi
    ensures FreeFrom(at, lo, hi, rows + [row]) == FreeFrom(at, lo, hi, rows)
    ensures forall a :: StoredIn(rows + [row], a) <==> StoredIn(rows, a)
  {
    FreeUnchanged(at, lo, hi, rows, row);
    forall a ensures StoredIn(rows + [row], a) <==> StoredIn(rows, a) {
      StoredSnoc(rows, row, a);
    }
  }

  lemma HandedStaysBelow(at: Pool, rows: seq<Row>, row: Row)
    requires row.stored.None? && forall a :: a in Handed(at, rows) ==> Below(at, a, After(at, rows).from)
    ensures var i := Draw(at, After(at, rows), rows).0;
            Handed(at, rows + [row]) == Handed(at, rows) + if i.Some? then {at(i.value)} else {}
    ensures After(at, rows + [row]) == Draw(at, After(at, rows), rows).1
    ensures forall a :: a in Handed(at, rows + [row]) ==> Below(at, a, After(at, rows + [row]).from)
  {
    assert (rows + [row])[..|rows|] == rows;
    var (drawn, c') := Draw(at, After(at, rows), rows);
    forall a | a in Handed(at, rows + [row]) ensures Below(at, a, c'.from) {
      if a in Handed(at, rows) {
        var i: nat :| 1 <= i < After(at, rows).from && a == at(i);
        assert i < c'.from;
      } else {
        assert a == at(drawn.value) && 1 <= drawn.value < c'.from;
      }
    }
  }

  /** Registering a new service: the first free address, after growing an empty pool. */
  lemma RegisterNew(l: Listener, svc: string, text: string)
    requires svc !in l.tables.ipBySvc && text != ""
    ensures var (g, l') := (Grown(l), Register(l, svc, text));
            && l'.next == g.next && g.tables.portsByIP == l.tables.portsByIP
            && (if g.tables.unused == [] then l'.tables.unused == [] && l'.tables.portsByIP == l.tables.portsByIP
                else l'.tables.unused == g.tables.unused[1..] && l'.tables.portsByIP == l.tables.portsByIP[g.tables.unused[0] := text])
  {
  }

  /** A row without an address takes what Draw says. */
  lemma DrawnRowMatches(at: Pool, l: Listener, rows: seq<Row>, row: Row)
    requires Matches(at, l, rows) && row.stored.None? && row.text != "" && row.svc !in l.tables.ipBySvc
    requires Distinct(at) && BlockIs(at, l.next)
    ensures Matches(at, RecoverRow(l, row), rows + [row])
  {
    var (drawn, c') := Draw(at, After(at, rows), rows);
    HandedStaysBelow(at, rows, row);
    SameStored(at, rows, row, c'.from, c'.next);
    RegisterNew(l, row.svc, row.text);
    GrownMatches(at, l, rows);
    DrawIsHead(at, After(at, rows), rows);
    if drawn.Some? {
      var (a, free) := (at(drawn.value), FreeFrom(at, c'.from, c'.next, rows));
      assert ([a] + free)[1..] == free;
    }
  }

  // ---------------------------------------------------------------- the whole database

  lemma {:induction false} RecoverSnoc(l: Listener, rows: seq<Row>, row: Row)
    ensures Recover(l, rows + [row]) == RecoverRow(Recover(l, rows), row)
    decreases |rows|
  {
    if rows == [] {
      assert [row][1..] == [] && rows + [row] == [row];
      assert Recover(RecoverRow(l, row), []) == RecoverRow(l, row);
    } else {
      assert (rows + [row])[1..] == rows[1..] + [row];
      RecoverSnoc(RecoverRow(l, rows[0]), rows[1..], row);
    }
  }

  lemma {:induction false} NewService(rows: seq<Row>, svc: string)
    requires forall i :: 0 <= i < |rows| ==> rows[i].svc != svc
    ensures svc !in Recover(InitPool(), rows).tables.ipBySvc
  {
    if rows != [] {
      var (init, row) := (rows[..|rows| - 1], rows[|rows| - 1]);
      assert rows == init + [row];
      NewService(init, svc);
      RecoverSnoc(InitPool(), init, row);
      RecoverRowServices(Recover(InitPool(), init), row);
    }
  }

  /** With no rows every address is free. */
  lemma {:induction false} AllFreeAtFirst(at: Pool, lo: nat, addrs: seq<string>)
    requires forall i: nat :: i < |addrs| ==> addrs[i] == at(lo + i)
    ensures FreeFrom(at, lo, lo + |addrs|, []) == addrs
    decreases |addrs|
  {
    if addrs != [] {
      AllFreeAtFirst(at, lo + 1, addrs[1..]);
      assert addrs == [addrs[0]] + addrs[1..];
    }
  }

  lemma InitMatches(at: Pool)
    requires forall i: nat :: i < BLOCK - 1 ==> Addresses(1, BLOCK)[i] == at(1 + i)
    ensures Matches(at, InitPool(), [])
  {
    AllFreeAtFirst(at, 1, Addresses(1, BLOCK));
  }

  /** After any rows the listener is what the rows say. */
  lemma {:induction false} RecoveryMatches(at: Pool, rows: seq<Row>)
    requires DistinctRows(InitPool(), rows) && Distinct(at)
    requires forall i: nat :: i < BLOCK - 1 ==> Addresses(1, BLOCK)[i] == at(1 + i)
    requires forall next: nat :: next <= MAX_POOL + 1 ==> BlockIs(at, next)
    ensures Matches(at, Recover(InitPool(), rows), rows)
  {
    if rows == [] {
      InitMatches(at);
    } else {
      var (init, row) := (rows[..|rows| - 1], rows[|rows| - 1]);
      var l := Recover(InitPool(), init);
      assert rows == init + [row];
      RecoveryMatches(at, init);
      RecoverSnoc(InitPool(), init, row);
      if row.stored.Some? {
        StoredRowMatches(at, l, init, row);
      } else {
        NewService(init, row.svc);
        assert BlockIs(at, l.next);
        DrawnRowMatches(at, l, init, row);
      }
    }
  }

  ghost predicate ClashAt(l: Listener, rows: seq<Row>, q: nat)
    requires q < |rows|
  {
    rows[q].stored.Some? && rows[q].stored.value in Recover(l, rows[..q]).tables.portsByIP
  }

  lemma {:induction false} ClashesSomewhere(l: Listener, rows: seq<Row>)
    ensures Clashes(l, rows) <==> exists q: nat :: q < |rows| && ClashAt(l, rows, q)
    decreases |rows|
  {
    if rows != [] {
      var (l', rest) := (RecoverRow(l, rows[0]), rows[1..]);
      ClashesSomewhere(l', rest);
      forall q: nat | q < |rest| ensures ClashAt(l', rest, q) <==> ClashAt(l, rows, q + 1) {
        assert rows[..q + 1][1..] == rest[..q];
      }
      assert rows[..0] == [] && Recover(l, []) == l;
      assert ClashAt(l, rows, 0) <==> rows[0].stored.Some? && rows[0].stored.value in l.tables.portsByIP;
      if q: nat :| q < |rest| && ClashAt(l', rest, q) {
        assert ClashAt(l, rows, q + 1);
      }
      if q: nat :| q < |rows| && ClashAt(l, rows, q) {
        assert q > 0 ==> ClashAt(l', rest, q - 1);
      }
    }
  }

  /** Address is the pool the listener draws from. */
  lemma AddressPool()
    ensures Distinct(Address)
    ensures forall i: nat :: i < BLOCK - 1 ==> Addresses(1, BLOCK)[i] == Address(1 + i)
    ensures forall next: nat :: next <= MAX_POOL + 1 ==> BlockIs(Address, next)
  {
    forall i: nat, j: nat | i < j < UINT16 ensures Address(i) != Address(j) {
      if Address(i) == Address(j) { AddressInjective(i, j); }
    }
  }

  /** Exactly the rows that clash among themselves leave inconsistent tables; this can be checked before recovery. */
  lemma RecoveryKeepsOnRows(rows: seq<Row>)
    requires DistinctRows(InitPool(), rows)
    ensures Inv(Recover(InitPool(), rows)) <==> !RowsClash(rows)
  {
    InitInv();
    RecoveryKeepsIff(InitPool(), rows);
    ClashesSomewhere(InitPool(), rows);
    AddressPool();
    forall q: nat | q < |rows| ensures ClashAt(InitPool(), rows, q) <==> ClaimsUsed(Address, rows, q) {
      RecoveryMatches(Address, rows[..q]);
    }
  }
}
