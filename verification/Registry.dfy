// The device registry: a cache over a table, rebuilt from it at every start
// (api/src/devices/registry.rs).
module Registry {
  import opened Words
  import opened UicrRecord
  import opened Packets
  import opened DeviceKeys

  datatype Row = Row(name: string, column: Option<seq<Byte>>, validFrom: int)

  datatype Device = Device(name: string, addr: DeviceAddr, validFrom: int, key: Key)

  datatype DeviceError = NoEntropy | Db | AlreadyExists(name: string) | NotFound

  datatype Result<T> = Handed(value: T) | Refused(error: DeviceError)

  // The table with each row's key opened; rows whose key does not open are not
  // served.
  function Opened(aead: Aead, rows: map<DeviceAddr, Row>, ring: Ring): map<DeviceAddr, Device> {
    map addr | addr in rows && OpenKeyColumn(aead, rows[addr].column, addr, ring).KeyIs? ::
      Device(rows[addr].name, addr, rows[addr].validFrom, OpenKeyColumn(aead, rows[addr].column, addr, ring).key)
  }

  // The table a list of rows makes.
  function RowsOf(records: seq<(DeviceAddr, Row)>): map<DeviceAddr, Row>
    decreases |records|
  {
    if records == [] then map[]
    else RowsOf(records[..|records| - 1])[records[|records| - 1].0 := records[|records| - 1].1]
  }

  ghost predicate Lists(records: seq<(DeviceAddr, Row)>, rows: map<DeviceAddr, Row>) {
    RowsOf(records) == rows && forall i, j :: 0 <= i < j < |records| ==> records[i].0 != records[j].0
  }

  lemma {:induction false} NoRows(rows: map<DeviceAddr, Row>)
    ensures RowsOf([]) == rows - rows.Keys
  {
  }

  lemma {:induction false} OneMoreRow(
    records: seq<(DeviceAddr, Row)>, addr: DeviceAddr, rows: map<DeviceAddr, Row>, todo: set<DeviceAddr>)
    requires addr in todo && todo <= rows.Keys && RowsOf(records) == rows - todo
    ensures RowsOf(records + [(addr, rows[addr])]) == rows - (todo - {addr})
  {
    assert (records + [(addr, rows[addr])])[..|records|] == records;
  }

  // The database, shared by every process that serves it.
  class Table {
    var rows: map<DeviceAddr, Row>

    constructor (rows: map<DeviceAddr, Row>)
      ensures this.rows == rows
    {
      this.rows := rows;
    }

    // Every row once, in whatever order the database has them.
    method AllRecords(fails: bool) returns (r: Option<seq<(DeviceAddr, Row)>>)
      ensures r.None? <==> fails
      ensures r.Some? ==> Lists(r.value, rows)
    {
      hide RowsOf;
      if fails {
        return None;
      }
      NoRows(rows);
      var records: seq<(DeviceAddr, Row)> := [];
      var todo := rows.Keys;
      while todo != {}
        invariant todo <= rows.Keys && RowsOf(records) == rows - todo
        invariant forall i, j :: 0 <= i < j < |records| ==> records[i].0 != records[j].0
        invariant forall i :: 0 <= i < |records| ==> records[i].0 !in todo
        decreases |todo|
      {
        var addr :| addr in todo;
        OneMoreRow(records, addr, rows, todo);
        records := records + [(addr, rows[addr])];
        todo := todo - {addr};
      }
      r := Some(records);
    }

    method InsertDevice(addr: DeviceAddr, name: string, column: seq<Byte>, now: int, fails: bool)
      returns (r: Result<Row>)
      modifies this
      ensures r == if fails then Refused(Db)
                   else if addr in old(rows) then Refused(AlreadyExists(old(rows)[addr].name))
                   else Handed(Row(name, Some(column), now))
      ensures rows == if r.Handed? then old(rows)[addr := r.value] else old(rows)
    {
      if fails {
        return Refused(Db);
      }
      if addr in rows {
        return Refused(AlreadyExists(rows[addr].name));
      }
      rows := rows[addr := Row(name, Some(column), now)];
      return Handed(rows[addr]);
    }

    method UpdateKey(addr: DeviceAddr, column: seq<Byte>, now: int, fails: bool) returns (r: Result<Row>)
      modifies this
      ensures r == if fails then Refused(Db)
                   else if addr !in old(rows) then Refused(NotFound)
                   else Handed(Row(old(rows)[addr].name, Some(column), now))
      ensures rows == if r.Handed? then old(rows)[addr := r.value] else old(rows)
    {
      if fails {
        return Refused(Db);
      }
      if addr !in rows {
        return Refused(NotFound);
      }
      rows := rows[addr := Row(rows[addr].name, Some(column), now)];
      return Handed(rows[addr]);
    }
  }

  class DeviceRegistry {
    const table: Table
    const ring: Ring
    const aead: Aead
    var cache: map<DeviceAddr, Device>
    ghost var handedOut: map<DeviceAddr, Key>

    // The cache is the opened table, and serves every key it ever handed out
    // last.
    ghost predicate Valid()
      reads this, table
    {
      && aead.Lawful() && ring.Valid()
      && cache == Opened(aead, table.rows, ring)
      && forall addr :: addr in handedOut ==> addr in cache && cache[addr].key == handedOut[addr]
    }

    constructor (table: Table, ring: Ring, aead: Aead, cache: map<DeviceAddr, Device>)
      requires aead.Lawful() && ring.Valid() && cache == Opened(aead, table.rows, ring)
      ensures Valid() && this.table == table && this.ring == ring && this.aead == aead && handedOut == map[]
    {
      this.table, this.ring, this.aead, this.cache := table, ring, aead, cache;
      handedOut := map[];
    }

    // Loads the key ring, then every record whose key opens; a record whose key
    // does not is skipped and counted. It fails exactly when the key file means
    // no ring or the table cannot be read.
    static method Load(table: Table, keyFile: seq<Line>, aead: Aead, dbFails: bool)
      returns (r: Option<DeviceRegistry>, keyFailures: nat)
      requires aead.Lawful()
      ensures r.Some? <==> !dbFails && exists ring :: Means(keyFile, ring)
      ensures r.Some? ==> fresh(r.value) && r.value.Valid() && r.value.table == table && r.value.handedOut == map[]
      ensures r.Some? ==> Means(keyFile, r.value.ring)
      ensures r.Some? ==> |r.value.cache| + keyFailures == |table.rows|
    {
      hide OpenKeyColumn, Opened, Means, Explains, Aead.Lawful;
      keyFailures := 0;
      var loaded := ParseRing(keyFile);
      if loaded.Unloadable? {
        return None, 0;
      }
      var ring := loaded.ring;
      MeantRingIsValid(keyFile, ring);
      var records := table.AllRecords(dbFails);
      if records.None? {
        return None, 0;
      }
      var cache: map<DeviceAddr, Device> := map[];
      NothingOpened(aead, ring);
      for i := 0 to |records.value|
        invariant cache == Opened(aead, RowsOf(records.value[..i]), ring)
        invariant |cache| + keyFailures == i
      {
        var (addr, row) := records.value[i];
        OneMoreRecord(aead, records.value, i, ring);
        match OpenKeyColumn(aead, row.column, addr, ring) {
          case KeyIs(key) => cache := cache[addr := Device(row.name, addr, row.validFrom, key)];
          case Faulty(_) => keyFailures := keyFailures + 1;
        }
      }
      assert records.value[..|records.value|] == records.value;
      RecordCount(records.value);
      var registry := new DeviceRegistry(table, ring, aead, cache);
      r := Some(registry);
    }

    method Get(addr: DeviceAddr) returns (r: Option<Device>)
      requires Valid()
      ensures r == if addr in Opened(aead, table.rows, ring) then Some(Opened(aead, table.rows, ring)[addr]) else None
      ensures addr in handedOut ==> r.Some? && r.value.key == handedOut[addr]
    {
      r := if addr in cache then Some(cache[addr]) else None;
    }

    // `drawn` is the generated key, if there was entropy for one; `nonce` and
    // `now` are the other two draws, `dbFails` says whether the write does.
    method Provision(addr: DeviceAddr, name: string, drawn: Option<Key>, nonce: XNonce, now: int, dbFails: bool)
      returns (r: Result<(Device, Key)>)
      requires Valid()
      modifies this, table
      ensures Valid()
      ensures r == if drawn.None? then Refused(NoEntropy)
                   else if dbFails then Refused(Db)
                   else if addr in old(table.rows) then Refused(AlreadyExists(old(table.rows)[addr].name))
                   else Handed((Device(name, addr, now, drawn.value), drawn.value))
      ensures r.Handed? ==> cache == old(cache)[addr := r.value.0]
      ensures r.Handed? ==>
                var column := ColumnBytes(SealKey(aead, ring, r.value.1, addr, nonce));
                table.rows == old(table.rows)[addr := Row(name, Some(column), now)]
      ensures handedOut == if r.Handed? then old(handedOut)[addr := r.value.1] else old(handedOut)
      ensures r.Refused? ==> table.rows == old(table.rows) && cache == old(cache)
    {
      hide OpenKeyColumn, SealKey, ColumnBytes, Aead.Lawful;
      if drawn.None? {
        return Refused(NoEntropy);
      }
      var key := drawn.value;
      var column := ColumnBytes(SealKey(aead, ring, key, addr, nonce));
      var inserted := table.InsertDevice(addr, name, column, now, dbFails);
      if inserted.Refused? {
        return Refused(inserted.error);
      }
      SealedColumnOpens(aead, ring, key, addr, nonce, ring);
      OpenedAfterWrite(aead, old(table.rows), addr, inserted.value, ring, key);
      var device := Device(inserted.value.name, addr, inserted.value.validFrom, key);
      cache := cache[addr := device];
      handedOut := handedOut[addr := key];
      return Handed((device, key));
    }

    method RotateKey(addr: DeviceAddr, drawn: Option<Key>, nonce: XNonce, now: int, dbFails: bool)
      returns (r: Result<(Device, Key)>)
      requires Valid()
      modifies this, table
      ensures Valid()
      ensures r == if drawn.None? then Refused(NoEntropy)
                   else if dbFails then Refused(Db)
                   else if addr !in old(table.rows) then Refused(NotFound)
                   else Handed((Device(old(table.rows)[addr].name, addr, now, drawn.value), drawn.value))
      ensures r.Handed? ==> cache == old(cache)[addr := r.value.0]
      ensures r.Handed? ==>
                var column := ColumnBytes(SealKey(aead, ring, r.value.1, addr, nonce));
                table.rows == old(table.rows)[addr := Row(old(table.rows)[addr].name, Some(column), now)]
      ensures handedOut == if r.Handed? then old(handedOut)[addr := r.value.1] else old(handedOut)
      ensures r.Refused? ==> table.rows == old(table.rows) && cache == old(cache)
    {
      hide OpenKeyColumn, SealKey, ColumnBytes, Aead.Lawful;
      if drawn.None? {
        return Refused(NoEntropy);
      }
      var key := drawn.value;
      var column := ColumnBytes(SealKey(aead, ring, key, addr, nonce));
      var updated := table.UpdateKey(addr, column, now, dbFails);
      if updated.Refused? {
        return Refused(updated.error);
      }
      SealedColumnOpens(aead, ring, key, addr, nonce, ring);
      OpenedAfterWrite(aead, old(table.rows), addr, updated.value, ring, key);
      var device := Device(updated.value.name, addr, updated.value.validFrom, key);
      cache := cache[addr := device];
      handedOut := handedOut[addr := key];
      return Handed((device, key));
    }
  }

  lemma {:induction false} MeantRingIsValid(keyFile: seq<Line>, ring: Ring)
    requires Means(keyFile, ring)
    ensures ring.Valid()
  {
  }

  lemma {:induction false} NothingOpened(aead: Aead, ring: Ring)
    ensures Opened(aead, map[], ring) == map[] && RowsOf([]) == map[]
  {
  }

  lemma {:induction false} RecordSeen(records: seq<(DeviceAddr, Row)>, addr: DeviceAddr)
    requires addr in RowsOf(records)
    ensures exists i :: 0 <= i < |records| && records[i].0 == addr
    decreases |records|
  {
    if records[|records| - 1].0 != addr {
      RecordSeen(records[..|records| - 1], addr);
    }
  }

  lemma {:induction false} RecordCount(records: seq<(DeviceAddr, Row)>)
    requires forall i, j :: 0 <= i < j < |records| ==> records[i].0 != records[j].0
    ensures |RowsOf(records)| == |records|
    decreases |records|
  {
    if records == [] {
    } else {
      var before, addr := records[..|records| - 1], records[|records| - 1].0;
      RecordCount(before);
      if addr in RowsOf(before) {
        RecordSeen(before, addr);
      }
      assert RowsOf(records).Keys == RowsOf(before).Keys + {addr};
    }
  }

  // One more record adds its device, when its key opens, and nothing else.
  lemma {:induction false} OneMoreRecord(aead: Aead, records: seq<(DeviceAddr, Row)>, i: nat, ring: Ring)
    requires i < |records| && forall j, k :: 0 <= j < k < |records| ==> records[j].0 != records[k].0
    ensures var (addr, row) := records[i];
            var before := Opened(aead, RowsOf(records[..i]), ring);
            && addr !in before
            && Opened(aead, RowsOf(records[..i + 1]), ring) ==
                 match OpenKeyColumn(aead, row.column, addr, ring)
                 case KeyIs(key) => before[addr := Device(row.name, addr, row.validFrom, key)]
                 case Faulty(_) => before
  {
    hide OpenKeyColumn;
    var (addr, row) := records[i];
    assert records[..i + 1][..i] == records[..i] && records[..i + 1][i] == records[i];
    assert RowsOf(records[..i + 1]) == RowsOf(records[..i])[addr := row];
    if addr in RowsOf(records[..i]) {
      RecordSeen(records[..i], addr);
    }
  }

  // Writing one row whose key opens changes the opened table at that row only.
  lemma {:induction false} OpenedAfterWrite(
    aead: Aead, rows: map<DeviceAddr, Row>, addr: DeviceAddr, row: Row, ring: Ring, key: Key)
    requires OpenKeyColumn(aead, row.column, addr, ring) == KeyIs(key)
    ensures Opened(aead, rows[addr := row], ring)
            == Opened(aead, rows, ring)[addr := Device(row.name, addr, row.validFrom, key)]
  {
    hide OpenKeyColumn;
  }

  // The generation a stored column needs, when it can be read that far.
  function GenerationOf(column: Option<seq<Byte>>): Option<Byte> {
    if column.Some? && |column.value| == COLUMN_SIZE && column.value[0] == SEALED_VERSION then Some(column.value[1])
    else None
  }

  // `later` still has the key `ring` has for the generation this column needs.
  predicate KeepsGeneration(column: Option<seq<Byte>>, ring: Ring, later: Ring) {
    var v := GenerationOf(column);
    v.Some? && v.value in ring.keks ==> v.value in later.keks && later.keks[v.value] == ring.keks[v.value]
  }

  ghost predicate KeepsGenerations(rows: map<DeviceAddr, Row>, ring: Ring, later: Ring) {
    forall addr :: addr in rows ==> KeepsGeneration(rows[addr].column, ring, later)
  }

  // Main result: a restart under any ring that still holds the generations in
  // use serves everything served before, with the same keys, whichever
  // generation either ring calls current; and when it brings none that was
  // missing, it serves nothing else.
  lemma {:induction false} RestartServesTheSame(aead: Aead, rows: map<DeviceAddr, Row>, ring: Ring, later: Ring)
    requires KeepsGenerations(rows, ring, later)
    ensures var before, after := Opened(aead, rows, ring), Opened(aead, rows, later);
            && (forall addr :: addr in before ==> addr in after && after[addr] == before[addr])
            && (KeepsGenerations(rows, later, ring) ==> after == before)
  {
    OpensTheSame(aead, rows, ring, later);
    if KeepsGenerations(rows, later, ring) {
      OpensTheSame(aead, rows, later, ring);
    }
  }

  lemma {:induction false} OpensTheSame(aead: Aead, rows: map<DeviceAddr, Row>, ring: Ring, later: Ring)
    requires KeepsGenerations(rows, ring, later)
    ensures forall addr :: addr in Opened(aead, rows, ring) ==>
                             addr in Opened(aead, rows, later) &&
                             Opened(aead, rows, later)[addr] == Opened(aead, rows, ring)[addr]
  {
    forall addr | addr in Opened(aead, rows, ring)
      ensures OpenKeyColumn(aead, rows[addr].column, addr, later) == OpenKeyColumn(aead, rows[addr].column, addr, ring)
    {
      SameGeneration(aead, rows[addr].column, addr, ring, later);
    }
  }

  // Main result: so after such a restart every key handed out last is still the
  // one served.
  lemma {:induction false} RestartServesTheKeysHandedOut(registry: DeviceRegistry, later: Ring)
    requires registry.Valid() && KeepsGenerations(registry.table.rows, registry.ring, later)
    ensures var served := Opened(registry.aead, registry.table.rows, later);
            forall addr :: addr in registry.handedOut ==> addr in served && served[addr].key == registry.handedOut[addr]
  {
    hide Opened, Aead.Lawful;
    RestartServesTheSame(registry.aead, registry.table.rows, registry.ring, later);
  }

  lemma {:induction false} SameGeneration(
    aead: Aead, column: Option<seq<Byte>>, addr: DeviceAddr, ring: Ring, other: Ring)
    requires OpenKeyColumn(aead, column, addr, ring).KeyIs? && KeepsGeneration(column, ring, other)
    ensures OpenKeyColumn(aead, column, addr, other) == OpenKeyColumn(aead, column, addr, ring)
  {
    assert GenerationOf(column) == Some(column.value[1]);
  }
}
