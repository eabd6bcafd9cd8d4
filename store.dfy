/**
 * The table store (`DataBase` in DataBaseLib/DataBase.cs): at most one table
 * per entity kind, each an ordered sequence of rows of that kind.
 *
 * Reading and writing files is not modelled: `Serialize` receives whether the
 * write succeeded and returns the rows it writes, `Deserialize` receives what
 * reading and decoding the file produced.
 */
module Store {
  import opened Entities

  /** The store's contents: the table of each kind that has one. */
  type Tables = map<Kind, seq<Entity>>

  /** Every table holds rows of its own kind only. */
  ghost predicate WellKinded(tables: Tables) {
    forall k | k in tables :: OfKind(tables[k], k)
  }

  /** The table of kind `k`, or the not-found error. */
  function Lookup(tables: Tables, k: Kind): (r: Result<seq<Entity>>)
    ensures r.Ok? <==> k in tables
    ensures r.Ok? ==> r.value == tables[k]
    ensures r.Err? ==> r.error == TableNotFound(k)
  {
    if k in tables then Ok(tables[k]) else Err(TableNotFound(k))
  }

  /** What reading and decoding a table file produced. */
  datatype DecodeOutcome =
    | ReadFailed            // the file could not be opened, or its text is not a table
    | DecodedNull           // the file holds a null document
    | Decoded(rows: seq<Entity>)

  class DataBase {
    var tables: Tables

    ghost predicate Valid()
      reads this
    {
      WellKinded(tables)
    }

    /** An empty store. */
    constructor ()
      ensures Valid() && tables == map[]
    {
      tables := map[];
    }

    /** Creates an empty table of kind `k`; fails when there already is one. */
    method CreateTable(k: Kind) returns (r: Result<()>)
      requires Valid()
      modifies this
      ensures Valid()
      ensures k in old(tables) ==> r == Err(TableAlreadyExists(k)) && tables == old(tables)
      ensures k !in old(tables) ==> r == Ok(()) && tables == old(tables)[k := []]
    {
      if k in tables {
        return Err(TableAlreadyExists(k));
      }
      tables := tables[k := []];
      r := Ok(());
    }

    /** Appends `e` to the table of its kind; fails when there is no such table. */
    method InsertInto(e: Entity) returns (r: Result<()>)
      requires Valid()
      modifies this
      ensures Valid()
      ensures e.KindOf() !in old(tables) ==> r == Err(TableNotFound(e.KindOf())) && tables == old(tables)
      ensures e.KindOf() in old(tables) ==>
        && r == Ok(())
        && tables == old(tables)[e.KindOf() := old(tables)[e.KindOf()] + [e]]
    {
      var k := e.KindOf();
      if k !in tables {
        return Err(TableNotFound(k));
      }
      tables := tables[k := tables[k] + [e]];
      r := Ok(());
    }

    /** The table of kind `k`, exactly as stored; fails when there is none.
        The store is not changed. */
    method GetTable(k: Kind) returns (r: Result<seq<Entity>>)
      requires Valid()
      ensures r.Ok? <==> k in tables
      ensures r.Ok? ==> r.value == tables[k] && OfKind(r.value, k)
      ensures r.Err? ==> r.error == TableNotFound(k)
    {
      if k !in tables {
        return Err(TableNotFound(k));
      }
      r := Ok(tables[k]);
    }

    /** Writes the table of kind `k` out: fails when there is no such table or
        when the write fails, and otherwise yields every row, in order, as
        written. The store is not changed. */
    method Serialize(k: Kind, writeSucceeds: bool) returns (r: Result<seq<Entity>>)
      ensures k !in tables ==> r == Err(TableNotFound(k))
      ensures k in tables && !writeSucceeds ==> r == Err(FileAccessFailed)
      ensures k in tables && writeSucceeds ==> r == Ok(tables[k])
    {
      if k !in tables {
        return Err(TableNotFound(k));
      }
      if !writeSucceeds {
        return Err(FileAccessFailed);
      }
      r := Ok(tables[k]);
    }

    /** Loads the table of kind `k` from a file: a failed read or a null
        document fails before anything changes; decoded rows replace the table
        (or create it), in decoded order. */
    method Deserialize(k: Kind, content: DecodeOutcome) returns (r: Result<()>)
      requires Valid()
      requires content.Decoded? ==> OfKind(content.rows, k)
      modifies this
      ensures Valid()
      ensures content.ReadFailed? ==> r == Err(FileAccessFailed) && tables == old(tables)
      ensures content.DecodedNull? ==> r == Err(DeserializationFailed) && tables == old(tables)
      ensures content.Decoded? ==> r == Ok(()) && tables == old(tables)[k := content.rows]
    {
      var rows;
      match content {
        case ReadFailed => return Err(FileAccessFailed);
        case DecodedNull => return Err(DeserializationFailed);
        case Decoded(decoded) => rows := decoded;
      }
      // Adding a new table and replacing an existing one are the same map update.
      tables := tables[k := rows];
      r := Ok(());
    }
  }

  /** A caller of the store that relies on the contracts alone: tables start
      absent, creation is refused twice, inserts append, and a reload of what
      was written restores the table. */
  method StoreUsage(s: Shop, t: Shop) {
    var db := new DataBase();
    var r := db.InsertInto(ShopRow(s));
    assert r == Err(TableNotFound(ShopKind));
    r := db.CreateTable(ShopKind);
    assert r.Ok?;
    r := db.CreateTable(ShopKind);
    assert r == Err(TableAlreadyExists(ShopKind));
    r := db.InsertInto(ShopRow(s));
    assert db.tables[ShopKind] == [ShopRow(s)];
    r := db.InsertInto(ShopRow(t));
    assert db.tables[ShopKind] == [ShopRow(s)] + [ShopRow(t)] == [ShopRow(s), ShopRow(t)];
    var got := db.GetTable(ShopKind);
    assert got == Ok([ShopRow(s), ShopRow(t)]);
    var written := db.Serialize(ShopKind, true);
    var reloaded := new DataBase();
    r := reloaded.Deserialize(ShopKind, Decoded(written.value));
    got := reloaded.GetTable(ShopKind);
    assert got == Ok([ShopRow(s), ShopRow(t)]);
    r := reloaded.Deserialize(BuyerKind, DecodedNull);
    assert BuyerKind !in reloaded.tables;
  }
}
