/**
 * The active-record base class `titania_database_object`: an object whose
 * configured fields map to one row of one table, written with INSERT or
 * UPDATE, read with SELECT and removed with DELETE.
 *
 * The process-wide database handle becomes a `Gateway` that records, as a
 * ghost log, each statement the record issues. The id the database hands out
 * after an INSERT and the row a SELECT fetches are inputs of the methods.
 */
module DatabaseObject {
  import opened PhpValue
  import opened Sanitiser
  import opened Subsequence

  /** A column name with the value written to it. */
  type Column = (string, Value)

  /** A field name with its validation options: one entry of the object's configuration. */
  type ConfigEntry = (string, Options)

  /** The statements the record hands to the database, without their SQL text. */
  datatype Statement =
    | SqlInsert(table: string, columns: seq<Column>)
    | SqlUpdate(table: string, columns: seq<Column>, idField: string, id: Value)
    | SqlSelect(table: string, names: seq<string>, idField: string, id: Value)
    | SqlDelete(table: string, idField: string, id: Value)

  /** The database connection; only the statements it was given are tracked. */
  class Gateway {
    ghost var issued: seq<Statement>

    constructor ()
      ensures issued == []
    {
      issued := [];
    }

    /** `$db->sql_query($sql)` */
    method Query(st: Statement)
      modifies this
      ensures issued == old(issued) + [st]
    {
      issued := issued + [st];
    }
  }

  /** `$this->$name`: a field that was never assigned reads as null. */
  function Field(fields: map<string, Value>, name: string): (v: Value)
    ensures name !in fields ==> v == Null
    ensures name in fields ==> v == fields[name]
  {
    if name in fields then fields[name] else Null
  }

  /** `array_keys($this->object_config)` */
  function Names(config: seq<ConfigEntry>): (names: seq<string>)
    ensures |names| == |config|
    ensures forall i :: 0 <= i < |config| ==> names[i] == config[i].0
  {
    seq(|config|, i requires 0 <= i < |config| => config[i].0)
  }

  /** The configured field names, for `isset($this->object_config[$key])`. */
  function NameSet(config: seq<ConfigEntry>): set<string>
  {
    set e | e in config :: e.0
  }

  /** Every name in NameSet comes from some position of the configuration. */
  lemma NameIndex(config: seq<ConfigEntry>, k: string) returns (i: nat)
    requires k in NameSet(config)
    ensures i < |config| && config[i].0 == k
  {
    var e :| e in config && e.0 == k;
    i :| i < |config| && config[i] == e;
  }

  /** The configuration is a PHP array keyed by field name, so no name occurs twice. */
  ghost predicate DistinctNames(config: seq<ConfigEntry>)
  {
    forall i, j :: 0 <= i < j < |config| ==> config[i].0 != config[j].0
  }

  /** A configured field with its current value after `validate_property`. */
  function ValidatedColumn(fields: map<string, Value>, entry: ConfigEntry): Column
  {
    (entry.0, ValidateProperty(Field(fields, entry.0), entry.1))
  }

  /** Every configured field, in configuration order, with its validated value: what `insert` writes. */
  function ValidatedRow(config: seq<ConfigEntry>, fields: map<string, Value>): (row: seq<Column>)
    ensures |row| == |config|
    ensures forall i :: 0 <= i < |config| ==>
              row[i].0 == config[i].0 && row[i].1 == ValidateProperty(Field(fields, config[i].0), config[i].1)
  {
    if config == [] then []
    else ValidatedRow(config[..|config| - 1], fields) + [ValidatedColumn(fields, config[|config| - 1])]
  }

  /** `isset($this->sql_data[$name]) && $this->sql_data[$name] == $property_value` */
  predicate MatchesSnapshot(sqlData: map<string, Value>, col: Column): (m: bool)
    ensures m ==> col.1 != Null && col.0 in sqlData
  {
    col.0 in sqlData && sqlData[col.0] != Null && sqlData[col.0] == col.1
  }

  /** The columns `update` writes, gathered over the configuration in order. */
  function ChangeSet(config: seq<ConfigEntry>, idField: string, fields: map<string, Value>,
                     sqlData: map<string, Value>): (cs: seq<Column>)
    ensures |cs| <= |config|
    ensures forall k :: 0 <= k < |cs| ==> cs[k].0 != idField
  {
    if config == [] then []
    else
      var prev := ChangeSet(config[..|config| - 1], idField, fields, sqlData);
      var col := ValidatedColumn(fields, config[|config| - 1]);
      if col.0 == idField || MatchesSnapshot(sqlData, col) then prev else prev + [col]
  }

  /** What `update` issues: nothing for an empty change set, else one UPDATE of the current id. */
  function UpdateStatements(table: string, config: seq<ConfigEntry>, idField: string,
                            fields: map<string, Value>, sqlData: map<string, Value>): (sts: seq<Statement>)
    ensures |sts| <= 1
    ensures sts == [] <==> ChangeSet(config, idField, fields, sqlData) == []
    ensures forall st :: st in sts ==>
              (st.SqlUpdate? && st.table == table && st.idField == idField &&
               st.id == Field(fields, idField) && st.columns == ChangeSet(config, idField, fields, sqlData))
  {
    var cs := ChangeSet(config, idField, fields, sqlData);
    if cs == [] then [] else [SqlUpdate(table, cs, idField, Field(fields, idField))]
  }

  /** The fields after `load` copied the configured keys of a fetched row. */
  function Loaded(fields: map<string, Value>, row: map<string, Value>, names: set<string>): (f: map<string, Value>)
    ensures f.Keys == fields.Keys + (row.Keys * names)
  {
    fields + map k | k in row.Keys * names :: row[k]
  }

  /** After `load`, a field holds the row's value when the row has it and it is configured, and its old value otherwise. */
  lemma LoadedAt(fields: map<string, Value>, row: map<string, Value>, names: set<string>, k: string)
    ensures Field(Loaded(fields, row, names), k) == if k in row && k in names then row[k] else Field(fields, k)
  {
  }

  /** One key of the fetched row taken into account: it is copied when configured. */
  lemma LoadStep(fields: map<string, Value>, row: map<string, Value>, remaining: set<string>, names: set<string>, key: string)
    requires key in remaining && key in row
    ensures var before := Loaded(fields, row - remaining, names);
            Loaded(fields, row - (remaining - {key}), names) == if key in names then before[key := row[key]] else before
  {
    var before := Loaded(fields, row - remaining, names);
    var after := Loaded(fields, row - (remaining - {key}), names);
    if key in names {
      assert after.Keys == before[key := row[key]].Keys;
    } else {
      assert after.Keys == before.Keys;
    }
  }

  /** A column belongs to the change set exactly when it is configured, is not the id, and the snapshot does not already hold it. */
  lemma {:induction false} ChangeSetMembers(config: seq<ConfigEntry>, idField: string,
                                            fields: map<string, Value>, sqlData: map<string, Value>)
    ensures forall col :: col in ChangeSet(config, idField, fields, sqlData) <==>
              col in ValidatedRow(config, fields) && col.0 != idField && !MatchesSnapshot(sqlData, col)
  {
    if config != [] {
      ChangeSetMembers(config[..|config| - 1], idField, fields, sqlData);
    }
  }

  /** The change set keeps configuration order: it is a subsequence of the validated row. */
  lemma {:induction false} ChangeSetInConfigOrder(config: seq<ConfigEntry>, idField: string,
                                                  fields: map<string, Value>, sqlData: map<string, Value>)
    ensures IsSubsequence(ChangeSet(config, idField, fields, sqlData), ValidatedRow(config, fields))
  {
    if config == [] {
      assert IsEmbedding([], ChangeSet(config, idField, fields, sqlData), ValidatedRow(config, fields));
    } else {
      var init := config[..|config| - 1];
      var col := ValidatedColumn(fields, config[|config| - 1]);
      var keep := !(col.0 == idField || MatchesSnapshot(sqlData, col));
      ChangeSetInConfigOrder(init, idField, fields, sqlData);
      var idx :| IsEmbedding(idx, ChangeSet(init, idField, fields, sqlData), ValidatedRow(init, fields));
      ExtendAtBack(idx, ChangeSet(init, idField, fields, sqlData), ValidatedRow(init, fields), col, keep);
    }
  }

  /** A snapshot entry that is null, or missing, never keeps a configured non-id field out of the change set. */
  lemma NullSnapshotNeverSuppresses(config: seq<ConfigEntry>, idField: string,
                                    fields: map<string, Value>, sqlData: map<string, Value>, i: nat)
    requires i < |config| && config[i].0 != idField
    requires config[i].0 in sqlData ==> sqlData[config[i].0] == Null
    ensures ValidatedColumn(fields, config[i]) in ChangeSet(config, idField, fields, sqlData)
  {
    ChangeSetMembers(config, idField, fields, sqlData);
    assert ValidatedRow(config, fields)[i] == ValidatedColumn(fields, config[i]);
  }

  /**
   * Right after `load`, `update` writes nothing, provided the row held a
   * non-null value for every configured non-id field and validation leaves
   * each of those values as it is.
   */
  lemma LoadThenUpdateIsSilent(config: seq<ConfigEntry>, idField: string,
                               fields: map<string, Value>, row: map<string, Value>)
    requires forall i :: 0 <= i < |config| && config[i].0 != idField ==>
               config[i].0 in row && row[config[i].0] != Null &&
               ValidateProperty(row[config[i].0], config[i].1) == row[config[i].0]
    ensures ChangeSet(config, idField, Loaded(fields, row, NameSet(config)), row) == []
  {
    var loaded := Loaded(fields, row, NameSet(config));
    var cs := ChangeSet(config, idField, loaded, row);
    ChangeSetMembers(config, idField, loaded, row);
    if cs != [] {
      var i := NameIndex(config, cs[0].0);
      assert false;
    }
  }

  /** The row the database holds for the given columns. */
  function RowOf(cols: seq<Column>): (row: map<string, Value>)
    ensures cols == [] ==> row == map[]
    ensures cols != [] ==> cols[|cols| - 1].0 in row && row[cols[|cols| - 1].0] == cols[|cols| - 1].1
  {
    if cols == [] then map[]
    else RowOf(cols[..|cols| - 1])[cols[|cols| - 1].0 := cols[|cols| - 1].1]
  }

  /** With distinct names, each column's value is found under its name. */
  lemma {:induction false} RowOfLookup(cols: seq<Column>)
    requires forall i, j :: 0 <= i < j < |cols| ==> cols[i].0 != cols[j].0
    ensures forall i :: 0 <= i < |cols| ==> cols[i].0 in RowOf(cols) && RowOf(cols)[cols[i].0] == cols[i].1
  {
    if cols != [] {
      RowOfLookup(cols[..|cols| - 1]);
    }
  }

  /** Every key of the stored row is the name of one of the columns. */
  lemma {:induction false} RowOfKeyIndex(cols: seq<Column>, k: string) returns (i: nat)
    requires k in RowOf(cols)
    ensures i < |cols| && cols[i].0 == k
  {
    var n := |cols| - 1;
    if cols[n].0 == k {
      i := n;
    } else {
      i := RowOfKeyIndex(cols[..n], k);
    }
  }

  /** Distinct configured names give distinct column names. */
  lemma ValidatedRowDistinct(config: seq<ConfigEntry>, fields: map<string, Value>)
    requires DistinctNames(config)
    ensures var cols := ValidatedRow(config, fields);
            forall i, j :: 0 <= i < j < |cols| ==> cols[i].0 != cols[j].0
  {
  }

  /** The row stored for an INSERT of the validated fields has exactly the configured names as keys. */
  lemma StoredRowKeys(config: seq<ConfigEntry>, fields: map<string, Value>)
    requires DistinctNames(config)
    ensures RowOf(ValidatedRow(config, fields)).Keys == NameSet(config)
  {
    var cols := ValidatedRow(config, fields);
    ValidatedRowDistinct(config, fields);
    RowOfLookup(cols);
    forall k | k in NameSet(config) ensures k in RowOf(cols) {
      var i := NameIndex(config, k);
      assert cols[i].0 == k;
    }
    forall k | k in RowOf(cols) ensures k in NameSet(config) {
      var i := RowOfKeyIndex(cols, k);
      assert config[i] in config;
    }
  }

  /**
   * The row the database holds after `insert`: the inserted columns, with the
   * id the database generated in place of the id column.
   */
  function StoredRow(config: seq<ConfigEntry>, idField: string, fields: map<string, Value>, nextId: int): (row: map<string, Value>)
    ensures idField in NameSet(config) ==> idField in row && row[idField] == Int(nextId)
    ensures idField !in NameSet(config) ==> row == RowOf(ValidatedRow(config, fields))
  {
    var row := RowOf(ValidatedRow(config, fields));
    if idField in NameSet(config) then row[idField := Int(nextId)] else row
  }

  /**
   * `insert` followed by `load` of the new id gives back the fields, when
   * validation changed no value: `inserted` are the fields after `insert`;
   * the row is found (there is a column) and every field reads as it did
   * after `insert`.
   */
  lemma InsertThenLoadRoundTrip(config: seq<ConfigEntry>, idField: string, fields: map<string, Value>, nextId: int,
                                inserted: map<string, Value>)
    requires DistinctNames(config)
    requires forall i :: 0 <= i < |config| ==>
               ValidateProperty(Field(fields, config[i].0), config[i].1) == Field(fields, config[i].0)
    requires inserted == fields[idField := Int(nextId)]
    ensures StoredRow(config, idField, fields, nextId) == map[] <==> config == []
    ensures forall k :: Field(Loaded(inserted, StoredRow(config, idField, fields, nextId), NameSet(config)), k) == Field(inserted, k)
  {
    var names := NameSet(config);
    var cols := ValidatedRow(config, fields);
    var stored := StoredRow(config, idField, fields, nextId);
    ValidatedRowDistinct(config, fields);
    RowOfLookup(cols);
    if config != [] {
      assert cols[0].0 in stored;
    }
    forall k
      ensures Field(Loaded(inserted, stored, names), k) == Field(inserted, k)
    {
      LoadedAt(inserted, stored, names, k);
      if k in stored && k in names && k != idField {
        var i := NameIndex(config, k);
        assert stored[k] == RowOf(cols)[cols[i].0];
      }
    }
  }

  /** The active record: configured fields, the last fetched row, and the operations on them. */
  class Record {
    /** `$sql_table` */
    const table: string
    /** `$sql_id_field` */
    const idField: string
    /** `object_config`: field names with their options, in declaration order. */
    const config: seq<ConfigEntry>
    /** The object's properties, by name. */
    var fields: map<string, Value>
    /** `$sql_data`: the row last fetched by `load`. */
    var sqlData: map<string, Value>

    constructor (table: string, idField: string, config: seq<ConfigEntry>)
      requires DistinctNames(config)
      ensures DistinctNames(this.config)
      ensures this.table == table && this.idField == idField && this.config == config
      ensures fields == map[] && sqlData == map[]
    {
      this.table := table;
      this.idField := idField;
      this.config := config;
      fields := map[];
      sqlData := map[];
    }

    /** `submit`: insert when the id field is falsy, update otherwise. */
    method Submit(db: Gateway, nextId: int)
      modifies this, db
      ensures !Truthy(Field(old(fields), idField)) ==>
                && db.issued == old(db.issued) + [SqlInsert(table, ValidatedRow(config, old(fields)))]
                && fields == old(fields)[idField := Int(nextId)]
      ensures Truthy(Field(old(fields), idField)) ==>
                && db.issued == old(db.issued) + UpdateStatements(table, config, idField, old(fields), old(sqlData))
                && fields == old(fields)
      ensures sqlData == old(sqlData)
    {
      if !Truthy(Field(fields, idField)) {
        Insert(db, nextId);
      } else {
        Update(db);
      }
    }

    /** `update`: write the changed non-id columns, or nothing when none changed. */
    method Update(db: Gateway)
      modifies db
      ensures db.issued == old(db.issued) + UpdateStatements(table, config, idField, fields, sqlData)
      ensures unchanged(this)
    {
      var changes: seq<Column> := [];
      for i := 0 to |config|
        invariant changes == ChangeSet(config[..i], idField, fields, sqlData)
      {
        assert config[..i + 1][..i] == config[..i];
        var (name, opts) := config[i];
        if name == idField {
          continue;
        }
        var value := ValidateProperty(Field(fields, name), opts);
        if name in sqlData && sqlData[name] != Null && sqlData[name] == value {
          continue;
        }
        changes := changes + [(name, value)];
      }
      assert config[..|config|] == config;
      if changes == [] {
        return;
      }
      db.Query(SqlUpdate(table, changes, idField, Field(fields, idField)));
    }

    /** `insert`: write every configured column, then take the id the database generated. */
    method Insert(db: Gateway, nextId: int)
      modifies this, db
      ensures db.issued == old(db.issued) + [SqlInsert(table, ValidatedRow(config, old(fields)))]
      ensures fields == old(fields)[idField := Int(nextId)]
      ensures sqlData == old(sqlData)
    {
      var row: seq<Column> := [];
      for i := 0 to |config|
        invariant row == ValidatedRow(config[..i], fields)
      {
        assert config[..i + 1][..i] == config[..i];
        var (name, opts) := config[i];
        row := row + [(name, ValidateProperty(Field(fields, name), opts))];
      }
      assert config[..|config|] == config;
      db.Query(SqlInsert(table, row));
      fields := fields[idField := Int(nextId)];
    }

    /**
     * `load`: select the configured columns of the current id; `row` is what
     * the fetch returned, empty when no row was found.
     */
    method Load(db: Gateway, row: map<string, Value>) returns (found: bool)
      modifies this, db
      ensures db.issued == old(db.issued) + [SqlSelect(table, Names(config), idField, Field(old(fields), idField))]
      ensures sqlData == row
      ensures found <==> row != map[]
      ensures fields == if found then Loaded(old(fields), row, NameSet(config)) else old(fields)
    {
      ghost var issued := old(db.issued) + [SqlSelect(table, Names(config), idField, Field(fields, idField))];
      db.Query(SqlSelect(table, Names(config), idField, Field(fields, idField)));
      sqlData := row;
      if row == map[] {
        return false;
      }
      var names := NameSet(config);
      var remaining := row.Keys;
      while remaining != {}
        invariant remaining <= row.Keys
        invariant sqlData == row && db.issued == issued
        invariant fields == Loaded(old(fields), row - remaining, names)
        decreases remaining
      {
        var key :| key in remaining;
        LoadStep(old(fields), row, remaining, names, key);
        if key in names {
          fields := fields[key := row[key]];
        }
        remaining := remaining - {key};
      }
      assert row - remaining == row;
      return true;
    }

    /** `delete`: remove the row of the current id; the object itself is left as it is. */
    method Delete(db: Gateway)
      modifies db
      ensures db.issued == old(db.issued) + [SqlDelete(table, idField, Field(fields, idField))]
      ensures unchanged(this)
    {
      db.Query(SqlDelete(table, idField, Field(fields, idField)));
    }
  }

  /** The default message of `NoDataFoundException`. */
  const NoDataFoundDefault: string := "Unable to get object from database. No data found for primary key."

  /** `NoDataFoundException`: a message and an integer code. */
  datatype NoDataFound = NoDataFound(message: string, code: int)

  /** `new NoDataFoundException($name, $code)`: an empty ('' or '0') name gives the default message. */
  function NewNoDataFound(name: string, code: int): (e: NoDataFound)
    ensures e.code == code
    ensures e.message != "" && e.message != "0"
    ensures name != "" && name != "0" ==> e.message == name
    ensures name == "" || name == "0" ==> e.message == NoDataFoundDefault
  {
    if name == "" || name == "0" then NoDataFound(NoDataFoundDefault, code) else NoDataFound(name, code)
  }
}
