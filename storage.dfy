/** Generic node storage over SQL tables: a table node whose children are
    the rows of one table keyed by the primary key, and a row node whose
    attributes are the columns of one record. The database table is the
    map `rows` from primary-key value to record. */
module Storage {
  import opened Wrappers
  import opened Text
  import opened Guid
  import Settings

  /** A column value. */
  datatype Value = Null | IntVal(i: int) | StrVal(s: string) | UuidVal(u: Uuid)

  /** Python truthiness of a column value: None, 0 and '' are false; a
      uuid.UUID is always true. */
  predicate Truthy(v: Value)
  {
    match v
    case Null => false
    case IntVal(i) => i != 0
    case StrVal(s) => s != ""
    case UuidVal(_) => true
  }

  /** The SQLAlchemy type of the primary-key column, which selects the
      converter from node name to key value. */
  datatype KeyType = GuidKey | StringKey | IntegerKey | OtherKey

  predicate HasType(v: Value, t: KeyType)
  {
    match t
    case GuidKey => v.UuidVal?
    case StringKey => v.StrVal?
    case IntegerKey => v.IntVal?
    case OtherKey => false
  }

  const CONVERT_FAILED := "Failed to convert node name to expected primary key data type"

  /** _convert_primary_key: uuid.UUID, str or int applied to the node name;
      a failing converter, or a key type without one, is a KeyError. */
  function ConvertPrimaryKey(name: string, t: KeyType): (r: Result<Value>)
    ensures r.Ok? ==> HasType(r.value, t)
    ensures r.Err? ==> r.error == KeyError(CONVERT_FAILED)
    ensures t == StringKey ==> r == Ok(StrVal(name))
    ensures t == OtherKey ==> r.Err?
  {
    match t
    case GuidKey =>
      (match ParseUuid(name)
       case Some(u) => Ok(UuidVal(u))
       case None => Err(KeyError(CONVERT_FAILED)))
    case StringKey => Ok(StrVal(name))
    case IntegerKey =>
      (match ParseInt(name)
       case Some(i) => Ok(IntVal(i))
       case None => Err(KeyError(CONVERT_FAILED)))
    case OtherKey => Err(KeyError(CONVERT_FAILED))
  }

  /** A guid key converts exactly when the name parses as a UUID, an
      integer key exactly when it parses as an integer. */
  lemma ConvertAccepts(name: string, t: KeyType)
    ensures t == GuidKey ==> (ConvertPrimaryKey(name, t).Ok? <==> ParseUuid(name).Some?)
    ensures t == IntegerKey ==> (ConvertPrimaryKey(name, t).Ok? <==> ParseInt(name).Some?)
  {
  }

  /** `str(key)`: the node name __iter__ yields for a key. */
  function KeyName(v: Value): string
  {
    match v
    case Null => "None"
    case IntVal(i) => IntToString(i)
    case StrVal(s) => s
    case UuidVal(u) => Hyphenated(u)
  }

  /** The name of a key converts back to that key. */
  lemma ConvertKeyName(v: Value, t: KeyType)
    requires HasType(v, t)
    ensures ConvertPrimaryKey(KeyName(v), t) == Ok(v)
  {
    match v
    case IntVal(i) => ParseIntToString(i);
    case StrVal(s) =>
    case UuidVal(u) => ParseHyphenated(u);
  }

  /** A record: column name to value. */
  type Record = map<string, Value>

  /** The record has exactly the given columns. */
  predicate Conforms(rec: Record, columns: seq<string>)
  {
    (forall c :: c in rec ==> c in columns) && (forall c :: c in columns ==> c in rec)
  }

  /** The record with the primary-key column filled in from `key` when it
      holds a false value. */
  function Filled(rec: Record, pkName: string, key: Value): (r: Record)
    requires pkName in rec
    ensures r.Keys == rec.Keys
    ensures Truthy(rec[pkName]) ==> r == rec
    ensures !Truthy(rec[pkName]) ==> r[pkName] == key && forall c :: c in rec && c != pkName ==> r[c] == rec[c]
  {
    if !Truthy(rec[pkName]) then rec[pkName := key] else rec
  }

  /** What the session was asked to do, in order. */
  class Session {
    var added: seq<Record>
    var actions: seq<Settings.SessionAction>

    constructor()
      ensures added == [] && actions == []
    {
      added := [];
      actions := [];
    }
  }

  // ---------------------------------------------------------------------------
  // Row node
  // ---------------------------------------------------------------------------

  /** A node over one record. Its attributes are the record's columns; it has
      no children. */
  class RowNode {
    const columns: seq<string>
    var record: Record
    var isNew: bool

    ghost predicate Valid()
      reads this`record
    {
      Conforms(record, columns)
    }

    /** A row node over an existing record, or over a fresh record of the
        table (all columns None) that is marked new. */
    constructor(columns: seq<string>, existing: Option<Record>)
      requires existing.Some? ==> Conforms(existing.value, columns)
      ensures Valid() && this.columns == columns
      ensures isNew <==> existing.None?
      ensures existing.Some? ==> record == existing.value
      ensures existing.None? ==> forall c :: c in columns ==> record[c] == Null
    {
      this.columns := columns;
      if existing.None? {
        isNew := true;
        record := map c | c in columns :: Null;
      } else {
        isNew := false;
        record := existing.value;
      }
    }

    /** `name in attrs`: the name is a column. */
    predicate Contains(name: string)
      reads this`record
    {
      name in columns
    }

    /** `attrs[name]` */
    function AttrGet(name: string): (r: Result<Value>)
      reads this`record
      requires Valid()
      ensures r.Ok? <==> Contains(name)
      ensures r.Ok? ==> r.value == record[name]
      ensures r.Err? ==> r.error == KeyError("Unknown attribute: " + name)
    {
      if name in columns then Ok(record[name]) else Err(KeyError("Unknown attribute: " + name))
    }

    /** `attrs[name] = value` */
    method AttrSet(name: string, value: Value) returns (out: Outcome)
      requires Valid()
      modifies this
      ensures Valid() && isNew == old(isNew)
      ensures Contains(name) ==> out == Pass && record == old(record)[name := value]
      ensures !Contains(name) ==> out == Fail(KeyError("Unknown attribute: " + name)) && record == old(record)
    {
      if name in columns {
        record := record[name := value];
        out := Pass;
      } else {
        out := Fail(KeyError("Unknown attribute: " + name));
      }
    }

    /** `del attrs[name]` is never allowed. */
    function AttrDelete(name: string): (out: Outcome)
      ensures out.Fail? && out.error.KeyError?
    {
      Fail(KeyError("Deleting of attributes not allowed"))
    }

    /** A row node has no children: iteration is empty ... */
    function Children(): (names: seq<string>)
      ensures |names| == 0
    {
      []
    }

    /** ... and looking up or storing a child is a KeyError for the name. */
    function GetChild(name: string): (r: Result<Record>)
      ensures r == Err(KeyError(name))
    {
      Err(KeyError(name))
    }

    function SetChild(name: string, child: Record): (out: Outcome)
      ensures out == Fail(KeyError(name))
    {
      Fail(KeyError(name))
    }

    /** __call__: a new record is added to the session once, then the session
        is flushed or committed. */
    method Call(session: Session, environ: Settings.Settings)
      modifies this, session
      ensures record == old(record) && !isNew
      ensures old(isNew) ==> session.added == old(session.added) + [record]
      ensures !old(isNew) ==> session.added == old(session.added)
      ensures session.actions == old(session.actions) + [Settings.PersistAction(environ)]
    {
      if isNew {
        session.added := session.added + [record];
        isNew := false;
      }
      session.actions := session.actions + [Settings.PersistAction(environ)];
    }
  }

  /** Calling a row node twice adds its record to the session at most once. */
  method CallTwice(node: RowNode, session: Session, environ: Settings.Settings)
    requires node != session as object
    modifies node, session
    ensures |session.added| == |old(session.added)| + (if old(node.isNew) then 1 else 0)
    ensures !node.isNew
  {
    node.Call(session, environ);
    node.Call(session, environ);
  }

  /** The update loop of table __setitem__: every column of `source` is set
      on `stored`, which then equals `source`. */
  method CopyAttributes(stored: Record, source: Record, columns: seq<string>) returns (r: Record)
    requires Conforms(stored, columns) && Conforms(source, columns)
    ensures r == source
  {
    r := stored;
    var i := 0;
    while i < |columns|
      invariant 0 <= i <= |columns|
      invariant Conforms(r, columns)
      invariant forall j :: 0 <= j < i ==> r[columns[j]] == source[columns[j]]
    {
      r := r[columns[i] := source[columns[i]]];
      i := i + 1;
    }
    assert r == source by {
      forall c | c in r ensures r[c] == source[c] {
        var j :| 0 <= j < |columns| && columns[j] == c;
      }
    }
  }

  // ---------------------------------------------------------------------------
  // Table node
  // ---------------------------------------------------------------------------

  /** Every row has the table's columns, a key of the key type, and holds
      its key in the primary-key column. */
  ghost predicate WellKeyed(rows: map<Value, Record>, pkName: string, pkType: KeyType, columns: seq<string>)
  {
    forall k :: k in rows ==> HasType(k, pkType) && Conforms(rows[k], columns) && pkName in rows[k] && rows[k][pkName] == k
  }

  lemma WellKeyedPut(rows: map<Value, Record>, pkName: string, pkType: KeyType, columns: seq<string>,
                     key: Value, rec: Record)
    requires WellKeyed(rows, pkName, pkType, columns)
    requires HasType(key, pkType) && Conforms(rec, columns) && pkName in rec && rec[pkName] == key
    ensures WellKeyed(rows[key := rec], pkName, pkType, columns)
  {
  }

  lemma WellKeyedRemove(rows: map<Value, Record>, pkName: string, pkType: KeyType, columns: seq<string>,
                        key: Value)
    requires WellKeyed(rows, pkName, pkType, columns)
    ensures WellKeyed(rows - {key}, pkName, pkType, columns)
  {
  }

  /** A node over one table: each child is a row, named by the string form
      of its primary key. */
  class TableStorage {
    const pkName: string
    const pkType: KeyType
    const columns: seq<string>
    var rows: map<Value, Record>

    ghost predicate Valid()
      reads this`rows
    {
      pkName in columns && WellKeyed(rows, pkName, pkType, columns)
    }

    constructor(pkName: string, pkType: KeyType, columns: seq<string>)
      requires pkName in columns
      ensures Valid() && rows == map[]
      ensures this.pkName == pkName && this.pkType == pkType && this.columns == columns
    {
      this.pkName := pkName;
      this.pkType := pkType;
      this.columns := columns;
      rows := map[];
    }

    /** `table[name]`: the record stored under the converted name. */
    function GetItem(name: string): (r: Result<Record>)
      reads this`rows
      ensures ConvertPrimaryKey(name, pkType).Err? ==> r == Err(KeyError(CONVERT_FAILED))
      ensures r.Ok? <==> ConvertPrimaryKey(name, pkType).Ok? && ConvertPrimaryKey(name, pkType).value in rows
      ensures r.Ok? ==> r.value == rows[ConvertPrimaryKey(name, pkType).value]
      ensures ConvertPrimaryKey(name, pkType).Ok? && r.Err? ==> r == Err(KeyError(name))
    {
      match ConvertPrimaryKey(name, pkType)
      case Err(e) => Err(e)
      case Ok(key) => if key in rows then Ok(rows[key]) else Err(KeyError(name))
    }

    /** `table[name] = node`: fills a false primary-key attribute from the
        name, rejects a key that differs from the name, then inserts the
        record or copies its columns onto the stored record, which the node
        then shares. */
    method SetItem(name: string, node: RowNode) returns (out: Outcome)
      requires Valid() && node.Valid() && node.columns == columns
      modifies this, node
      ensures Valid() && node.Valid() && node.isNew == old(node.isNew)
      ensures ConvertPrimaryKey(name, pkType).Err? ==>
        out == Fail(KeyError(CONVERT_FAILED)) && rows == old(rows) && node.record == old(node.record)
      ensures ConvertPrimaryKey(name, pkType).Ok? ==>
        var key := ConvertPrimaryKey(name, pkType).value;
        var rec := Filled(old(node.record), pkName, key);
        && node.record == rec
        && (rec[pkName] != key ==> out.Fail? && out.error.KeyError? && rows == old(rows))
        && (rec[pkName] == key ==> out == Pass && rows == old(rows)[key := rec])
      ensures out.Pass? ==> GetItem(name) == Ok(node.record)
      ensures out.Pass? && ConvertPrimaryKey(name, pkType).value in old(rows) ==> |rows| == |old(rows)|
    {
      var conv := ConvertPrimaryKey(name, pkType);
      if conv.Err? {
        return Fail(conv.error);
      }
      var key := conv.value;
      if !Truthy(node.record[pkName]) {
        node.record := node.record[pkName := key];
      }
      if key != node.record[pkName] {
        return Fail(KeyError("Node name must match primary key attribute value"));
      }
      var stored := node.record;
      if key in rows {
        stored := CopyAttributes(rows[key], node.record, columns);
      }
      WellKeyedPut(rows, pkName, pkType, columns, key, stored);
      rows := rows[key := stored];
      node.record := stored;
      out := Pass;
    }

    /** `del table[name]`: removes exactly the record found by `table[name]`. */
    method DelItem(name: string) returns (out: Outcome)
      requires Valid()
      modifies this
      ensures Valid()
      ensures old(GetItem(name)).Err? <==> out.Fail?
      ensures out.Fail? ==> old(GetItem(name)).Err? && out.error == old(GetItem(name)).error && rows == old(rows)
      ensures GetItem(name).Err?
      ensures out.Pass? ==> rows == old(rows) - {ConvertPrimaryKey(name, pkType).value}
      ensures out.Pass? ==> |rows| == |old(rows)| - 1
    {
      var child := GetItem(name);
      if child.Err? {
        return Fail(child.error);
      }
      WellKeyedRemove(rows, pkName, pkType, columns, ConvertPrimaryKey(name, pkType).value);
      rows := rows - {ConvertPrimaryKey(name, pkType).value};
      out := Pass;
    }

    /** `list(table)`: the string form of every key. */
    function Names(): (names: set<string>)
      reads this`rows
      ensures forall k :: k in rows ==> KeyName(k) in names
      ensures forall n :: n in names ==> exists k :: k in rows && KeyName(k) == n
    {
      set k | k in rows :: KeyName(k)
    }

    /** __call__ of the table: the session is flushed or committed. */
    method Call(session: Session, environ: Settings.Settings)
      modifies session
      ensures session.added == old(session.added)
      ensures session.actions == old(session.actions) + [Settings.PersistAction(environ)]
    {
      session.actions := session.actions + [Settings.PersistAction(environ)];
    }
  }

  /** Every name the table iterates can be looked up, and gives its record. */
  lemma NamesResolve(t: TableStorage, k: Value)
    requires t.Valid() && k in t.rows
    ensures t.GetItem(KeyName(k)) == Ok(t.rows[k])
  {
    ConvertKeyName(k, t.pkType);
  }
}
