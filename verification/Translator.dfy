/** sql_translator.c: INSERT and SELECT as command lines. All texts come from the lexer, so none contains NUL. */
module Translator {
  import opened Sds
  import opened Text
  import opened SplitArgs

  datatype Column = Column(name: Bytes, isPrimary: bool)
  datatype Table = Table(name: Bytes, columns: seq<Column>)
  datatype Database = Database(name: Bytes, tables: seq<Table>)

  datatype Query = Select(table: Option<Bytes>, key: Option<Bytes>) | Insert(table: Option<Bytes>, vals: seq<Bytes>)

  datatype SqlError = SelectNeedsTableOrKey | InsertNeedsValues | InsertNeedsKeyAndValue | NoSuchTable | PrimaryKeyMissing

  datatype Result = Error(error: SqlError) | Command(redisCmd: Bytes, headers: seq<Bytes>)

  /** snprintf into the 1024-byte buffer. */
  function Buffered(s: Bytes): Bytes { if |s| > 1023 then s[..1023] else s }

  function GetTable(tables: seq<Table>, name: Bytes): Option<Table>
  {
    if tables == [] then None else if tables[0].name == name then Some(tables[0]) else GetTable(tables[1..], name)
  }

  function DbName(db: Option<Database>): Bytes { if db.Some? then db.value.name else "default" }

  function TableOf(db: Option<Database>, table: Option<Bytes>): Option<Table>
  {
    if db.Some? && table.Some? then GetTable(db.value.tables, table.value) else None
  }

  function RowKey(db: Bytes, table: Bytes, key: Bytes): Bytes { db + ":" + table + ":" + key }

  ghost function Names(columns: seq<Column>): seq<Bytes> { seq(|columns|, i requires 0 <= i < |columns| => columns[i].name) }

  method CopyNames(columns: seq<Column>) returns (headers: seq<Bytes>)
    ensures headers == Names(columns)
  {
    headers := [];
    for i := 0 to |columns|
      invariant |headers| == i && forall j :: 0 <= j < i ==> headers[j] == columns[j].name
    {
      headers := headers + [columns[i].name];
    }
  }

  // ----- what an INSERT is to say -----

  /** With more values than columns the first is the row's key; otherwise it is the value of the last primary column. */
  ghost function Offset(t: Table, vals: seq<Bytes>): nat { if |vals| > |t.columns| then 1 else 0 }

  ghost function LastPrimary(columns: seq<Column>): int
  {
    if columns == [] then -1
    else if columns[|columns| - 1].isPrimary then |columns| - 1
    else LastPrimary(columns[..|columns| - 1])
  }

  ghost function PrimaryIndex(t: Table): int { if LastPrimary(t.columns) == -1 then 0 else LastPrimary(t.columns) }

  /** The row's key, if the values have one. */
  ghost function PrimaryKey(t: Table, vals: seq<Bytes>): Option<Bytes>
  {
    if |vals| > |t.columns| then Some(vals[0])
    else if 0 <= PrimaryIndex(t) < |vals| then Some(vals[PrimaryIndex(t)])
    else None
  }

  /** How many columns get a value. */
  ghost function GivenColumns(t: Table, vals: seq<Bytes>): (n: nat)
    ensures n <= |t.columns| && n + Offset(t, vals) <= |vals|
  {
    var have := |vals| - Offset(t, vals);
    if have < |t.columns| then have else |t.columns|
  }

  ghost function Pairs(columns: seq<Column>, vals: seq<Bytes>, offset: nat, n: nat): (r: seq<Bytes>)
    requires n <= |columns| && n + offset <= |vals|
    ensures |r| == 2 * n
  {
    if n == 0 then [] else Pairs(columns, vals, offset, n - 1) + [columns[n - 1].name, vals[n - 1 + offset]]
  }

  ghost function HsetArgs(db: Bytes, t: Table, table: Bytes, vals: seq<Bytes>): seq<Bytes>
    requires vals != [] && PrimaryKey(t, vals).Some?
  {
    ["HSET", RowKey(db, table, PrimaryKey(t, vals).value)] + Pairs(t.columns, vals, Offset(t, vals), GivenColumns(t, vals))
  }

  ghost function Translated(db: Option<Database>, q: Query): Result
  {
    var t := TableOf(db, q.table);
    match q
    case Select(_, _) =>
      if q.key.None? then
        if q.table.None? then Error(SelectNeedsTableOrKey)
        else
          var headers := if t.Some? then Names(t.value.columns) else ["Key"];
          Command(Buffered("HSCANALL " + RowKey(DbName(db), q.table.value, "*")), headers)
      else if t.Some? then
        Command(Buffered("HGETALL " + RowKey(DbName(db), q.table.value, q.key.value)), Names(t.value.columns))
      else if q.table.Some? then Error(NoSuchTable)
      else Command(Buffered("GET " + q.key.value), ["Key", "Value"])
    case Insert(_, vals) =>
      if vals == [] then Error(InsertNeedsValues)
      else if t.Some? then
        if PrimaryKey(t.value, vals).None? then Error(PrimaryKeyMissing)
        else Command(Join(HsetArgs(DbName(db), t.value, q.table.value, vals)), ["Status"])
      else if q.table.Some? then Error(NoSuchTable)
      else if |vals| < 2 then Error(InsertNeedsKeyAndValue)
      else Command(Buffered("SET " + vals[0] + " " + vals[1]), ["Status"])
  }

  lemma LastPrimaryRange(columns: seq<Column>)
    ensures -1 <= LastPrimary(columns) < |columns|
    ensures LastPrimary(columns) >= 0 ==> columns[LastPrimary(columns)].isPrimary
    ensures forall i :: LastPrimary(columns) < i < |columns| ==> !columns[i].isPrimary
  {
  }

  /** The SELECT and INSERT cases of translate_query. */
  method TranslateQuery(db: Option<Database>, q: Query) returns (r: Result)
    ensures r == Translated(db, q)
  {
    var dbName := DbName(db);
    var t := TableOf(db, q.table);
    match q {
      case Select(table, key) =>
        if key.None? {
          if table.None? { return Error(SelectNeedsTableOrKey); }
          var headers := ["Key"];
          if t.Some? { headers := CopyNames(t.value.columns); }
          return Command(Buffered("HSCANALL " + RowKey(dbName, table.value, "*")), headers);
        }
        if t.Some? {
          var headers := CopyNames(t.value.columns);
          return Command(Buffered("HGETALL " + RowKey(dbName, table.value, key.value)), headers);
        }
        if table.Some? { return Error(NoSuchTable); }
        return Command(Buffered("GET " + key.value), ["Key", "Value"]);
      case Insert(table, vals) =>
        if |vals| == 0 { return Error(InsertNeedsValues); }
        if t.Some? {
          r := InsertRow(dbName, t.value, table.value, vals);
          return;
        }
        if table.Some? { return Error(NoSuchTable); }
        if |vals| < 2 { return Error(InsertNeedsKeyAndValue); }
        return Command(Buffered("SET " + vals[0] + " " + vals[1]), ["Status"]);
    }
  }

  method InsertRow(dbName: Bytes, t: Table, table: Bytes, vals: seq<Bytes>) returns (r: Result)
    requires vals != []
    ensures r == if PrimaryKey(t, vals).None? then Error(PrimaryKeyMissing)
                 else Command(Join(HsetArgs(dbName, t, table, vals)), ["Status"])
  {
    LastPrimaryRange(t.columns);
    var pkVal, valOffset;
    if |vals| > |t.columns| {
      pkVal, valOffset := vals[0], 1;
    } else {
      var pkIdx := -1;
      for i := 0 to |t.columns|
        invariant pkIdx == LastPrimary(t.columns[..i])
      {
        assert t.columns[..i + 1][..i] == t.columns[..i];
        if t.columns[i].isPrimary { pkIdx := i; }
      }
      assert t.columns[..|t.columns|] == t.columns;
      if pkIdx == -1 { pkIdx := 0; }
      if |vals| < pkIdx + 1 { return Error(PrimaryKeyMissing); }
      pkVal, valOffset := vals[pkIdx], 0;
    }
    var cmd := "HSET " + dbName + ":" + table + ":" + pkVal;
    HeadText(dbName, table, pkVal);
    cmd := AppendColumns(cmd, ["HSET", RowKey(dbName, table, pkVal)], t, vals, valOffset);
    r := Command(cmd, ["Status"]);
  }

  lemma HeadText(db: Bytes, table: Bytes, key: Bytes)
    ensures Join(["HSET", RowKey(db, table, key)]) == "HSET " + db + ":" + table + ":" + key
  {
    var k := RowKey(db, table, key);
    assert ["HSET", k][1..] == [k];
    assert "HSET" + " " == "HSET ";
    assert Join(["HSET", k]) == "HSET " + k;
  }

  method AppendColumns(start: Bytes, ghost head: seq<Bytes>, t: Table, vals: seq<Bytes>, offset: nat) returns (cmd: Bytes)
    requires head != [] && start == Join(head) && vals != [] && offset == Offset(t, vals)
    ensures cmd == Join(head + Pairs(t.columns, vals, offset, GivenColumns(t, vals)))
  {
    hide Join;
    cmd := start;
    var i := 0;
    assert head + [] == head;
    while i < |t.columns| && i + offset < |vals|
      invariant 0 <= i <= GivenColumns(t, vals)
      invariant cmd == Join(head + Pairs(t.columns, vals, offset, i))
    {
      ghost var args := head + Pairs(t.columns, vals, offset, i);
      JoinSnoc(args, t.columns[i].name);
      JoinSnoc(args + [t.columns[i].name], vals[i + offset]);
      cmd := cmd + " " + t.columns[i].name + " " + vals[i + offset];
      assert args + [t.columns[i].name] + [vals[i + offset]] == head + Pairs(t.columns, vals, offset, i + 1);
      i := i + 1;
    }
  }

  // ----- what the server receives -----

  predicate IsIdent(c: char) { 'a' <= c <= 'z' || 'A' <= c <= 'Z' || '0' <= c <= '9' || c == '_' || c == '*' }

  /** A lexer identifier. */
  ghost predicate Ident(s: Bytes)
  {
    s != [] && forall i :: 0 <= i < |s| ==> IsIdent(s[i])
  }

  lemma IdentIsPlain(s: Bytes)
    requires Ident(s)
    ensures Plain(s)
  {
  }

  lemma RowKeyIsPlain(db: Bytes, table: Bytes, key: Bytes)
    requires Ident(db) && Ident(table) && forall i :: 0 <= i < |key| ==> key[i] != '\0' && !IsSpace(key[i])
    ensures Plain(RowKey(db, table, key))
  {
    var k := RowKey(db, table, key);
    assert k[0] == db[0];
    forall i | 0 <= i < |k| ensures k[i] != '\0' && !IsSpace(k[i]) {
      if i < |db| {
        assert k[i] == db[i];
      } else if i == |db| || i == |db| + 1 + |table| {
        assert k[i] == ':';
      } else if i <= |db| + |table| {
        assert k[i] == table[i - |db| - 1];
      } else {
        assert k[i] == key[i - |db| - |table| - 2];
      }
    }
  }

  ghost predicate GoodTable(t: Table)
  {
    forall i :: 0 <= i < |t.columns| ==> Ident(t.columns[i].name)
  }

  lemma {:induction false} PairsPlain(t: Table, vals: seq<Bytes>, offset: nat, n: nat)
    requires GoodTable(t) && n <= |t.columns| && n + offset <= |vals|
    requires forall i :: 0 <= i < |vals| ==> Plain(vals[i])
    ensures forall i :: 0 <= i < 2 * n ==> Plain(Pairs(t.columns, vals, offset, n)[i])
  {
    if n > 0 {
      PairsPlain(t, vals, offset, n - 1);
      IdentIsPlain(t.columns[n - 1].name);
    }
  }

  lemma HsetIsPlain()
    ensures Plain("HSET")
  {
  }

  lemma PlainInside(s: Bytes)
    requires Plain(s)
    ensures forall i :: 0 <= i < |s| ==> s[i] != '\0' && !IsSpace(s[i])
  {
  }

  /** The text of an INSERT splits into exactly HSET, the row's key and the column and value pairs; their number is
      even and at least four, as HSET demands. */
  lemma InsertSplits(db: Bytes, t: Table, table: Bytes, vals: seq<Bytes>)
    requires Ident(db) && Ident(table) && GoodTable(t) && t.columns != []
    requires vals != [] && forall i :: 0 <= i < |vals| ==> Plain(vals[i])
    requires PrimaryKey(t, vals).Some?
    ensures var args := HsetArgs(db, t, table, vals);
            Split(Join(args)) == args && |args| >= 4 && (|args| - 2) % 2 == 0
  {
    hide Split, Join, Plain, Pairs, RowKey, PrimaryIndex;
    var key := PrimaryKey(t, vals).value;
    PlainInside(key);
    RowKeyIsPlain(db, table, key);
    PairsPlain(t, vals, Offset(t, vals), GivenColumns(t, vals));
    HsetIsPlain();
    SplitJoin(HsetArgs(db, t, table, vals));
  }

  /** So does the text of a SELECT by key, as long as it fits the buffer. */
  lemma SelectSplits(db: Bytes, table: Bytes, key: Bytes)
    requires Ident(db) && Ident(table) && forall i :: 0 <= i < |key| ==> key[i] != '\0' && !IsSpace(key[i])
    requires |RowKey(db, table, key)| <= 1015
    ensures Split(Buffered("HGETALL " + RowKey(db, table, key))) == ["HGETALL", RowKey(db, table, key)]
  {
    RowKeyIsPlain(db, table, key);
    var k := RowKey(db, table, key);
    assert Plain("HGETALL");
    assert ["HGETALL", k][1..] == [k];
    assert Join(["HGETALL", k]) == "HGETALL " + k by {
      assert "HGETALL" + " " == "HGETALL ";
    }
    SplitJoin(["HGETALL", k]);
  }

  /** The first table of the name. */
  ghost predicate FirstTable(tables: seq<Table>, name: Bytes, i: nat)
  {
    i < |tables| && tables[i].name == name && forall j :: 0 <= j < i ==> tables[j].name != name
  }

  lemma {:induction false} GetTableFinds(tables: seq<Table>, name: Bytes)
    ensures GetTable(tables, name).None? ==> forall i :: 0 <= i < |tables| ==> tables[i].name != name
    ensures GetTable(tables, name).Some? ==>
              exists i: nat :: FirstTable(tables, name, i) && tables[i] == GetTable(tables, name).value
  {
    if tables != [] {
      if tables[0].name == name {
        assert FirstTable(tables, name, 0);
      } else {
        GetTableFinds(tables[1..], name);
        if GetTable(tables, name).Some? {
          var i: nat :| FirstTable(tables[1..], name, i) && tables[1..][i] == GetTable(tables, name).value;
          assert forall j :: 0 < j <= i + 1 ==> tables[j] == tables[1..][j - 1];
          assert FirstTable(tables, name, i + 1);
        }
        assert forall i :: 0 < i < |tables| ==> tables[i] == tables[1..][i - 1];
      }
    }
  }

  /** The active database has a table of the name. */
  ghost predicate Known(db: Option<Database>, table: Option<Bytes>)
  {
    db.Some? && table.Some? && exists i: nat :: FirstTable(db.value.tables, table.value, i)
  }

  lemma KnownIsFound(db: Option<Database>, table: Option<Bytes>)
    ensures Known(db, table) <==> TableOf(db, table).Some?
  {
    if db.Some? && table.Some? {
      GetTableFinds(db.value.tables, table.value);
    }
  }

  /** Which queries are refused, and with what. */
  lemma Refusals(db: Option<Database>, q: Query)
    ensures var r := Translated(db, q);
            && (r == Error(SelectNeedsTableOrKey) <==> q.Select? && q.key.None? && q.table.None?)
            && (r == Error(InsertNeedsValues) <==> q.Insert? && q.vals == [])
            && (r == Error(NoSuchTable) <==>
                  q.table.Some? && !Known(db, q.table) && if q.Select? then q.key.Some? else q.vals != [])
            && (r == Error(InsertNeedsKeyAndValue) <==> q.Insert? && q.table.None? && |q.vals| == 1)
            && (r == Error(PrimaryKeyMissing) ==> q.Insert? && Known(db, q.table))
  {
    hide Join, Buffered, Known, RowKey;
    KnownIsFound(db, q.table);
  }

  /** Without a table INSERT is SET and SELECT is GET; a table without a key is scanned, in the database default if none
      is active. Each text splits into its words, as long as it fits the buffer. */
  lemma PlainCommands(db: Option<Database>, table: Bytes, k: Bytes, v: Bytes)
    requires Plain(k) && Plain(v) && Ident(table) && (db.Some? ==> Ident(db.value.name))
    requires |k| + |v| <= 1000 && |table| + (if db.Some? then |db.value.name| else 7) <= 1000
    ensures var set_ := Translated(db, Insert(None, [k, v])); set_.Command? && Split(set_.redisCmd) == ["SET", k, v]
    ensures var get := Translated(db, Select(None, Some(k)));
            get.Command? && Split(get.redisCmd) == ["GET", k] && get.headers == ["Key", "Value"]
    ensures var scan := Translated(db, Select(Some(table), None));
            var name := if db.Some? then db.value.name else "default";
            scan.Command? && Split(scan.redisCmd) == ["HSCANALL", name + ":" + table + ":*"]
  {
    hide Split, Join, Plain, RowKey, GetTable;
    var name := if db.Some? then db.value.name else "default";
    var all := RowKey(name, table, "*");
    assert all == name + ":" + table + ":*" && |all| == |name| + |table| + 3 by { AllKey(name, table); }
    RowKeyIsPlain(name, table, "*");
    Words(k, v, all);
    SplitJoin(["SET", k, v]);
    SplitJoin(["GET", k]);
    SplitJoin(["HSCANALL", all]);
  }

  lemma AllKey(name: Bytes, table: Bytes)
    ensures RowKey(name, table, "*") == name + ":" + table + ":*"
  {
  }

  lemma Words(k: Bytes, v: Bytes, all: Bytes)
    ensures Join(["SET", k, v]) == "SET " + k + " " + v && Join(["GET", k]) == "GET " + k
    ensures Join(["HSCANALL", all]) == "HSCANALL " + all
    ensures Plain("SET") && Plain("GET") && Plain("HSCANALL")
  {
    assert ["SET", k, v][1..] == [k, v] && [k, v][1..] == [v];
    assert ["GET", k][1..] == [k] && ["HSCANALL", all][1..] == [all];
    assert Join([k, v]) == k + " " + v;
    assert "SET" + " " == "SET " && "GET" + " " == "GET " && "HSCANALL" + " " == "HSCANALL ";
    assert "SET " + (k + " " + v) == "SET " + k + " " + v;
  }
}
