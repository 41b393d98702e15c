/** The way of a row: INSERT is translated, split, sent, parsed and executed; SELECT by the same key
    shows the row, column by column, whichever listing of the hash the server answers with. Both
    commands arrive whole in one read, and the reply in one buffer. */
module SqlRow {
  import opened Sds
  import opened Text
  import opened Resp
  import opened DictSpec
  import opened DictTable
  import opened SplitArgs
  import opened Translator
  import opened Walk
  import opened QueryProcessor
  import K = Keyspace
  import L = KeyspaceLaws
  import Aof

  /** The server reads a command with one recv of this size. */
  const SERVER_BUF: nat := 4096
  /** The query processor keeps one byte of its buffer for the terminator. */
  const QP_BUF: nat := 65535

  function Received(s: Bytes, room: nat): Bytes { if |s| > room then s[..room] else s }

  /** The columns of a table as the decoder needs them: identifiers that differ by more than case and fit its buffer. */
  ghost predicate GoodColumns(t: Table)
  {
    && GoodTable(t) && |t.columns| >= 2
    && (forall i :: 0 <= i < |t.columns| ==> |t.columns[i].name| <= 127)
    && forall i, j :: 0 <= i < j < |t.columns| ==> K.Upper(t.columns[i].name) != K.Upper(t.columns[j].name)
  }

  /** The value an INSERT gives a column. If there are more values than columns the first is the row's key and the others
      go to the columns in turn; otherwise all of them do. */
  ghost function ValueOf(t: Table, vals: seq<Bytes>, c: nat): Option<Bytes>
    requires c < |t.columns|
  {
    if |vals| > |t.columns| then Some(vals[c + 1]) else if c < |vals| then Some(vals[c]) else None
  }

  /** The row that was inserted, column by column; columns without a value are null. */
  ghost function RowOf(t: Table, vals: seq<Bytes>): Cells
  {
    seq(|t.columns|, c requires 0 <= c < |t.columns| => ValueOf(t, vals, c))
  }

  /** The key column is the last one marked primary, or the first if none is. */
  ghost predicate KeyColumn(t: Table, p: nat)
  {
    if p < |t.columns| && t.columns[p].isPrimary then forall i :: p < i < |t.columns| ==> !t.columns[i].isPrimary
    else p == 0 && forall i :: 0 <= i < |t.columns| ==> !t.columns[i].isPrimary
  }

  /** The row's key: given in front of the columns' values, or else the value of the key column. */
  ghost predicate IsRowKey(t: Table, vals: seq<Bytes>, pk: Bytes)
  {
    if |vals| > |t.columns| then pk == vals[0] else exists p: nat :: p < |vals| && KeyColumn(t, p) && pk == vals[p]
  }

  lemma KeyIsPrimary(t: Table, vals: seq<Bytes>, pk: Bytes)
    ensures IsRowKey(t, vals, pk) <==> PrimaryKey(t, vals) == Some(pk)
  {
    LastPrimaryRange(t.columns);
    if |vals| <= |t.columns| {
      var p := PrimaryIndex(t);
      assert KeyColumn(t, p);
      forall q: nat | KeyColumn(t, q) ensures q == p {
      }
    }
  }

  /** An INSERT into a table is refused exactly if its values have no key. */
  lemma InsertRefused(db: Database, t: Table, vals: seq<Bytes>)
    requires GetTable(db.tables, t.name) == Some(t) && vals != []
    ensures Translated(Some(db), Insert(Some(t.name), vals)) == Error(PrimaryKeyMissing)
            <==> forall pk :: !IsRowKey(t, vals, pk)
  {
    hide IsRowKey, PrimaryKey;
    forall pk ensures IsRowKey(t, vals, pk) <==> PrimaryKey(t, vals) == Some(pk) {
      KeyIsPrimary(t, vals, pk);
    }
    if PrimaryKey(t, vals).Some? { assert IsRowKey(t, vals, PrimaryKey(t, vals).value); }
  }

  ghost function RowHash(t: Table, vals: seq<Bytes>): K.Fields
  {
    K.SetFields(map[], Pairs(t.columns, vals, Offset(t, vals), GivenColumns(t, vals))).0
  }

  ghost predicate NamesDiffer(columns: seq<Column>)
  {
    forall i, j :: 0 <= i < |columns| && 0 <= j < |columns| && i != j ==> columns[i].name != columns[j].name
  }

  ghost predicate Holds(h: K.Fields, columns: seq<Column>, vals: seq<Bytes>, offset: nat, n: nat)
    requires n <= |columns| && n + offset <= |vals|
  {
    && (forall c :: 0 <= c < n ==> columns[c].name in h && h[columns[c].name] == vals[c + offset])
    && (forall c :: n <= c < |columns| ==> columns[c].name !in h)
    && forall f :: f in h ==> f in Names(columns)
  }

  lemma {:induction false} PairsStored(columns: seq<Column>, vals: seq<Bytes>, offset: nat, n: nat)
    requires NamesDiffer(columns) && n <= |columns| && n + offset <= |vals|
    ensures var (h, added) := K.SetFields(map[], Pairs(columns, vals, offset, n));
            added == n && Holds(h, columns, vals, offset, n)
  {
    hide K.SetFields, Pairs, Holds, NamesDiffer;
    if n == 0 {
      NoPairs(columns, vals, offset);
    } else {
      PairsStored(columns, vals, offset, n - 1);
      PairsStep(columns, vals, offset, n);
      OneMore(K.SetFields(map[], Pairs(columns, vals, offset, n - 1)).0, columns, vals, offset, n);
    }
  }

  lemma NoPairs(columns: seq<Column>, vals: seq<Bytes>, offset: nat)
    requires offset <= |vals|
    ensures K.SetFields(map[], Pairs(columns, vals, offset, 0)) == (map[], 0) && Holds(map[], columns, vals, offset, 0)
  {
  }

  lemma PairsStep(columns: seq<Column>, vals: seq<Bytes>, offset: nat, n: nat)
    requires 0 < n <= |columns| && n + offset <= |vals|
    ensures K.SetFields(map[], Pairs(columns, vals, offset, n))
         == OnePair(K.SetFields(map[], Pairs(columns, vals, offset, n - 1)), columns[n - 1].name, vals[n - 1 + offset])
  {
    var before := Pairs(columns, vals, offset, n - 1);
    var ps := before + [columns[n - 1].name, vals[n - 1 + offset]];
    assert ps == Pairs(columns, vals, offset, n);
    hide Pairs;
    assert ps[..|ps| - 2] == before;
  }

  function OnePair(r: (K.Fields, int), f: Bytes, v: Bytes): (K.Fields, int)
  {
    (r.0[f := v], r.1 + if f in r.0 then 0 else 1)
  }

  lemma OneMore(h: K.Fields, columns: seq<Column>, vals: seq<Bytes>, offset: nat, n: nat)
    requires NamesDiffer(columns) && 0 < n <= |columns| && n + offset <= |vals| && Holds(h, columns, vals, offset, n - 1)
    ensures columns[n - 1].name !in h
    ensures Holds(h[columns[n - 1].name := vals[n - 1 + offset]], columns, vals, offset, n)
  {
    assert Names(columns)[n - 1] == columns[n - 1].name;
  }

  lemma ColumnsAreHeaders(t: Table)
    requires GoodColumns(t)
    ensures GoodHeaders(Names(t.columns))
  {
    forall i | 0 <= i < |t.columns| ensures '\0' !in Names(t.columns)[i] {
      IdentIsPlain(t.columns[i].name);
    }
  }

  /** On a key that holds no live hash, HSET stores exactly the row's fields, for ever. */
  lemma HsetStores(s: K.State, argv: seq<Bytes>, now: int, atof: Bytes -> K.Score)
    requires |argv| >= 4 && |argv| % 2 == 0 && argv[0] == "HSET" && Get(s.hashes, argv[1], now).None?
    ensures var (s', reply) := K.Exec(s, argv, now, atof); var (h, added) := K.SetFields(map[], argv[2..]);
            s'.hashes == Purge(s.hashes, argv[1], now)[argv[1] := Item(h, 0)] && reply == K.Int(added)
  {
    hide K.Exec, K.CmdHset, K.SetFields;
    Aof.HsetRuns(s, argv, now, atof);
    HsetFresh(s, argv, now);
  }

  lemma HsetFresh(s: K.State, argv: seq<Bytes>, now: int)
    requires |argv| >= 4 && |argv| % 2 == 0 && Get(s.hashes, argv[1], now).None?
    ensures var (s', reply) := K.CmdHset(s, argv, now); var (h, added) := K.SetFields(map[], argv[2..]);
            s'.hashes == Purge(s.hashes, argv[1], now)[argv[1] := Item(h, 0)] && reply == K.Int(added)
  {
    hide Encode, K.SetFields;
  }

  /** The columns hold their values, those without one are not fields, and there are no other fields. */
  ghost predicate HoldsRow(h: K.Fields, t: Table, vals: seq<Bytes>)
  {
    && (forall c :: 0 <= c < |t.columns| ==>
          match ValueOf(t, vals, c)
          case Some(v) => t.columns[c].name in h && h[t.columns[c].name] == v
          case None => t.columns[c].name !in h)
    && forall f :: f in h ==> exists c :: 0 <= c < |t.columns| && t.columns[c].name == f
  }

  lemma RowIsHeld(t: Table, vals: seq<Bytes>)
    requires NamesDiffer(t.columns)
    ensures HoldsRow(RowHash(t, vals), t, vals)
    ensures GivenColumns(t, vals) == if |vals| > |t.columns| then |t.columns| else |vals|
  {
    hide K.SetFields, Pairs, NamesDiffer;
    PairsStored(t.columns, vals, Offset(t, vals), GivenColumns(t, vals));
    forall f | f in RowHash(t, vals) ensures exists c :: 0 <= c < |t.columns| && t.columns[c].name == f {
      var c :| 0 <= c < |t.columns| && Names(t.columns)[c] == f;
      assert t.columns[c].name == f;
    }
  }

  /** The INSERT arrives whole and as intended, is accepted, reports how many columns it gave a value, and stores the row
      under its key. */
  lemma InsertStoresRow(db: Database, t: Table, vals: seq<Bytes>, pk: Bytes, s: K.State, now: int,
      atof: Bytes -> K.Score)
    requires Ident(db.name) && Ident(t.name) && GoodColumns(t) && GetTable(db.tables, t.name) == Some(t)
    requires vals != [] && (forall i :: 0 <= i < |vals| ==> Plain(vals[i])) && IsRowKey(t, vals, pk)
    requires var r := Translated(Some(db), Insert(Some(t.name), vals));
             r.Command? ==> |Encode(Split(r.redisCmd))| <= SERVER_BUF
    requires Get(s.hashes, RowKey(db.name, t.name, pk), now).None?
    ensures var key := RowKey(db.name, t.name, pk);
            var r := Translated(Some(db), Insert(Some(t.name), vals));
            && r.Command?
            && var args, wire := Split(r.redisCmd), Encode(Split(r.redisCmd));
            && ParseArray(Received(wire, SERVER_BUF)) == Parsed(args, |wire|)
            && var (s', reply) := K.Exec(s, args, now, atof);
            && reply == K.Int(if |vals| > |t.columns| then |t.columns| else |vals|)
            && HoldsRow(RowHash(t, vals), t, vals)
            && s'.hashes == Purge(s.hashes, key, now)[key := Item(RowHash(t, vals), 0)]
  {
    KeyIsPrimary(t, vals, pk);
    hide Encode, Split, Join, RowKey, Pairs, K.SetFields, K.Exec, ParseArray, GoodColumns, PrimaryKey, HoldsRow, IsRowKey;
    var args := HsetArgs(db.name, t, t.name, vals);
    GoodTables(t);
    InsertSplits(db.name, t, t.name, vals);
    assert Encode(args) + "" == Encode(args);
    ParseEncode(args, "");
    HsetStores(s, args, now, atof);
    assert args[2..] == Pairs(t.columns, vals, Offset(t, vals), GivenColumns(t, vals));
    PairsStored(t.columns, vals, Offset(t, vals), GivenColumns(t, vals));
    RowIsHeld(t, vals);
  }

  lemma GoodTables(t: Table)
    requires GoodColumns(t)
    ensures GoodTable(t) && |t.columns| >= 2 && NamesDiffer(t.columns)
  {
    hide K.Upper;
  }

  lemma {:induction false} RowShown(t: Table, vals: seq<Bytes>, es: seq<Entry<Bytes>>)
    requires GoodColumns(t) && Lists(es, K.AsStore(RowHash(t, vals)))
    ensures DecodeReply(Encode(Fields(es)), Names(t.columns)) == Row(RowOf(t, vals))
  {
    hide DecodeReply, Fields, Encode, Lists, GoodHeaders, RowHash, GoodColumns;
    ColumnsAreHeaders(t);
    GoodTables(t);
    RowIsHeld(t, vals);
    NamesHeld(RowHash(t, vals), t, vals);
    HashShown(Names(t.columns), RowHash(t, vals), es);
  }

  lemma NamesHeld(h: K.Fields, t: Table, vals: seq<Bytes>)
    requires HoldsRow(h, t, vals)
    ensures h.Keys <= (set c | c in Names(t.columns)) && RowCells(Names(t.columns), h) == RowOf(t, vals)
  {
    forall f | f in h ensures f in Names(t.columns) {
      var c :| 0 <= c < |t.columns| && t.columns[c].name == f;
      assert Names(t.columns)[c] == f;
    }
  }

  lemma ShortSelect(key: Bytes)
    requires |key| <= 1015
    ensures |Encode(["HGETALL", key])| <= SERVER_BUF
  {
    TwoBulks("HGETALL", key);
    assert Pow10(4) == 10 * Pow10(3) == 100 * Pow10(2) == 1000 * Pow10(1);
    DecLength(|key|, 4);
    DecLength(7, 1);
    DecLength(2, 1);
  }

  /** A row inserted under a fresh key is what SELECT by that key shows, at any later time, as long as the hash is left
      alone, whichever listing the server answers with: cell by cell the value ValueOf gives the column. */
  lemma {:induction false} RowComesBack(db: Database, t: Table, vals: seq<Bytes>, pk: Bytes, s: K.State, now: int,
      later: int, reply: K.Reply, atof: Bytes -> K.Score)
    requires Ident(db.name) && Ident(t.name) && GoodColumns(t) && GetTable(db.tables, t.name) == Some(t)
    requires vals != [] && (forall i :: 0 <= i < |vals| ==> Plain(vals[i])) && IsRowKey(t, vals, pk)
    requires |RowKey(db.name, t.name, pk)| <= 1015
    requires var r := Translated(Some(db), Insert(Some(t.name), vals));
             r.Command? ==> |Encode(Split(r.redisCmd))| <= SERVER_BUF
    requires Get(s.hashes, RowKey(db.name, t.name, pk), now).None?
    ensures var key := RowKey(db.name, t.name, pk);
            var insert := Translated(Some(db), Insert(Some(t.name), vals));
            var select := Translated(Some(db), Select(Some(t.name), Some(pk)));
            && insert.Command? && select.Command?
            && var s' := K.Exec(s, Split(insert.redisCmd), now, atof).0;
            && var wire := Encode(Split(select.redisCmd));
            && ParseArray(Received(wire, SERVER_BUF)) == Parsed(["HGETALL", key], |wire|)
            && var spec := K.Exec(s', ["HGETALL", key], later, atof).1;
            && spec.Hash?
            && (K.Answers(reply, spec) ==>
                  && reply.Listing?
                  && (|reply.text| <= QP_BUF ==>
                        DecodeReply(Received(reply.text, QP_BUF), select.headers)
                        == Row(seq(|t.columns|, c requires 0 <= c < |t.columns| => ValueOf(t, vals, c)))))
  {
    hide Encode, Split, Join, RowKey, GoodColumns, Lists, DecodeReply, Fields, ParseArray, GivenColumns,
        IsRowKey, PrimaryIndex, PrimaryKey, K.Exec, RowHash, Pairs, HoldsRow, ValueOf;
    InsertStoresRow(db, t, vals, pk, s, now, atof);
    KeyIsPrimary(t, vals, pk);
    KeyIsPlain(t, vals, pk);
    PlainInside(pk);
    SelectSplits(db.name, t.name, pk);
    var key := RowKey(db.name, t.name, pk);
    ShortSelect(key);
    assert Encode(["HGETALL", key]) + "" == Encode(["HGETALL", key]);
    ParseEncode(["HGETALL", key], "");
    var insert := Translated(Some(db), Insert(Some(t.name), vals));
    L.HgetallRuns(K.Exec(s, Split(insert.redisCmd), now, atof).0, key, later, atof);
    if K.Answers(reply, K.Hash(RowHash(t, vals))) {
      var es :| Lists(es, K.AsStore(RowHash(t, vals))) && reply.text == Encode(Fields(es));
      RowShown(t, vals, es);
    }
  }

  lemma KeyIsPlain(t: Table, vals: seq<Bytes>, pk: Bytes)
    requires IsRowKey(t, vals, pk) && vals != [] && forall i :: 0 <= i < |vals| ==> Plain(vals[i])
    ensures Plain(pk)
  {
    hide Plain, KeyColumn;
  }

  /** Without a table, the text inserted under a key is what the server answers to the SELECT of that key. */
  lemma KeyValueComesBack(db: Option<Database>, k: Bytes, v: Bytes, s: K.State, now: int, later: int,
      atof: Bytes -> K.Score)
    requires Plain(k) && Plain(v) && |k| + |v| <= 990 && K.KeysInv(s) && 0 <= now <= later
    requires db.Some? ==> Ident(db.value.name) && |db.value.name| <= 900
    ensures var insert, select := Translated(db, Insert(None, [k, v])), Translated(db, Select(None, Some(k)));
            && insert.Command? && select.Command?
            && var s' := K.Exec(s, Split(insert.redisCmd), now, atof).0;
               K.Exec(s', Split(select.redisCmd), later, atof).1 == K.Text(v)
  {
    hide Split, Plain, K.Exec, K.KeysOk, K.CStr, K.Upper;
    PlainCommands(db, "t", k, v);
    Aof.UpperLiteral("SET");
    L.SetThenGet(s, ["SET", k, v], now, later, atof);
  }

  /** Rows of different databases, tables or keys are stored apart: identifiers hold no colon. */
  lemma RowKeysDiffer(db: Bytes, table: Bytes, pk: Bytes, db': Bytes, table': Bytes, pk': Bytes)
    requires Ident(db) && Ident(table) && Ident(db') && Ident(table')
    requires RowKey(db, table, pk) == RowKey(db', table', pk')
    ensures db == db' && table == table' && pk == pk'
  {
    var k := RowKey(db, table, pk);
    ColonEnds(db, db', table + ":" + pk, table' + ":" + pk');
    assert k == db + (":" + (table + ":" + pk)) && k == db' + (":" + (table' + ":" + pk'));
    ColonEnds(table, table', pk, pk');
    assert table + ":" + pk == table + (":" + pk) && table' + ":" + pk' == table' + (":" + pk');
  }

  lemma ColonEnds(a: Bytes, b: Bytes, x: Bytes, y: Bytes)
    requires Ident(a) && Ident(b)
    ensures a + (":" + x) == b + (":" + y) ==> a == b && x == y
  {
    var s, u := a + (":" + x), b + (":" + y);
    FirstColon(a, x);
    FirstColon(b, y);
    if s == u {
      assert |a| == |b|;
      assert a == s[..|a|] && b == u[..|b|];
      assert x == s[|a| + 1..] && y == u[|b| + 1..];
    }
  }

  lemma FirstColon(a: Bytes, x: Bytes)
    requires Ident(a)
    ensures (a + (":" + x))[|a|] == ':' && forall i :: 0 <= i < |a| ==> (a + (":" + x))[i] != ':'
  {
    forall i | 0 <= i < |a| ensures (a + (":" + x))[i] != ':' {
      assert IsIdent(a[i]);
    }
  }
}
