/** Walks over both tables of a dictionary, as HGETALL and the snapshot writer do them, wherever a rehash stands. */
module Walk {
  import opened Sds
  import opened Text
  import opened Resp
  import opened DictSpec
  import opened DictTable
  import D = Dict

  ghost function Flat<V>(b: seq<Chain<V>>): seq<Entry<V>>
  {
    if b == [] then [] else Flat(b[..|b| - 1]) + b[|b| - 1]
  }

  /** The entries in walking order: old table first, bucket by bucket, each chain from its head. */
  ghost function Entries<V>(s: State<V>): seq<Entry<V>> { Flat(s.b0) + Flat(s.b1) }

  /** A list of all entries of a map, each once, in some order. */
  ghost predicate Lists<V>(es: seq<Entry<V>>, m: Store<V>)
  {
    && Distinct(es)
    && (forall i :: 0 <= i < |es| ==> es[i].key in m && m[es[i].key] == es[i].ToItem())
    && forall k :: k in m ==> exists i :: 0 <= i < |es| && es[i].key == k
  }

  lemma {:induction false} FlatMembers<V>(b: seq<Chain<V>>)
    ensures forall i, j :: 0 <= i < |b| && 0 <= j < |b[i]| ==> b[i][j] in Flat(b)
    ensures forall e :: e in Flat(b) ==> exists i :: 0 <= i < |b| && e in b[i]
  {
    if b != [] {
      var n := |b| - 1;
      FlatMembers(b[..n]);
      forall i, j | 0 <= i < |b| && 0 <= j < |b[i]| ensures b[i][j] in Flat(b) {
        if i < n { assert b[..n][i][j] in Flat(b[..n]); }
      }
      forall e | e in Flat(b) ensures exists i :: 0 <= i < |b| && e in b[i] {
        if e in Flat(b[..n]) {
          var i :| 0 <= i < n && e in b[..n][i];
          assert e in b[i];
        } else {
          assert e in b[n];
        }
      }
    }
  }

  lemma {:induction false} FlatDistinct<V>(b: seq<Chain<V>>, size: nat)
    requires size > 0 && forall i, j :: 0 <= i < |b| && 0 <= j < |b[i]| ==> Bucket(b[i][j].key, size) == i
    requires forall i :: 0 <= i < |b| ==> Distinct(b[i])
    ensures Distinct(Flat(b))
  {
    hide Bucket;
    if b != [] {
      var n := |b| - 1;
      FlatDistinct(b[..n], size);
      var init := Flat(b[..n]);
      FlatMembers(b[..n]);
      forall i, j | 0 <= i < |init| && 0 <= j < |b[n]| ensures init[i].key != b[n][j].key {
        assert init[i] in init;
        var x :| 0 <= x < n && init[i] in b[..n][x];
        var y :| 0 <= y < |b[x]| && b[x][y] == init[i];
        assert Bucket(b[x][y].key, size) == x;
      }
    }
  }

  lemma TableLists<V>(b: seq<Chain<V>>, used: int)
    requires TableOk(b, used)
    ensures Distinct(Flat(b))
    ensures forall e :: e in Flat(b) ==> Look(b, e.key) == Some(e.ToItem())
    ensures forall k :: Look(b, k).Some? ==> exists e :: e in Flat(b) && e.key == k
  {
    FlatMembers(b);
    if b != [] {
      FlatDistinct(b, |b|);
      forall e | e in Flat(b) ensures Look(b, e.key) == Some(e.ToItem()) {
        var i :| 0 <= i < |b| && e in b[i];
        var j :| 0 <= j < |b[i]| && b[i][j] == e;
        LookAt(b, used, i, j);
      }
      forall k | Look(b, k).Some? ensures exists e :: e in Flat(b) && e.key == k {
        var i := Bucket(k, |b|);
        FindMember(b[i], k);
        var j :| 0 <= j < |b[i]| && b[i][j].key == k;
        assert b[i][j] in Flat(b);
      }
    }
  }

  /** A walk meets every key of the map exactly once, also in the middle of a rehash. */
  lemma WalkIsExact<V>(s: State<V>, m: Store<V>)
    requires Inv(s, m)
    ensures Lists(Entries(s), m)
  {
    TableLists(s.b0, s.used0);
    TableLists(s.b1, s.used1);
    hide Flat, TableOk, Look;
    var f0, f1, es := Flat(s.b0), Flat(s.b1), Entries(s);
    forall i | 0 <= i < |es| ensures es[i].key in m && m[es[i].key] == es[i].ToItem() {
      assert if i < |f0| then es[i] in f0 else es[i] in f1;
    }
    forall i, j | 0 <= i < |f0| && 0 <= j < |f1| ensures f0[i].key != f1[j].key {
      assert f0[i] in f0 && f1[j] in f1;
    }
    forall k | k in m ensures exists i :: 0 <= i < |es| && es[i].key == k {
      var e :| (e in f0 || e in f1) && e.key == k;
      assert e in es;
    }
  }

  /** The walk both commands share: for each table that exists, for each bucket, down the chain. */
  method Collect<V>(d: D.Dict<V>) returns (es: seq<Entry<V>>)
    requires d.Valid()
    ensures es == Entries(d.Tables()) && Lists(es, d.model)
  {
    hide Inv, Lists;
    WalkIsExact(d.Tables(), d.model);
    es := CollectTable(d.ht0.table);
    var more := CollectTable(d.ht1.table);
    es := es + more;
  }

  method CollectTable<V>(table: array?<Chain<V>>) returns (es: seq<Entry<V>>)
    ensures es == Flat(if table == null then [] else table[..])
  {
    es := [];
    if table == null { return; }
    for i := 0 to table.Length
      invariant es == Flat(table[..i])
    {
      assert table[..i + 1][..i] == table[..i];
      var chain := table[i];
      ghost var before := es;
      for j := 0 to |chain|
        invariant es == before + chain[..j]
      {
        es := es + [chain[j]];
      }
    }
    assert table[..table.Length] == table[..];
  }

  // ----- HGETALL -----

  function Fields(es: seq<Entry<Bytes>>): seq<Bytes>
  {
    if es == [] then [] else Fields(es[..|es| - 1]) + [es[|es| - 1].key, es[|es| - 1].val]
  }

  lemma {:induction false} FieldsLength(es: seq<Entry<Bytes>>)
    ensures |Fields(es)| == 2 * |es|
  {
    if es != [] { FieldsLength(es[..|es| - 1]); }
  }

  /** The reply to HGETALL: an array announcing twice the number of fields, then field and value in turn. */
  method Hgetall(h: D.Dict?<Bytes>) returns (reply: Bytes)
    requires h != null ==> h.Valid()
    ensures reply == Encode(if h == null then [] else Fields(Entries(h.Tables())))
  {
    hide Dec, Inv, D.Dict.Valid, Flat, Lists, Fields, Bulks;
    if h == null {
      EmptyArray();
      return "*0\r\n";
    }
    var es := Collect(h);
    FieldsLength(es);
    var count := |es|;
    var pairs := SendPairs(es);
    reply := "*" + Dec(2 * count) + CRLF + pairs;
  }

  method SendPairs(es: seq<Entry<Bytes>>) returns (sent: Bytes)
    ensures sent == Bulks(Fields(es))
  {
    hide Bulk;
    sent := "";
    for i := 0 to |es|
      invariant sent == Bulks(Fields(es[..i]))
    {
      assert es[..i + 1][..i] == es[..i];
      BulksAppend(Fields(es[..i]), [es[i].key, es[i].val]);
      TwoBulks(es[i].key, es[i].val);
      sent := sent + (Bulk(es[i].key) + Bulk(es[i].val));
    }
    assert es[..|es|] == es;
  }

  lemma EmptyArray()
    ensures Encode([]) == "*0\r\n"
  {
  }

  lemma TwoBulks(a: Bytes, b: Bytes)
    ensures Bulks([a, b]) == Bulk(a) + Bulk(b)
  {
    hide Bulk;
    assert [a, b][1..] == [b] && [b][1..] == [];
    assert Bulks([b]) == Bulk(b);
  }
}
