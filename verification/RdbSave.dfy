/** rdb_save: the three dictionaries, each walked over both of its tables, and the objects their values
    point to. What is loaded from the file again is what the writer kept, whatever stage of a rehash any
    of the dictionaries was in. The clock is read once. */
module RdbSave {
  import opened Sds
  import opened DictSpec
  import opened DictTable
  import opened Walk
  import opened Rdb
  import Resp
  import AvlTree
  import Avl
  import D = Dict
  import Z = ZSet
  import K = Keyspace

  /** What the writer keeps. A key in its very last second is still served, but no longer saved. */
  predicate Kept<V>(item: Item<V>, now: int) { item.expire == 0 || item.expire > now }

  ghost function Survivors<V>(m: Store<V>, now: int): Store<V>
  {
    map k | k in m && Kept(m[k], now) :: Item(m[k].val, 0)
  }

  ghost function Forever<V>(m: Store<V>): Store<V> { map k | k in m :: Item(m[k].val, 0) }

  /** A key served when the snapshot is taken is missing once it is loaded, at any later time, if and only if that was
      its last second; the snapshot then leaves it out although it was not over. */
  lemma SnapshotLoses<V>(m: Store<V>, key: Bytes, now: int, later: int)
    requires key in m ==> m[key].expire >= 0
    ensures Get(Survivors(m, now), key, later) == if key in m && Kept(m[key], now) then Some(m[key].val) else None
    ensures Get(m, key, now).Some? && Get(Survivors(m, now), key, later).None? <==> key in m && m[key].expire == now > 0
  {
  }

  /** One such key: set for ten seconds at second 0 and saved at second 10. */
  lemma LastSecondNotSaved(key: Bytes, val: Bytes, later: int)
    ensures var s := K.SetKv(K.Empty, key, val, 10, 0);
            && K.CmdGet(s, key, 10).1 == K.Text(val)
            && Survivors(s.strings, 10) == map[] && Get(Survivors(s.strings, 10), key, later) == None
  {
    hide Resp.Encode;
    assert K.SetKv(K.Empty, key, val, 10, 0).strings == map[key := Item(val, 10)];
  }

  // ----- the values behind the objects -----

  ghost function ZValues(m: Store<Z.ZSet>): Store<K.Scores>
    reads set k | k in m :: m[k].val.dict
  {
    map k | k in m :: Item(Z.Scores(m[k].val.dict.model), m[k].expire)
  }

  ghost function FieldsOf(m: Store<Bytes>): K.Fields { map f | f in m :: m[f].val }

  ghost function HValues(m: Store<D.Dict<Bytes>>): Store<K.Fields>
    reads set k | k in m :: m[k].val
  {
    map k | k in m :: Item(FieldsOf(m[k].val.model), 0)
  }

  ghost function ZImages(es: seq<Entry<Z.ZSet>>): seq<Entry<K.Scores>>
    reads set e | e in es :: e.val.dict
  {
    seq(|es|, i requires 0 <= i < |es| reads (set e | e in es :: e.val.dict) =>
      Entry(es[i].key, Z.Scores(es[i].val.dict.model), es[i].expire))
  }

  ghost function HImages(es: seq<Entry<D.Dict<Bytes>>>): seq<Entry<K.Fields>>
    reads set e | e in es :: e.val
  {
    seq(|es|, i requires 0 <= i < |es| reads (set e | e in es :: e.val) => Entry(es[i].key, FieldsOf(es[i].val.model), 0))
  }

  /** Everything is short enough for the 32-bit lengths of the format. */
  ghost predicate SmallStrings(m: Store<Bytes>) { forall k :: k in m ==> |k| < TWO32 && |m[k].val| < TWO32 }

  ghost predicate SmallZsets(m: Store<K.Scores>)
  {
    forall k :: k in m ==> |k| < TWO32 && SmallScores(m[k].val)
  }

  ghost predicate SmallScores(z: K.Scores) { |z| < TWO32 && forall x :: x in z ==> |x| < TWO32 && IsDouble(z[x]) }

  ghost predicate SmallHashes(m: Store<K.Fields>)
  {
    forall k :: k in m ==> |k| < TWO32 && SmallFields(m[k].val)
  }

  ghost predicate SmallFields(h: K.Fields) { |h| < TWO32 && forall f :: f in h ==> |f| < TWO32 && |h[f]| < TWO32 }

  // ----- what a list of entries leaves -----

  ghost function KeptOf<V>(es: seq<Entry<V>>, now: int): Store<V>
  {
    if es == [] then map[]
    else
      var e, rest := es[|es| - 1], KeptOf(es[..|es| - 1], now);
      if Kept(e.ToItem(), now) then rest[e.key := Item(e.val, 0)] else rest
  }

  lemma {:induction false} KeptOfMembers<V>(es: seq<Entry<V>>, now: int)
    requires Distinct(es)
    ensures forall i :: 0 <= i < |es| && Kept(es[i].ToItem(), now)
              ==> es[i].key in KeptOf(es, now) && KeptOf(es, now)[es[i].key] == Item(es[i].val, 0)
    ensures forall k :: k in KeptOf(es, now) ==> exists i :: 0 <= i < |es| && es[i].key == k && Kept(es[i].ToItem(), now)
  {
    if es != [] {
      var n := |es| - 1;
      KeptOfMembers(es[..n], now);
      forall k | k in KeptOf(es, now) ensures exists i :: 0 <= i < |es| && es[i].key == k && Kept(es[i].ToItem(), now) {
        if k in KeptOf(es[..n], now) {
          var i :| 0 <= i < n && es[..n][i].key == k && Kept(es[..n][i].ToItem(), now);
          assert es[i].key == k && Kept(es[i].ToItem(), now);
        } else {
          assert es[n].key == k;
        }
      }
      forall i | 0 <= i < |es| && Kept(es[i].ToItem(), now)
        ensures es[i].key in KeptOf(es, now) && KeptOf(es, now)[es[i].key] == Item(es[i].val, 0)
      {
        if i < n { assert es[..n][i] == es[i]; }
      }
    }
  }

  lemma KeptOfLists<V>(es: seq<Entry<V>>, m: Store<V>, now: int)
    requires Lists(es, m)
    ensures KeptOf(es, now) == Survivors(m, now)
  {
    hide KeptOf;
    KeptOfMembers(es, now);
    var kept, all := KeptOf(es, now), Survivors(m, now);
    forall k ensures k in kept <==> k in all {
      if k in all {
        var i :| 0 <= i < |es| && es[i].key == k;
        assert es[i].ToItem() == m[k];
      }
    }
    forall k | k in kept ensures kept[k] == all[k] {
      var i :| 0 <= i < |es| && es[i].key == k && Kept(es[i].ToItem(), now);
      assert es[i].ToItem() == m[k];
    }
  }

  // ----- records appended one by one -----

  lemma {:induction false} WriteAppend(rs: seq<Record>, r: Record)
    ensures WriteRecords(rs + [r]) == WriteRecords(rs) + WriteRecord(r)
  {
    hide WriteRecord;
    if rs == [] {
      assert [r][1..] == [];
    } else {
      assert (rs + [r])[1..] == rs[1..] + [r];
      WriteAppend(rs[1..], r);
    }
  }

  lemma {:induction false} ApplyAppend(db: Db, rs: seq<Record>, r: Record)
    ensures ApplyAll(db, rs + [r]) == Apply(ApplyAll(db, rs), r)
    decreases |rs|
  {
    hide Apply;
    if rs == [] {
      assert [r][1..] == [] && ([] + [r])[1..] == [];
    } else {
      assert (rs + [r])[1..] == rs[1..] + [r];
      ApplyAppend(Apply(db, rs[0]), rs[1..], r);
    }
  }

  lemma {:induction false} WriteConcat(a: seq<Record>, b: seq<Record>, db: Db)
    ensures WriteRecords(a + b) == WriteRecords(a) + WriteRecords(b)
    ensures ApplyAll(db, a + b) == ApplyAll(ApplyAll(db, a), b)
    decreases |a|
  {
    hide WriteRecord, Apply;
    if a == [] {
      assert a + b == b;
    } else {
      assert (a + b)[1..] == a[1..] + b;
      WriteConcat(a[1..], b, Apply(db, a[0]));
    }
  }

  ghost predicate AllFit(rs: seq<Record>) { forall i :: 0 <= i < |rs| ==> Fits(rs[i]) }

  method SaveStrings(strings: D.Dict<Bytes>, now: int, ghost db: Db) returns (out: Bytes, ghost rs: seq<Record>)
    requires db.strings == map[] && strings.Valid()
    ensures out == WriteRecords(rs) && ApplyAll(db, rs) == db.(strings := Survivors(strings.model, now))
    ensures SmallStrings(strings.model) ==> AllFit(rs)
  {
    hide WriteRecords, ApplyAll, D.Dict.Valid, WriteRecord, Lists, Flat, KeptOf, AllFit;
    var es := Collect(strings);
    KeptOfLists(es, strings.model, now);
    StringsFit(es, strings.model);
    KeptOfNone(es, now);
    NoRecords(db);
    out, rs := "", [];
    for i := 0 to |es|
      invariant out == WriteRecords(rs) && ApplyAll(db, rs) == db.(strings := KeptOf(es[..i], now))
      invariant SmallStrings(strings.model) ==> AllFit(rs)
    {
      var e := es[i];
      KeptOfNext(es, i, now);
      if e.expire == 0 || e.expire > now {
        AppendRecord(db, rs, Str(e.key, e.val));
        rs := rs + [Str(e.key, e.val)];
        StrText(e.key, e.val);
        out := out + ([0 as char] + (WriteString(e.key) + WriteString(e.val)));
      }
    }
    assert es[..|es|] == es;
  }

  lemma StrText(key: Bytes, val: Bytes)
    ensures WriteRecord(Str(key, val)) == [0 as char] + (WriteString(key) + WriteString(val))
  {
  }

  lemma NoRecords(db: Db)
    ensures WriteRecords([]) == "" && ApplyAll(db, []) == db && AllFit([])
  {
  }

  // ----- sorted sets -----

  lemma {:induction false} AddAllWithin(z: K.Scores, ms: seq<AvlTree.Member>, all: K.Scores)
    requires forall k :: k in z ==> k in all && all[k] == z[k]
    requires forall i :: 0 <= i < |ms| ==> ms[i].key in all && all[ms[i].key] == ms[i].score
    ensures forall k :: k in AddAll(z, ms) ==> k in all && all[k] == AddAll(z, ms)[k]
    ensures forall k :: k in z ==> k in AddAll(z, ms)
    ensures forall i :: 0 <= i < |ms| ==> ms[i].key in AddAll(z, ms)
    decreases |ms|
  {
    if ms != [] {
      AddAllWithin(z[ms[0].key := ms[0].score], ms[1..], all);
      forall i | 0 <= i < |ms| ensures ms[i].key in AddAll(z, ms) {
        if i > 0 { assert ms[1..][i - 1] == ms[i]; }
      }
    }
  }

  /** The whole range of a sorted set, added member by member to an empty one, is the set again. */
  lemma {:induction false} RangeRebuilds(m: Store<K.Score>, t: AvlTree.Tree)
    requires AvlTree.IsAvl(t) && Z.Agree(m, AvlTree.Elems(t))
    ensures var ms := Z.Slice(AvlTree.InOrder(t), 0, -1);
            && AddAll(map[], ms) == Z.Scores(m) && |ms| == |Z.Scores(m)|
            && (SmallScores(Z.Scores(m)) ==> forall i :: 0 <= i < |ms| ==> MemberFits(ms[i]))
  {
    hide AvlTree.IsAvl, AvlTree.InOrder, AvlTree.Elems;
    Z.TreeCount(t);
    Z.AgreeCard(m, AvlTree.Elems(t));
    InOrderMembers(t);
    var ms, all := AvlTree.InOrder(t), Z.Scores(m);
    assert Z.Slice(ms, 0, -1) == ms;
    assert forall i :: 0 <= i < |ms| ==> ms[i] in ms;
    AddAllWithin(map[], ms, all);
    forall k | k in all ensures k in AddAll(map[], ms) {
      assert AvlTree.Member(all[k], k) in AvlTree.Elems(t);
    }
  }

  lemma InOrderMembers(t: AvlTree.Tree)
    requires AvlTree.IsAvl(t)
    ensures forall m :: m in AvlTree.InOrder(t) <==> m in AvlTree.Elems(t)
  {
    AvlTree.InOrderIsSorted(t);
  }

  lemma {:induction false} MembersAppend(ms: seq<AvlTree.Member>, m: AvlTree.Member)
    ensures WriteMembers(ms + [m]) == WriteMembers(ms) + WriteMember(m)
  {
    hide WriteMember;
    if ms == [] {
      assert [m][1..] == [];
    } else {
      assert (ms + [m])[1..] == ms[1..] + [m];
      MembersAppend(ms[1..], m);
    }
  }

  method SaveMembers(members: seq<AvlTree.Member>) returns (out: Bytes)
    ensures out == WriteMembers(members)
  {
    out := "";
    for i := 0 to |members|
      invariant out == WriteMembers(members[..i])
    {
      assert members[..i + 1] == members[..i] + [members[i]];
      MembersAppend(members[..i], members[i]);
      out := out + (LE(Pattern(members[i].score), 8) + WriteString(members[i].key));
    }
    assert members[..|members|] == members;
  }

  /** zset_card, and zset_range from the first member to the last. */
  method WholeZset(z: Z.ZSet) returns (card: nat, members: seq<AvlTree.Member>)
    requires z.Valid()
    ensures card == |members| == |Z.Scores(z.dict.model)| && AddAll(map[], members) == Z.Scores(z.dict.model)
    ensures SmallScores(Z.Scores(z.dict.model)) ==> forall i :: 0 <= i < |members| ==> MemberFits(members[i])
  {
    hide AvlTree.IsAvl, AvlTree.Elems, AvlTree.InOrder, Z.Agree, D.Dict.Valid, Avl.AVLNode.Valid, AddAll, Z.Slice,
        Z.Scores, SmallScores;
    RangeRebuilds(z.dict.model, z.tree.Model());
    card := z.Card();
    members := z.Range(0, -1);
  }

  method SaveZset(key: Bytes, z: Z.ZSet) returns (out: Bytes, ghost r: Record)
    requires z.Valid()
    ensures r.Zset? && out == WriteRecord(r)
    ensures r.key == key && AddAll(map[], r.members) == Z.Scores(z.dict.model)
    ensures |key| < TWO32 && SmallScores(Z.Scores(z.dict.model)) ==> Fits(r)
  {
    hide Z.ZSet.Valid, AddAll, Z.Scores, WriteMembers, MemberFits;
    var card, members := WholeZset(z);
    var body := SaveMembers(members);
    out := [1 as char] + (WriteString(key) + (BE(card, 4) + body));
    r := Zset(key, members);
  }

  /** What a dictionary or a sorted set consists of exists already, so reading something else leaves it as it is. */
  lemma ZsetsAlive(m: Store<Z.ZSet>)
    ensures forall k :: k in m ==>
              var z := m[k].val;
              && (z.dict.ht0.table != null ==> allocated(z.dict.ht0.table))
              && (z.dict.ht1.table != null ==> allocated(z.dict.ht1.table))
              && forall o :: o in Avl.ReprOf(z.tree.root) ==> allocated(o)
  {
  }

  lemma HashesAlive(m: Store<D.Dict<Bytes>>)
    ensures forall k :: k in m ==>
              && (m[k].val.ht0.table != null ==> allocated(m[k].val.ht0.table))
              && (m[k].val.ht1.table != null ==> allocated(m[k].val.ht1.table))
  {
  }

  method SaveZsets(zsets: D.Dict<Z.ZSet>, now: int, ghost db: Db) returns (out: Bytes, ghost rs: seq<Record>)
    requires db.zsets == map[] && zsets.Valid() && forall k :: k in zsets.model ==> zsets.model[k].val.Valid()
    ensures out == WriteRecords(rs) && ApplyAll(db, rs) == db.(zsets := Survivors(ZValues(zsets.model), now))
    ensures SmallZsets(ZValues(zsets.model)) ==> AllFit(rs)
  {
    hide WriteRecords, ApplyAll, D.Dict.Valid, Z.ZSet.Valid, WriteRecord, AddAll, SmallScores, Z.Scores, Lists, Flat,
        KeptOf, AllFit;
    ghost var m, vals := zsets.model, ZValues(zsets.model);
    ZsetsAlive(m);
    var es := Collect(zsets);
    ZLists(es, m, now);
    ghost var images := ZImages(es);
    KeptOfNone(images, now);
    NoRecords(db);
    out, rs := "", [];
    for i := 0 to |es|
      invariant out == WriteRecords(rs) && ApplyAll(db, rs) == db.(zsets := KeptOf(images[..i], now))
      invariant SmallZsets(vals) ==> AllFit(rs)
      invariant forall k :: k in m ==> m[k].val.Valid()
      invariant ZImages(es) == images
    {
      ZsetsAlive(m);
      Members(es, m);
      var e := es[i];
      KeptOfNext(images, i, now);
      if e.expire == 0 || e.expire > now {
        var record;
        ghost var r;
        record, r := SaveZset(e.key, e.val);
        AppendRecord(db, rs, r);
        rs := rs + [r];
        out := out + record;
      }
    }
    assert images[..|es|] == images;
  }

  lemma KeptOfNext<V>(es: seq<Entry<V>>, i: nat, now: int)
    requires i < |es|
    ensures KeptOf(es[..i + 1], now)
         == if Kept(es[i].ToItem(), now) then KeptOf(es[..i], now)[es[i].key := Item(es[i].val, 0)] else KeptOf(es[..i], now)
  {
    assert es[..i + 1][..i] == es[..i];
  }

  lemma KeptOfNone<V>(es: seq<Entry<V>>, now: int)
    ensures KeptOf(es[..0], now) == map[]
  {
  }

  lemma AppendRecord(db: Db, rs: seq<Record>, r: Record)
    ensures WriteRecords(rs + [r]) == WriteRecords(rs) + WriteRecord(r)
    ensures ApplyAll(db, rs + [r]) == Apply(ApplyAll(db, rs), r)
    ensures AllFit(rs) && Fits(r) ==> AllFit(rs + [r])
  {
    WriteAppend(rs, r);
    ApplyAppend(db, rs, r);
  }

  // ----- hashes -----

  lemma {:induction false} SetAllWithin(h: K.Fields, es: seq<Entry<Bytes>>, all: K.Fields)
    requires forall k :: k in h ==> k in all && all[k] == h[k]
    requires forall i :: 0 <= i < |es| ==> es[i].key in all && all[es[i].key] == es[i].val
    ensures forall k :: k in SetAll(h, es) ==> k in all && all[k] == SetAll(h, es)[k]
    ensures forall k :: k in h ==> k in SetAll(h, es)
    ensures forall i :: 0 <= i < |es| ==> es[i].key in SetAll(h, es)
    decreases |es|
  {
    if es != [] {
      SetAllWithin(h[es[0].key := es[0].val], es[1..], all);
      forall i | 0 <= i < |es| ensures es[i].key in SetAll(h, es) {
        if i > 0 { assert es[1..][i - 1] == es[i]; }
      }
    }
  }

  lemma {:induction false} ListSize<V>(es: seq<Entry<V>>, keys: set<Bytes>)
    requires Distinct(es) && forall k :: k in keys <==> exists i :: 0 <= i < |es| && es[i].key == k
    ensures |keys| == |es|
    decreases |es|
  {
    if es == [] {
      assert keys == {};
    } else {
      var n := |es| - 1;
      var fewer := keys - {es[n].key};
      forall k ensures k in fewer <==> exists i :: 0 <= i < n && es[..n][i].key == k {
        if k in fewer {
          var i :| 0 <= i < |es| && es[i].key == k;
          assert es[..n][i].key == k;
        }
        if i :| 0 <= i < n && es[..n][i].key == k {
          assert es[i].key == k;
        }
      }
      ListSize(es[..n], fewer);
      assert es[n].key in keys;
      assert |keys| == |fewer| + 1;
    }
  }

  /** The entries of a hash, stored one by one in an empty one, are the hash again. */
  lemma {:induction false} WalkRebuilds(m: Store<Bytes>, es: seq<Entry<Bytes>>)
    requires Lists(es, m)
    ensures SetAll(map[], es) == FieldsOf(m) && |es| == |FieldsOf(m)|
    ensures SmallFields(FieldsOf(m)) ==> forall i :: 0 <= i < |es| ==> FieldFits(es[i])
  {
    hide SetAll;
    var all := FieldsOf(m);
    SetAllWithin(map[], es, all);
    EntriesCounted(m, es);
    forall k | k in all ensures k in SetAll(map[], es) {
      var i :| 0 <= i < |es| && es[i].key == k;
    }
  }

  lemma EntriesCounted(m: Store<Bytes>, es: seq<Entry<Bytes>>)
    requires Lists(es, m)
    ensures |es| == |FieldsOf(m)|
  {
    ListSize(es, m.Keys);
    assert FieldsOf(m).Keys == m.Keys;
    assert |FieldsOf(m)| == |FieldsOf(m).Keys|;
  }

  lemma {:induction false} FieldsAppend(es: seq<Entry<Bytes>>, e: Entry<Bytes>)
    ensures WriteFields(es + [e]) == WriteFields(es) + WriteField(e)
  {
    hide WriteField;
    if es == [] {
      assert [e][1..] == [];
    } else {
      assert (es + [e])[1..] == es[1..] + [e];
      FieldsAppend(es[1..], e);
    }
  }

  method SaveFields(es: seq<Entry<Bytes>>) returns (out: Bytes)
    ensures out == WriteFields(es)
  {
    out := "";
    for i := 0 to |es|
      invariant out == WriteFields(es[..i])
    {
      assert es[..i + 1] == es[..i] + [es[i]];
      FieldsAppend(es[..i], es[i]);
      out := out + (WriteString(es[i].key) + WriteString(es[i].val));
    }
    assert es[..|es|] == es;
  }

  method SaveHash(key: Bytes, h: D.Dict<Bytes>) returns (out: Bytes, ghost r: Record)
    requires h.Valid()
    ensures r.Hash? && out == WriteRecord(r)
    ensures r.key == key && SetAll(map[], r.fields) == FieldsOf(h.model)
    ensures |key| < TWO32 && SmallFields(FieldsOf(h.model)) ==> Fits(r)
  {
    hide D.Dict.Valid, SetAll, FieldsOf, WriteFields, FieldFits, Lists, Flat, SmallFields;
    var es := Collect(h);
    WalkRebuilds(h.model, es);
    var count := |es|;
    var body := SaveFields(es);
    out := [2 as char] + (WriteString(key) + (LE(count, 4) + body));
    r := Hash(key, es);
    SmallCount(h.model, es);
  }

  lemma SmallCount(m: Store<Bytes>, es: seq<Entry<Bytes>>)
    requires |es| == |FieldsOf(m)|
    ensures SmallFields(FieldsOf(m)) ==> |es| < TWO32
  {
  }

  /** Hashes are kept whatever their expiry. */
  method SaveHashes(hashes: D.Dict<D.Dict<Bytes>>, now: int, ghost db: Db) returns (out: Bytes, ghost rs: seq<Record>)
    requires db.hashes == map[] && hashes.Valid() && forall k :: k in hashes.model ==> hashes.model[k].val.Valid()
    ensures out == WriteRecords(rs) && ApplyAll(db, rs) == db.(hashes := Forever(HValues(hashes.model)))
    ensures SmallHashes(HValues(hashes.model)) ==> AllFit(rs)
  {
    hide WriteRecords, ApplyAll, D.Dict.Valid, WriteRecord, SetAll, SmallFields, FieldsOf, Lists, Flat, KeptOf, AllFit;
    ghost var m, vals := hashes.model, HValues(hashes.model);
    HashesAlive(m);
    var es := Collect(hashes);
    HLists(es, m, now);
    ghost var images := HImages(es);
    KeptOfNone(images, now);
    NoRecords(db);
    out, rs := "", [];
    for i := 0 to |es|
      invariant out == WriteRecords(rs) && ApplyAll(db, rs) == db.(hashes := KeptOf(images[..i], now))
      invariant SmallHashes(vals) ==> AllFit(rs)
      invariant forall k :: k in m ==> m[k].val.Valid()
      invariant HImages(es) == images
    {
      HashesAlive(m);
      Members(es, m);
      var e := es[i];
      KeptOfNext(images, i, now);
      var record;
      ghost var r;
      record, r := SaveHash(e.key, e.val);
      AppendRecord(db, rs, r);
      rs := rs + [r];
      out := out + record;
    }
    assert images[..|es|] == images;
  }

  // ----- the whole file -----

  ghost predicate Small(strings: Store<Bytes>, zsets: Store<K.Scores>, hashes: Store<K.Fields>)
  {
    SmallStrings(strings) && SmallZsets(zsets) && SmallHashes(hashes)
  }

  /** Loading what was saved gives back exactly the strings and sorted sets that had not expired and all hashes, none of
      them with an expiry, whatever stage of a rehash any of the dictionaries was in. */
  method RdbSave(strings: D.Dict<Bytes>, zsets: D.Dict<Z.ZSet>, hashes: D.Dict<D.Dict<Bytes>>, now: int)
    returns (file: Bytes)
    requires strings.Valid() && zsets.Valid() && hashes.Valid()
    requires forall k :: k in zsets.model ==> zsets.model[k].val.Valid()
    requires forall k :: k in hashes.model ==> hashes.model[k].val.Valid()
    ensures Small(strings.model, ZValues(zsets.model), HValues(hashes.model)) ==>
              ReadFile(file) == Loaded(Db(Survivors(strings.model, now),
                                          Survivors(ZValues(zsets.model), now),
                                          Forever(HValues(hashes.model))))
  {
    hide D.Dict.Valid, Z.ZSet.Valid, ApplyAll, WriteRecords, SmallStrings, SmallZsets, SmallHashes, AllFit, ReadFile,
        WriteFile;
    zsets.Alive();
    hashes.Alive();
    ZsetsAlive(zsets.model);
    HashesAlive(hashes.model);
    var db0 := EMPTY;
    var s, z, h;
    ghost var rs, rz, rh;
    s, rs := SaveStrings(strings, now, db0);
    ghost var db1 := ApplyAll(db0, rs);
    z, rz := SaveZsets(zsets, now, db1);
    HashesAlive(hashes.model);
    hashes.Alive();
    ghost var db2 := ApplyAll(db1, rz);
    h, rh := SaveHashes(hashes, now, db2);
    file := MAGIC + (s + z + h + [255 as char]);
    WholeFile(rs, rz, rh);
  }

  lemma WholeFile(a: seq<Record>, b: seq<Record>, c: seq<Record>)
    ensures MAGIC + (WriteRecords(a) + WriteRecords(b) + WriteRecords(c) + [255 as char]) == WriteFile(a + b + c)
    ensures AllFit(a) && AllFit(b) && AllFit(c) ==>
              ReadFile(WriteFile(a + b + c)) == Loaded(ApplyAll(ApplyAll(ApplyAll(EMPTY, a), b), c))
  {
    WriteConcat(a, b, EMPTY);
    WriteConcat(a + b, c, EMPTY);
    hide WriteRecords, ApplyAll, ReadFile, Fits;
    if AllFit(a) && AllFit(b) && AllFit(c) { FileBack(a + b + c); }
  }

  lemma Members<V>(es: seq<Entry<V>>, m: Store<V>)
    requires Lists(es, m)
    ensures forall i :: 0 <= i < |es| ==> es[i].key in m && m[es[i].key] == es[i].ToItem()
  {
  }

  lemma StringsFit(es: seq<Entry<Bytes>>, m: Store<Bytes>)
    requires Lists(es, m)
    ensures SmallStrings(m) ==> forall i :: 0 <= i < |es| ==> FieldFits(es[i])
  {
    if SmallStrings(m) {
      forall i | 0 <= i < |es| ensures FieldFits(es[i]) {
        assert es[i].ToItem() == m[es[i].key];
      }
    }
  }

  lemma ZLists(es: seq<Entry<Z.ZSet>>, m: Store<Z.ZSet>, now: int)
    requires Lists(es, m)
    ensures KeptOf(ZImages(es), now) == Survivors(ZValues(m), now)
    ensures SmallZsets(ZValues(m)) ==> forall i :: 0 <= i < |es| ==> |es[i].key| < TWO32 && SmallScores(ZImages(es)[i].val)
  {
    hide KeptOf, SmallScores, Z.Scores;
    var images, vals := ZImages(es), ZValues(m);
    assert forall i :: 0 <= i < |es| ==> es[i].ToItem() == m[es[i].key];
    assert forall i :: 0 <= i < |es| ==> images[i].key == es[i].key && images[i].ToItem() == vals[es[i].key];
    assert Lists(images, vals);
    KeptOfLists(images, vals, now);
  }

  lemma HLists(es: seq<Entry<D.Dict<Bytes>>>, m: Store<D.Dict<Bytes>>, now: int)
    requires Lists(es, m)
    ensures KeptOf(HImages(es), now) == Forever(HValues(m))
    ensures SmallHashes(HValues(m)) ==> forall i :: 0 <= i < |es| ==> |es[i].key| < TWO32 && SmallFields(HImages(es)[i].val)
  {
    hide KeptOf, SmallFields, FieldsOf;
    var images, vals := HImages(es), HValues(m);
    assert forall i :: 0 <= i < |es| ==> es[i].ToItem() == m[es[i].key];
    assert forall i :: 0 <= i < |es| ==> images[i].key == es[i].key && images[i].ToItem() == vals[es[i].key];
    assert Lists(images, vals);
    KeptOfLists(images, vals, now);
    assert Survivors(vals, now) == Forever(vals);
  }
}
