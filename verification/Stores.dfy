/** The dictionaries of sorted sets and of hashes. Their values point to objects, each with nodes
    and tables of its own; what the dictionary stands for is the map from keys to the contents of
    those objects. An object is taken out, worked on through its pointer, and put back: meanwhile
    the rest still stands for its keys, because no object belongs to two of them. The objects
    behind each key are kept in `foot`, the contents in `view`. */
module Stores {
  import opened Sds
  import opened DictSpec
  import opened Keyspace
  import opened Resp
  import opened Walk
  import DictTable
  import AvlTree
  import Avl
  import D = Dict
  import Z = ZSet

  /** The objects behind each key. */
  type Foot = map<Bytes, set<object>>

  ghost function Union(foot: Foot): set<object> { set k, o | k in foot && o in foot[k] :: o }

  ghost predicate Apart(foot: Foot) { forall j, k :: j in foot && k in foot && j != k ==> foot[j] !! foot[k] }

  ghost function Only<V>(m: map<Bytes, V>, keys: set<Bytes>): map<Bytes, V> { map k | k in m && k in keys :: m[k] }

  /** A view of a dictionary has its keys and deadlines. */
  ghost predicate Shows<T, V>(m: Store<T>, foot: Foot, view: Store<V>)
  {
    && foot.Keys == m.Keys == view.Keys && Apart(foot)
    && forall k :: k in m ==> view[k].expire == m[k].expire
  }

  lemma UnionOf(foot: Foot, k: Bytes)
    ensures k in foot ==> foot[k] <= Union(foot)
  {
  }

  /** The objects exist already, so working on others leaves them as they are. */
  lemma UnionAlive(foot: Foot)
    ensures allocated(Union(foot))
  {
  }

  lemma ObjectsAlive(f: set<object>)
    ensures allocated(f)
  {
  }

  lemma UnionSplit(foot: Foot, key: Bytes, f: set<object>)
    ensures Union(foot[key := f]) == Union(foot - {key}) + f
    ensures key in foot ==> Union(foot) == Union(foot - {key}) + foot[key]
    ensures Apart(foot) && key in foot ==> Union(foot - {key}) !! foot[key]
    ensures Apart(foot - {key}) && Union(foot - {key}) !! f ==> Apart(foot[key := f])
  {
    forall k | k in foot && k != key ensures foot[k] <= Union(foot - {key}) {
      UnionOf(foot - {key}, k);
      assert (foot - {key})[k] == foot[k];
    }
    forall o | o in f ensures o in Union(foot[key := f]) { assert o in foot[key := f][key]; }
    forall o | o in Union(foot - {key}) ensures o in Union(foot[key := f]) {
      var k :| k in foot - {key} && o in (foot - {key})[k];
      assert o in foot[key := f][k];
    }
    var foot' := foot[key := f];
    forall j, k | Apart(foot - {key}) && Union(foot - {key}) !! f && j in foot' && k in foot' && j != k
      ensures foot'[j] !! foot'[k]
    {
      if j != key && k != key { assert j in foot - {key} && k in foot - {key}; }
    }
  }

  // ----- one object -----

  ghost predicate ZStored(z: Z.ZSet, f: set<object>, scores: Scores)
    reads f
  {
    && z in f && z.dict in f && z.tree in f && (z.tree.root != null ==> z.tree.root in f)
    && z.Repr() == f && z.Valid() && Z.Scores(z.dict.model) == scores
  }

  lemma ZStore(z: Z.ZSet)
    requires z.Valid()
    ensures ZStored(z, z.Repr(), Z.Scores(z.dict.model))
  {
    hide D.Dict.Valid, AvlTree.IsAvl, Z.Agree;
  }

  ghost predicate HStored(h: D.Dict<Bytes>, f: set<object>, fields: Fields)
    reads f
  {
    && h in f && h.Repr() == f && h.Valid() && h.model == AsStore(fields)
  }

  ghost predicate ZObjects(m: Store<Z.ZSet>, foot: Foot, view: Store<Scores>)
    reads Union(foot)
  {
    Shows(m, foot, view) && forall k :: k in m ==> ZStored(m[k].val, foot[k], view[k].val)
  }

  lemma ZFewer(m: Store<Z.ZSet>, foot: Foot, view: Store<Scores>, m': Store<Z.ZSet>)
    requires ZObjects(m, foot, view) && forall k :: k in m' ==> k in m && m'[k] == m[k]
    ensures ZObjects(m', Only(foot, m'.Keys), Only(view, m'.Keys)) && Union(Only(foot, m'.Keys)) <= Union(foot)
  {
    hide ZStored;
  }

  lemma ZNone()
    ensures ZObjects(map[], map[], map[]) && Union(map[]) == {}
  {
  }

  /** Taking one object out to work on it. */
  lemma ZWithout(m: Store<Z.ZSet>, foot: Foot, view: Store<Scores>, key: Bytes)
    requires ZObjects(m, foot, view) && key in m
    ensures ZObjects(m - {key}, foot - {key}, view - {key}) && ZStored(m[key].val, foot[key], view[key].val)
    ensures Union(foot - {key}) !! foot[key] && Union(foot) == Union(foot - {key}) + foot[key]
    ensures m.Keys == foot.Keys == view.Keys && view[key].expire == m[key].expire
  {
    hide ZStored, Union;
    UnionSplit(foot, key, {});
  }

  /** Putting one in its place. */
  lemma ZWith(m: Store<Z.ZSet>, foot: Foot, view: Store<Scores>, key: Bytes, item: Item<Z.ZSet>, f: set<object>,
      scores: Scores)
    requires ZObjects(m - {key}, foot - {key}, view - {key}) && foot.Keys == m.Keys == view.Keys
    requires ZStored(item.val, f, scores) && Union(foot - {key}) !! f
    ensures ZObjects(m[key := item], foot[key := f], view[key := Item(scores, item.expire)])
    ensures Union(foot[key := f]) == Union(foot - {key}) + f
  {
    hide ZStored, Union;
    UnionSplit(foot, key, f);
    assert forall k :: k in m && k != key ==> k in m - {key};
  }

  lemma ZPurged(m: Store<Z.ZSet>, foot: Foot, view: Store<Scores>, key: Bytes, now: int)
    requires ZObjects(m, foot, view)
    ensures var m' := Purge(m, key, now); var foot' := Only(foot, m'.Keys);
            && ZObjects(m', foot', Purge(view, key, now)) && Union(foot') <= Union(foot)
            && (DictSpec.Get(m, key, now).Some? <==> DictSpec.Get(view, key, now).Some?)
            && (DictSpec.Get(m, key, now).Some? ==> key in m' && key in Purge(view, key, now) && key in foot')
            && (key in m' <==> key in Purge(view, key, now))
            && (DictSpec.Get(m, key, now).Some? ==> m'[key].val == DictSpec.Get(m, key, now).value)
            && GetExpiry(m, key, now) == GetExpiry(view, key, now)
  {
    hide ZObjects, Union;
    ZShows(m, foot, view);
    var m' := Purge(m, key, now);
    ZFewer(m, foot, view, m');
    assert Only(view, m'.Keys) == Purge(view, key, now);
  }

  lemma ZDropped(m: Store<Z.ZSet>, foot: Foot, view: Store<Scores>, key: Bytes)
    requires ZObjects(m, foot, view)
    ensures ZObjects(m - {key}, foot - {key}, view - {key}) && Union(foot - {key}) <= Union(foot)
  {
    hide ZObjects, Union;
    ZShows(m, foot, view);
    ZFewer(m, foot, view, m - {key});
    assert Only(view, (m - {key}).Keys) == view - {key} && Only(foot, (m - {key}).Keys) == foot - {key};
  }

  lemma ZSampled(m: Store<Z.ZSet>, foot: Foot, view: Store<Scores>, m': Store<Z.ZSet>, now: int)
    requires ZObjects(m, foot, view) && Sampled(m, m', now)
    ensures var foot', view' := Only(foot, m'.Keys), Only(view, m'.Keys);
            ZObjects(m', foot', view') && Union(foot') <= Union(foot) && Sampled(view, view', now)
  {
    hide ZObjects, Union;
    ZShows(m, foot, view);
    ZFewer(m, foot, view, m');
  }

  lemma ZRescheduled(m: Store<Z.ZSet>, foot: Foot, view: Store<Scores>, key: Bytes, ttl: int, now: int)
    requires ZObjects(m, foot, view)
    ensures ZObjects(SetExpiry(m, key, ttl, now), foot, SetExpiry(view, key, ttl, now))
  {
    hide ZStored;
  }

  method ZsetCreate() returns (z: Z.ZSet, ghost f: set<object>)
    ensures fresh(f) && f == z.Repr() && ZStored(z, f, map[]) && allocated(f)
  {
    hide Z.ZSet.Valid;
    z := new Z.ZSet();
    f := z.Repr();
    ZStore(z);
  }

  // ----- work on one sorted set -----

  method ZsetAdd(z: Z.ZSet, ghost f: set<object>, ghost scores: Scores, member: Bytes, score: Score, now: int)
    returns (isNew: int, ghost f': set<object>)
    requires ZStored(z, f, scores)
    modifies f
    ensures ZStored(z, f', scores[member := score]) && forall o :: o in f' ==> o in f || fresh(o)
    ensures isNew == if member in scores then 0 else 1
  {
    hide Z.ZSet.Valid;
    isNew := z.Add(member, score, now);
    f' := z.Repr();
    ZStore(z);
  }

  method ZsetRem(z: Z.ZSet, ghost f: set<object>, ghost scores: Scores, member: Bytes, now: int)
    returns (removed: int, ghost f': set<object>)
    requires ZStored(z, f, scores)
    modifies f
    ensures ZStored(z, f', scores - {member}) && forall o :: o in f' ==> o in f || fresh(o)
    ensures removed == if member in scores then 1 else 0
  {
    hide Z.ZSet.Valid;
    removed := z.Rem(member, now);
    f' := z.Repr();
    ZStore(z);
  }

  method ZsetScore(z: Z.ZSet, ghost f: set<object>, ghost scores: Scores, member: Bytes, now: int)
    returns (reply: Reply, ghost f': set<object>)
    requires ZStored(z, f, scores)
    modifies f
    ensures ZStored(z, f', scores) && f' <= f
    ensures reply == ScoreReply(Some(scores), member)
  {
    hide Z.ZSet.Valid;
    var score := z.GetScore(member, now);
    f' := z.Repr();
    ZStore(z);
    reply := if score.Some? then Double(score.value) else Null;
  }

  method ZsetRank(z: Z.ZSet, ghost f: set<object>, ghost scores: Scores, member: Bytes, now: int)
    returns (reply: Reply, ghost f': set<object>)
    requires ZStored(z, f, scores)
    modifies f
    ensures ZStored(z, f', scores) && f' <= f
    ensures reply == RankReply(Some(scores), member)
  {
    hide Z.ZSet.Valid, Z.Before, Z.MembersOf;
    var rank := z.Rank(member, now);
    f' := z.Repr();
    ZStore(z);
    reply := if rank < 0 then Null else Int(rank);
  }

  /** The ZRANGE branch: the count is announced first, and nothing is asked for if it is zero. It is exact. */
  method ZsetRange(z: Z.ZSet, start: int, end: int) returns (count: int, sent: seq<AvlTree.Member>)
    requires z.Valid()
    ensures count == |sent| && sent == Z.Slice(AvlTree.InOrder(z.tree.Model()), start, end)
    ensures sent == Z.Slice(Z.SortedMembers(Z.Scores(z.dict.model)), start, end)
  {
    hide Z.ZSet.Valid, AvlTree.InOrder, Z.SortedMembers, Z.Scores;
    ObjectsAlive(z.Repr());
    z.Listed();
    var len := z.Card();
    var s, e := start, end;
    if s < 0 { s := s + len; }
    if e < 0 { e := e + len; }
    if s < 0 { s := 0; }
    if e >= len { e := len - 1; }
    count := 0;
    if s <= e { count := e - s + 1; }
    sent := [];
    if count > 0 {
      sent := z.Range(start, end);
    }
  }

  class Zsets {
    const dict: D.Dict<Z.ZSet>
    ghost var foot: Foot
    ghost var view: Store<Scores>

    ghost function Repr(): set<object>
      reads this, dict
    {
      {this} + dict.Repr() + Union(foot)
    }

    ghost predicate Valid()
      reads Repr()
    {
      && dict.Valid() && this !in Union(foot) && dict.Repr() !! Union(foot)
      && ZObjects(dict.model, foot, view)
    }

    lemma Alive()
      ensures this in Repr() && dict in Repr() && allocated(Repr())
    {
    }

    constructor ()
      ensures Valid() && fresh(Repr()) && view == map[]
    {
      dict := new D.Dict<Z.ZSet>();
      foot, view := map[], map[];
      new;
      hide D.Dict.Valid, ZObjects, Union;
      ZNone();
    }

    /** The dictionary and its view, once they agree again. */
    ghost method Hold(foot': Foot, view': Store<Scores>)
      requires dict.Valid() && this !in Union(foot') && dict.Repr() !! Union(foot')
      requires ZObjects(dict.model, foot', view')
      modifies this`foot, this`view
      ensures Valid() && foot == foot' && view == view' && Repr() == {this} + dict.Repr() + Union(foot')
    {
      hide D.Dict.Valid, ZObjects, Union;
      UnionAlive(foot');
      foot, view := foot', view';
    }

    /** The sorted set under the key, if it is served. */
    method Get(key: Bytes, now: int) returns (v: Option<Z.ZSet>)
      requires Valid()
      modifies Repr()
      ensures Valid() && Repr() <= old(Repr())
      ensures view == Purge(old(view), key, now)
      ensures v.Some? <==> DictSpec.Get(old(view), key, now).Some?
      ensures v.Some? ==> Has(key, v.value)
    {
      hide D.Dict.Valid, DictTable.OtherStep, ZObjects, Union, Only, Purge, DictSpec.Get;
      UnionAlive(foot);
      ZPurged(dict.model, foot, view, key, now);
      v := dict.Get(key, now);
      Hold(Only(foot, dict.model.Keys), Purge(view, key, now));
    }

    method GetExpiry(key: Bytes, now: int) returns (t: int)
      requires Valid()
      modifies Repr()
      ensures Valid() && Repr() <= old(Repr())
      ensures view == Purge(old(view), key, now) && t == DictSpec.GetExpiry(old(view), key, now)
    {
      hide D.Dict.Valid, DictTable.OtherStep, ZObjects, Union, Only, Purge, DictSpec.GetExpiry;
      UnionAlive(foot);
      ZPurged(dict.model, foot, view, key, now);
      t := dict.GetExpiry(key, now);
      Hold(Only(foot, dict.model.Keys), Purge(view, key, now));
    }

    method SetExpiry(key: Bytes, ttl: int, now: int) returns (r: int)
      requires Valid()
      modifies Repr()
      ensures Valid() && Repr() <= old(Repr())
      ensures view == DictSpec.SetExpiry(old(view), key, ttl, now) && r == if key in old(view) then 1 else 0
    {
      hide D.Dict.Valid, DictTable.OtherStep, ZObjects, Union, DictSpec.SetExpiry;
      UnionAlive(foot);
      ZShows(dict.model, foot, view);
      ZRescheduled(dict.model, foot, view, key, ttl, now);
      r := dict.SetExpiry(key, ttl, now);
      Hold(foot, DictSpec.SetExpiry(view, key, ttl, now));
    }

    method Delete(key: Bytes)
      requires Valid()
      modifies Repr()
      ensures Valid() && Repr() <= old(Repr())
      ensures view == DictSpec.Delete(old(view), key)
    {
      hide D.Dict.Valid, DictTable.OtherStep, ZObjects, Union;
      UnionAlive(foot);
      ZDropped(dict.model, foot, view, key);
      dict.Delete(key);
      Hold(foot - {key}, view - {key});
    }

    method Clear()
      requires Valid()
      modifies Repr()
      ensures Valid() && Repr() <= old(Repr()) && view == map[]
    {
      hide D.Dict.Valid, ZObjects, Union;
      ZNone();
      dict.Clear();
      Hold(map[], map[]);
    }

    /** Random sampling, which may drop any expired keys. */
    method ActiveExpire(nBuckets: nat, now: int)
      requires Valid()
      modifies Repr()
      ensures Valid() && Repr() <= old(Repr())
      ensures Sampled(old(view), view, now)
    {
      hide D.Dict.Valid, DictTable.OtherStep, ZObjects, Union, Sampled, Only;
      UnionAlive(foot);
      ghost var m := dict.model;
      var _ := dict.ActiveExpire(nBuckets, now);
      ghost var keys := dict.model.Keys;
      ZSampled(m, foot, view, dict.model, now);
      Hold(Only(foot, keys), Only(view, keys));
    }

    /** A new sorted set in the place of whatever the key held. */
    method Create(key: Bytes, now: int) returns (z: Z.ZSet)
      requires Valid()
      modifies Repr()
      ensures Valid() && fresh(Repr() - old(Repr()))
      ensures view == Put(old(view), key, map[], 0, now)
      ensures Has(key, z)
    {
      hide ZStored, Zsets.Valid, Union;
      Alive();
      ghost var f;
      z, f := ZsetCreate();
      PutObject(key, z, f, now);
    }

    method PutObject(key: Bytes, z: Z.ZSet, ghost f: set<object>, now: int)
      requires Valid() && ZStored(z, f, map[]) && f !! Repr()
      modifies Repr()
      ensures Valid() && forall o :: o in Repr() ==> o in old(Repr()) || o in f || fresh(o)
      ensures view == Put(old(view), key, map[], 0, now)
      ensures Has(key, z)
    {
      hide D.Dict.Valid, ZStored, DictTable.PutStep, ZObjects, Union;
      UnionAlive(foot);
      ObjectsAlive(f);
      ZShows(dict.model, foot, view);
      ZDropped(dict.model, foot, view, key);
      ghost var m := dict.model;
      dict.Put(key, z, 0, now);
      ZWith(m, foot, view, key, Item(z, 0), f, map[]);
      Hold(foot[key := f], view[key := Item(map[], 0)]);
    }

    method Add(ghost key: Bytes, z: Z.ZSet, member: Bytes, score: Score, now: int) returns (isNew: int)
      requires Valid() && Has(key, z)
      modifies Repr()
      ensures Valid() && Has(key, z) && fresh(Repr() - old(Repr()))
      ensures view == old(view)[key := old(view)[key].(val := old(view)[key].val[member := score])]
      ensures isNew == if member in old(view)[key].val then 0 else 1
    {
      hide D.Dict.Valid, ZStored, ZObjects, Union;
      UnionAlive(foot);
      ZWithout(dict.model, foot, view, key);
      ghost var f;
      isNew, f := ZsetAdd(z, foot[key], view[key].val, member, score, now);
      PutBack(key, f, view[key].val[member := score]);
    }

    method Rem(ghost key: Bytes, z: Z.ZSet, member: Bytes, now: int) returns (removed: int)
      requires Valid() && Has(key, z)
      modifies Repr()
      ensures Valid() && Has(key, z) && fresh(Repr() - old(Repr()))
      ensures view == old(view)[key := old(view)[key].(val := old(view)[key].val - {member})]
      ensures removed == if member in old(view)[key].val then 1 else 0
    {
      hide D.Dict.Valid, ZStored, ZObjects, Union;
      UnionAlive(foot);
      ZWithout(dict.model, foot, view, key);
      ghost var f;
      removed, f := ZsetRem(z, foot[key], view[key].val, member, now);
      PutBack(key, f, view[key].val - {member});
    }

    method Score(ghost key: Bytes, z: Z.ZSet, member: Bytes, now: int) returns (reply: Reply)
      requires Valid() && Has(key, z)
      modifies Repr()
      ensures Valid() && view == old(view) && Repr() <= old(Repr())
      ensures reply == ScoreReply(Some(view[key].val), member)
    {
      hide D.Dict.Valid, ZStored, ZObjects, Union;
      UnionAlive(foot);
      ZWithout(dict.model, foot, view, key);
      ghost var f;
      reply, f := ZsetScore(z, foot[key], view[key].val, member, now);
      PutBack(key, f, view[key].val);
    }

    method Rank(ghost key: Bytes, z: Z.ZSet, member: Bytes, now: int) returns (reply: Reply)
      requires Valid() && Has(key, z)
      modifies Repr()
      ensures Valid() && view == old(view) && Repr() <= old(Repr())
      ensures reply == RankReply(Some(view[key].val), member)
    {
      hide D.Dict.Valid, ZStored, ZObjects, Union, RankReply;
      UnionAlive(foot);
      ZWithout(dict.model, foot, view, key);
      ghost var f;
      reply, f := ZsetRank(z, foot[key], view[key].val, member, now);
      PutBack(key, f, view[key].val);
    }

    method Range(ghost key: Bytes, z: Z.ZSet, start: int, end: int) returns (reply: Reply)
      requires Valid() && Has(key, z)
      ensures reply == RangeReply(Some(view[key].val), start, end)
    {
      hide D.Dict.Valid, ZObjects, Union, Z.Slice, Z.SortedMembers, AvlTree.InOrder, Z.ZSet.Valid;
      ZWithout(dict.model, foot, view, key);
      var count, sent := ZsetRange(z, start, end);
      reply := Items(count, Names(sent));
    }

    method Card(ghost key: Bytes, z: Z.ZSet) returns (reply: Reply)
      requires Valid() && Has(key, z)
      ensures reply == CardReply(Some(view[key].val))
    {
      hide D.Dict.Valid, ZObjects, Union, Z.ZSet.Valid;
      ZWithout(dict.model, foot, view, key);
      var n := z.Card();
      reply := Int(n);
    }

    /** The pointer stored under the key. */
    ghost predicate Has(key: Bytes, z: Z.ZSet)
      reads this, dict
    {
      key in dict.model && dict.model[key].val == z && key in view && key in foot
    }

    /** The object under the key is itself again, with new contents. */
    ghost method PutBack(key: Bytes, f: set<object>, scores: Scores)
      requires dict.Valid() && key in dict.model && key in view && foot.Keys == dict.model.Keys == view.Keys
      requires ZObjects(dict.model - {key}, foot - {key}, view - {key}) && view[key].expire == dict.model[key].expire
      requires ZStored(dict.model[key].val, f, scores)
      requires this !in Union(foot - {key}) + f && dict.Repr() !! Union(foot - {key}) + f && Union(foot - {key}) !! f
      modifies this`foot, this`view
      ensures Valid() && view == old(view)[key := old(view)[key].(val := scores)] && foot == old(foot)[key := f]
      ensures Repr() == {this} + dict.Repr() + old(Union(foot - {key})) + f
    {
      hide D.Dict.Valid, ZStored, ZObjects, Union;
      ZWith(dict.model, foot, view, key, dict.model[key], f, scores);
      assert dict.model[key := dict.model[key]] == dict.model;
      Hold(foot[key := f], view[key := Item(scores, view[key].expire)]);
    }
  }

  lemma ZShows(m: Store<Z.ZSet>, foot: Foot, view: Store<Scores>)
    requires ZObjects(m, foot, view)
    ensures m.Keys == view.Keys == foot.Keys && forall k :: k in m ==> view[k].expire == m[k].expire
  {
  }

  // ----- hashes -----

  ghost predicate HObjects(m: Store<D.Dict<Bytes>>, foot: Foot, view: Store<Fields>)
    reads Union(foot)
  {
    Shows(m, foot, view) && forall k :: k in m ==> HStored(m[k].val, foot[k], view[k].val)
  }

  lemma HFewer(m: Store<D.Dict<Bytes>>, foot: Foot, view: Store<Fields>, m': Store<D.Dict<Bytes>>)
    requires HObjects(m, foot, view) && forall k :: k in m' ==> k in m && m'[k] == m[k]
    ensures HObjects(m', Only(foot, m'.Keys), Only(view, m'.Keys)) && Union(Only(foot, m'.Keys)) <= Union(foot)
  {
    hide HStored;
  }

  lemma HNone()
    ensures HObjects(map[], map[], map[]) && Union(map[]) == {}
  {
  }

  lemma HWithout(m: Store<D.Dict<Bytes>>, foot: Foot, view: Store<Fields>, key: Bytes)
    requires HObjects(m, foot, view) && key in m
    ensures HObjects(m - {key}, foot - {key}, view - {key}) && HStored(m[key].val, foot[key], view[key].val)
    ensures Union(foot - {key}) !! foot[key] && Union(foot) == Union(foot - {key}) + foot[key]
    ensures m.Keys == foot.Keys == view.Keys && view[key].expire == m[key].expire
  {
    hide HStored, Union;
    UnionSplit(foot, key, {});
  }

  lemma HWith(m: Store<D.Dict<Bytes>>, foot: Foot, view: Store<Fields>, key: Bytes, item: Item<D.Dict<Bytes>>,
      f: set<object>, fields: Fields)
    requires HObjects(m - {key}, foot - {key}, view - {key}) && foot.Keys == m.Keys == view.Keys
    requires HStored(item.val, f, fields) && Union(foot - {key}) !! f
    ensures HObjects(m[key := item], foot[key := f], view[key := Item(fields, item.expire)])
    ensures Union(foot[key := f]) == Union(foot - {key}) + f
  {
    hide HStored, Union;
    UnionSplit(foot, key, f);
    assert forall k :: k in m && k != key ==> k in m - {key};
  }

  lemma HShows(m: Store<D.Dict<Bytes>>, foot: Foot, view: Store<Fields>)
    requires HObjects(m, foot, view)
    ensures m.Keys == view.Keys == foot.Keys && forall k :: k in m ==> view[k].expire == m[k].expire
  {
  }

  lemma HPurged(m: Store<D.Dict<Bytes>>, foot: Foot, view: Store<Fields>, key: Bytes, now: int)
    requires HObjects(m, foot, view)
    ensures var m' := Purge(m, key, now); var foot' := Only(foot, m'.Keys);
            && HObjects(m', foot', Purge(view, key, now)) && Union(foot') <= Union(foot)
            && (Get(m, key, now).Some? <==> Get(view, key, now).Some?)
            && (Get(m, key, now).Some? ==> key in m' && key in Purge(view, key, now) && key in foot')
            && (Get(m, key, now).Some? ==> m'[key].val == Get(m, key, now).value)
  {
    hide HObjects, Union;
    HShows(m, foot, view);
    var m' := Purge(m, key, now);
    HFewer(m, foot, view, m');
    assert Only(view, m'.Keys) == Purge(view, key, now);
  }

  lemma HDropped(m: Store<D.Dict<Bytes>>, foot: Foot, view: Store<Fields>, key: Bytes)
    requires HObjects(m, foot, view)
    ensures HObjects(m - {key}, foot - {key}, view - {key}) && Union(foot - {key}) <= Union(foot)
  {
    hide HObjects, Union;
    HShows(m, foot, view);
    HFewer(m, foot, view, m - {key});
    assert Only(view, (m - {key}).Keys) == view - {key} && Only(foot, (m - {key}).Keys) == foot - {key};
  }

  method HashCreate() returns (h: D.Dict<Bytes>, ghost f: set<object>)
    ensures fresh(f) && f == h.Repr() && HStored(h, f, map[]) && allocated(f)
  {
    hide D.Dict.Valid;
    h := new D.Dict<Bytes>();
    f := h.Repr();
  }

  method HashPut(h: D.Dict<Bytes>, ghost f: set<object>, ghost fields: Fields, field: Bytes, val: Bytes, now: int)
    returns (ghost f': set<object>)
    requires HStored(h, f, fields)
    modifies f
    ensures HStored(h, f', fields[field := val]) && forall o :: o in f' ==> o in f || fresh(o)
  {
    hide D.Dict.Valid, DictTable.PutStep;
    h.Put(field, val, 0, now);
    f' := h.Repr();
    assert h.model == AsStore(fields[field := val]);
  }

  /** No field ever expires. */
  method HashHas(h: D.Dict<Bytes>, ghost f: set<object>, ghost fields: Fields, field: Bytes, now: int)
    returns (has: bool, ghost f': set<object>)
    requires HStored(h, f, fields)
    modifies f
    ensures HStored(h, f', fields) && f' <= f && (has <==> field in fields)
  {
    hide D.Dict.Valid, DictTable.OtherStep;
    var v := h.Get(field, now);
    has, f' := v.Some?, h.Repr();
  }

  class Hashes {
    const dict: D.Dict<D.Dict<Bytes>>
    ghost var foot: Foot
    ghost var view: Store<Fields>

    ghost function Repr(): set<object>
      reads this, dict
    {
      {this} + dict.Repr() + Union(foot)
    }

    ghost predicate Valid()
      reads Repr()
    {
      && dict.Valid() && this !in Union(foot) && dict.Repr() !! Union(foot)
      && HObjects(dict.model, foot, view)
    }

    lemma Alive()
      ensures this in Repr() && dict in Repr() && allocated(Repr())
    {
    }

    constructor ()
      ensures Valid() && fresh(Repr()) && view == map[]
    {
      dict := new D.Dict<D.Dict<Bytes>>();
      foot, view := map[], map[];
      new;
      hide D.Dict.Valid, HObjects, Union;
      HNone();
    }

    /** The dictionary and its view, once they agree again. */
    ghost method Hold(foot': Foot, view': Store<Fields>)
      requires dict.Valid() && this !in Union(foot') && dict.Repr() !! Union(foot')
      requires HObjects(dict.model, foot', view')
      modifies this`foot, this`view
      ensures Valid() && foot == foot' && view == view' && Repr() == {this} + dict.Repr() + Union(foot')
    {
      hide D.Dict.Valid, HObjects, Union;
      UnionAlive(foot');
      foot, view := foot', view';
    }

    /** The hash under the key, if it is served. */
    method Get(key: Bytes, now: int) returns (v: Option<D.Dict<Bytes>>)
      requires Valid()
      modifies Repr()
      ensures Valid() && Repr() <= old(Repr())
      ensures view == Purge(old(view), key, now)
      ensures v.Some? <==> DictSpec.Get(old(view), key, now).Some?
      ensures v.Some? ==> Has(key, v.value)
    {
      hide D.Dict.Valid, DictTable.OtherStep, HObjects, Union, Only, Purge, DictSpec.Get;
      UnionAlive(foot);
      HPurged(dict.model, foot, view, key, now);
      v := dict.Get(key, now);
      Hold(Only(foot, dict.model.Keys), Purge(view, key, now));
    }

    method Delete(key: Bytes)
      requires Valid()
      modifies Repr()
      ensures Valid() && Repr() <= old(Repr())
      ensures view == DictSpec.Delete(old(view), key)
    {
      hide D.Dict.Valid, DictTable.OtherStep, HObjects, Union;
      UnionAlive(foot);
      HDropped(dict.model, foot, view, key);
      dict.Delete(key);
      Hold(foot - {key}, view - {key});
    }

    /** A new hash in the place of whatever the key held. */
    method Create(key: Bytes, now: int) returns (h: D.Dict<Bytes>)
      requires Valid()
      modifies Repr()
      ensures Valid() && fresh(Repr() - old(Repr()))
      ensures view == Put(old(view), key, map[], 0, now)
      ensures Has(key, h)
    {
      hide HStored, Hashes.Valid, Union;
      Alive();
      ghost var f;
      h, f := HashCreate();
      PutObject(key, h, f, now);
    }

    method PutObject(key: Bytes, h: D.Dict<Bytes>, ghost f: set<object>, now: int)
      requires Valid() && HStored(h, f, map[]) && f !! Repr()
      modifies Repr()
      ensures Valid() && forall o :: o in Repr() ==> o in old(Repr()) || o in f || fresh(o)
      ensures view == Put(old(view), key, map[], 0, now)
      ensures Has(key, h)
    {
      hide D.Dict.Valid, HStored, DictTable.PutStep, HObjects, Union;
      UnionAlive(foot);
      ObjectsAlive(f);
      HShows(dict.model, foot, view);
      HDropped(dict.model, foot, view, key);
      ghost var m := dict.model;
      dict.Put(key, h, 0, now);
      HWith(m, foot, view, key, Item(h, 0), f, map[]);
      Hold(foot[key := f], view[key := Item(map[], 0)]);
    }

    method PutField(ghost key: Bytes, h: D.Dict<Bytes>, field: Bytes, val: Bytes, now: int)
      requires Valid() && Has(key, h)
      modifies Repr()
      ensures Valid() && Has(key, h) && fresh(Repr() - old(Repr()))
      ensures view == old(view)[key := old(view)[key].(val := old(view)[key].val[field := val])]
    {
      hide D.Dict.Valid, HStored, HObjects, Union;
      UnionAlive(foot);
      HWithout(dict.model, foot, view, key);
      ghost var f := HashPut(h, foot[key], view[key].val, field, val, now);
      PutBack(key, f, view[key].val[field := val]);
    }

    method HasField(ghost key: Bytes, h: D.Dict<Bytes>, field: Bytes, now: int) returns (has: bool)
      requires Valid() && Has(key, h)
      modifies Repr()
      ensures Valid() && Has(key, h) && view == old(view) && Repr() <= old(Repr())
      ensures has <==> field in view[key].val
    {
      hide D.Dict.Valid, HStored, HObjects, Union;
      UnionAlive(foot);
      HWithout(dict.model, foot, view, key);
      ghost var f;
      has, f := HashHas(h, foot[key], view[key].val, field, now);
      PutBack(key, f, view[key].val);
    }

    /** The text of the HGETALL reply. */
    method Listing(ghost key: Bytes, h: D.Dict<Bytes>) returns (reply: Reply)
      requires Valid() && Has(key, h)
      ensures Answers(reply, Hash(view[key].val))
    {
      hide D.Dict.Valid, HObjects, Union, DictTable.Inv, Lists, Encode, Entries;
      HWithout(dict.model, foot, view, key);
      WalkExact(h);
      var text := Hgetall(h);
      reply := Keyspace.Listing(text);
    }

    /** The pointer stored under the key. */
    ghost predicate Has(key: Bytes, h: D.Dict<Bytes>)
      reads this, dict
    {
      key in dict.model && dict.model[key].val == h && key in view && key in foot
    }

    /** The object under the key is itself again, with new contents. */
    ghost method PutBack(key: Bytes, f: set<object>, fields: Fields)
      requires dict.Valid() && key in dict.model && key in view && foot.Keys == dict.model.Keys == view.Keys
      requires HObjects(dict.model - {key}, foot - {key}, view - {key}) && view[key].expire == dict.model[key].expire
      requires HStored(dict.model[key].val, f, fields)
      requires this !in Union(foot - {key}) + f && dict.Repr() !! Union(foot - {key}) + f && Union(foot - {key}) !! f
      modifies this`foot, this`view
      ensures Valid() && view == old(view)[key := old(view)[key].(val := fields)] && foot == old(foot)[key := f]
      ensures Repr() == {this} + dict.Repr() + old(Union(foot - {key})) + f
    {
      hide D.Dict.Valid, HStored, HObjects, Union;
      HWith(dict.model, foot, view, key, dict.model[key], f, fields);
      assert dict.model[key := dict.model[key]] == dict.model;
      Hold(foot[key := f], view[key := Item(fields, view[key].expire)]);
    }
  }

  lemma WalkExact(h: D.Dict<Bytes>)
    requires h.Valid()
    ensures Lists(Entries(h.Tables()), h.model)
  {
    WalkIsExact(h.Tables(), h.model);
  }
}
