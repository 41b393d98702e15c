/** dict.c: a chained hash table that grows by moving one bucket per call to a table twice its size. */
module Dict {
  import opened Sds
  import opened DictSpec
  import opened DictTable

  datatype HashTable<V> = HashTable(table: array?<Chain<V>>, size: nat, used: int) {
    ghost function Buckets(): seq<Chain<V>>
      reads table
    {
      if table == null then [] else table[..]
    }

    ghost predicate Sized() { size == if table == null then 0 else table.Length }

    ghost function Objects(): set<object> { if table == null then {} else {table} }
  }

  /** The hash loop, reading one byte at a time. */
  method HashFn(key: Bytes) returns (h: nat)
    ensures h == Hash(key)
  {
    h := 5381;
    var i := 0;
    while i < |key|
      invariant 0 <= i <= |key|
      invariant HashFrom(h, key[i..]) == HashFrom(5381, key)
    {
      h := (h * 33 + key[i] as int) % 0x1_0000_0000_0000_0000;
      i := i + 1;
    }
    h := h % 0x1_0000_0000;
  }

  lemma {:induction false} NextTableSize(r: nat, s: nat)
    requires TableSize(r) && TableSize(s) && r < s
    ensures 2 * r <= s
  {
    if r > 4 {
      NextTableSize(r / 2, s / 2);
    }
  }

  class Dict<V> {
    var ht0: HashTable<V>
    var ht1: HashTable<V>
    var rehashidx: int
    ghost var model: Store<V>

    ghost function Repr(): set<object>
      reads this
    {
      {this} + ht0.Objects() + ht1.Objects()
    }

    ghost function Tables(): State<V>
      reads this, ht0.table, ht1.table
    {
      State(ht0.Buckets(), ht0.used, ht1.Buckets(), ht1.used, rehashidx)
    }

    ghost predicate Valid()
      reads this, ht0.table, ht1.table
    {
      && ht0.Sized() && ht1.Sized()
      && (ht0.table != null ==> ht0.table != ht1.table)
      && (ht0.table != null ==> ht0.table.Length > 0)
      && (ht1.table != null <==> rehashidx != -1)
      && Inv(Tables(), model)
    }

    constructor ()
      ensures Valid() && fresh(Repr()) && model == map[]
    {
      ht0 := HashTable(null, 0, 0);
      ht1 := HashTable(null, 0, 0);
      rehashidx := -1;
      model := map[];
      new;
      InvEmpty<V>();
    }

    lemma Alive()
      ensures this in Repr() && ht0.Objects() + ht1.Objects() <= Repr() && allocated(Repr())
    {
    }

    /** Moves up to n non-empty buckets. The scan for the next one never runs past the old table. */
    method Rehash(n: nat) returns (more: bool)
      requires Valid()
      modifies this, ht0.table, ht1.table
      ensures Valid() && model == old(model) && Repr() <= old(Repr())
      ensures ht0.used + ht1.used == old(ht0.used + ht1.used)
      ensures more <==> rehashidx != -1
      ensures rehashidx == -1 || (old(rehashidx) + n <= rehashidx && ht0.size == old(ht0.size) && ht0.used > 0)
      ensures rehashidx != -1 ==> ht1.size == old(ht1.size)
      ensures old(rehashidx) != -1 && rehashidx == -1 ==> ht0.used < ht0.size == old(ht1.size) && ht1.used == 0
    {
      hide Inv;
      if rehashidx == -1 { return false; }
      var left := n;
      while left > 0 && ht0.used != 0
        invariant Valid() && model == old(model) && rehashidx != -1
        invariant ht0.table == old(ht0.table) && ht1.table == old(ht1.table)
        invariant ht0.used + ht1.used == old(ht0.used + ht1.used)
        invariant left <= n && old(rehashidx) + (n - left) <= rehashidx
        modifies this, ht0.table, ht1.table
      {
        var start := rehashidx;
        InvShape(Tables(), model);
        while true
          invariant ht0 == old(ht0).(used := ht0.used) && Valid() && model == old(model)
          invariant ht1.table == old(ht1.table) && ht0.used != 0
          invariant ht0.used + ht1.used == old(ht0.used + ht1.used)
          invariant start <= rehashidx < ht0.size
          modifies this`rehashidx
          decreases ht0.size - rehashidx
        {
          if ht0.table[rehashidx] != [] { break; }
          InvSkip(Tables(), model);
          rehashidx := rehashidx + 1;
          InvShape(Tables(), model);
          if rehashidx >= ht0.size {
            assert false;  // the out-of-range exit
          }
        }
        MoveBucket();
        left := left - 1;
      }
      InvShape(Tables(), model);
      if ht0.used == 0 {
        InvFinish(Tables(), model);
        ht0 := ht1;
        ht1 := HashTable(null, 0, 0);
        rehashidx := -1;
        return false;
      }
      return true;
    }

    /** The body of the rehash loop once a non-empty bucket is found. */
    method MoveBucket()
      requires Valid() && rehashidx != -1 && rehashidx < ht0.size
      modifies this, ht0.table, ht1.table
      ensures Valid() && model == old(model) && rehashidx == old(rehashidx) + 1
      ensures ht0.table == old(ht0.table) && ht1.table == old(ht1.table)
      ensures ht0.used + ht1.used == old(ht0.used + ht1.used)
    {
      hide Inv, BitAnd, Hash;
      InvShape(Tables(), model);
      InvMoveBucket(Tables(), model);
      var de := ht0.table[rehashidx];
      while de != []
        invariant ht0 == old(ht0).(used := ht0.used) && ht1 == old(ht1).(used := ht1.used)
        invariant ht0.table[..] == old(ht0.table[..])
        invariant MoveAll(de, ht1.table[..]) == MoveAll(old(ht0.table[rehashidx]), old(ht1.table[..]))
        invariant ht0.used - |de| == old(ht0.used) - |old(ht0.table[rehashidx])|
        invariant ht1.used + |de| == old(ht1.used) + |old(ht0.table[rehashidx])|
        modifies this`ht0, this`ht1, ht1.table
        decreases |de|
      {
        var h := HashFn(de[0].key);
        var idx := BitAnd(h, ht1.size - 1);
        ghost var before := ht1.table[..];
        ht1.table[idx] := [de[0]] + ht1.table[idx];
        assert ht1.table[..] == before[idx := [de[0]] + before[idx]];
        ht0 := ht0.(used := ht0.used - 1);
        ht1 := ht1.(used := ht1.used + 1);
        de := de[1..];
      }
      ht0.table[rehashidx] := [];
      assert ht0.table[..] == old(ht0.table[..])[rehashidx := []];
      rehashidx := rehashidx + 1;
    }

    method RehashStep()
      requires Valid()
      modifies this, ht0.table, ht1.table
      ensures Valid() && model == old(model) && Repr() <= old(Repr())
      ensures ht0.used + ht1.used == old(ht0.used + ht1.used)
      ensures rehashidx == -1 || (old(rehashidx) < rehashidx && ht0.size == old(ht0.size) && ht0.used > 0)
      ensures old(rehashidx) != -1 && rehashidx == -1 ==> ht0.used < ht0.size
      ensures old(rehashidx) == -1 ==> ht0 == old(ht0) && ht1 == old(ht1) && rehashidx == -1
      ensures Moved(old(Tables()), Tables(), 1, 0)
    {
      hide Inv;
      InvShape(Tables(), model);
      if rehashidx != -1 {
        var _ := Rehash(1);
      }
    }

    /** Callers ask for 4 buckets when there is no table, and for twice a full table otherwise. */
    method Expand(size: nat)
      requires Valid() && rehashidx == -1
      requires if ht0.table == null then size == 4 else size == 2 * ht0.size
      modifies this
      ensures Valid() && model == old(model) && fresh(Repr() - old(Repr()))
      ensures ht0.used + ht1.used == old(ht0.used)
      ensures old(ht0.table) == null ==> ht0.size == 4 && rehashidx == -1
      ensures old(ht0.table) != null ==> ht0 == old(ht0) && rehashidx == 0
    {
      hide Inv;
      InvShape(Tables(), model);
      var realsize := 4;
      while realsize < size
        invariant TableSize(realsize) && realsize <= size && TableSize(size)
        modifies {}
      {
        NextTableSize(realsize, size);
        realsize := realsize * 2;
      }
      var table := new Chain<V>[realsize](_ => []);
      assert table[..] == EmptyBuckets(realsize);
      EmptyTable<V>(realsize);
      if ht0.table == null {
        InvFirst(Tables(), model, table[..]);
        ht0 := HashTable(table, realsize, 0);
      } else {
        InvGrow(Tables(), model, table[..]);
        ht1 := HashTable(table, realsize, 0);
        rehashidx := 0;
      }
    }

    /** The place of the key, as table, bucket and position in the chain. */
    method LookupNode(key: Bytes) returns (found: bool, table: int, idx: nat, pos: nat)
      requires Valid()
      modifies this, ht0.table, ht1.table
      ensures Valid() && model == old(model) && Repr() <= old(Repr())
      ensures ht0.used + ht1.used == old(ht0.used + ht1.used)
      ensures found <==> key in model
      ensures found ==> IsNode(table, idx, pos, key)
      ensures old(rehashidx) == -1 ==> ht0 == old(ht0) && ht1 == old(ht1) && rehashidx == -1
      ensures rehashidx == -1 || (old(rehashidx) <= rehashidx && ht0.size == old(ht0.size))
      ensures rehashidx != -1 && old(ht0.used) > 0 ==> old(rehashidx) < rehashidx
      ensures old(rehashidx) != -1 && rehashidx == -1 ==> ht0.used < ht0.size
      ensures Moved(old(Tables()), Tables(), if old(ht0.used) > 0 then 1 else 0, 0)
      ensures rehashidx != -1 && old(ht0.used) > 0 ==> ht0.used > 0
    {
      hide Inv;
      InvLook(Tables(), model, key);
      InvShape(Tables(), model);
      if ht0.used + ht1.used == 0 { return false, 0, 0, 0; }
      RehashStep();
      found, table, idx, pos := Walk(key);
    }

    ghost predicate IsNode(table: int, idx: nat, pos: nat, key: Bytes)
      reads this, ht0.table, ht1.table
    {
      && EntryAt(Tables(), table, idx, pos)
      && ChainAt(Tables(), table, idx)[pos].key == key
      && key in model && ChainAt(Tables(), table, idx)[pos].ToItem() == model[key]
    }

    /** The old table first; the new one only while a rehash is under way. */
    method Walk(key: Bytes) returns (found: bool, table: int, idx: nat, pos: nat)
      requires Valid() && ht0.used + ht1.used > 0
      ensures found <==> key in model
      ensures found ==> IsNode(table, idx, pos, key)
    {
      hide Inv, Find, Hash, BitAnd;
      InvLook(Tables(), model, key);
      InvShape(Tables(), model);
      var h := HashFn(key);
      idx := BitAnd(h, ht0.size - 1);
      found, pos := SearchChain(ht0.table[idx], key);
      if found { return true, 0, idx, pos; }
      if rehashidx == -1 { return false, 0, 0, 0; }
      idx := BitAnd(h, ht1.size - 1);
      found, pos := SearchChain(ht1.table[idx], key);
      return found, 1, idx, pos;
    }

    /** Walks one chain to the key. */
    static method SearchChain(c: Chain<V>, key: Bytes) returns (found: bool, pos: nat)
      ensures found ==> pos < |c| && c[pos].key == key && Find(c, key) == Some(c[pos].ToItem())
      ensures !found ==> Find(c, key).None?
    {
      pos := 0;
      while pos < |c|
        invariant 0 <= pos <= |c|
        invariant Find(c, key) == Find(c[pos..], key)
      {
        if c[pos].key == key { return true, pos; }
        pos := pos + 1;
      }
      return false, 0;
    }

    /** Writes one chain back and adjusts the count of its table. */
    method StoreChain(table: int, idx: nat, c: Chain<V>)
      requires ht0.Sized() && ht1.Sized() && (ht0.table != null ==> ht0.table != ht1.table)
      requires table == 0 ==> ht0.table != null && idx < ht0.size
      requires table != 0 ==> ht1.table != null && idx < ht1.size
      modifies this`ht0, this`ht1, if table == 0 then ht0.table else ht1.table
      ensures Tables() == SetChain(old(Tables()), table, idx, c)
      ensures ht0 == old(ht0).(used := ht0.used) && ht1 == old(ht1).(used := ht1.used)
    {
      if table == 0 {
        ht0 := ht0.(used := ht0.used - |ht0.table[idx]| + |c|);
        ht0.table[idx] := c;
        assert ht0.table[..] == old(ht0.table[..])[idx := c];
      } else {
        ht1 := ht1.(used := ht1.used - |ht1.table[idx]| + |c|);
        ht1.table[idx] := c;
        assert ht1.table[..] == old(ht1.table[..])[idx := c];
      }
    }

    /** A put grows a full table before inserting, and moves two buckets while a rehash is under way. */
    method Put(key: Bytes, val: V, ttl: int, now: int)
      requires Valid()
      modifies this, ht0.table, ht1.table
      ensures Valid() && fresh(Repr() - old(Repr()))
      ensures model == DictSpec.Put(old(model), key, val, ttl, now)
      ensures old(rehashidx) != -1 ==> PutStep(old(Tables()), old(model), key, Tables(), model)
    {
      hide Inv, Moved;
      Grow();
      label grown:
      ghost var total, from := ht0.used + ht1.used, rehashidx;
      RehashStep();
      assert rehashidx != -1 ==> from < rehashidx && ht0.used > 0 && 2 * total <= 2 * ht0.size + from;
      ghost var mid := Tables();
      PutEntry(Entry(key, val, if ttl > 0 then now + ttl else 0));
      MovedAgain(old@grown(Tables()), mid, Tables(), 1, 1, 0, 1);
    }

    method PutEntry(e: Entry<V>)
      requires Valid()
      requires if rehashidx == -1 then ht0.used < ht0.size
               else ht0.used > 0 && 2 * (ht0.used + ht1.used) < 2 * ht0.size + rehashidx
      modifies this, ht0.table, ht1.table
      ensures Valid() && Repr() <= old(Repr())
      ensures model == old(model)[e.key := e.ToItem()]
      ensures Moved(old(Tables()), Tables(), 1, 1) && (rehashidx != -1 ==> ht0.used > 0)
    {
      hide Inv, Moved;
      var found, table, idx, pos := LookupNode(e.key);
      ghost var mid := Tables();
      if found {
        ReplaceNode(table, idx, pos, e.val, e.expire);
        MovedAgain(old(Tables()), mid, Tables(), if old(ht0.used) > 0 then 1 else 0, 0, 0, 0);
      } else {
        PushNode(e);
        MovedAgain(old(Tables()), mid, Tables(), if old(ht0.used) > 0 then 1 else 0, 0, 0, 1);
      }
      MovedMore(old(Tables()), Tables(), if old(ht0.used) > 0 then 1 else 0, if found then 0 else 1);
    }

    /** The growth check of a put: afterwards a table without a rehash has room, and a rehash has started or goes on. */
    method Grow()
      requires Valid()
      modifies this
      ensures Valid() && model == old(model) && fresh(Repr() - old(Repr()))
      ensures ht0.used + ht1.used == old(ht0.used + ht1.used)
      ensures rehashidx == -1 ==> ht0.used < ht0.size
      ensures rehashidx != -1 ==> 2 * (ht0.used + ht1.used) <= 2 * ht0.size + rehashidx
      ensures old(rehashidx) != -1 ==> ht0 == old(ht0) && ht1 == old(ht1) && rehashidx == old(rehashidx)
    {
      hide Inv;
      InvShape(Tables(), model);
      if ht0.table == null { Expand(4); }
      InvShape(Tables(), model);
      if rehashidx == -1 && ht0.used >= ht0.size {
        Expand(ht0.used * 2);
        InvShape(Tables(), model);
      }
    }

    /** The node found gets a new value and deadline. */
    method ReplaceNode(table: int, idx: nat, pos: nat, val: V, expire: int)
      requires Valid() && EntryAt(Tables(), table, idx, pos)
      modifies this, ht0.table, ht1.table
      ensures Valid() && Repr() == old(Repr()) && rehashidx == old(rehashidx) && ht0.size == old(ht0.size)
      ensures var key := ChainAt(old(Tables()), table, idx)[pos].key;
              key in old(model) && model == old(model)[key := Item(val, expire)]
      ensures Moved(old(Tables()), Tables(), 0, 0) && ht0.used == old(ht0.used)
    {
      hide Inv;
      var c := if table == 0 then ht0.table[idx] else ht1.table[idx];
      var e := c[pos].(val := val, expire := expire);
      InvReplace(Tables(), model, table, idx, pos, val, expire);
      StoreChain(table, idx, c[pos := e]);
      model := model[e.key := e.ToItem()];
    }

    method PushNode(e: Entry<V>)
      requires Valid() && e.key !in model
      requires if rehashidx == -1 then ht0.used < ht0.size
               else 2 * (ht0.used + ht1.used + 1) <= 2 * ht0.size + rehashidx
      modifies this, ht0.table, ht1.table
      ensures Valid() && Repr() == old(Repr()) && rehashidx == old(rehashidx) && ht0.size == old(ht0.size)
      ensures model == old(model)[e.key := e.ToItem()]
      ensures Moved(old(Tables()), Tables(), 0, 1) && ht0.used >= old(ht0.used)
    {
      hide Inv, BitAnd, Hash;
      InvShape(Tables(), model);
      InvInsert(Tables(), e, model);
      var h := HashFn(e.key);
      var t := if rehashidx == -1 then 0 else 1;
      var i := BitAnd(h, (if t == 0 then ht0.size else ht1.size) - 1);
      StoreChain(t, i, [e] + if t == 0 then ht0.table[i] else ht1.table[i]);
      model := model[e.key := e.ToItem()];
    }

    method Get(key: Bytes, now: int) returns (r: Option<V>)
      requires Valid()
      modifies this, ht0.table, ht1.table
      ensures Valid() && Repr() <= old(Repr())
      ensures model == Purge(old(model), key, now) && r == DictSpec.Get(old(model), key, now)
      ensures OtherStep(old(Tables()), old(model), Tables(), model)
    {
      hide Inv;
      var found, table, idx, pos := LookupNode(key);
      if !found { return None; }
      var e := if table == 0 then ht0.table[idx][pos] else ht1.table[idx][pos];
      if e.expire > 0 && now > e.expire {
        Delete(key);
        return None;
      }
      return Some(e.val);
    }

    method GetExpiry(key: Bytes, now: int) returns (t: int)
      requires Valid()
      modifies this, ht0.table, ht1.table
      ensures Valid() && Repr() <= old(Repr())
      ensures model == Purge(old(model), key, now) && t == DictSpec.GetExpiry(old(model), key, now)
      ensures OtherStep(old(Tables()), old(model), Tables(), model)
    {
      hide Inv;
      var found, table, idx, pos := LookupNode(key);
      if !found { return 0; }
      var e := if table == 0 then ht0.table[idx][pos] else ht1.table[idx][pos];
      if e.expire > 0 && now > e.expire {
        Delete(key);
        return 0;
      }
      return e.expire;
    }

    method SetExpiry(key: Bytes, ttl: int, now: int) returns (r: int)
      requires Valid()
      modifies this, ht0.table, ht1.table
      ensures Valid() && Repr() <= old(Repr())
      ensures model == DictSpec.SetExpiry(old(model), key, ttl, now)
      ensures r == if key in old(model) then 1 else 0
      ensures OtherStep(old(Tables()), old(model), Tables(), model)
    {
      hide Inv;
      var found, table, idx, pos := LookupNode(key);
      if !found { return 0; }
      var e := if table == 0 then ht0.table[idx][pos] else ht1.table[idx][pos];
      ReplaceNode(table, idx, pos, e.val, if ttl > 0 then now + ttl else 0);
      return 1;
    }

    method Delete(key: Bytes)
      requires Valid()
      modifies this, ht0.table, ht1.table
      ensures Valid() && Repr() <= old(Repr())
      ensures model == DictSpec.Delete(old(model), key)
      ensures OtherStep(old(Tables()), old(model), Tables(), model)
    {
      hide Inv;
      var found, table, idx, pos := LookupNode(key);
      if found {
        Unlink(table, idx, pos);
      }
    }

    method Unlink(table: int, idx: nat, pos: nat)
      requires Valid() && EntryAt(Tables(), table, idx, pos)
      modifies this, ht0.table, ht1.table
      ensures Valid() && rehashidx == old(rehashidx)
      ensures ht0 == old(ht0).(used := ht0.used) && ht1 == old(ht1).(used := ht1.used)
      ensures var c := ChainAt(old(Tables()), table, idx);
              ChainAt(Tables(), table, idx) == c[..pos] + c[pos + 1..]
              && c[pos].key in old(model) && old(model)[c[pos].key] == c[pos].ToItem()
              && model == old(model) - {c[pos].key}
      ensures Moved(old(Tables()), Tables(), 0, 0)
    {
      hide Inv;
      InvRemove(Tables(), model, table, idx, pos);
      var c := if table == 0 then ht0.table[idx] else ht1.table[idx];
      StoreChain(table, idx, c[..pos] + c[pos + 1..]);
      model := model - {c[pos].key};
    }

    method Clear()
      requires Valid()
      modifies this
      ensures Valid() && Repr() == {this} && model == map[]
    {
      ht0 := HashTable(null, 0, 0);
      ht1 := HashTable(null, 0, 0);
      rehashidx := -1;
      model := map[];
      InvEmpty<V>();
    }

    /** Samples buckets at random, of either table while a rehash is under way, and removes what has expired. */
    method ActiveExpire(nBuckets: nat, now: int) returns (expired: nat)
      requires Valid()
      modifies this, ht0.table, ht1.table
      ensures Valid() && Repr() <= old(Repr())
      ensures Sampled(old(model), model, now) && |model| + expired == |old(model)|
      ensures OtherStep(old(Tables()), old(model), Tables(), model)
    {
      hide Inv, Moved, Sampled, OtherStep;
      expired := 0;
      MovedNone(Tables());
      SampledNone(model, now);
      InvShape(Tables(), model);
      OtherStepOf(Tables(), model, Tables(), model);
      if ht0.table == null { return; }
      RehashStep();
      ghost var mid := Tables();
      InvShape(mid, model);
      var table := 0;
      if rehashidx != -1 {
        if * { table := 1; }
      }
      expired := SampleBuckets(table, nBuckets, now);
      MovedAgain(old(Tables()), mid, Tables(), 1, 0, 0, 0);
      MovedAny(old(Tables()), Tables(), 1);
      SampledKeys(old(model), model, now);
      OtherStepOf(old(Tables()), old(model), Tables(), model);
    }

    method SampleBuckets(table: int, nBuckets: nat, now: int) returns (expired: nat)
      requires Valid() && 0 <= table <= 1 && (table == 1 ==> rehashidx != -1)
      requires 0 < if table == 0 then ht0.size else ht1.size
      modifies this, ht0.table, ht1.table
      ensures Valid() && ht0 == old(ht0).(used := ht0.used) && ht1 == old(ht1).(used := ht1.used)
      ensures Sampled(old(model), model, now) && |model| + expired == |old(model)|
      ensures Moved(old(Tables()), Tables(), 0, 0)
    {
      hide Inv, Sampled;
      SampledNone(model, now);
      expired := 0;
      for i := 0 to nBuckets
        invariant Valid() && rehashidx == old(rehashidx)
        invariant ht0 == old(ht0).(used := ht0.used) && ht1 == old(ht1).(used := ht1.used)
        invariant Sampled(old(model), model, now) && |model| + expired == |old(model)|
        invariant Moved(old(Tables()), Tables(), 0, 0)
      {
        ghost var before := model;
        var idx: nat :| idx < if table == 0 then ht0.size else ht1.size;
        var n := ExpireChain(table, idx, now);
        SampledAgain(old(model), before, model, now);
        expired := expired + n;
      }
    }

    /** Unlinks the expired entries of one chain, front to back. */
    method ExpireChain(table: int, idx: nat, now: int) returns (n: nat)
      requires Valid() && 0 <= table <= 1 && (table == 1 ==> rehashidx != -1)
      requires idx < if table == 0 then ht0.size else ht1.size
      modifies this, ht0.table, ht1.table
      ensures Valid() && rehashidx == old(rehashidx)
      ensures ht0 == old(ht0).(used := ht0.used) && ht1 == old(ht1).(used := ht1.used)
      ensures Sampled(old(model), model, now) && |model| + n == |old(model)|
      ensures Moved(old(Tables()), Tables(), 0, 0)
    {
      hide Inv, Sampled;
      SampledNone(model, now);
      n := 0;
      var c := if table == 0 then ht0.table[idx] else ht1.table[idx];
      var pos := 0;
      while pos < |c|
        invariant Valid() && rehashidx == old(rehashidx) && pos <= |c|
        invariant ht0 == old(ht0).(used := ht0.used) && ht1 == old(ht1).(used := ht1.used)
        invariant c == if table == 0 then ht0.table[idx] else ht1.table[idx]
        invariant Sampled(old(model), model, now) && |model| + n == |old(model)|
        invariant Moved(old(Tables()), Tables(), 0, 0)
        decreases |c| - pos
      {
        if c[pos].expire > 0 && now > c[pos].expire {
          ghost var before := model;
          Unlink(table, idx, pos);
          SizeWithout(before, c[pos].key);
          SampledOne(old(model), before, c[pos].key, now);
          c := c[..pos] + c[pos + 1..];
          n := n + 1;
        } else {
          pos := pos + 1;
        }
      }
    }
  }

  lemma SampledNone<V>(m: Store<V>, now: int)
    ensures Sampled(m, m, now)
  {
  }

  lemma SampledKeys<V>(m: Store<V>, m': Store<V>, now: int)
    requires Sampled(m, m', now)
    ensures m'.Keys <= m.Keys
  {
  }

  lemma SampledOne<V>(m0: Store<V>, m1: Store<V>, key: Bytes, now: int)
    requires Sampled(m0, m1, now) && key in m1 && Expired(m1[key], now)
    ensures Sampled(m0, m1 - {key}, now)
  {
  }

  lemma SampledAgain<V>(m0: Store<V>, m1: Store<V>, m2: Store<V>, now: int)
    requires Sampled(m0, m1, now) && Sampled(m1, m2, now)
    ensures Sampled(m0, m2, now)
  {
  }

  lemma SizeWithout<K, T>(m: map<K, T>, k: K)
    requires k in m
    ensures |m - {k}| == |m| - 1
  {
    assert (m - {k}).Keys == m.Keys - {k};
    assert |m.Keys - {k}| == |m.Keys| - 1;
  }
}
