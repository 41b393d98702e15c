/** server.c: the command handlers, the timer callback, the log loader and the snapshot, over the
    server's own dictionaries of texts, sorted sets and hashes, its heap and its log. View is the data
    set those objects stand for; the contracts equate its change and the reply with the functions of
    Keyspace, Cron, Aof and Rdb. Sockets are not modelled: a handler returns its reply. While a log is
    loaded the log file is not yet open, so nothing is appended to it. */
module Server {
  import opened Sds
  import opened Text
  import opened DictSpec
  import opened Resp
  import opened Keyspace
  import opened Cron
  import opened Stores
  import opened Walk
  import Heap = ExpHeap
  import D = Dict
  import Z = ZSet
  import DictTable
  import Aof
  import L = KeyspaceLaws
  import C = CommandLaws
  import Rdb
  import opened RdbSave

  // ----- the log records the handlers write piece by piece -----

  lemma BulksOfPair(a: Bytes, b: Bytes)
    ensures Bulks([a]) == Bulk(a) && Bulks([a, b]) == Bulk(a) + Bulk(b)
  {
    hide Bulk;
    assert [a][1..] == [] && [b][1..] == [] && [a, b][1..] == [b];
    assert Bulks([b]) == Bulk(b) + Bulks([]);
  }

  lemma SetRecord(key: Bytes, val: Bytes)
    ensures "*3\r\n$3\r\nSET\r\n" + Bulk(key) + Bulk(val) == Encode(["SET", key, val])
  {
    assert "*" + Dec(3) + CRLF + Bulk("SET") == "*3\r\n$3\r\nSET\r\n";
    hide Bulk, Dec;
    BulksOfPair(key, val);
    assert ["SET", key, val][1..] == [key, val];
    assert Bulks(["SET", key, val]) == Bulk("SET") + Bulks([key, val]);
  }

  lemma DelRecord(key: Bytes)
    ensures "*2\r\n$3\r\nDEL\r\n" + Bulk(key) == Encode(["DEL", key])
  {
    assert "*" + Dec(2) + CRLF + Bulk("DEL") == "*2\r\n$3\r\nDEL\r\n";
    hide Bulk, Dec;
    BulksOfPair(key, "");
    assert ["DEL", key][1..] == [key];
    assert Bulks(["DEL", key]) == Bulk("DEL") + Bulks([key]);
  }

  lemma HsetRecord(argv: seq<Bytes>, i: nat)
    requires 1 <= i < |argv|
    ensures Bulks(argv[1..i + 1]) == Bulks(argv[1..i]) + Bulk(argv[i])
  {
    assert argv[1..i + 1] == argv[1..i] + [argv[i]];
    BulksAppend(argv[1..i], [argv[i]]);
    BulksOfPair(argv[i], "");
  }

  /** The state with new contents under a key. */
  ghost function WithScores(s: State, key: Bytes, scores: Scores): State
    requires key in s.zsets
  {
    s.(zsets := s.zsets[key := s.zsets[key].(val := scores)])
  }

  ghost function WithFields(s: State, key: Bytes, fields: Fields): State
    requires key in s.hashes
  {
    s.(hashes := s.hashes[key := s.hashes[key].(val := fields)])
  }

  lemma ScoresAgain(s: State, key: Bytes, a: Scores, b: Scores)
    requires key in s.zsets
    ensures key in WithScores(s, key, a).zsets && WithScores(s, key, a).zsets[key].val == a
    ensures WithScores(WithScores(s, key, a), key, b) == WithScores(s, key, b)
    ensures WithScores(s, key, s.zsets[key].val) == s
  {
    assert s.zsets[key := s.zsets[key]] == s.zsets;
  }

  lemma FieldsAgain(s: State, key: Bytes, a: Fields, b: Fields)
    requires key in s.hashes
    ensures key in WithFields(s, key, a).hashes && WithFields(s, key, a).hashes[key].val == a
    ensures WithFields(WithFields(s, key, a), key, b) == WithFields(s, key, b)
    ensures WithFields(s, key, s.hashes[key].val) == s
  {
    assert s.hashes[key := s.hashes[key]] == s.hashes;
  }

  /** Unknown: the loader used something it could not read. */
  datatype LoadStatus = Success | Failed | Unknown

  class Server {
    const strings: D.Dict<Bytes>
    const zsets: Zsets
    const hashes: Hashes
    const heap: Heap.ExpHeap
    var aof: Option<Bytes>
    const atof: Bytes -> Score

    /** Every object of the dictionaries and the heap. */
    ghost function Parts(): set<object>
      reads strings, zsets, zsets.dict, hashes, hashes.dict, heap
    {
      strings.Repr() + zsets.Repr() + hashes.Repr() + {heap, heap.entries}
    }

    ghost function Repr(): set<object>
      reads strings, zsets, zsets.dict, hashes, hashes.dict, heap
    {
      {this} + Parts()
    }

    /** No object belongs to two of them. */
    ghost predicate Valid()
      reads Parts()
    {
      && strings.Valid() && zsets.Valid() && hashes.Valid() && heap.Valid() && this !in Parts()
      && strings.Repr() !! zsets.Repr() && strings.Repr() !! hashes.Repr() && zsets.Repr() !! hashes.Repr()
      && {heap, heap.entries} !! strings.Repr() + zsets.Repr() + hashes.Repr()
    }

    ghost function View(): State
      requires Valid()
      reads this, Parts()
    {
      State(strings.model, zsets.view, hashes.view, heap.Contents(), aof)
    }

    lemma Alive()
      ensures zsets in zsets.Repr() && zsets.dict in zsets.Repr() && hashes in hashes.Repr() && hashes.dict in hashes.Repr()
      ensures strings in strings.Repr()
      ensures allocated(strings.Repr()) && allocated(zsets.Repr()) && allocated(hashes.Repr()) && allocated(Parts())
      ensures Valid() ==> this !in strings.Repr() && this !in zsets.Repr() && this !in hashes.Repr()
    {
      zsets.Alive();
      hashes.Alive();
    }

    constructor (strings: D.Dict<Bytes>, zsets: Zsets, hashes: Hashes, heap: Heap.ExpHeap, atof: Bytes -> Score)
      requires strings.Valid() && zsets.Valid() && hashes.Valid() && heap.Valid()
      requires strings.Repr() !! zsets.Repr() && strings.Repr() !! hashes.Repr() && zsets.Repr() !! hashes.Repr()
      requires {heap, heap.entries} !! strings.Repr() + zsets.Repr() + hashes.Repr()
      ensures Valid() && fresh(this) && this.atof == atof
      ensures this.strings == strings && this.zsets == zsets && this.hashes == hashes && this.heap == heap
      ensures View() == State(strings.model, zsets.view, hashes.view, heap.Contents(), None)
      ensures Repr() == {this} + (strings.Repr() + zsets.Repr() + hashes.Repr() + {heap, heap.entries})
    {
      hide D.Dict.Valid, Zsets.Valid, Hashes.Valid, Heap.ExpHeap.Valid, D.Dict.Repr, Zsets.Repr, Hashes.Repr;
      strings.Alive();
      zsets.Alive();
      hashes.Alive();
      this.strings, this.zsets, this.hashes, this.heap, this.atof, aof := strings, zsets, hashes, heap, atof, None;
    }

    /** fprintf and fwrite to the log, when it is open. */
    method Write(text: Bytes)
      modifies this`aof
      ensures aof == if old(aof).Some? then Some(old(aof).value + text) else None
    {
      if aof.Some? { aof := Some(aof.value + text); }
    }

    /** One argument of a record: its length, its bytes, and the separators around them. */
    method WriteBulk(a: Bytes)
      modifies this`aof
      ensures aof == if old(aof).Some? then Some(old(aof).value + Bulk(a)) else None
    {
      Write("$" + Dec(|a|) + CRLF);
      Write(a);
      Write(CRLF);
      if aof.Some? {
        Glue(old(aof).value, "$" + Dec(|a|) + CRLF, a, CRLF);
      }
    }

    // ----- single accesses -----

    /** One lazily expiring read of each dictionary. */
    method GetString(key: Bytes, now: int) returns (v: Option<Bytes>)
      requires Valid()
      modifies Repr()
      ensures Valid() && forall o :: o in Repr() ==> o in old(Repr()) || fresh(o)
      ensures (View(), v) == Keyspace.GetString(old(View()), key, now)
    {
      hide D.Dict.Valid, Zsets.Valid, Hashes.Valid, Heap.ExpHeap.Valid, Heap.Bag, DictTable.OtherStep, DictTable.PutStep,
        Zsets.Repr, Hashes.Repr, Purge, Get, Put, DictSpec.GetExpiry;
      Alive();
      v := strings.Get(key, now);
    }

    method GetZset(key: Bytes, now: int) returns (v: Option<Z.ZSet>)
      requires Valid()
      modifies Repr()
      ensures Valid() && forall o :: o in Repr() ==> o in old(Repr()) || fresh(o)
      ensures View() == Keyspace.GetZset(old(View()), key, now).0
      ensures v.Some? <==> Keyspace.GetZset(old(View()), key, now).1.Some?
      ensures v.Some? ==> zsets.Has(key, v.value) && key in View().zsets
    {
      hide D.Dict.Valid, Zsets.Valid, Hashes.Valid, Heap.ExpHeap.Valid, Heap.Bag, DictTable.OtherStep, DictTable.PutStep,
        Zsets.Repr, Hashes.Repr, Purge, Get, Put, DictSpec.GetExpiry;
      Alive();
      v := zsets.Get(key, now);
    }

    method GetHash(key: Bytes, now: int) returns (v: Option<D.Dict<Bytes>>)
      requires Valid()
      modifies Repr()
      ensures Valid() && forall o :: o in Repr() ==> o in old(Repr()) || fresh(o)
      ensures View() == Keyspace.GetHash(old(View()), key, now).0
      ensures v.Some? <==> Keyspace.GetHash(old(View()), key, now).1.Some?
      ensures v.Some? ==> hashes.Has(key, v.value) && key in View().hashes
    {
      hide D.Dict.Valid, Zsets.Valid, Hashes.Valid, Heap.ExpHeap.Valid, Heap.Bag, DictTable.OtherStep, DictTable.PutStep,
        Zsets.Repr, Hashes.Repr, Purge, Get, Put, DictSpec.GetExpiry;
      Alive();
      v := hashes.Get(key, now);
    }

    method StringExpiry(key: Bytes, now: int) returns (t: int)
      requires Valid()
      modifies Repr()
      ensures Valid() && forall o :: o in Repr() ==> o in old(Repr()) || fresh(o)
      ensures View() == Keyspace.GetString(old(View()), key, now).0
      ensures t == GetExpiry(old(View()).strings, key, now)
    {
      hide D.Dict.Valid, Zsets.Valid, Hashes.Valid, Heap.ExpHeap.Valid, Heap.Bag, DictTable.OtherStep, DictTable.PutStep,
        Zsets.Repr, Hashes.Repr, Purge, Get, Put, DictSpec.GetExpiry;
      Alive();
      t := strings.GetExpiry(key, now);
    }

    method ZsetExpiry(key: Bytes, now: int) returns (t: int)
      requires Valid()
      modifies Repr()
      ensures Valid() && forall o :: o in Repr() ==> o in old(Repr()) || fresh(o)
      ensures View() == Keyspace.GetZset(old(View()), key, now).0
      ensures t == GetExpiry(old(View()).zsets, key, now)
    {
      hide D.Dict.Valid, Zsets.Valid, Hashes.Valid, Heap.ExpHeap.Valid, Heap.Bag, DictTable.OtherStep, DictTable.PutStep,
        Zsets.Repr, Hashes.Repr, Purge, Get, Put, DictSpec.GetExpiry;
      Alive();
      t := zsets.GetExpiry(key, now);
    }

    method SetStringExpiry(key: Bytes, ttl: int, now: int) returns (r: int)
      requires Valid()
      modifies Repr()
      ensures Valid() && forall o :: o in Repr() ==> o in old(Repr()) || fresh(o)
      ensures View() == old(View()).(strings := SetExpiry(old(View()).strings, key, ttl, now))
      ensures r == if key in old(View()).strings then 1 else 0
    {
      hide D.Dict.Valid, Zsets.Valid, Hashes.Valid, Heap.ExpHeap.Valid, Heap.Bag, DictTable.OtherStep, DictTable.PutStep,
        Zsets.Repr, Hashes.Repr, Purge, Get, Put, DictSpec.GetExpiry, SetExpiry;
      Alive();
      r := strings.SetExpiry(key, ttl, now);
    }

    method SetZsetExpiry(key: Bytes, ttl: int, now: int) returns (r: int)
      requires Valid()
      modifies Repr()
      ensures Valid() && forall o :: o in Repr() ==> o in old(Repr()) || fresh(o)
      ensures View() == old(View()).(zsets := SetExpiry(old(View()).zsets, key, ttl, now))
      ensures r == if key in old(View()).zsets then 1 else 0
    {
      hide D.Dict.Valid, Zsets.Valid, Hashes.Valid, Heap.ExpHeap.Valid, Heap.Bag, DictTable.OtherStep, DictTable.PutStep,
        Zsets.Repr, Hashes.Repr, Purge, Get, Put, DictSpec.GetExpiry, SetExpiry;
      Alive();
      r := zsets.SetExpiry(key, ttl, now);
    }

    method PutString(key: Bytes, val: Bytes, ttl: int, now: int)
      requires Valid()
      modifies Repr()
      ensures Valid() && forall o :: o in Repr() ==> o in old(Repr()) || fresh(o)
      ensures View() == old(View()).(strings := Put(old(View()).strings, key, val, ttl, now))
    {
      hide D.Dict.Valid, Zsets.Valid, Hashes.Valid, Heap.ExpHeap.Valid, Heap.Bag, DictTable.OtherStep, DictTable.PutStep,
        Zsets.Repr, Hashes.Repr, Purge, Get, Put, DictSpec.GetExpiry;
      Alive();
      strings.Put(key, val, ttl, now);
    }

    method DropString(key: Bytes)
      requires Valid()
      modifies Repr()
      ensures Valid() && forall o :: o in Repr() ==> o in old(Repr()) || fresh(o)
      ensures View() == old(View()).(strings := Delete(old(View()).strings, key))
    {
      hide D.Dict.Valid, Zsets.Valid, Hashes.Valid, Heap.ExpHeap.Valid, Heap.Bag, DictTable.OtherStep, DictTable.PutStep,
        Zsets.Repr, Hashes.Repr, Purge, Get, Put, DictSpec.GetExpiry;
      Alive();
      strings.Delete(key);
    }

    method DropZset(key: Bytes)
      requires Valid()
      modifies Repr()
      ensures Valid() && forall o :: o in Repr() ==> o in old(Repr()) || fresh(o)
      ensures View() == old(View()).(zsets := Delete(old(View()).zsets, key))
    {
      hide D.Dict.Valid, Zsets.Valid, Hashes.Valid, Heap.ExpHeap.Valid, Heap.Bag, DictTable.OtherStep, DictTable.PutStep,
        Zsets.Repr, Hashes.Repr, Purge, Get, Put, DictSpec.GetExpiry;
      Alive();
      zsets.Delete(key);
    }

    method DropHash(key: Bytes)
      requires Valid()
      modifies Repr()
      ensures Valid() && forall o :: o in Repr() ==> o in old(Repr()) || fresh(o)
      ensures View() == old(View()).(hashes := Delete(old(View()).hashes, key))
    {
      hide D.Dict.Valid, Zsets.Valid, Hashes.Valid, Heap.ExpHeap.Valid, Heap.Bag, DictTable.OtherStep, DictTable.PutStep,
        Zsets.Repr, Hashes.Repr, Purge, Get, Put, DictSpec.GetExpiry;
      Alive();
      hashes.Delete(key);
    }

    method ClearStrings()
      requires Valid()
      modifies Repr()
      ensures Valid() && forall o :: o in Repr() ==> o in old(Repr()) || fresh(o)
      ensures View() == old(View()).(strings := map[])
    {
      hide D.Dict.Valid, Zsets.Valid, Hashes.Valid, Heap.ExpHeap.Valid, Heap.Bag, DictTable.OtherStep, DictTable.PutStep,
        Zsets.Repr, Hashes.Repr, Purge, Get, Put, DictSpec.GetExpiry;
      Alive();
      strings.Clear();
    }

    method ClearZsets()
      requires Valid()
      modifies Repr()
      ensures Valid() && forall o :: o in Repr() ==> o in old(Repr()) || fresh(o)
      ensures View() == old(View()).(zsets := map[])
    {
      hide D.Dict.Valid, Zsets.Valid, Hashes.Valid, Heap.ExpHeap.Valid, Heap.Bag, DictTable.OtherStep, DictTable.PutStep,
        Zsets.Repr, Hashes.Repr, Purge, Get, Put, DictSpec.GetExpiry;
      Alive();
      zsets.Clear();
    }

    method Schedule(key: Bytes, expire: int)
      requires Valid()
      modifies Repr()
      ensures Valid() && forall o :: o in Repr() ==> o in old(Repr()) || fresh(o)
      ensures View() == old(View()).(heap := old(View()).heap + multiset{Heap.ExpEntry(key, expire)})
    {
      hide D.Dict.Valid, Zsets.Valid, Hashes.Valid, Heap.ExpHeap.Valid, Heap.Bag, DictTable.OtherStep, DictTable.PutStep,
        Zsets.Repr, Hashes.Repr, Purge, Get, Put, DictSpec.GetExpiry;
      Alive();
      heap.Push(key, expire);
    }

    method Unschedule() returns (e: Heap.ExpEntry)
      requires Valid()
      modifies Repr()
      ensures Valid() && forall o :: o in Repr() ==> o in old(Repr()) || fresh(o)
      ensures old(View()).heap != multiset{} ==>
                Least(e, old(View()).heap) && View() == old(View()).(heap := old(View()).heap - multiset{e})
    {
      hide D.Dict.Valid, Zsets.Valid, Hashes.Valid, Heap.ExpHeap.Valid, Heap.Bag, DictTable.OtherStep, DictTable.PutStep,
        Zsets.Repr, Hashes.Repr, Purge, Get, Put, DictSpec.GetExpiry;
      Alive();
      e := heap.Pop();
    }

    method SampleStrings(now: int)
      requires Valid()
      modifies Repr()
      ensures Valid() && forall o :: o in Repr() ==> o in old(Repr()) || fresh(o)
      ensures Sampled(old(View()).strings, View().strings, now) && View() == old(View()).(strings := View().strings)
    {
      hide D.Dict.Valid, Zsets.Valid, Hashes.Valid, Heap.ExpHeap.Valid, Heap.Bag, DictTable.OtherStep, DictTable.PutStep,
        Zsets.Repr, Hashes.Repr, Purge, Get, Put, DictSpec.GetExpiry, Sampled;
      Alive();
      var _ := strings.ActiveExpire(10, now);
    }

    method SampleZsets(now: int)
      requires Valid()
      modifies Repr()
      ensures Valid() && forall o :: o in Repr() ==> o in old(Repr()) || fresh(o)
      ensures Sampled(old(View()).zsets, View().zsets, now) && View() == old(View()).(zsets := View().zsets)
    {
      hide D.Dict.Valid, Zsets.Valid, Hashes.Valid, Heap.ExpHeap.Valid, Heap.Bag, DictTable.OtherStep, DictTable.PutStep,
        Zsets.Repr, Hashes.Repr, Purge, Get, Put, DictSpec.GetExpiry, Sampled;
      Alive();
      zsets.ActiveExpire(10, now);
    }

    method CreateZset(key: Bytes, now: int) returns (z: Z.ZSet)
      requires Valid()
      modifies Repr()
      ensures Valid() && forall o :: o in Repr() ==> o in old(Repr()) || fresh(o)
      ensures View() == old(View()).(zsets := Put(old(View()).zsets, key, map[], 0, now))
      ensures zsets.Has(key, z) && key in View().zsets
    {
      hide D.Dict.Valid, Zsets.Valid, Hashes.Valid, Heap.ExpHeap.Valid, Heap.Bag, DictTable.OtherStep, DictTable.PutStep,
        Zsets.Repr, Hashes.Repr, Purge, Get, Put, DictSpec.GetExpiry;
      Alive();
      z := zsets.Create(key, now);
    }

    method AddMember(ghost key: Bytes, z: Z.ZSet, member: Bytes, score: Score, now: int) returns (isNew: int)
      requires Valid() && zsets.Has(key, z) && key in View().zsets
      modifies Repr()
      ensures Valid() && forall o :: o in Repr() ==> o in old(Repr()) || fresh(o)
      ensures View() == WithScores(old(View()), key, old(View().zsets[key]).val[member := score])
      ensures isNew == if member in old(View().zsets[key]).val then 0 else 1
      ensures zsets.Has(key, z) && key in View().zsets
    {
      hide D.Dict.Valid, Zsets.Valid, Hashes.Valid, Heap.ExpHeap.Valid, Heap.Bag, DictTable.OtherStep, DictTable.PutStep,
        Zsets.Repr, Hashes.Repr, Purge, Get, Put, DictSpec.GetExpiry;
      Alive();
      isNew := zsets.Add(key, z, member, score, now);
    }

    method RemoveMember(ghost key: Bytes, z: Z.ZSet, member: Bytes, now: int) returns (removed: int)
      requires Valid() && zsets.Has(key, z) && key in View().zsets
      modifies Repr()
      ensures Valid() && forall o :: o in Repr() ==> o in old(Repr()) || fresh(o)
      ensures View() == WithScores(old(View()), key, old(View().zsets[key]).val - {member})
      ensures removed == if member in old(View().zsets[key]).val then 1 else 0
      ensures zsets.Has(key, z) && key in View().zsets
    {
      hide D.Dict.Valid, Zsets.Valid, Hashes.Valid, Heap.ExpHeap.Valid, Heap.Bag, DictTable.OtherStep, DictTable.PutStep,
        Zsets.Repr, Hashes.Repr, Purge, Get, Put, DictSpec.GetExpiry;
      Alive();
      removed := zsets.Rem(key, z, member, now);
    }

    method CreateHash(key: Bytes, now: int) returns (h: D.Dict<Bytes>)
      requires Valid()
      modifies Repr()
      ensures Valid() && forall o :: o in Repr() ==> o in old(Repr()) || fresh(o)
      ensures View() == old(View()).(hashes := Put(old(View()).hashes, key, map[], 0, now))
      ensures hashes.Has(key, h) && key in View().hashes
    {
      hide D.Dict.Valid, Zsets.Valid, Hashes.Valid, Heap.ExpHeap.Valid, Heap.Bag, DictTable.OtherStep, DictTable.PutStep,
        Zsets.Repr, Hashes.Repr, Purge, Get, Put, DictSpec.GetExpiry;
      Alive();
      h := hashes.Create(key, now);
    }

    method PutField(ghost key: Bytes, h: D.Dict<Bytes>, field: Bytes, val: Bytes, now: int)
      requires Valid() && hashes.Has(key, h) && key in View().hashes
      modifies Repr()
      ensures Valid() && forall o :: o in Repr() ==> o in old(Repr()) || fresh(o)
      ensures View() == WithFields(old(View()), key, old(View().hashes[key]).val[field := val])
      ensures hashes.Has(key, h) && key in View().hashes
    {
      hide D.Dict.Valid, Zsets.Valid, Hashes.Valid, Heap.ExpHeap.Valid, Heap.Bag, DictTable.OtherStep, DictTable.PutStep,
        Zsets.Repr, Hashes.Repr, Purge, Get, Put, DictSpec.GetExpiry;
      Alive();
      hashes.PutField(key, h, field, val, now);
    }

    method HasField(ghost key: Bytes, h: D.Dict<Bytes>, field: Bytes, now: int) returns (has: bool)
      requires Valid() && hashes.Has(key, h) && key in View().hashes
      modifies Repr()
      ensures Valid() && forall o :: o in Repr() ==> o in old(Repr()) || fresh(o)
      ensures View() == old(View()) && hashes.Has(key, h) && key in View().hashes
      ensures has <==> field in old(View().hashes[key]).val
    {
      hide D.Dict.Valid, Zsets.Valid, Hashes.Valid, Heap.ExpHeap.Valid, Heap.Bag, DictTable.OtherStep, DictTable.PutStep,
        Zsets.Repr, Hashes.Repr, Purge, Get, Put, DictSpec.GetExpiry;
      Alive();
      has := hashes.HasField(key, h, field, now);
    }

    // ----- the log -----

    /** The log has grown by a record if it is open; nothing else has changed. */
    lemma Logged(before: State, record: Bytes)
      requires Valid() && View() == before.(aof := aof)
      requires aof == if before.aof.Some? then Some(before.aof.value + record) else None
      ensures View() == Append(before, record)
    {
    }

    method LogSet(key: Bytes, val: Bytes)
      requires Valid()
      modifies this`aof
      ensures Valid() && Repr() == old(Repr())
      ensures View() == Append(old(View()), Encode(["SET", key, val]))
    {
      hide D.Dict.Valid, Zsets.Valid, Hashes.Valid, Heap.ExpHeap.Valid, Heap.Bag, Zsets.Repr, Hashes.Repr, Encode, Bulk;
      Alive();
      ghost var before := View();
      SetRecord(key, val);
      Write("*3\r\n$3\r\nSET\r\n");
      WriteBulk(key);
      WriteBulk(val);
      if aof.Some? {
        Glue(old(aof).value, "*3\r\n$3\r\nSET\r\n", Bulk(key), Bulk(val));
      }
      Logged(before, Encode(["SET", key, val]));
    }

    method LogDel(key: Bytes)
      requires Valid()
      modifies this`aof
      ensures Valid() && Repr() == old(Repr())
      ensures View() == Append(old(View()), Encode(["DEL", key]))
    {
      hide D.Dict.Valid, Zsets.Valid, Hashes.Valid, Heap.ExpHeap.Valid, Heap.Bag, Zsets.Repr, Hashes.Repr, Encode, Bulk;
      Alive();
      ghost var before := View();
      DelRecord(key);
      Write("*2\r\n$3\r\nDEL\r\n");
      WriteBulk(key);
      if aof.Some? {
        Glue(old(aof).value, "*2\r\n$3\r\nDEL\r\n", Bulk(key), []);
      }
      Logged(before, Encode(["DEL", key]));
    }

    method LogLine(record: Bytes)
      requires Valid()
      modifies this`aof
      ensures Valid() && Repr() == old(Repr())
      ensures View() == Append(old(View()), record)
    {
      hide D.Dict.Valid, Zsets.Valid, Hashes.Valid, Heap.ExpHeap.Valid, Heap.Bag, Zsets.Repr, Hashes.Repr, Encode;
      Alive();
      ghost var before := View();
      Write(record);
      Logged(before, record);
    }

    method LogZrem(key: Bytes, members: seq<Bytes>)
      requires Valid()
      modifies this`aof
      ensures Valid() && Repr() == old(Repr())
      ensures View() == Append(old(View()), ZremRecords(key, members))
    {
      hide D.Dict.Valid, Zsets.Valid, Hashes.Valid, Heap.ExpHeap.Valid, Heap.Bag, Zsets.Repr, Hashes.Repr, PrintedBulk;
      Alive();
      ghost var before := View();
      assert ZremRecords(key, members[..0]) == [] && (aof.Some? ==> aof.value + [] == aof.value);
      for i := 0 to |members|
        invariant aof == if old(aof).Some? then Some(old(aof).value + ZremRecords(key, members[..i])) else None
        modifies this`aof
      {
        assert members[..i + 1][..i] == members[..i];
        var record := "*3\r\n$4\r\nZREM\r\n" + PrintedBulk(key) + PrintedBulk(members[i]);
        Write(record);
        if aof.Some? { Glue(old(aof).value, ZremRecords(key, members[..i]), record, []); }
      }
      assert members[..|members|] == members;
      Logged(before, ZremRecords(key, members));
    }

    method LogHset(argv: seq<Bytes>)
      requires Valid() && |argv| >= 1
      modifies this`aof
      ensures Valid() && Repr() == old(Repr())
      ensures View() == Append(old(View()), Encode(["HSET"] + argv[1..]))
    {
      hide D.Dict.Valid, Zsets.Valid, Hashes.Valid, Heap.ExpHeap.Valid, Heap.Bag, Zsets.Repr, Hashes.Repr, Encode;
      Alive();
      ghost var before := View();
      WriteHset(argv);
      Logged(before, Encode(["HSET"] + argv[1..]));
    }

    method WriteHset(argv: seq<Bytes>)
      requires |argv| >= 1
      modifies this`aof
      ensures aof == if old(aof).Some? then Some(old(aof).value + Encode(["HSET"] + argv[1..])) else None
    {
      if aof.None? { return; }
      var count := "*" + Dec(|argv|) + CRLF;
      ghost var head := count + Bulk("HSET");
      HsetName();
      HsetHead(argv, count);
      hide Encode, Bulk;
      Write(count);
      Write("$4\r\nHSET\r\n");
      Glue(old(aof).value, count, Bulk("HSET"), []);
      assert argv[1..1] == [] && Bulks([]) == [] && head + [] == head;
      for i := 1 to |argv|
        invariant aof == Some(old(aof).value + (head + Bulks(argv[1..i])))
      {
        HsetRecord(argv, i);
        WriteBulk(argv[i]);
        GlueTwo(old(aof).value, head, Bulks(argv[1..i]), Bulk(argv[i]));
      }
      assert argv[1..|argv|] == argv[1..];
    }

    // ----- keys -----

    method SetKv(key: Bytes, val: Bytes, ttl: int, now: int)
      requires Valid()
      modifies Repr()
      ensures Valid() && forall o :: o in Repr() ==> o in old(Repr()) || fresh(o)
      ensures View() == Keyspace.SetKv(old(View()), key, val, ttl, now)
    {
      hide Server.Valid, Server.Parts, Server.View, Encode;
      PutString(key, val, ttl, now);
      if ttl > 0 {
        Schedule(key, now + ttl);
      }
      LogSet(key, val);
    }

    method DeleteKey(key: Bytes, now: int) returns (n: int)
      requires Valid()
      modifies Repr()
      ensures Valid() && forall o :: o in Repr() ==> o in old(Repr()) || fresh(o)
      ensures (View(), n) == Keyspace.DeleteKey(old(View()), key, now)
    {
      hide Server.Valid, Server.Parts, Server.View, Encode;
      var str := GetString(key, now);
      if str.Some? {
        DropString(key);
        LogDel(key);
        return 1;
      }
      var z := GetZset(key, now);
      if z.Some? {
        DropZset(key);
        LogDel(key);
        return 1;
      }
      var h := GetHash(key, now);
      if h.Some? {
        DropHash(key);
        LogDel(key);
        return 1;
      }
      return 0;
    }

    method ExistsKey(key: Bytes, now: int) returns (n: int)
      requires Valid()
      modifies Repr()
      ensures Valid() && forall o :: o in Repr() ==> o in old(Repr()) || fresh(o)
      ensures (View(), n) == Keyspace.ExistsKey(old(View()), key, now)
      ensures L.ExistsTells(old(View()), key, now, View(), n)
    {
      hide L.ExistsTells, Server.Valid, Server.Parts, Server.View;
      L.ExistsMeans(View(), key, now);
      var str := GetString(key, now);
      if str.Some? { return 1; }
      var z := GetZset(key, now);
      if z.Some? { return 1; }
      var h := GetHash(key, now);
      if h.Some? { return 1; }
      return 0;
    }

    // ----- command handlers -----

    method CmdSet(argv: seq<Bytes>, now: int) returns (reply: Reply)
      requires Valid() && |argv| >= 3
      modifies Repr()
      ensures Valid() && forall o :: o in Repr() ==> o in old(Repr()) || fresh(o)
      ensures (View(), reply) == Keyspace.CmdSet(old(View()), argv, now)
    {
      hide Server.Valid, Server.Parts, Server.View, Keyspace.DeleteKey, Keyspace.SetKv, SetTtl;
      var _ := DeleteKey(argv[1], now);
      Alive();
      ghost var mid := View();
      var ttl := TtlOption(argv);
      assert Valid() && View() == mid;
      SetKv(argv[1], argv[2], ttl, now);
      return Ok;
    }

    method CmdGet(key: Bytes, now: int) returns (reply: Reply)
      requires Valid()
      modifies Repr()
      ensures Valid() && forall o :: o in Repr() ==> o in old(Repr()) || fresh(o)
      ensures (View(), reply) == Keyspace.CmdGet(old(View()), key, now)
      ensures L.GetTells(old(View()), key, now, View(), reply)
    {
      hide L.GetTells, Server.Valid, Server.Parts, Server.View;
      L.GetMeans(View(), key, now);
      var z := GetZset(key, now);
      if z.Some? { return WrongType; }
      var v := GetString(key, now);
      return if v.Some? then Text(v.value) else Null;
    }

    method CmdDel(keys: seq<Bytes>, now: int) returns (deleted: int)
      requires Valid()
      modifies Repr()
      ensures Valid() && forall o :: o in Repr() ==> o in old(Repr()) || fresh(o)
      ensures (View(), deleted) == DeleteKeys(old(View()), keys, now)
      ensures old(KeysInv(View())) ==> C.DelTells(old(View()), keys, now, View(), deleted)
    {
      hide C.DelTells, KeysInv, Server.Valid, Server.Parts, Server.View, Keyspace.DeleteKey;
      if KeysInv(View()) { C.KeysLost(View(), keys, now); }
      deleted := 0;
      for i := 0 to |keys|
        invariant Valid() && forall o :: o in Repr() ==> o in old(Repr()) || fresh(o)
        invariant (View(), deleted) == DeleteKeys(old(View()), keys[..i], now)
      {
        assert keys[..i + 1][..i] == keys[..i];
        var n := DeleteKey(keys[i], now);
        deleted := deleted + n;
      }
      assert keys[..|keys|] == keys;
    }

    method CmdExists(keys: seq<Bytes>, now: int) returns (count: int)
      requires Valid()
      modifies Repr()
      ensures Valid() && forall o :: o in Repr() ==> o in old(Repr()) || fresh(o)
      ensures (View(), count) == ExistKeys(old(View()), keys, now)
      ensures count == |C.Holding(old(View()), keys, now)| && L.SameServed(old(View()), View(), now)
    {
      hide C.Holding, L.SameServed, Server.Valid, Server.Parts, Server.View, Keyspace.ExistsKey;
      C.KeysExist(View(), keys, now);
      count := 0;
      for i := 0 to |keys|
        invariant Valid() && forall o :: o in Repr() ==> o in old(Repr()) || fresh(o)
        invariant (View(), count) == ExistKeys(old(View()), keys[..i], now)
      {
        assert keys[..i + 1][..i] == keys[..i];
        var n := ExistsKey(keys[i], now);
        count := count + n;
      }
      assert keys[..|keys|] == keys;
    }

    /** The common end of INCR, DECR and APPEND: the expiry is read again, and what is left of it is set again. */
    method Rewrite(key: Bytes, val: Bytes, now: int)
      requires Valid()
      modifies Repr()
      ensures Valid() && forall o :: o in Repr() ==> o in old(Repr()) || fresh(o)
      ensures View() == Keyspace.Rewrite(old(View()), key, val, now)
    {
      hide Server.Valid, Server.Parts, Server.View, Keyspace.SetKv;
      var expire := StringExpiry(key, now);
      var left := if expire > 0 && expire > now then expire - now else 0;
      SetKv(key, val, left, now);
    }

    method CmdIncr(key: Bytes, step: int, now: int) returns (reply: Reply)
      requires Valid()
      modifies Repr()
      ensures Valid() && forall o :: o in Repr() ==> o in old(Repr()) || fresh(o)
      ensures (View(), reply) == Keyspace.CmdIncr(old(View()), key, step, now)
      ensures C.IncrTells(old(View()), key, step, now, View(), reply)
    {
      hide C.IncrTells, Server.Valid, Server.Parts, Server.View, Keyspace.Rewrite, Atoi, DecInt;
      C.IncrMeans(View(), key, step, now);
      var z := GetZset(key, now);
      if z.Some? { return WrongType; }
      var curr := GetString(key, now);
      var val := 0;
      if curr.Some? { val := Atoi(curr.value); }
      val := val + step;
      Rewrite(key, DecInt(val), now);
      return Int(val);
    }

    method CmdAppend(key: Bytes, suffix: Bytes, now: int) returns (reply: Reply)
      requires Valid()
      modifies Repr()
      ensures Valid() && forall o :: o in Repr() ==> o in old(Repr()) || fresh(o)
      ensures (View(), reply) == Keyspace.CmdAppend(old(View()), key, suffix, now)
      ensures C.AppendTells(old(View()), key, suffix, now, View(), reply)
    {
      hide C.AppendTells, Server.Valid, Server.Parts, Server.View, Keyspace.Rewrite;
      C.AppendMeans(View(), key, suffix, now);
      var z := GetZset(key, now);
      if z.Some? { return WrongType; }
      var cur := GetString(key, now);
      var newval := suffix;
      if cur.Some? { newval := cur.value + suffix; }
      assert [] + suffix == suffix;
      Rewrite(key, newval, now);
      return Int(|newval|);
    }

    method CmdSetnx(key: Bytes, val: Bytes, now: int) returns (reply: Reply)
      requires Valid()
      modifies Repr()
      ensures Valid() && forall o :: o in Repr() ==> o in old(Repr()) || fresh(o)
      ensures (View(), reply) == Keyspace.CmdSetnx(old(View()), key, val, now)
    {
      hide Server.Valid, Server.Parts, Server.View, Keyspace.ExistsKey, Keyspace.SetKv;
      var n := ExistsKey(key, now);
      if n == 1 { return Int(0); }
      SetKv(key, val, 0, now);
      return Int(1);
    }

    method CmdTtl(key: Bytes, now: int) returns (reply: Reply)
      requires Valid()
      modifies Repr()
      ensures Valid() && forall o :: o in Repr() ==> o in old(Repr()) || fresh(o)
      ensures (View(), reply) == Keyspace.CmdTtl(old(View()), key, now)
      ensures L.TtlTells(old(View()), key, now, View(), reply)
    {
      hide L.TtlTells, Server.Valid, Server.Parts, Server.View;
      L.TtlMeans(View(), key, now);
      var v := GetString(key, now);
      if v.Some? {
        var expire := StringExpiry(key, now);
        return TtlReply(expire, now);
      }
      var z := GetZset(key, now);
      if z.Some? {
        var expire := ZsetExpiry(key, now);
        return TtlReply(expire, now);
      }
      return Int(-2);
    }

    method CmdExpire(key: Bytes, text: Bytes, now: int) returns (reply: Reply)
      requires Valid()
      modifies Repr()
      ensures Valid() && forall o :: o in Repr() ==> o in old(Repr()) || fresh(o)
      ensures (View(), reply) == Keyspace.CmdExpire(old(View()), key, text, now)
    {
      hide Server.Valid, Server.Parts, Server.View, Atoi, PrintedBulk, SetExpiry;
      ghost var before := View();
      ExpiryMisses(before.strings, key, Atoi(text), now);
      ExpiryMisses(before.zsets, key, Atoi(text), now);
      var ttl := Atoi(text);
      var res := SetStringExpiry(key, ttl, now);
      if res == 0 { res := SetZsetExpiry(key, ttl, now); }
      if res == 0 { return Int(0); }
      Schedule(key, now + ttl);
      LogLine("*3\r\n$6\r\nEXPIRE\r\n" + PrintedBulk(key) + PrintedBulk(text));
      return Int(1);
    }

    method CmdFlush() returns (reply: Reply)
      requires Valid()
      modifies Repr()
      ensures Valid() && forall o :: o in Repr() ==> o in old(Repr()) || fresh(o)
      ensures (View(), reply) == Keyspace.CmdFlush(old(View()))
      ensures L.FlushTells(old(View()), View())
    {
      hide L.FlushTells, Server.Valid, Server.Parts, Server.View;
      L.FlushMeans(View());
      ClearStrings();
      ClearZsets();
      LogLine("*1\r\n$7\r\nFLUSHDB\r\n\r\n");
      return Ok;
    }

    method CmdZadd(key: Bytes, text: Bytes, member: Bytes, now: int) returns (reply: Reply)
      requires Valid()
      modifies Repr()
      ensures Valid() && forall o :: o in Repr() ==> o in old(Repr()) || fresh(o)
      ensures (View(), reply) == Keyspace.CmdZadd(old(View()), key, text, member, now, atof)
      ensures L.ZaddTells(old(View()), key, member, atof(text), now, View(), reply)
    {
      hide L.ZaddTells, Server.Valid, Server.Parts, Server.View, ZaddRecord;
      L.ZaddMeans(View(), key, text, member, now, atof);
      var str := GetString(key, now);
      if str.Some? { return WrongType; }
      var score := atof(text);
      var v := GetZset(key, now);
      var z;
      if v.Some? {
        z := v.value;
      } else {
        z := CreateZset(key, now);
      }
      var added := AddMember(key, z, member, score, now);
      LogLine(ZaddRecord(key, text, member));
      return Int(added);
    }

    method CmdZrem(key: Bytes, members: seq<Bytes>, now: int) returns (reply: Reply)
      requires Valid()
      modifies Repr()
      ensures Valid() && forall o :: o in Repr() ==> o in old(Repr()) || fresh(o)
      ensures (View(), reply) == Keyspace.CmdZrem(old(View()), key, members, now)
      ensures Get(old(View()).strings, key, now).None? ==>
                reply.Int? && C.ZremTells(old(View()), key, members, now, View(), reply.n)
    {
      hide C.ZremTells, Server.Valid, Server.Parts, Server.View, ZremRecords;
      if Get(View().strings, key, now).None? { C.ZremMeans(View(), key, members, now); }
      var str := GetString(key, now);
      if str.Some? { return WrongType; }
      var v := GetZset(key, now);
      if v.None? { return Int(0); }
      var removed := RemoveAll(key, v.value, members, now);
      if removed > 0 {
        LogZrem(key, members);
      }
      return Int(removed);
    }

    method RemoveAll(ghost key: Bytes, z: Z.ZSet, members: seq<Bytes>, now: int) returns (removed: int)
      requires Valid() && zsets.Has(key, z) && key in View().zsets
      modifies Repr()
      ensures Valid() && forall o :: o in Repr() ==> o in old(Repr()) || fresh(o)
      ensures var (scores, n) := RemoveMembers(old(View().zsets[key]).val, members);
              View() == WithScores(old(View()), key, scores) && removed == n
    {
      hide Server.Valid, Server.Parts, Server.View, WithScores;
      ghost var start := View();
      ghost var scores := start.zsets[key].val;
      ScoresAgain(start, key, scores, scores);
      removed := 0;
      for i := 0 to |members|
        invariant Valid() && (forall o :: o in Repr() ==> o in old(Repr()) || fresh(o))
        invariant zsets.Has(key, z) && key in View().zsets && View() == WithScores(start, key, scores)
        invariant (scores, removed) == RemoveMembers(start.zsets[key].val, members[..i])
      {
        assert members[..i + 1][..i] == members[..i];
        ScoresAgain(start, key, scores, scores - {members[i]});
        var n := RemoveMember(key, z, members[i], now);
        removed, scores := removed + n, scores - {members[i]};
      }
      assert members[..|members|] == members;
    }

    method CmdHset(argv: seq<Bytes>, now: int) returns (reply: Reply)
      requires Valid() && |argv| >= 4 && |argv| % 2 == 0
      modifies Repr()
      ensures Valid() && forall o :: o in Repr() ==> o in old(Repr()) || fresh(o)
      ensures (View(), reply) == Keyspace.CmdHset(old(View()), argv, now)
      ensures C.HsetTells(old(View()), argv[1], argv[2..], now, View(), reply)
    {
      hide C.HsetTells, Server.Valid, Server.Parts, Server.View, Encode;
      C.HsetMeans(View(), argv, now);
      var key := argv[1];
      var v := GetHash(key, now);
      var h;
      if v.Some? {
        h := v.value;
      } else {
        h := CreateHash(key, now);
      }
      var added := PutFields(key, h, argv[2..], now);
      LogHset(argv);
      return Int(added);
    }

    /** Stores field and value pairs from left to right and counts the new fields. */
    method PutFields(ghost key: Bytes, h: D.Dict<Bytes>, pairs: seq<Bytes>, now: int) returns (added: int)
      requires Valid() && |pairs| % 2 == 0 && hashes.Has(key, h) && key in View().hashes
      modifies Repr()
      ensures Valid() && forall o :: o in Repr() ==> o in old(Repr()) || fresh(o)
      ensures var (fields, n) := SetFields(old(View().hashes[key]).val, pairs);
              View() == WithFields(old(View()), key, fields) && added == n
    {
      hide Server.Valid, Server.Parts, Server.View, WithFields;
      ghost var start := View();
      ghost var fields := start.hashes[key].val;
      FieldsAgain(start, key, fields, fields);
      added := 0;
      var i := 0;
      while i < |pairs|
        invariant 0 <= i <= |pairs| && i % 2 == 0
        invariant Valid() && (forall o :: o in Repr() ==> o in old(Repr()) || fresh(o))
        invariant hashes.Has(key, h) && key in View().hashes && View() == WithFields(start, key, fields)
        invariant (fields, added) == SetFields(start.hashes[key].val, pairs[..i])
      {
        assert pairs[..i + 2][..i] == pairs[..i];
        FieldsAgain(start, key, fields, fields[pairs[i] := pairs[i + 1]]);
        var has := HasField(key, h, pairs[i], now);
        PutField(key, h, pairs[i], pairs[i + 1], now);
        if !has { added := added + 1; }
        fields := fields[pairs[i] := pairs[i + 1]];
        i := i + 2;
      }
      assert pairs[..|pairs|] == pairs;
    }

    // ----- reads of sorted sets and hashes -----

    /** The lookups the sorted-set reads share. */
    method FindZset(key: Bytes, now: int) returns (wrongType: bool, z: Option<Z.ZSet>)
      requires Valid()
      modifies Repr()
      ensures Valid() && forall o :: o in Repr() ==> o in old(Repr()) || fresh(o)
      ensures var (s', v) := Keyspace.ReadZset(old(View()), key, now);
              && View() == s' && (wrongType <==> v.None?)
              && (!wrongType ==> (z.Some? <==> v.value.Some?))
              && (!wrongType && z.Some? ==>
                    zsets.Has(key, z.value) && key in View().zsets && View().zsets[key].val == v.value.value)
    {
      hide Server.Valid, Server.Parts, Server.View;
      var str := GetString(key, now);
      if str.Some? { return true, None; }
      z := GetZset(key, now);
      return false, z;
    }

    method ScoreOf(ghost key: Bytes, z: Z.ZSet, member: Bytes, now: int) returns (reply: Reply)
      requires Valid() && zsets.Has(key, z) && key in View().zsets
      modifies Repr()
      ensures Valid() && forall o :: o in Repr() ==> o in old(Repr()) || fresh(o)
      ensures View() == old(View()) && reply == ScoreReply(Some(View().zsets[key].val), member)
    {
      hide D.Dict.Valid, Zsets.Valid, Hashes.Valid, Heap.ExpHeap.Valid, Heap.Bag, DictTable.OtherStep, DictTable.PutStep,
        Zsets.Repr, Hashes.Repr, Purge, Get, Put, DictSpec.GetExpiry, ScoreReply;
      Alive();
      reply := zsets.Score(key, z, member, now);
    }

    method RankOf(ghost key: Bytes, z: Z.ZSet, member: Bytes, now: int) returns (reply: Reply)
      requires Valid() && zsets.Has(key, z) && key in View().zsets
      modifies Repr()
      ensures Valid() && forall o :: o in Repr() ==> o in old(Repr()) || fresh(o)
      ensures View() == old(View()) && reply == RankReply(Some(View().zsets[key].val), member)
    {
      hide D.Dict.Valid, Zsets.Valid, Hashes.Valid, Heap.ExpHeap.Valid, Heap.Bag, DictTable.OtherStep, DictTable.PutStep,
        Zsets.Repr, Hashes.Repr, Purge, Get, Put, DictSpec.GetExpiry, RankReply;
      Alive();
      reply := zsets.Rank(key, z, member, now);
    }

    method RangeOf(ghost key: Bytes, z: Z.ZSet, start: int, end: int) returns (reply: Reply)
      requires Valid() && zsets.Has(key, z) && key in View().zsets
      modifies Repr()
      ensures Valid() && forall o :: o in Repr() ==> o in old(Repr()) || fresh(o)
      ensures View() == old(View()) && reply == RangeReply(Some(View().zsets[key].val), start, end)
    {
      hide D.Dict.Valid, Zsets.Valid, Hashes.Valid, Heap.ExpHeap.Valid, Heap.Bag, DictTable.OtherStep, DictTable.PutStep,
        Zsets.Repr, Hashes.Repr, Purge, Get, Put, DictSpec.GetExpiry, RangeReply;
      Alive();
      reply := zsets.Range(key, z, start, end);
    }

    method CardOf(ghost key: Bytes, z: Z.ZSet) returns (reply: Reply)
      requires Valid() && zsets.Has(key, z) && key in View().zsets
      modifies Repr()
      ensures Valid() && forall o :: o in Repr() ==> o in old(Repr()) || fresh(o)
      ensures View() == old(View()) && reply == CardReply(Some(View().zsets[key].val))
    {
      hide D.Dict.Valid, Zsets.Valid, Hashes.Valid, Heap.ExpHeap.Valid, Heap.Bag, DictTable.OtherStep, DictTable.PutStep,
        Zsets.Repr, Hashes.Repr, Purge, Get, Put, DictSpec.GetExpiry, CardReply;
      Alive();
      reply := zsets.Card(key, z);
    }

    method CmdZread(cmd: Bytes, argv: seq<Bytes>, now: int) returns (reply: Reply)
      requires Valid() && |argv| >= if cmd == "ZRANGE" then 4 else if cmd == "ZCARD" then 2 else 3
      modifies Repr()
      ensures Valid() && forall o :: o in Repr() ==> o in old(Repr()) || fresh(o)
      ensures (View(), reply) == Keyspace.CmdZread(old(View()), cmd, argv, now)
      ensures C.ZreadTells(old(View()), cmd, argv, now, View(), reply)
    {
      hide C.ZreadTells, Server.Valid, Server.Parts, Server.View, Keyspace.ReadZset,
           ScoreReply, RankReply, RangeReply, CardReply, Atoi;
      C.ZreadMeans(View(), cmd, argv, now);
      var wrongType, z := FindZset(argv[1], now);
      if wrongType { return WrongType; }
      if z.None? {
        C.NoMembers(Keyspace.ReadZset(old(View()), argv[1], now).1.value, if |argv| > 2 then argv[2] else "",
               if |argv| > 2 then Atoi(argv[2]) else 0, if |argv| > 3 then Atoi(argv[3]) else 0);
      }
      if cmd == "ZSCORE" {
        if z.None? { reply := Null; } else { reply := ScoreOf(argv[1], z.value, argv[2], now); }
      } else if cmd == "ZRANGE" {
        if z.None? { reply := Items(0, []); }
        else { reply := RangeOf(argv[1], z.value, Atoi(argv[2]), Atoi(argv[3])); }
      } else if cmd == "ZCARD" {
        if z.None? { reply := Int(0); } else { reply := CardOf(argv[1], z.value); }
      } else {
        if z.None? { reply := Null; } else { reply := RankOf(argv[1], z.value, argv[2], now); }
      }
    }

    method ListingOf(ghost key: Bytes, h: D.Dict<Bytes>) returns (reply: Reply)
      requires Valid() && hashes.Has(key, h) && key in View().hashes
      modifies Repr()
      ensures Valid() && forall o :: o in Repr() ==> o in old(Repr()) || fresh(o)
      ensures View() == old(View()) && Answers(reply, Hash(View().hashes[key].val))
    {
      hide D.Dict.Valid, Zsets.Valid, Hashes.Valid, Heap.ExpHeap.Valid, Heap.Bag, DictTable.OtherStep, DictTable.PutStep,
        Zsets.Repr, Hashes.Repr, Purge, Get, Put, DictSpec.GetExpiry, Answers;
      Alive();
      reply := hashes.Listing(key, h);
    }

    method CmdHgetall(key: Bytes, now: int) returns (reply: Reply)
      requires Valid()
      modifies Repr()
      ensures Valid() && forall o :: o in Repr() ==> o in old(Repr()) || fresh(o)
      ensures var (s', spec) := Keyspace.CmdHgetall(old(View()), key, now); View() == s' && Answers(reply, spec)
    {
      hide Server.Valid, Server.Parts, Server.View, Answers;
      EmptyListing();
      var v := GetHash(key, now);
      if v.None? { return Listing("*0\r\n"); }
      reply := ListingOf(key, v.value);
    }

    // ----- dispatch -----

    /** Comparisons against the upper-cased first argument, up to its first NUL. */
    method HandleCommand(argv: seq<Bytes>, now: int) returns (reply: Reply)
      requires Valid()
      modifies Repr()
      ensures Valid() && forall o :: o in Repr() ==> o in old(Repr()) || fresh(o)
      ensures var (s', spec) := Exec(old(View()), argv, now, atof); View() == s' && Answers(reply, spec)
    {
      hide Server.Valid, Server.Parts, Server.View, CStr, Upper, DeleteKeys, ExistKeys, Keyspace.CmdSet, Keyspace.CmdGet,
           Keyspace.CmdIncr, Keyspace.CmdTtl, Keyspace.CmdExpire, Keyspace.CmdFlush, Keyspace.CmdZadd, Keyspace.CmdZread,
           Keyspace.CmdAppend, Keyspace.CmdSetnx, Keyspace.CmdZrem, Keyspace.CmdHset, Keyspace.CmdHgetall;
      ghost var start := View();
      if argv == [] { return Other; }
      NoHashes(start, argv, now, atof);
      Alive();
      var name := ToUpper(argv[0]);
      var cmd := CStr(name);
      var n := |argv|;
      if cmd == "SET" {
        if n < 3 { return WrongArgs; }
        reply := CmdSet(argv, now);
      } else if cmd == "GET" {
        if n < 2 { return WrongArgs; }
        reply := CmdGet(argv[1], now);
      } else if cmd == "DEL" {
        if n < 2 { return WrongArgs; }
        var d := CmdDel(argv[1..], now);
        reply := Int(d);
      } else if cmd == "EXISTS" {
        if n < 2 { return WrongArgs; }
        var d := CmdExists(argv[1..], now);
        reply := Int(d);
      } else if cmd == "INCR" || cmd == "DECR" {
        if n < 2 { return WrongArgs; }
        reply := CmdIncr(argv[1], if cmd == "INCR" then 1 else -1, now);
      } else if cmd == "TTL" {
        if n < 2 { return WrongArgs; }
        reply := CmdTtl(argv[1], now);
      } else if cmd == "EXPIRE" {
        if n < 3 { return WrongArgs; }
        reply := CmdExpire(argv[1], argv[2], now);
      } else if cmd == "FLUSHDB" {
        reply := CmdFlush();
      } else if cmd == "ZADD" {
        if n < 4 { return WrongArgs; }
        reply := CmdZadd(argv[1], argv[2], argv[3], now);
      } else if cmd == "ZSCORE" || cmd == "ZRANK" {
        if n < 3 { return WrongArgs; }
        reply := CmdZread(cmd, argv, now);
      } else if cmd == "ZRANGE" {
        if n < 4 { return WrongArgs; }
        reply := CmdZread(cmd, argv, now);
      } else if cmd == "ZCARD" {
        if n < 2 { return WrongArgs; }
        reply := CmdZread(cmd, argv, now);
      } else if cmd == "APPEND" {
        if n < 3 { return WrongArgs; }
        reply := CmdAppend(argv[1], argv[2], now);
      } else if cmd == "SETNX" {
        if n < 3 { return WrongArgs; }
        reply := CmdSetnx(argv[1], argv[2], now);
      } else if cmd == "ZREM" {
        if n < 3 { return WrongArgs; }
        reply := CmdZrem(argv[1], argv[2..], now);
      } else if cmd == "HSET" {
        if n < 4 || (n - 2) % 2 != 0 { return WrongArgs; }
        reply := CmdHset(argv, now);
      } else if cmd == "HGETALL" {
        if n < 2 { return WrongArgs; }
        reply := CmdHgetall(argv[1], now);
      } else {
        reply := Other;
      }
    }

    // ----- the timer callback -----

    /** The earliest deadline. */
    method NextDeadline() returns (top: Option<Heap.ExpEntry>)
      requires Valid()
      ensures Valid() && View() == old(View())
      ensures top.None? <==> View().heap == multiset{}
      ensures top.Some? ==> Least(top.value, View().heap)
    {
      hide D.Dict.Valid, Zsets.Valid, Hashes.Valid, Heap.ExpHeap.Valid, Heap.Bag, Zsets.Repr, Hashes.Repr, Heap.Ordered;
      Alive();
      top := heap.Peek();
    }

    /** The loop over the heap, then the sampling: what Ticked describes, with the entries popped as its witness. Hence only
        keys whose deadline has come are deleted, and unless the call stops on its budget it leaves none of those. */
    method ServerCron(now: int) returns (expired: int, ghost popped: seq<Heap.ExpEntry>)
      requires Valid()
      modifies Repr()
      ensures Valid() && forall o :: o in Repr() ==> o in old(Repr()) || fresh(o)
      ensures Ticked(old(View()), popped, now, View()) && expired == PopAll(old(View()), popped, now).1
      ensures old(KeysInv(View())) ==> KeysInv(View()) && CronSafe(old(View()), View(), now)
      ensures old(KeysInv(View())) && expired < 20 ==> NoneDue(View().strings, now) && NoneDue(View().zsets, now)
    {
      hide Server.Valid, Server.Parts, Server.View, KeysInv, CronSafe, NoneDue, PopAll, Taken, Stops, Sampled;
      ghost var start := View();
      expired, popped := DropDue(now);
      SampleStrings(now);
      SampleZsets(now);
      if KeysInv(start) { TickKeeps(start, popped, now, View()); }
    }

    method DropDue(now: int) returns (expired: int, ghost popped: seq<Heap.ExpEntry>)
      requires Valid()
      modifies Repr()
      ensures Valid() && forall o :: o in Repr() ==> o in old(Repr()) || fresh(o)
      ensures Taken(old(View()), popped, now) && (View(), expired) == PopAll(old(View()), popped, now)
      ensures Stops(View(), expired, now)
    {
      hide Server.Valid, Server.Parts, Server.View, PopDeadline, PopAll, Taken, Least, Stops, KeysInv, CronSafe,
          LastKeys, DueKeys;
      ghost var start := View();
      expired, popped := 0, [];
      TakenNone(start, now);
      var more := true;
      while more
        invariant Valid() && forall o :: o in Repr() ==> o in old(Repr()) || fresh(o)
        invariant Taken(start, popped, now) && (View(), expired) == PopAll(start, popped, now)
        invariant !more ==> Stops(View(), expired, now)
        decreases more, |View().heap|
      {
        var top := NextDeadline();
        LeastStops(top, View(), expired, now);
        if top.None? || expired >= BUDGET || top.value.expire > now {
          more := false;
        } else {
          ghost var before := View();
          var e := Unschedule();
          SameDeadline(top.value, e, before, now);
          var n := CronDelete(e, now, before);
          TakenMore(start, popped, e, now);
          expired, popped := expired + n, popped + [e];
        }
      }
    }

    /** What serverCron does with the entry it has popped. */
    method CronDelete(e: Heap.ExpEntry, now: int, ghost before: State) returns (n: int)
      requires Valid() && View() == before.(heap := before.heap - multiset{e})
      modifies Repr()
      ensures Valid() && forall o :: o in Repr() ==> o in old(Repr()) || fresh(o)
      ensures (View(), n) == PopDeadline(before, e, now)
      ensures KeysInv(before) && e in before.heap && e.expire <= now ==>
                && n == (if e.key in LastKeys(before, now) then 1 else 0)
                && DueKeys(View(), now) == DueKeys(before, now) - {e.key}
                && KeysInv(View()) && CronSafe(before, View(), now)
    {
      hide Server.Valid, Server.Parts, Server.View, KeysInv, CronSafe, LastKeys, DueKeys;
      PopMeans(before, e, now);
      n := 0;
      var str := GetString(e.key, now);
      if str.Some? {
        var exp := StringExpiry(e.key, now);
        if exp > 0 && exp <= now {
          DropString(e.key);
          n := 1;
        }
        return;
      }
      var z := GetZset(e.key, now);
      if z.Some? {
        var exp := ZsetExpiry(e.key, now);
        if exp > 0 && exp <= now {
          DropZset(e.key);
          n := 1;
        }
      }
    }

    // ----- loading the log -----

    /** Executes the command at the head of the text, if it is complete. */
    method LoadOne(text: Bytes, now: int) returns (consumed: nat)
      requires Valid()
      modifies Repr()
      ensures Valid() && forall o :: o in Repr() ==> o in old(Repr()) || fresh(o)
      ensures var r := ParseArray(text);
              if r.Parsed? then consumed == r.consumed > 0 && View() == Exec(old(View()), r.argv, now, atof).0
              else consumed == 0 && View() == old(View())
    {
      hide Server.Valid, Server.Parts, Server.View, Exec, Answers;
      Alive();
      var r := RespParseArray(text);
      if !r.Parsed? { return 0; }
      var _ := HandleCommand(r.argv, now);
      return r.consumed;
    }

    /** Executes the complete commands of the file in order and stops at the first that is not complete. */
    method LoadAof(content: Bytes, clock: nat -> int)
      requires Valid()
      modifies Repr()
      ensures Valid() && forall o :: o in Repr() ==> o in old(Repr()) || fresh(o)
      ensures View() == Aof.Replay(old(View()), Aof.Commands(content), clock, 0, atof)
    {
      hide Server.Valid, Server.Parts, Server.View, Exec, ParseArray, Answers, Aof.Replay, Aof.Commands;
      var pos, i := 0, 0;
      assert content[0..] == content;
      while pos < |content|
        invariant 0 <= pos <= |content| && 0 <= i
        invariant Valid() && forall o :: o in Repr() ==> o in old(Repr()) || fresh(o)
        invariant Aof.Replay(old(View()), Aof.Commands(content), clock, 0, atof)
               == Aof.Replay(View(), Aof.Commands(content[pos..]), clock, i, atof)
      {
        ReplayStep(View(), content[pos..], clock, i, atof);
        var consumed := LoadOne(content[pos..], clock(i));
        if consumed == 0 { return; }
        SuffixAgain(content, pos, consumed);
        pos, i := pos + consumed, i + 1;
      }
      assert content[pos..] == [];
      ReplayStep(View(), content[pos..], clock, i, atof);
    }

    // ----- the snapshot -----

    /** What the records of a snapshot are loaded into. */
    ghost function Contents(): Rdb.Db
      requires Valid()
      reads this, Parts()
    {
      Rdb.Db(View().strings, View().zsets, View().hashes)
    }

    /** rdb_load into the dictionaries, by dict_put and zset_add. */
    method LoadRdb(file: Bytes, now: int) returns (status: LoadStatus)
      requires Valid()
      modifies Repr()
      ensures Valid() && forall o :: o in Repr() ==> o in old(Repr()) || fresh(o)
      ensures match Rdb.ReadInto(file, old(Contents()))
              case Refused => status == Failed && Contents() == old(Contents())
              case Undefined => status == Unknown
              case Loaded(db) => status == Success && Contents() == db
      ensures View().heap == old(View()).heap && View().aof == old(View()).aof
    {
      hide Server.Valid, Server.Parts, Server.View, Rdb.ReadString, Rdb.FromLE, Rdb.FromBE, Server.Contents, Rdb.ReadRecord;
      if |file| < 9 || file[..9] != Rdb.MAGIC { return Failed; }
      var fp := file[9..];
      while fp != []
        invariant Valid() && forall o :: o in Repr() ==> o in old(Repr()) || fresh(o)
        invariant Rdb.ReadInto(file, old(Contents())) == Rdb.ReadRecords(fp, Contents())
        invariant View().heap == old(View()).heap && View().aof == old(View()).aof
        decreases |fp|
      {
        var kind := fp[0] as int;
        if kind > 2 { OtherKinds(fp, Contents()); }
        var ok := true;
        if kind == 0 {
          fp := LoadString(fp, now);
        } else if kind == 1 {
          ok, fp := LoadZset(fp, now);
        } else if kind == 2 {
          ok, fp := LoadHash(fp, now);
        } else {
          break;
        }
        if !ok { return Unknown; }
      }
      return Success;
    }

    method LoadString(record: Bytes, now: int) returns (rest: Bytes)
      requires Valid() && record != [] && record[0] as int == 0
      modifies Repr()
      ensures Valid() && forall o :: o in Repr() ==> o in old(Repr()) || fresh(o)
      ensures Rdb.ReadRecord(record, old(Contents())) == Rdb.Next(Contents(), rest)
      ensures View().heap == old(View()).heap && View().aof == old(View()).aof
    {
      hide Server.Valid, Server.Parts, Server.View, Rdb.ReadString, Rdb.FromLE, Rdb.FromBE;
      var (key, fp) := Rdb.ReadString(record[1..]);
      var (val, fp') := Rdb.ReadString(fp);
      rest := fp';
      if key.Some? && val.Some? { PutString(key.value, val.value, 0, now); }
    }

    /** A count that cannot be read is used all the same, and so is a key. */
    method LoadZset(record: Bytes, now: int) returns (ok: bool, rest: Bytes)
      requires Valid() && record != [] && record[0] as int == 1
      modifies Repr()
      ensures Valid() && forall o :: o in Repr() ==> o in old(Repr()) || fresh(o)
      ensures Rdb.ReadRecord(record, old(Contents())) == if ok then Rdb.Next(Contents(), rest) else Rdb.Bad
      ensures View().heap == old(View()).heap && View().aof == old(View()).aof
    {
      hide Server.Valid, Server.Parts, Server.View, Rdb.ReadString, Rdb.FromLE, Rdb.FromBE, Rdb.ReadMembers;
      var (key, fp) := Rdb.ReadString(record[1..]);
      if key.None? || |fp| < 4 { return false, fp; }
      var z := CreateZset(key.value, now);
      rest := LoadMembers(key.value, z, fp[4..], Rdb.FromBE(fp[..4]), now);
      return true, rest;
    }

    method LoadMembers(ghost key: Bytes, z: Z.ZSet, start: Bytes, count: nat, now: int) returns (fp: Bytes)
      requires Valid() && zsets.Has(key, z) && key in View().zsets
      modifies Repr()
      ensures Valid() && forall o :: o in Repr() ==> o in old(Repr()) || fresh(o)
      ensures var (scores, rest) := Rdb.ReadMembers(start, count, old(View().zsets[key]).val);
              View() == WithScores(old(View()), key, scores) && fp == rest
    {
      hide Server.Valid, Server.Parts, Server.View, Rdb.ReadString, Rdb.FromLE, Rdb.FromPattern, WithScores;
      ghost var before := View();
      ghost var scores := before.zsets[key].val;
      ScoresAgain(before, key, scores, scores);
      fp := start;
      for i := 0 to count
        invariant Valid() && (forall o :: o in Repr() ==> o in old(Repr()) || fresh(o))
        invariant zsets.Has(key, z) && key in View().zsets && View() == WithScores(before, key, scores)
        invariant Rdb.ReadMembers(start, count, before.zsets[key].val) == Rdb.ReadMembers(fp, count - i, scores)
      {
        var score := if |fp| < 8 then [] else fp[..8];
        var (member, rest) := Rdb.ReadString(if |fp| < 8 then [] else fp[8..]);
        fp := rest;
        if member.Some? {
          var n := Rdb.FromPattern(Rdb.FromLE(score));
          ScoresAgain(before, key, scores, scores[member.value := n]);
          var _ := AddMember(key, z, member.value, n, now);
          scores := scores[member.value := n];
        }
      }
    }

    method LoadHash(record: Bytes, now: int) returns (ok: bool, rest: Bytes)
      requires Valid() && record != [] && record[0] as int == 2
      modifies Repr()
      ensures Valid() && forall o :: o in Repr() ==> o in old(Repr()) || fresh(o)
      ensures Rdb.ReadRecord(record, old(Contents())) == if ok then Rdb.Next(Contents(), rest) else Rdb.Bad
      ensures View().heap == old(View()).heap && View().aof == old(View()).aof
    {
      hide Server.Valid, Server.Parts, Server.View, Rdb.ReadString, Rdb.FromLE, Rdb.FromBE, Rdb.ReadFields;
      var (key, fp) := Rdb.ReadString(record[1..]);
      if key.None? || |fp| < 4 { return false, fp; }
      var h := CreateHash(key.value, now);
      rest := LoadFields(key.value, h, fp[4..], Rdb.FromLE(fp[..4]), now);
      return true, rest;
    }

    method LoadFields(ghost key: Bytes, h: D.Dict<Bytes>, start: Bytes, count: nat, now: int) returns (fp: Bytes)
      requires Valid() && hashes.Has(key, h) && key in View().hashes
      modifies Repr()
      ensures Valid() && forall o :: o in Repr() ==> o in old(Repr()) || fresh(o)
      ensures var (fields, rest) := Rdb.ReadFields(start, count, old(View().hashes[key]).val);
              View() == WithFields(old(View()), key, fields) && fp == rest
    {
      hide Server.Valid, Server.Parts, Server.View, Rdb.ReadString, WithFields;
      ghost var before := View();
      ghost var fields := before.hashes[key].val;
      FieldsAgain(before, key, fields, fields);
      fp := start;
      for i := 0 to count
        invariant Valid() && (forall o :: o in Repr() ==> o in old(Repr()) || fresh(o))
        invariant hashes.Has(key, h) && key in View().hashes && View() == WithFields(before, key, fields)
        invariant Rdb.ReadFields(start, count, before.hashes[key].val) == Rdb.ReadFields(fp, count - i, fields)
      {
        var (f, afterField) := Rdb.ReadString(fp);
        var (v, rest) := Rdb.ReadString(afterField);
        fp := rest;
        if f.Some? && v.Some? {
          FieldsAgain(before, key, fields, fields[f.value := v.value]);
          PutField(key, h, f.value, v.value, now);
          fields := fields[f.value := v.value];
        }
      }
    }

    /** rdb_save: what ReadFile loads again from it is what had not expired, without the deadlines, and every hash. */
    method SaveRdb(now: int) returns (file: Bytes)
      requires Valid()
      ensures Valid() && View() == old(View())
      ensures Small(View().strings, View().zsets, View().hashes) ==>
                Rdb.ReadFile(file) == Rdb.Loaded(Rdb.Db(Survivors(View().strings, now), Survivors(View().zsets, now),
                                                        Forever(View().hashes)))
    {
      hide D.Dict.Valid, Heap.ExpHeap.Valid, Heap.Bag, Zsets.Repr, Hashes.Repr, ZObjects, HObjects, Small, Rdb.ReadFile,
           Survivors, Forever, ZValues, HValues;
      Alive();
      ZContents(zsets.dict.model, zsets.foot, zsets.view);
      HContents(hashes.dict.model, hashes.foot, hashes.view, strings.model, zsets.view);
      file := RdbSave.RdbSave(strings, zsets.dict, hashes.dict, now);
    }
  }

  /** The dictionaries and the heap of a server that starts. */
  method Start(atof: Bytes -> Score) returns (server: Server)
    ensures server.Valid() && fresh(server.Repr()) && server.View() == Empty && server.atof == atof
  {
    hide D.Dict.Valid, Zsets.Valid, Hashes.Valid, Heap.ExpHeap.Valid, Heap.Bag, D.Dict.Repr, Zsets.Repr, Hashes.Repr,
        Server.Repr, Server.Parts, Server.Valid;
    var strings := new D.Dict<Bytes>();
    strings.Alive();
    ghost var s := strings.Repr();
    var zsets := new Zsets();
    zsets.Alive();
    ghost var z := zsets.Repr();
    var hashes := new Hashes();
    hashes.Alive();
    ghost var h := hashes.Repr();
    var heap := new Heap.ExpHeap(256);
    assert strings.Repr() == s && zsets.Repr() == z && hashes.Repr() == h && s !! z && s !! h && z !! h;
    assert fresh(s) && fresh(z) && fresh(h) && fresh({heap, heap.entries});
    server := new Server(strings, zsets, hashes, heap, atof);
  }

  method TtlOption(argv: seq<Bytes>) returns (ttl: int)
    requires |argv| >= 3
    ensures ttl == SetTtl(argv)
  {
    hide CStr, Upper, Atoi;
    ttl := 0;
    if |argv| >= 5 {
      var option := ToUpper(argv[3]);
      if CStr(option) == "EX" { ttl := Atoi(argv[4]); }
    }
  }

  method ToUpper(s: Bytes) returns (r: Bytes)
    ensures r == Upper(s)
  {
    r := [];
    for i := 0 to |s|
      invariant Upper(s) == r + Upper(s[i..])
    {
      r := r + [UpperChar(s[i])];
    }
  }

  lemma HsetName()
    ensures Bulk("HSET") == "$4\r\nHSET\r\n"
  {
  }

  lemma HsetHead(argv: seq<Bytes>, count: Bytes)
    requires |argv| >= 1 && count == "*" + Dec(|argv|) + CRLF
    ensures Encode(["HSET"] + argv[1..]) == count + Bulk("HSET") + Bulks(argv[1..])
  {
    hide Encode, Bulks, Bulk, Dec;
    EncodeCons("HSET", argv[1..]);
  }

  lemma {:induction false} EncodeCons(first: Bytes, rest: seq<Bytes>)
    ensures Encode([first] + rest) == "*" + Dec(|rest| + 1) + CRLF + Bulk(first) + Bulks(rest)
  {
    BulksCons(first, rest);
    hide Bulks, Bulk, Dec;
    Associate("*" + Dec(|rest| + 1) + CRLF, Bulk(first), Bulks(rest));
  }

  lemma BulksCons(first: Bytes, rest: seq<Bytes>)
    ensures Bulks([first] + rest) == Bulk(first) + Bulks(rest)
  {
    hide Bulk;
    assert ([first] + rest)[1..] == rest;
  }

  lemma GlueTwo(log: Bytes, a: Bytes, b: Bytes, c: Bytes)
    ensures log + (a + b) + c == log + (a + (b + c))
  {
  }

  lemma Glue(log: Bytes, a: Bytes, b: Bytes, c: Bytes)
    ensures log + a + b + c == log + (a + b + c)
    ensures log + a + b == log + (a + b)
  {
  }

  lemma ExpiryMisses<V>(m: Store<V>, key: Bytes, ttl: int, now: int)
    ensures key !in m ==> SetExpiry(m, key, ttl, now) == m
  {
  }

  lemma EmptyListing()
    ensures Answers(Listing("*0\r\n"), Hash(map[]))
  {
    EmptyArray();
    hide Encode;
    var es: seq<DictTable.Entry<Bytes>> := [];
    assert Lists(es, AsStore(map[])) && Walk.Fields(es) == [];
  }

  /** Only HGETALL answers with a hash. */
  lemma NoHashes(s: State, argv: seq<Bytes>, now: int, atof: Bytes -> Score)
    requires argv != []
    ensures CStr(Upper(argv[0])) != "HGETALL" ==> !Exec(s, argv, now, atof).1.Hash?
  {
    hide CStr, Upper;
  }

  lemma LeastStops(top: Option<Heap.ExpEntry>, s: State, n: int, now: int)
    requires top.None? <==> s.heap == multiset{}
    requires top.Some? ==> Least(top.value, s.heap)
    ensures Stops(s, n, now) <==> top.None? || n >= BUDGET || top.value.expire > now
  {
  }

  lemma SameDeadline(a: Heap.ExpEntry, b: Heap.ExpEntry, s: State, now: int)
    requires Least(a, s.heap) && Least(b, s.heap)
    ensures a.expire == b.expire && |PopDeadline(s, b, now).0.heap| < |s.heap|
  {
  }

  lemma SuffixAgain(s: Bytes, i: nat, j: nat)
    requires i <= |s| && j <= |s| - i
    ensures s[i..][j..] == s[i + j..]
  {
  }

  /** One turn of the loader. */
  lemma ReplayStep(s: State, content: Bytes, clock: nat -> int, i: nat, atof: Bytes -> Score)
    ensures var r := ParseArray(content); var rest := Aof.Replay(s, Aof.Commands(content), clock, i, atof);
            if content != [] && r.Parsed? then
              rest == Aof.Replay(Exec(s, r.argv, clock(i), atof).0, Aof.Commands(content[r.consumed..]), clock, i + 1, atof)
            else rest == s
  {
    hide Exec, ParseArray;
    var r := ParseArray(content);
    if content == [] {
      Aof.EmptyHasNoCommand();
    } else if r.Parsed? {
      var rest := Aof.Commands(content[r.consumed..]);
      assert ([r.argv] + rest)[1..] == rest;
    }
  }

  /** Any other kind of record ends the file. */
  lemma OtherKinds(fp: Bytes, db: Rdb.Db)
    requires fp != [] && fp[0] as int > 2
    ensures Rdb.ReadRecord(fp, db) == Rdb.End
  {
  }

  lemma ZContents(m: Store<Z.ZSet>, foot: Foot, view: Store<Scores>)
    requires ZObjects(m, foot, view)
    ensures (forall k :: k in m ==> m[k].val.Valid()) && ZValues(m) == view
  {
    hide Z.ZSet.Valid, Z.Scores;
  }

  lemma HContents(m: Store<D.Dict<Bytes>>, foot: Foot, view: Store<Fields>, strings: Store<Bytes>, zsets: Store<Scores>)
    requires HObjects(m, foot, view)
    ensures (forall k :: k in m ==> m[k].val.Valid()) && Forever(HValues(m)) == Forever(view)
    ensures Small(strings, zsets, view) ==> Small(strings, zsets, HValues(m))
  {
    hide D.Dict.Valid;
    forall k | k in m ensures FieldsOf(m[k].val.model) == view[k].val {
      FieldsBack(view[k].val);
    }
  }

  lemma FieldsBack(fields: Fields)
    ensures FieldsOf(AsStore(fields)) == fields
  {
  }

  /** One popped deadline: its key goes if it is due, and counts if this is its last second. */
  lemma PopMeans(s: State, e: Heap.ExpEntry, now: int)
    ensures KeysInv(s) && e in s.heap && e.expire <= now ==>
              var (s', n) := PopDeadline(s, e, now);
              && n == (if e.key in LastKeys(s, now) then 1 else 0)
              && DueKeys(s', now) == DueKeys(s, now) - {e.key}
              && KeysInv(s') && CronSafe(s, s', now)
  {
    hide KeysInv, CronSafe, PopDeadline, LastKeys, PastKeys;
    if KeysInv(s) && e in s.heap && e.expire <= now {
      PopDeadlineKeeps(s, e, now);
      CountsLastSecond(s, e, now);
    }
  }
}
