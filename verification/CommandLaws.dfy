module CommandLaws {
  // What each command answers and leaves behind, said of Exec and in terms of what is served under the keys named.

  import opened Sds
  import opened Text
  import opened DictSpec
  import opened ExpHeap
  import opened Resp
  import opened Keyspace
  import opened KeyspaceLaws
  import Aof
  import AvlTree
  import Z = ZSet

  // ----- HSET -----

  /** Arguments taken two by two: a field and the value given for it. */
  ghost function Pairs(args: seq<Bytes>): (ps: seq<(Bytes, Bytes)>)
    ensures |ps| == |args| / 2
  {
    seq(|args| / 2, i requires 0 <= i < |args| / 2 => (args[2 * i], args[2 * i + 1]))
  }

  ghost function Named(ps: seq<(Bytes, Bytes)>): set<Bytes> { set p | p in ps :: p.0 }

  /** No later pair names the field again. */
  ghost predicate LastNamed(ps: seq<(Bytes, Bytes)>, i: nat)
    requires i < |ps|
  {
    forall j :: i < j < |ps| ==> ps[j].0 != ps[i].0
  }

  /** Every field named has its last given value, every other one of h keeps its own, and there are no others. */
  ghost predicate FieldsGiven(h: Fields, ps: seq<(Bytes, Bytes)>, h': Fields)
  {
    && h'.Keys == h.Keys + Named(ps)
    && (forall i :: 0 <= i < |ps| && LastNamed(ps, i) ==> ps[i].0 in h' && h'[ps[i].0] == ps[i].1)
    && forall f :: f in h && f !in Named(ps) ==> f in h' && h'[f] == h[f]
  }

  lemma NamedMore(init: seq<(Bytes, Bytes)>, p: (Bytes, Bytes))
    ensures Named(init + [p]) == Named(init) + {p.0}
  {
  }

  lemma CountMore<T>(a: set<T>, b: set<T>, x: T)
    ensures |a + {x} - b| == |a - b| + if x in b + a then 0 else 1
  {
    assert a + {x} - b == if x in b + a then a - b else a - b + {x};
  }

  lemma GivenMore(h: Fields, init: seq<(Bytes, Bytes)>, p: (Bytes, Bytes), h': Fields)
    requires FieldsGiven(h, init, h')
    ensures FieldsGiven(h, init + [p], h'[p.0 := p.1])
  {
    var ps := init + [p];
    NamedMore(init, p);
    forall i | 0 <= i < |ps| && LastNamed(ps, i) ensures ps[i].0 in h'[p.0 := p.1] && h'[p.0 := p.1][ps[i].0] == ps[i].1 {
      if i < |init| {
        assert ps[|init|] == p;
        assert forall j :: i < j < |init| ==> ps[j] == init[j];
        assert LastNamed(init, i);
      }
    }
  }

  lemma PairsMore(args: seq<Bytes>)
    requires |args| % 2 == 0 && args != []
    ensures var k := |args| - 2; Pairs(args) == Pairs(args[..k]) + [(args[k], args[k + 1])]
  {
  }

  lemma {:induction false} FieldsStored(h: Fields, args: seq<Bytes>)
    requires |args| % 2 == 0
    ensures var (h', n) := SetFields(h, args);
            FieldsGiven(h, Pairs(args), h') && n == |Named(Pairs(args)) - h.Keys|
    decreases |args|
  {
    if args == [] {
      assert Named(Pairs(args)) - h.Keys == {};
    } else {
      var k := |args| - 2;
      var init, p := Pairs(args[..k]), (args[k], args[k + 1]);
      FieldsStored(h, args[..k]);
      PairsMore(args);
      NamedMore(init, p);
      CountMore(Named(init), h.Keys, p.0);
      GivenMore(h, init, p, SetFields(h, args[..k]).0);
    }
  }

  /** HSET on every key: the hash served there, or an empty one, gains the pairs and keeps its deadline, and the reply is
      the number of fields it did not have. */
  ghost predicate HsetTells(s: State, key: Bytes, args: seq<Bytes>, now: int, s': State, reply: Reply)
  {
    var before, ps := Get(s.hashes, key, now), Pairs(args);
    var h := if before.Some? then before.value else map[];
    && key in s'.hashes && FieldsGiven(h, ps, s'.hashes[key].val)
    && reply == Int(|Named(ps) - h.Keys|)
    && s'.hashes[key].expire == (if before.Some? then s.hashes[key].expire else 0)
    && Get(s'.hashes, key, now) == Some(s'.hashes[key].val)
    && s'.strings == s.strings && s'.zsets == s.zsets && s'.heap == s.heap
  }

  lemma HsetMeans(s: State, argv: seq<Bytes>, now: int)
    requires |argv| >= 4 && |argv| % 2 == 0
    ensures var (s', reply) := CmdHset(s, argv, now); HsetTells(s, argv[1], argv[2..], now, s', reply)
  {
    hide SetFields, FieldsGiven, Named, Pairs, CmdHset;
    var before := Get(s.hashes, argv[1], now);
    FieldsStored(if before.Some? then before.value else map[], argv[2..]);
    HsetPuts(s, argv, now);
  }

  /** HGETALL then answers exactly that hash for as long as it is served. */
  lemma HsetLaw(s: State, argv: seq<Bytes>, now: int, later: int, atof: Bytes -> Score)
    requires |argv| >= 4 && |argv| % 2 == 0 && Name(argv) == "HSET" && now <= later
    ensures var (s', reply) := Exec(s, argv, now, atof);
            && HsetTells(s, argv[1], argv[2..], now, s', reply)
            && (Live(s'.hashes, argv[1], later) ==>
                  Exec(s', ["HGETALL", argv[1]], later, atof).1 == Hash(s'.hashes[argv[1]].val))
  {
    hide CStr, Upper, Exec, CmdHset, HsetTells;
    ExecHset(s, argv, now, atof);
    HsetMeans(s, argv, now);
    HgetallRuns(CmdHset(s, argv, now).0, argv[1], later, atof);
  }

  /** HGETALL answers the hash served under the key, or an empty one, and changes nothing that is served. */
  lemma HgetallLaw(s: State, argv: seq<Bytes>, now: int, atof: Bytes -> Score)
    requires |argv| >= 2 && Name(argv) == "HGETALL"
    ensures var (s', reply) := Exec(s, argv, now, atof); var h := Get(s.hashes, argv[1], now);
            reply == Hash(if h.Some? then h.value else map[]) && SameServed(s, s', now)
  {
    hide CStr, Upper;
    assert Exec(s, argv, now, atof) == CmdHgetall(s, argv[1], now);
  }

  lemma ExecHset(s: State, argv: seq<Bytes>, now: int, atof: Bytes -> Score)
    requires |argv| >= 4 && |argv| % 2 == 0 && Name(argv) == "HSET"
    ensures Exec(s, argv, now, atof) == CmdHset(s, argv, now)
  {
    hide CStr, Upper, CmdHset;
  }

  lemma HsetPuts(s: State, argv: seq<Bytes>, now: int)
    requires |argv| >= 4 && |argv| % 2 == 0
    ensures var before := Get(s.hashes, argv[1], now);
            var (h', n) := SetFields(if before.Some? then before.value else map[], argv[2..]);
            var (s', reply) := CmdHset(s, argv, now);
            reply == Int(n) && argv[1] in s'.hashes
            && s'.strings == s.strings && s'.zsets == s.zsets && s'.heap == s.heap
            && s'.hashes[argv[1]] == Item(h', if before.Some? then s.hashes[argv[1]].expire else 0)
  {
    hide Encode, SetFields;
  }

  // ----- DEL and EXISTS -----

  /** How many deletions the key takes: one for a string or sorted set, one for a hash. */
  ghost function Values(s: State, key: Bytes, now: int): nat
  {
    (if Served(s, key, now) then 1 else 0) + if Get(s.hashes, key, now).Some? then 1 else 0
  }

  /** A key mentioned n times loses its string or sorted set to the first mention and its hash to the next one. */
  ghost predicate Lost(s: State, key: Bytes, n: nat, now: int, s': State)
  {
    && Get(s'.strings, key, now) == (if n == 0 then Get(s.strings, key, now) else None)
    && Get(s'.zsets, key, now) == (if n == 0 then Get(s.zsets, key, now) else None)
    && Get(s'.hashes, key, now)
       == (if n == 0 || (n == 1 && Served(s, key, now)) then Get(s.hashes, key, now) else None)
  }

  ghost function Mentions(keys: seq<Bytes>, k: Bytes): nat { multiset(keys)[k] }

  ghost predicate LostAll(s: State, keys: seq<Bytes>, now: int, s': State)
  {
    forall k :: Lost(s, k, Mentions(keys, k), now, s')
  }

  /** The places in the list whose key then still held something: as many mentions of a key as it takes deletions. */
  ghost function Counting(s: State, keys: seq<Bytes>, now: int): set<nat>
  {
    set i: nat | 0 <= i < |keys| && Mentions(keys[..i], keys[i]) < Values(s, keys[i], now)
  }

  /** What DEL does with any list of keys. */
  ghost predicate DelTells(s: State, keys: seq<Bytes>, now: int, s': State, n: int)
  {
    n == |Counting(s, keys, now)| && LostAll(s, keys, now, s')
  }

  lemma LostOne(s: State, key: Bytes, now: int, k: Bytes)
    requires KeysInv(s)
    ensures var (s', n) := DeleteKey(s, key, now);
            && n == (if Values(s, key, now) > 0 then 1 else 0)
            && Lost(s, k, if k == key then 1 else 0, now, s')
  {
    hide Encode, KeysOk;
    NotBoth(s, key);
  }

  lemma LostMore(s: State, s1: State, s2: State, k: Bytes, n: nat, more: nat, now: int)
    requires Lost(s, k, n, now, s1) && Lost(s1, k, more, now, s2) && more <= 1
    ensures Lost(s, k, n + more, now, s2)
    ensures Values(s1, k, now) == if n > Values(s, k, now) then 0 else Values(s, k, now) - n
  {
  }

  lemma MentionsMore(keys: seq<Bytes>, k: Bytes)
    requires keys != []
    ensures var n := |keys| - 1; Mentions(keys, k) == Mentions(keys[..n], k) + if k == keys[n] then 1 else 0
  {
    assert keys == keys[..|keys| - 1] + [keys[|keys| - 1]];
  }

  lemma CountingMore(s: State, keys: seq<Bytes>, now: int)
    requires keys != []
    ensures var n := |keys| - 1;
            |Counting(s, keys, now)| == |Counting(s, keys[..n], now)|
                                        + if Mentions(keys[..n], keys[n]) < Values(s, keys[n], now) then 1 else 0
  {
    hide Values, Mentions;
    var n := |keys| - 1;
    assert forall i :: 0 <= i < n ==> keys[..n][..i] == keys[..i];
    var a, b := Counting(s, keys, now), Counting(s, keys[..n], now);
    assert a == if Mentions(keys[..n], keys[n]) < Values(s, keys[n], now) then b + {n} else b;
  }

  lemma {:induction false} KeysLost(s: State, keys: seq<Bytes>, now: int)
    requires KeysInv(s)
    ensures var (s', n) := DeleteKeys(s, keys, now); DelTells(s, keys, now, s', n)
  {
    hide KeysOk, DeleteKey, Lost, Values;
    if keys == [] {
      forall k ensures Lost(s, k, 0, now, s) { LostNone(s, k, now); }
      assert Counting(s, keys, now) == {};
    } else {
      var n := |keys| - 1;
      var s1, s2 := DeleteKeys(s, keys[..n], now).0, DeleteKeys(s, keys, now).0;
      KeysLost(s, keys[..n], now);
      DeleteKeysKeep(s, keys[..n], now);
      CountingMore(s, keys, now);
      forall k ensures Lost(s, k, Mentions(keys, k), now, s2) {
        LostOne(s1, keys[n], now, k);
        LostMore(s, s1, s2, k, Mentions(keys[..n], k), if k == keys[n] then 1 else 0, now);
        MentionsMore(keys, k);
      }
      LostOne(s1, keys[n], now, keys[n]);
      LostMore(s, s1, s2, keys[n], Mentions(keys[..n], keys[n]), 1, now);
    }
  }

  lemma LostNone(s: State, k: Bytes, now: int)
    ensures Lost(s, k, 0, now, s)
  {
  }

  /** DEL with any list of keys: every mention takes one value of its key while there is one, the string or sorted set
      first, and is counted if it did; keys not mentioned keep theirs. */
  lemma DelLaw(s: State, argv: seq<Bytes>, now: int, atof: Bytes -> Score)
    requires |argv| >= 2 && Name(argv) == "DEL" && KeysInv(s)
    ensures var (s', reply) := Exec(s, argv, now, atof);
            reply.Int? && DelTells(s, argv[1..], now, s', reply.n)
  {
    hide CStr, Upper, DeleteKeys, KeysOk;
    KeysLost(s, argv[1..], now);
  }

  /** For distinct keys: the reply is the number that held something, and afterwards a named key holds something exactly
      if it held a hash beside a string or sorted set. */
  lemma DelDistinct(s: State, argv: seq<Bytes>, now: int, atof: Bytes -> Score)
    requires |argv| >= 2 && Name(argv) == "DEL" && KeysInv(s)
    requires forall i, j :: 1 <= i < j < |argv| ==> argv[i] != argv[j]
    ensures var (s', reply) := Exec(s, argv, now, atof);
            && reply == Int(|set k | k in argv[1..] && Holds(s, k, now)|)
            && forall k :: k in argv[1..] ==>
                 (Holds(s', k, now) <==> Get(s.hashes, k, now).Some? && Served(s, k, now))
  {
    hide CStr, Upper, Exec, KeysOk;
    var keys := argv[1..];
    DelLaw(s, argv, now, atof);
    OnceEach(keys);
    hide LostAll, Mentions;
    forall i | 0 <= i < |keys| ensures Mentions(keys[..i], keys[i]) == 0 {
      OnceEach(keys[..i]);
    }
    var s' := Exec(s, argv, now, atof).0;
    forall k | k in keys ensures Holds(s', k, now) <==> Get(s.hashes, k, now).Some? && Served(s, k, now) {
      AllLost(s, keys, now, s', k);
    }
    DistinctCount(keys, Counting(s, keys, now), set k | k in keys && Holds(s, k, now));
  }

  lemma AllLost(s: State, keys: seq<Bytes>, now: int, s': State, k: Bytes)
    requires LostAll(s, keys, now, s')
    ensures Lost(s, k, Mentions(keys, k), now, s')
  {
  }

  lemma {:induction false} OnceEach(keys: seq<Bytes>)
    requires forall i, j :: 0 <= i < j < |keys| ==> keys[i] != keys[j]
    ensures forall k :: Mentions(keys, k) == if k in keys then 1 else 0
  {
    if keys != [] {
      hide Mentions;
      var n := |keys| - 1;
      OnceEach(keys[..n]);
      assert keys == keys[..n] + [keys[n]];
      forall k ensures Mentions(keys, k) == if k in keys then 1 else 0 {
        MentionsMore(keys, k);
      }
    }
  }

  /** As many places as keys at those places, if no key is repeated. */
  lemma {:induction false} DistinctCount(keys: seq<Bytes>, places: set<nat>, ks: set<Bytes>)
    requires forall i, j :: 0 <= i < j < |keys| ==> keys[i] != keys[j]
    requires forall i :: i in places ==> i < |keys| && keys[i] in ks
    requires forall k :: k in ks ==> exists i: nat :: i in places && keys[i] == k
    ensures |places| == |ks|
  {
    if places != {} {
      var i :| i in places;
      DistinctCount(keys, places - {i}, ks - {keys[i]});
      assert |ks| == |ks - {keys[i]}| + 1;
    } else {
      assert ks == {};
    }
  }

  /** The places in the list whose key holds something. */
  ghost function Holding(s: State, keys: seq<Bytes>, now: int): set<nat>
  {
    set i: nat | 0 <= i < |keys| && Holds(s, keys[i], now)
  }

  /** EXISTS counts every mention of a key that holds something, and changes nothing that is served. */
  lemma ExistsLaw(s: State, argv: seq<Bytes>, now: int, atof: Bytes -> Score)
    requires |argv| >= 2 && Name(argv) == "EXISTS"
    ensures var (s', reply) := Exec(s, argv, now, atof);
            reply == Int(|Holding(s, argv[1..], now)|) && SameServed(s, s', now)
  {
    hide CStr, Upper, ExistKeys, SameServed;
    KeysExist(s, argv[1..], now);
  }

  lemma HoldingMore(s: State, keys: seq<Bytes>, now: int)
    requires keys != []
    ensures var n := |keys| - 1;
            |Holding(s, keys, now)| == |Holding(s, keys[..n], now)| + if Holds(s, keys[n], now) then 1 else 0
  {
    hide Holds;
    var n := |keys| - 1;
    var a, b := Holding(s, keys, now), Holding(s, keys[..n], now);
    assert a == if Holds(s, keys[n], now) then b + {n} else b;
  }

  lemma {:induction false} KeysExist(s: State, keys: seq<Bytes>, now: int)
    ensures var (s', n) := ExistKeys(s, keys, now); n == |Holding(s, keys, now)| && SameServed(s, s', now)
  {
    if keys == [] {
      assert Holding(s, keys, now) == {};
    } else {
      hide ExistsKey, ExistsTells, Holds, SameServed, Holding;
      var n := |keys| - 1;
      var s1 := ExistKeys(s, keys[..n], now).0;
      KeysExist(s, keys[..n], now);
      ExistsMeans(s1, keys[n], now);
      HoldsSame(s, s1, keys[n], now, ExistsKey(s1, keys[n], now));
      HoldingMore(s, keys, now);
    }
  }

  lemma HoldsSame(s: State, s1: State, key: Bytes, now: int, r: (State, int))
    requires SameServed(s, s1, now) && ExistsTells(s1, key, now, r.0, r.1)
    ensures r.1 == (if Holds(s, key, now) then 1 else 0) && SameServed(s, r.0, now)
  {
  }

  // ----- reads of sorted sets -----

  /** By score, and by name where scores are equal. */
  ghost predicate Smaller(z: Scores, a: Bytes, b: Bytes)
    requires a in z && b in z
  {
    z[a] < z[b] || (z[a] == z[b] && TextBefore(a, b))
  }

  /** How many members are smaller. */
  ghost function RankIn(z: Scores, m: Bytes): nat
    requires m in z
  {
    |set x | x in z && Smaller(z, x, m)|
  }

  lemma SmallerIsLess(z: Scores, a: Bytes, b: Bytes)
    requires a in z && b in z
    ensures Smaller(z, a, b) <==> AvlTree.Less(AvlTree.Member(z[a], a), AvlTree.Member(z[b], b))
  {
    CompareIsLexical(a, b);
  }

  lemma {:induction false} SameSize(z: Scores, names: set<Bytes>, members: set<AvlTree.Member>)
    requires forall x :: x in names ==> x in z && AvlTree.Member(z[x], x) in members
    requires forall m: AvlTree.Member :: m in members ==> m.key in names && z[m.key] == m.score
    ensures |names| == |members|
  {
    if names != {} {
      var x :| x in names;
      SameSize(z, names - {x}, members - {AvlTree.Member(z[x], x)});
    } else {
      assert members == {};
    }
  }

  lemma RankCounts(z: Scores, m: Bytes)
    requires m in z
    ensures |Z.Before(Z.MembersOf(z), AvlTree.Member(z[m], m))| == RankIn(z, m)
  {
    hide AvlTree.Less, Smaller, Z.MembersOf;
    Z.InMembers(z);
    var names := set x | x in z && Smaller(z, x, m);
    var members := Z.Before(Z.MembersOf(z), AvlTree.Member(z[m], m));
    forall x | x in z ensures x in names <==> AvlTree.Member(z[x], x) in members {
      SmallerIsLess(z, x, m);
    }
    SameSize(z, names, members);
  }

  lemma RankOfIndex(z: Scores, i: nat)
    requires i < |z|
    ensures var m := Z.SortedMembers(z)[i];
            m.key in z && m.score == z[m.key] && RankIn(z, m.key) == i
  {
    hide Z.Before, Z.MembersOf, RankIn, AvlTree.Sorted;
    var ms := Z.SortedMembers(z);
    Z.InMembers(z);
    assert ms[i] in ms;
    Z.IndexCountsBefore(ms, Z.MembersOf(z), i);
    RankCounts(z, ms[i].key);
  }

  /** A place counted from the end if it is negative. */
  function FromEnd(place: int, size: nat): int { if place < 0 then size + place else place }

  ghost predicate AtPlace(a: int, b: int, size: nat, i: int) { FromEnd(a, size) <= i <= FromEnd(b, size) }

  /** The members from the place a to the place b, smallest first. */
  ghost predicate Ranged(z: Scores, a: int, b: int, names: seq<Bytes>)
  {
    && (forall m :: m in names <==> m in z && AtPlace(a, b, |z|, RankIn(z, m)))
    && forall i, j :: 0 <= i < j < |names| ==> names[i] in z && names[j] in z && Smaller(z, names[i], names[j])
  }

  lemma SlicePlaces(ms: seq<AvlTree.Member>, a: int, b: int) returns (lo: nat)
    ensures var slice, n := Z.Slice(ms, a, b), |ms|;
            && lo + |slice| <= n && slice == ms[lo..lo + |slice|]
            && forall i :: 0 <= i < n ==> (AtPlace(a, b, n, i) <==> lo <= i < lo + |slice|)
  {
    var x := FromEnd(a, |ms|);
    lo := if Z.Slice(ms, a, b) == [] then 0 else if x < 0 then 0 else x;
    var hi := FromEnd(b, |ms|);
    assert Z.Slice(ms, a, b) != [] ==> Z.Slice(ms, a, b) == ms[lo..if hi >= |ms| then |ms| else hi + 1];
  }

  lemma SliceIsRanged(z: Scores, a: int, b: int)
    ensures Ranged(z, a, b, Names(Z.Slice(Z.SortedMembers(z), a, b)))
  {
    hide RankIn, Smaller, Z.MembersOf, AvlTree.Less, Z.Slice, AtPlace;
    var ms := Z.SortedMembers(z);
    var lo := SlicePlaces(ms, a, b);
    var slice := Z.Slice(ms, a, b);
    var names := Names(slice);
    assert forall i :: 0 <= i < |slice| ==> names[i] == ms[lo + i].key;
    forall i | 0 <= i < |z| ensures ms[i].key in z && ms[i].score == z[ms[i].key] && RankIn(z, ms[i].key) == i {
      RankOfIndex(z, i);
    }
    forall m ensures m in names <==> m in z && AtPlace(a, b, |z|, RankIn(z, m)) {
      if m in z {
        var i := PlaceOf(z, m);
        if lo <= i < lo + |slice| { assert names[i - lo] == m; }
      }
    }
    forall i, j | 0 <= i < j < |names| ensures names[i] in z && names[j] in z && Smaller(z, names[i], names[j]) {
      SmallerIsLess(z, names[i], names[j]);
    }
  }

  lemma PlaceOf(z: Scores, m: Bytes) returns (i: nat)
    requires m in z
    ensures i < |z| && Z.SortedMembers(z)[i].key == m
  {
    Z.InMembers(z);
    var ms := Z.SortedMembers(z);
    assert AvlTree.Member(z[m], m) in ms;
    i :| 0 <= i < |ms| && ms[i] == AvlTree.Member(z[m], m);
  }

  ghost function ZsetAt(s: State, key: Bytes, now: int): Scores
  {
    var z := Get(s.zsets, key, now);
    if z.Some? then z.value else map[]
  }

  lemma ReadChanges(s: State, key: Bytes, now: int)
    ensures var (s', z) := ReadZset(s, key, now);
            && SameServed(s, s', now)
            && (z.None? <==> Get(s.strings, key, now).Some?)
            && (z.Some? ==> z.value == Get(s.zsets, key, now))
  {
  }

  /** The sorted-set reads refuse a string's key and change nothing that is served. ZRANGE answers exactly the members whose
      number of smaller members lies between the two places, in order of score and name; ZRANK answers that number, ZSCORE
      the score and ZCARD the size. A missing key has no members. */
  ghost predicate ZreadTells(s: State, cmd: Bytes, argv: seq<Bytes>, now: int, s': State, reply: Reply)
    requires |argv| >= if cmd == "ZRANGE" then 4 else if cmd == "ZCARD" then 2 else 3
  {
    var z := ZsetAt(s, argv[1], now);
    && SameServed(s, s', now)
    && if Get(s.strings, argv[1], now).Some? then reply == WrongType
       else if cmd == "ZRANGE" then
         && reply.Items? && reply.count == |reply.items|
         && Ranged(z, Atoi(argv[2]), Atoi(argv[3]), reply.items)
       else if cmd == "ZCARD" then reply == Int(|z|)
       else if argv[2] !in z then reply == Null
       else reply == if cmd == "ZSCORE" then Double(z[argv[2]]) else Int(RankIn(z, argv[2]))
  }

  lemma ZreadMeans(s: State, cmd: Bytes, argv: seq<Bytes>, now: int)
    requires |argv| >= if cmd == "ZRANGE" then 4 else if cmd == "ZCARD" then 2 else 3
    ensures var (s', reply) := CmdZread(s, cmd, argv, now); ZreadTells(s, cmd, argv, now, s', reply)
  {
    hide Atoi, Ranged, RankIn, SameServed, ReadZset, Z.Slice, Z.SortedMembers, Z.Before, Z.MembersOf;
    ReadChanges(s, argv[1], now);
    var z, v := ZsetAt(s, argv[1], now), ReadZset(s, argv[1], now).1;
    if v.Some? && v.value.None? {
      NoMembers(v.value, if |argv| > 2 then argv[2] else "", 0, 0);
    }
    if cmd == "ZRANGE" {
      SliceIsRanged(z, Atoi(argv[2]), Atoi(argv[3]));
      NoneRanged(Atoi(argv[2]), Atoi(argv[3]));
    } else if |argv| >= 3 && argv[2] in z {
      RankCounts(z, argv[2]);
    }
  }

  /** What the reads answer where there is no sorted set. */
  lemma NoMembers(z: Option<Scores>, member: Bytes, start: int, end: int)
    requires z.None?
    ensures ScoreReply(z, member) == RankReply(z, member) == Null && CardReply(z) == Int(0)
    ensures RangeReply(z, start, end) == Items(0, [])
  {
  }

  lemma ZreadLaw(s: State, argv: seq<Bytes>, now: int, atof: Bytes -> Score)
    requires |argv| >= 2 && Name(argv) in {"ZRANGE", "ZRANK", "ZSCORE", "ZCARD"}
    requires |argv| >= if Name(argv) == "ZRANGE" then 4 else if Name(argv) == "ZCARD" then 2 else 3
    ensures var (s', reply) := Exec(s, argv, now, atof); ZreadTells(s, Name(argv), argv, now, s', reply)
  {
    hide CStr, Upper, Exec, CmdZread, ZreadTells;
    ExecZread(s, argv, now, atof);
    ZreadMeans(s, Name(argv), argv, now);
  }

  lemma NoneRanged(a: int, b: int)
    ensures Ranged(map[], a, b, [])
  {
  }

  lemma ExecZread(s: State, argv: seq<Bytes>, now: int, atof: Bytes -> Score)
    requires |argv| >= 2
    ensures Name(argv) == "ZRANGE" && |argv| >= 4 ==> Exec(s, argv, now, atof) == CmdZread(s, "ZRANGE", argv, now)
    ensures Name(argv) == "ZRANK" && |argv| >= 3 ==> Exec(s, argv, now, atof) == CmdZread(s, "ZRANK", argv, now)
    ensures Name(argv) == "ZSCORE" && |argv| >= 3 ==> Exec(s, argv, now, atof) == CmdZread(s, "ZSCORE", argv, now)
    ensures Name(argv) == "ZCARD" ==> Exec(s, argv, now, atof) == CmdZread(s, "ZCARD", argv, now)
  {
    hide CStr, Upper, CmdSet, CmdGet, DeleteKeys, ExistKeys, CmdIncr, CmdTtl, CmdExpire, CmdFlush, CmdZadd, CmdZread,
        CmdAppend, CmdSetnx, CmdZrem, CmdHset, CmdHgetall;
  }

  /** From 0 to -1 every member is listed once. */
  lemma WholeRange(z: Scores, names: seq<Bytes>)
    requires Ranged(z, 0, -1, names)
    ensures (forall m :: m in names <==> m in z) && |names| == |z|
    ensures forall i, j :: 0 <= i < j < |names| ==> names[i] != names[j]
  {
    hide RankIn;
    forall m | m in z ensures AtPlace(0, -1, |z|, RankIn(z, m)) {
      var i := PlaceOf(z, m);
      RankOfIndex(z, i);
    }
    DistinctNames(z, names);
    SizeOfNames(names, z.Keys);
  }

  lemma DistinctNames(z: Scores, names: seq<Bytes>)
    requires forall i, j :: 0 <= i < j < |names| ==> names[i] in z && names[j] in z && Smaller(z, names[i], names[j])
    ensures forall i, j :: 0 <= i < j < |names| ==> names[i] != names[j]
  {
    AvlTree.TotalOrder();
    forall i, j | 0 <= i < j < |names| ensures names[i] != names[j] {
      SmallerIsLess(z, names[i], names[j]);
    }
  }

  lemma {:induction false} SizeOfNames(names: seq<Bytes>, keys: set<Bytes>)
    requires forall i, j :: 0 <= i < j < |names| ==> names[i] != names[j]
    requires forall m :: m in names <==> m in keys
    ensures |names| == |keys|
  {
    if names == [] {
      assert keys == {};
    } else {
      var n := |names| - 1;
      assert names == names[..n] + [names[n]];
      SizeOfNames(names[..n], keys - {names[n]});
    }
  }

  /** Asking ZRANGE for the place ZRANK answers gives that member alone. */
  lemma RankThenRange(s: State, key: Bytes, member: Bytes, now: int, atof: Bytes -> Score)
    requires Get(s.strings, key, now).None? && member in ZsetAt(s, key, now)
    ensures var (s', rank) := Exec(s, ["ZRANK", key, member], now, atof);
            && rank.Int? && 0 <= rank.n
            && Exec(s', ["ZRANGE", key, DecInt(rank.n), DecInt(rank.n)], now, atof).1 == Items(1, [member])
  {
    Aof.UpperLiteral("ZRANK");
    Aof.UpperLiteral("ZRANGE");
    hide CStr, Upper, Exec, RankIn, Atoi, Ranged;
    var z := ZsetAt(s, key, now);
    ZreadLaw(s, ["ZRANK", key, member], now, atof);
    var s' := Exec(s, ["ZRANK", key, member], now, atof).0;
    var n := RankIn(z, member);
    AtoiOfDecInt(n);
    ZreadLaw(s', ["ZRANGE", key, DecInt(n), DecInt(n)], now, atof);
    OneRanged(z, member, Exec(s', ["ZRANGE", key, DecInt(n), DecInt(n)], now, atof).1.items);
  }

  /** And 0 to -1 gives all of them, each once. */
  lemma RangeAll(s: State, key: Bytes, now: int, atof: Bytes -> Score)
    requires Get(s.strings, key, now).None?
    ensures var all := Exec(s, ["ZRANGE", key, "0", "-1"], now, atof).1;
            && all.Items? && all.count == |all.items| == |ZsetAt(s, key, now)|
            && forall m :: m in all.items <==> m in ZsetAt(s, key, now)
  {
    Aof.UpperLiteral("ZRANGE");
    hide CStr, Upper, Exec, Atoi, Ranged;
    ZreadLaw(s, ["ZRANGE", key, "0", "-1"], now, atof);
    AtoiOfDecInt(0);
    AtoiOfDecInt(-1);
    assert DecInt(0) == "0" && DecInt(-1) == "-1";
    WholeRange(ZsetAt(s, key, now), Exec(s, ["ZRANGE", key, "0", "-1"], now, atof).1.items);
  }

  lemma OneRanged(z: Scores, member: Bytes, names: seq<Bytes>)
    requires member in z && Ranged(z, RankIn(z, member), RankIn(z, member), names)
    ensures names == [member]
  {
    hide RankIn;
    DistinctNames(z, names);
    var n := PlaceOf(z, member);
    RankOfIndex(z, n);
    forall m | m in names ensures m == member {
      var i := PlaceOf(z, m);
      RankOfIndex(z, i);
    }
    SizeOfNames(names, {member});
    assert names[0] in names;
  }

  // ----- APPEND, INCR, DECR and ZREM -----

  /** The deadline a rewritten text has: the old one, if it is still to come. */
  ghost function Remaining(s: State, key: Bytes, now: int): int
  {
    if key in s.strings && s.strings[key].expire > 0 && s.strings[key].expire > now then s.strings[key].expire else 0
  }

  lemma RewriteMeans(s: State, key: Bytes, val: Bytes, now: int)
    ensures var s' := Rewrite(s, key, val, now);
            && s'.strings == s.strings[key := Item(val, Remaining(s, key, now))]
            && s'.zsets == s.zsets && s'.hashes == s.hashes
  {
    hide Encode;
  }

  ghost function TextAt(s: State, key: Bytes, now: int): Bytes
  {
    var v := Get(s.strings, key, now);
    if v.Some? then v.value else ""
  }

  /** The key holds the text, with what is left of its deadline; nothing else that is served has changed. */
  ghost predicate Rewritten(s: State, key: Bytes, val: Bytes, now: int, s': State)
  {
    && key in s'.strings && s'.strings[key] == Item(val, Remaining(s, key, now))
    && ServesSame(s.zsets, s'.zsets, now) && ServesSame(s.hashes, s'.hashes, now)
    && forall k, t :: k != key && t >= now ==> Get(s'.strings, k, t) == Get(s.strings, k, t)
  }

  lemma RewriteAfterReads(s: State, key: Bytes, val: Bytes, now: int)
    ensures var s2 := GetString(GetZset(s, key, now).0, key, now).0;
            Rewritten(s, key, val, now, Rewrite(s2, key, val, now))
  {
    var s2 := GetString(GetZset(s, key, now).0, key, now).0;
    RewriteMeans(s2, key, val, now);
    hide Rewrite;
  }

  /** APPEND makes the text served under the key, or an empty one, longer by its argument and answers the new length. */
  ghost predicate AppendTells(s: State, key: Bytes, suffix: Bytes, now: int, s': State, reply: Reply)
  {
    var text := TextAt(s, key, now);
    if Get(s.zsets, key, now).Some? then reply == WrongType && SameServed(s, s', now)
    else reply == Int(|text| + |suffix|) && Rewritten(s, key, text + suffix, now, s')
  }

  /** INCR and DECR: the number in the text served, or zero, moved by one. */
  ghost predicate IncrTells(s: State, key: Bytes, step: int, now: int, s': State, reply: Reply)
  {
    var n := Atoi(TextAt(s, key, now)) + step;
    if Get(s.zsets, key, now).Some? then reply == WrongType && SameServed(s, s', now)
    else reply == Int(n) && Rewritten(s, key, DecInt(n), now, s')
  }

  lemma AppendMeans(s: State, key: Bytes, suffix: Bytes, now: int)
    ensures var (s', reply) := CmdAppend(s, key, suffix, now); AppendTells(s, key, suffix, now, s', reply)
  {
    hide Rewrite, Rewritten;
    RewriteAfterReads(s, key, TextAt(s, key, now) + suffix, now);
  }

  lemma IncrMeans(s: State, key: Bytes, step: int, now: int)
    ensures var (s', reply) := CmdIncr(s, key, step, now); IncrTells(s, key, step, now, s', reply)
  {
    AtoiOfOther("");
    hide Rewrite, Rewritten, Atoi, DecInt;
    RewriteAfterReads(s, key, DecInt(Atoi(TextAt(s, key, now)) + step), now);
  }

  lemma RewriteLaw(s: State, argv: seq<Bytes>, step: int, now: int, atof: Bytes -> Score)
    ensures var (s', reply) := Exec(s, argv, now, atof);
            && (|argv| >= 3 && Name(argv) == "APPEND" ==> AppendTells(s, argv[1], argv[2], now, s', reply))
            && (IsIncr(argv, step) ==> IncrTells(s, argv[1], step, now, s', reply))
  {
    hide CStr, Upper, CmdAppend, CmdIncr, AppendTells, IncrTells;
    if |argv| >= 3 { AppendMeans(s, argv[1], argv[2], now); }
    if |argv| >= 2 { IncrMeans(s, argv[1], step, now); }
  }

  ghost function Present(z: Scores, members: seq<Bytes>): set<Bytes> { set m | m in z && m in members }

  /** The sorted set under the key, if one is served, has lost the named members; n of them were there. Scores and deadline
      are left alone, and so is everything else that is served. */
  ghost predicate ZremTells(s: State, key: Bytes, members: seq<Bytes>, now: int, s': State, n: int)
  {
    var z := ZsetAt(s, key, now);
    && n == |Present(z, members)|
    && ServesSame(s.strings, s'.strings, now) && s'.hashes == s.hashes
    && (forall k :: k != key ==> SameItem(s.zsets, s'.zsets, k))
    && if Get(s.zsets, key, now).None? then Get(s'.zsets, key, now).None?
       else
         && key in s'.zsets && Removed(z, members, s'.zsets[key].val)
         && s'.zsets[key].expire == s.zsets[key].expire
  }

  lemma ZremPuts(s: State, key: Bytes, members: seq<Bytes>, now: int)
    requires Get(s.strings, key, now).None?
    ensures var (z', n) := RemoveMembers(ZsetAt(s, key, now), members); var (s', reply) := CmdZrem(s, key, members, now);
            && s'.strings == Purge(s.strings, key, now) && s'.hashes == s.hashes
            && if Get(s.zsets, key, now).None? then reply == Int(0) && s'.zsets == Purge(s.zsets, key, now)
               else reply == Int(n) && s'.zsets == s.zsets[key := s.zsets[key].(val := z')]
  {
    hide RemoveMembers, ZremRecords;
  }

  lemma ZremMeans(s: State, key: Bytes, members: seq<Bytes>, now: int)
    requires Get(s.strings, key, now).None?
    ensures var (s', reply) := CmdZrem(s, key, members, now);
            reply.Int? && ZremTells(s, key, members, now, s', reply.n)
  {
    hide CmdZrem, RemoveMembers, Removed, Present, ServesSame;
    ZremPuts(s, key, members, now);
    PurgeServes(s.strings, key, now);
    PurgeServes(s.zsets, key, now);
    var z := ZsetAt(s, key, now);
    RemovedMembers(z, members);
    RemovedSize(z, members, RemoveMembers(z, members).0);
    if Get(s.zsets, key, now).None? { NonePresent(members); }
  }

  lemma NonePresent(members: seq<Bytes>)
    ensures Present(map[], members) == {}
  {
  }

  lemma PurgeServes<V(!new)>(m: Store<V>, key: Bytes, now: int)
    ensures ServesSame(m, Purge(m, key, now), now)
  {
  }

  /** ZREM refuses a string's key, and else removes exactly the named members and answers how many there were. */
  lemma ZremLaw(s: State, argv: seq<Bytes>, now: int, atof: Bytes -> Score)
    requires |argv| >= 3 && Name(argv) == "ZREM"
    ensures var (s', reply) := Exec(s, argv, now, atof);
            if Get(s.strings, argv[1], now).Some? then reply == WrongType && SameServed(s, s', now)
            else reply.Int? && ZremTells(s, argv[1], argv[2..], now, s', reply.n)
  {
    assert Exec(s, argv, now, atof) == CmdZrem(s, argv[1], argv[2..], now) by { hide CStr, Upper, CmdZrem; }
    hide Exec, CStr, Upper, ZremTells;
    if Get(s.strings, argv[1], now).None? {
      ZremMeans(s, argv[1], argv[2..], now);
    }
  }

  lemma RemovedSize(z: Scores, members: seq<Bytes>, z': Scores)
    requires Removed(z, members, z')
    ensures |Present(z, members)| == |z| - |z'|
  {
    assert z.Keys == Present(z, members) + z'.Keys;
    assert |z| == |z.Keys| && |z'| == |z'.Keys|;
  }

  // ----- names and argument counts -----

  /** The case of a command's name does not matter, nor does anything after its first NUL. */
  lemma NameSpells(argv: seq<Bytes>, word: Bytes)
    requires argv != [] && forall i :: 0 <= i < |word| ==> 'A' <= word[i] <= 'Z'
    ensures Name(argv) == word <==> Spells(argv[0], word)
  {
    UpperSpells(argv[0], word);
  }

  /** How many words each command takes at least, itself included. */
  ghost function Least(name: Bytes): Option<nat>
  {
    if name in {"FLUSHDB"} then Some(1)
    else if name in {"GET", "DEL", "EXISTS", "INCR", "DECR", "TTL", "ZCARD", "HGETALL"} then Some(2)
    else if name in {"SET", "EXPIRE", "ZSCORE", "ZRANK", "APPEND", "SETNX", "ZREM"} then Some(3)
    else if name in {"ZADD", "ZRANGE", "HSET"} then Some(4)
    else None
  }

  /** A command with too few words, or an HSET with half a pair, is refused and does nothing; so does any other name. */
  lemma ArgumentsLaw(s: State, argv: seq<Bytes>, now: int, atof: Bytes -> Score)
    requires argv != []
    ensures var (s', reply) := Exec(s, argv, now, atof); var least := Least(Name(argv));
            && (reply == Other <==> least.None?)
            && (reply == WrongArgs <==>
                  least.Some? && (|argv| < least.value || (Name(argv) == "HSET" && |argv| % 2 != 0)))
            && (reply == Other || reply == WrongArgs ==> s' == s)
  {
    hide CStr, Upper, CmdSet, CmdGet, DeleteKeys, ExistKeys, CmdIncr, CmdTtl, CmdExpire, CmdFlush, CmdZadd, CmdZread,
        CmdAppend, CmdSetnx, CmdZrem, CmdHset, CmdHgetall;
    Answered(s, argv, now, atof);
  }

  /** A command that runs answers something else. */
  lemma Answered(s: State, argv: seq<Bytes>, now: int, atof: Bytes -> Score)
    requires argv != []
    ensures forall key, step :: Answer(CmdIncr(s, key, step, now).1)
    ensures forall key :: Answer(CmdGet(s, key, now).1) && Answer(CmdTtl(s, key, now).1)
    ensures forall key :: Answer(CmdHgetall(s, key, now).1)
    ensures forall a, b :: Answer(CmdExpire(s, a, b, now).1) && Answer(CmdAppend(s, a, b, now).1)
    ensures forall a, b :: Answer(CmdSetnx(s, a, b, now).1)
    ensures forall a, b, c :: Answer(CmdZadd(s, a, b, c, now, atof).1)
    ensures forall key, members :: Answer(CmdZrem(s, key, members, now).1)
    ensures Answer(CmdFlush(s).1) && (|argv| >= 3 ==> Answer(CmdSet(s, argv, now).1))
    ensures |argv| >= 4 && |argv| % 2 == 0 ==> Answer(CmdHset(s, argv, now).1)
    ensures forall cmd :: |argv| >= (if cmd == "ZRANGE" then 4 else if cmd == "ZCARD" then 2 else 3) ==>
              Answer(CmdZread(s, cmd, argv, now).1)
  {
    hide SetTtl, SetFields, Encode, DeleteKey, Atoi, DecInt, Rewrite, SetKv, ExistsKey, PrintedBulk,
        ZaddRecord, ZremRecords, RemoveMembers;
  }

  ghost predicate Answer(r: Reply) { r != Other && r != WrongArgs }

  // ----- the log -----

  lemma ExpireRecordIsEncoded(key: Bytes, text: Bytes)
    requires '\0' !in key && '\0' !in text
    ensures "*3\r\n$6\r\nEXPIRE\r\n" + PrintedBulk(key) + PrintedBulk(text) == Encode(["EXPIRE", key, text])
  {
    Aof.PrintedIsBulk(key);
    Aof.PrintedIsBulk(text);
    assert "*" + Dec(3) + CRLF + Bulk("EXPIRE") == "*3\r\n$6\r\nEXPIRE\r\n";
    hide Bulk, Dec, PrintedBulk;
    Aof.BulksOfThree(key, text, "");
    assert ["EXPIRE", key, text][1..] == [key, text];
    assert Bulks(["EXPIRE", key, text]) == Bulk("EXPIRE") + Bulks([key, text]);
  }

  /** An EXPIRE that finds its key is logged as itself, if its words hold no NUL; one that does not is not logged. */
  lemma ExpireLogged(s: State, argv: seq<Bytes>, now: int, atof: Bytes -> Score)
    requires |argv| >= 3 && Name(argv) == "EXPIRE" && s.aof.Some? && '\0' !in argv[1] && '\0' !in argv[2]
    ensures var log := Exec(s, argv, now, atof).0.aof;
            log == if argv[1] !in s.strings && argv[1] !in s.zsets then s.aof
                   else Some(s.aof.value + Encode(["EXPIRE", argv[1], argv[2]]))
  {
    ExpireRecordIsEncoded(argv[1], argv[2]);
    hide CStr, Upper, Encode, PrintedBulk, Atoi;
    assert Exec(s, argv, now, atof) == CmdExpire(s, argv[1], argv[2], now);
  }

  /** An HSET is logged as itself, and replayed on the same hash, at any time, it leaves the same fields. */
  lemma HsetLogged(s: State, argv: seq<Bytes>, now: int, r: State, later: int, atof: Bytes -> Score)
    requires |argv| >= 4 && |argv| % 2 == 0 && Name(argv) == "HSET" && s.aof.Some?
    requires Get(r.hashes, argv[1], later) == Get(s.hashes, argv[1], now)
    ensures var rec, s' := ["HSET"] + argv[1..], Exec(s, argv, now, atof).0;
            var r' := Exec(r, rec, later, atof).0;
            && s'.aof == Some(s.aof.value + Encode(rec))
            && argv[1] in s'.hashes && argv[1] in r'.hashes && r'.hashes[argv[1]].val == s'.hashes[argv[1]].val
  {
    var rec := ["HSET"] + argv[1..];
    Aof.HsetRuns(r, rec, later, atof);
    hide CStr, Upper, Encode, SetFields, Exec, CmdHset;
    assert rec[2..] == argv[2..] && rec[1..] == argv[1..];
    ExecHset(s, argv, now, atof);
    HsetPuts(s, argv, now);
    HsetPuts(r, rec, later);
    Aof.HsetEffect(s, argv, now);
  }

  // ----- scheduled deadlines -----

  ghost function Entry(key: Bytes, expire: int, any: bool): multiset<ExpEntry>
  {
    if any then multiset{ExpEntry(key, expire)} else multiset{}
  }

  /** What a command schedules: the deadline of a SET, of an EXPIRE that finds its key, and of a text rewritten before its
      own has come. Nothing else is scheduled, and nothing is unscheduled. */
  lemma HeapLaw(s: State, argv: seq<Bytes>, now: int, atof: Bytes -> Score)
    requires |argv| >= 2
    ensures var heap, key, name := Exec(s, argv, now, atof).0.heap, argv[1], Name(argv);
            heap == s.heap +
              (if name == "SET" && |argv| >= 3 then Entry(key, now + Seconds(argv), Seconds(argv) > 0)
               else if name == "EXPIRE" && |argv| >= 3 then
                 Entry(key, now + Atoi(argv[2]), key in s.strings || key in s.zsets)
               else if name in {"INCR", "DECR"} || (name == "APPEND" && |argv| >= 3) then
                 Entry(key, Remaining(s, key, now), Get(s.zsets, key, now).None? && Remaining(s, key, now) > 0)
               else multiset{})
  {
    hide CStr, Upper, CmdSet, CmdGet, DeleteKeys, ExistKeys, CmdIncr, CmdTtl, CmdExpire, CmdFlush, CmdZadd, CmdZread,
        CmdAppend, CmdSetnx, CmdZrem, CmdHset, CmdHgetall, Seconds, Atoi, Remaining, Entry;
    ReadsQuiet(s, argv, now);
    KeysQuiet(s, argv[1..], now);
    RewritesSchedule(s, argv, now);
    if |argv| >= 3 {
      WritesSchedule(s, argv, now);
      ZsetsQuiet(s, argv, now, atof);
    }
  }

  lemma ReadsQuiet(s: State, argv: seq<Bytes>, now: int)
    requires |argv| >= 2
    ensures CmdGet(s, argv[1], now).0.heap == CmdTtl(s, argv[1], now).0.heap == s.heap
    ensures CmdHgetall(s, argv[1], now).0.heap == CmdFlush(s).0.heap == s.heap
    ensures forall cmd :: |argv| >= (if cmd == "ZRANGE" then 4 else if cmd == "ZCARD" then 2 else 3) ==>
              CmdZread(s, cmd, argv, now).0.heap == s.heap
    ensures s.heap + multiset{} == s.heap
  {
  }

  lemma KeyQuiet(s: State, key: Bytes, now: int)
    ensures DeleteKey(s, key, now).0.heap == ExistsKey(s, key, now).0.heap == s.heap
  {
    hide Encode;
  }

  lemma {:induction false} KeysQuiet(s: State, keys: seq<Bytes>, now: int)
    ensures DeleteKeys(s, keys, now).0.heap == ExistKeys(s, keys, now).0.heap == s.heap
  {
    hide DeleteKey, ExistsKey;
    if keys != [] {
      var n := |keys| - 1;
      KeysQuiet(s, keys[..n], now);
      KeyQuiet(DeleteKeys(s, keys[..n], now).0, keys[n], now);
      KeyQuiet(ExistKeys(s, keys[..n], now).0, keys[n], now);
    }
  }

  lemma SetKvSchedules(s: State, key: Bytes, val: Bytes, ttl: int, now: int)
    ensures SetKv(s, key, val, ttl, now).heap == s.heap + Entry(key, now + ttl, ttl > 0)
  {
    hide Encode;
  }

  lemma RewriteSchedules(s: State, key: Bytes, val: Bytes, now: int)
    ensures var s2 := GetString(GetZset(s, key, now).0, key, now).0;
            Rewrite(s2, key, val, now).heap == s.heap + Entry(key, Remaining(s, key, now), Remaining(s, key, now) > 0)
  {
    var s2 := GetString(GetZset(s, key, now).0, key, now).0;
    var left := TtlLeft(GetExpiry(s2.strings, key, now), now);
    SetKvSchedules(s2.(strings := Purge(s2.strings, key, now)), key, val, left, now);
    hide SetKv;
  }

  lemma RewritesSchedule(s: State, argv: seq<Bytes>, now: int)
    requires |argv| >= 2
    ensures var key := argv[1];
            var e := Entry(key, Remaining(s, key, now), Get(s.zsets, key, now).None? && Remaining(s, key, now) > 0);
            && CmdIncr(s, key, 1, now).0.heap == CmdIncr(s, key, -1, now).0.heap == s.heap + e
            && (|argv| >= 3 ==> CmdAppend(s, key, argv[2], now).0.heap == s.heap + e)
  {
    hide Rewrite, Remaining, Atoi, DecInt;
    var text := TextAt(s, argv[1], now);
    assert Atoi("") == 0 by { AtoiOfOther(""); }
    RewriteSchedules(s, argv[1], DecInt(Atoi(text) + 1), now);
    RewriteSchedules(s, argv[1], DecInt(Atoi(text) - 1), now);
    if |argv| >= 3 { RewriteSchedules(s, argv[1], text + argv[2], now); }
  }

  lemma WritesSchedule(s: State, argv: seq<Bytes>, now: int)
    requires |argv| >= 3
    ensures CmdSet(s, argv, now).0.heap == s.heap + Entry(argv[1], now + Seconds(argv), Seconds(argv) > 0)
    ensures CmdExpire(s, argv[1], argv[2], now).0.heap
         == s.heap + Entry(argv[1], now + Atoi(argv[2]), argv[1] in s.strings || argv[1] in s.zsets)
    ensures CmdSetnx(s, argv[1], argv[2], now).0.heap == s.heap
  {
    hide SetKv, DeleteKey, ExistsKey, SetTtl, Seconds, Atoi, PrintedBulk, Entry;
    SecondsAreTtl(argv);
    NoEntry(argv[1], now);
    ExpireSchedules(s, argv[1], argv[2], now);
    hide CmdExpire;
    KeyQuiet(s, argv[1], now);
    SetKvSchedules(DeleteKey(s, argv[1], now).0, argv[1], argv[2], SetTtl(argv), now);
    SetKvSchedules(ExistsKey(s, argv[1], now).0, argv[1], argv[2], 0, now);
  }

  lemma NoEntry(key: Bytes, expire: int)
    ensures Entry(key, expire, false) == multiset{}
  {
  }

  lemma ExpireSchedules(s: State, key: Bytes, text: Bytes, now: int)
    ensures CmdExpire(s, key, text, now).0.heap
         == s.heap + Entry(key, now + Atoi(text), key in s.strings || key in s.zsets)
  {
    hide Atoi, PrintedBulk;
  }

  lemma ZsetsQuiet(s: State, argv: seq<Bytes>, now: int, atof: Bytes -> Score)
    requires |argv| >= 3
    ensures CmdZrem(s, argv[1], argv[2..], now).0.heap == s.heap
    ensures |argv| >= 4 ==> CmdZadd(s, argv[1], argv[2], argv[3], now, atof).0.heap == s.heap
    ensures |argv| >= 4 && |argv| % 2 == 0 ==> CmdHset(s, argv, now).0.heap == s.heap
  {
    hide RemoveMembers, ZremRecords, ZaddRecord, SetFields, Encode;
  }
}
