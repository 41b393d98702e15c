/** What a command does to the whole data set: texts, sorted sets, hashes, deadlines and the append-only log. */
module Keyspace {
  import opened Sds
  import opened Text
  import opened DictSpec
  import opened ExpHeap
  import opened Resp
  import opened Walk
  import AvlTree
  import Z = ZSet
  import DictTable

  type Score = AvlTree.Score
  type Scores = map<Bytes, Score>
  type Fields = map<Bytes, Bytes>

  /** `aof` is None while a log is being loaded: the file is opened for appending only afterwards. */
  datatype State = State(strings: Store<Bytes>, zsets: Store<Scores>, hashes: Store<Fields>,
                         heap: multiset<ExpEntry>, aof: Option<Bytes>)

  /** A double is printed with 17 digits, which identify it. Items are announced by their count before they are sent.
      Hash stands for a listing of its fields in some order, and Listing is the text of one. */
  datatype Reply = Ok | Int(n: int) | Text(v: Bytes) | Null | WrongArgs | WrongType | Other
    | Double(score: Score) | Items(count: int, items: seq<Bytes>) | Hash(fields: Fields) | Listing(text: Bytes)

  const Empty: State := State(map[], map[], map[], multiset{}, None)

  // ----- C strings -----

  function UpperChar(c: char): char { if 'a' <= c <= 'z' then (c as int - 32) as char else c }

  function Upper(s: Bytes): (r: Bytes)
    ensures |r| == |s|
  {
    if s == [] then [] else [UpperChar(s[0])] + Upper(s[1..])
  }

  /** What strcmp and %s see: everything before the first NUL. */
  function CStr(s: Bytes): Bytes
  {
    if s == [] || s[0] == '\0' then [] else [s[0]] + CStr(s[1..])
  }

  // ----- reads -----

  function GetString(s: State, key: Bytes, now: int): (State, Option<Bytes>)
  {
    (s.(strings := Purge(s.strings, key, now)), Get(s.strings, key, now))
  }

  function GetZset(s: State, key: Bytes, now: int): (State, Option<Scores>)
  {
    (s.(zsets := Purge(s.zsets, key, now)), Get(s.zsets, key, now))
  }

  function GetHash(s: State, key: Bytes, now: int): (State, Option<Fields>)
  {
    (s.(hashes := Purge(s.hashes, key, now)), Get(s.hashes, key, now))
  }

  // ----- writes -----

  function Append(s: State, record: Bytes): State
  {
    if s.aof.Some? then s.(aof := Some(s.aof.value + record)) else s
  }

  /** set_kv logs no expiry. */
  function SetKv(s: State, key: Bytes, val: Bytes, ttl: int, now: int): State
  {
    var s1 := s.(strings := Put(s.strings, key, val, ttl, now));
    var s2 := if ttl > 0 then s1.(heap := s1.heap + multiset{ExpEntry(key, now + ttl)}) else s1;
    Append(s2, Encode(["SET", key, val]))
  }

  /** The first of string, sorted set and hash that holds the key is removed, and only that one. */
  function DeleteKey(s: State, key: Bytes, now: int): (State, int)
  {
    var (s1, str) := GetString(s, key, now);
    if str.Some? then (Append(s1.(strings := Delete(s1.strings, key)), Encode(["DEL", key])), 1)
    else
      var (s2, z) := GetZset(s1, key, now);
      if z.Some? then (Append(s2.(zsets := Delete(s2.zsets, key)), Encode(["DEL", key])), 1)
      else
        var (s3, h) := GetHash(s2, key, now);
        if h.Some? then (Append(s3.(hashes := Delete(s3.hashes, key)), Encode(["DEL", key])), 1)
        else (s3, 0)
  }

  function ExistsKey(s: State, key: Bytes, now: int): (State, int)
  {
    var (s1, str) := GetString(s, key, now);
    if str.Some? then (s1, 1)
    else
      var (s2, z) := GetZset(s1, key, now);
      if z.Some? then (s2, 1)
      else
        var (s3, h) := GetHash(s2, key, now);
        (s3, if h.Some? then 1 else 0)
  }

  function DeleteKeys(s: State, keys: seq<Bytes>, now: int): (State, int)
  {
    if keys == [] then (s, 0)
    else
      var (s1, n) := DeleteKeys(s, keys[..|keys| - 1], now);
      var (s2, d) := DeleteKey(s1, keys[|keys| - 1], now);
      (s2, n + d)
  }

  function ExistKeys(s: State, keys: seq<Bytes>, now: int): (State, int)
  {
    if keys == [] then (s, 0)
    else
      var (s1, n) := ExistKeys(s, keys[..|keys| - 1], now);
      var (s2, d) := ExistsKey(s1, keys[|keys| - 1], now);
      (s2, n + d)
  }

  // ----- commands -----

  function SetTtl(argv: seq<Bytes>): int
  {
    if |argv| >= 5 && CStr(Upper(argv[3])) == "EX" then Atoi(argv[4]) else 0
  }

  function CmdSet(s: State, argv: seq<Bytes>, now: int): (State, Reply)
    requires |argv| >= 3
  {
    (SetKv(DeleteKey(s, argv[1], now).0, argv[1], argv[2], SetTtl(argv), now), Ok)
  }

  /** The seconds a live key has left; none once its deadline second has come. */
  function TtlLeft(expire: int, now: int): int { if expire > 0 && expire > now then expire - now else 0 }

  /** INCR, DECR and APPEND: a new text in place of the old, its remaining lifetime kept. */
  function Rewrite(s: State, key: Bytes, val: Bytes, now: int): State
  {
    var expire := GetExpiry(s.strings, key, now);
    SetKv(s.(strings := Purge(s.strings, key, now)), key, val, TtlLeft(expire, now), now)
  }

  function CmdIncr(s: State, key: Bytes, step: int, now: int): (State, Reply)
  {
    var (s1, z) := GetZset(s, key, now);
    if z.Some? then (s1, WrongType)
    else
      var (s2, cur) := GetString(s1, key, now);
      var val := (if cur.Some? then Atoi(cur.value) else 0) + step;
      (Rewrite(s2, key, DecInt(val), now), Int(val))
  }

  function CmdAppend(s: State, key: Bytes, suffix: Bytes, now: int): (State, Reply)
  {
    var (s1, z) := GetZset(s, key, now);
    if z.Some? then (s1, WrongType)
    else
      var (s2, cur) := GetString(s1, key, now);
      var val := (if cur.Some? then cur.value else []) + suffix;
      (Rewrite(s2, key, val, now), Int(|val|))
  }

  function CmdSetnx(s: State, key: Bytes, val: Bytes, now: int): (State, Reply)
  {
    var (s1, n) := ExistsKey(s, key, now);
    if n == 1 then (s1, Int(0)) else (SetKv(s1, key, val, 0, now), Int(1))
  }

  /** A bulk string written with %s: the announced length is the true one. */
  function PrintedBulk(a: Bytes): Bytes { "$" + Dec(|a|) + CRLF + CStr(a) + CRLF }

  function CmdExpire(s: State, key: Bytes, text: Bytes, now: int): (State, Reply)
  {
    var ttl := Atoi(text);
    var record := "*3\r\n$6\r\nEXPIRE\r\n" + PrintedBulk(key) + PrintedBulk(text);
    var entry := multiset{ExpEntry(key, now + ttl)};
    if key in s.strings then
      (Append(s.(strings := SetExpiry(s.strings, key, ttl, now), heap := s.heap + entry), record), Int(1))
    else if key in s.zsets then
      (Append(s.(zsets := SetExpiry(s.zsets, key, ttl, now), heap := s.heap + entry), record), Int(1))
    else (s, Int(0))
  }

  const FLUSH_RECORD: Bytes := "*1\r\n$7\r\nFLUSHDB\r\n\r\n"

  /** Hashes survive, and the heap keeps its entries. */
  function CmdFlush(s: State): (State, Reply)
  {
    (Append(s.(strings := map[], zsets := map[]), FLUSH_RECORD), Ok)
  }

  function ZaddRecord(key: Bytes, text: Bytes, member: Bytes): Bytes
  {
    "*4\r\n$4\r\nZADD\r\n" + PrintedBulk(key) + PrintedBulk(text) + PrintedBulk(member)
  }

  function CmdZadd(s: State, key: Bytes, text: Bytes, member: Bytes, now: int, atof: Bytes -> Score): (State, Reply)
  {
    var (s1, str) := GetString(s, key, now);
    if str.Some? then (s1, WrongType)
    else
      var (s2, z) := GetZset(s1, key, now);
      var s3 := if z.Some? then s2 else s2.(zsets := Put(s2.zsets, key, map[], 0, now));
      var old_ := s3.zsets[key];
      var s4 := s3.(zsets := s3.zsets[key := old_.(val := old_.val[member := atof(text)])]);
      (Append(s4, ZaddRecord(key, text, member)), Int(if member in old_.val then 0 else 1))
  }

  function RemoveMembers(z: Scores, members: seq<Bytes>): (Scores, int)
  {
    if members == [] then (z, 0)
    else
      var (z1, n) := RemoveMembers(z, members[..|members| - 1]);
      var m := members[|members| - 1];
      (z1 - {m}, n + if m in z1 then 1 else 0)
  }

  function ZremRecords(key: Bytes, members: seq<Bytes>): Bytes
  {
    if members == [] then []
    else ZremRecords(key, members[..|members| - 1])
         + ("*3\r\n$4\r\nZREM\r\n" + PrintedBulk(key) + PrintedBulk(members[|members| - 1]))
  }

  /** One record per requested member, present or not, if any was removed. */
  function CmdZrem(s: State, key: Bytes, members: seq<Bytes>, now: int): (State, Reply)
  {
    var (s1, str) := GetString(s, key, now);
    if str.Some? then (s1, WrongType)
    else
      var (s2, z) := GetZset(s1, key, now);
      if z.None? then (s2, Int(0))
      else
        var (z', n) := RemoveMembers(z.value, members);
        var s3 := s2.(zsets := s2.zsets[key := s2.zsets[key].(val := z')]);
        (if n > 0 then Append(s3, ZremRecords(key, members)) else s3, Int(n))
  }

  /** Pairs are stored left to right, so the last of two equal field names wins. */
  function SetFields(h: Fields, pairs: seq<Bytes>): (Fields, int)
    requires |pairs| % 2 == 0
  {
    if pairs == [] then (h, 0)
    else
      var (h1, n) := SetFields(h, pairs[..|pairs| - 2]);
      var f := pairs[|pairs| - 2];
      (h1[f := pairs[|pairs| - 1]], n + if f in h1 then 0 else 1)
  }

  function CmdHset(s: State, argv: seq<Bytes>, now: int): (State, Reply)
    requires |argv| >= 4 && |argv| % 2 == 0
  {
    var key := argv[1];
    var (s1, h) := GetHash(s, key, now);
    var s2 := if h.Some? then s1 else s1.(hashes := Put(s1.hashes, key, map[], 0, now));
    var (h', n) := SetFields(s2.hashes[key].val, argv[2..]);
    var s3 := s2.(hashes := s2.hashes[key := s2.hashes[key].(val := h')]);
    (Append(s3, Encode(["HSET"] + argv[1..])), Int(n))
  }

  function CmdGet(s: State, key: Bytes, now: int): (State, Reply)
  {
    var (s1, z) := GetZset(s, key, now);
    if z.Some? then (s1, WrongType)
    else
      var (s2, v) := GetString(s1, key, now);
      (s2, if v.Some? then Text(v.value) else Null)
  }

  function TtlReply(expire: int, now: int): Reply
  {
    if expire == 0 then Int(-1) else Int(if expire - now < 0 then 0 else expire - now)
  }

  function CmdTtl(s: State, key: Bytes, now: int): (State, Reply)
  {
    var (s1, v) := GetString(s, key, now);
    if v.Some? then (s1, TtlReply(s1.strings[key].expire, now))
    else
      var (s2, z) := GetZset(s1, key, now);
      if z.Some? then (s2, TtlReply(s2.zsets[key].expire, now)) else (s2, Int(-2))
  }

  // ----- sorted-set reads -----

  /** The dictionary accesses of ZSCORE, ZRANGE, ZCARD and ZRANK: no result under a string's key, and else the sorted
      set, if there is one. */
  function ReadZset(s: State, key: Bytes, now: int): (State, Option<Option<Scores>>)
  {
    var (s1, str) := GetString(s, key, now);
    if str.Some? then (s1, None)
    else
      var (s2, z) := GetZset(s1, key, now);
      (s2, Some(z))
  }

  function ScoreReply(z: Option<Scores>, member: Bytes): Reply
  {
    if z.Some? && member in z.value then Double(z.value[member]) else Null
  }

  function CardReply(z: Option<Scores>): Reply { Int(if z.Some? then |z.value| else 0) }

  /** The number of members before this one. */
  ghost function RankReply(z: Option<Scores>, member: Bytes): Reply
  {
    if z.Some? && member in z.value then
      Int(|Z.Before(Z.MembersOf(z.value), AvlTree.Member(z.value[member], member))|)
    else Null
  }

  function Names(ms: seq<AvlTree.Member>): (names: seq<Bytes>)
    ensures |names| == |ms|
  {
    seq(|ms|, i requires 0 <= i < |ms| => ms[i].key)
  }

  ghost function RangeReply(z: Option<Scores>, start: int, end: int): Reply
  {
    var names := if z.Some? then Names(Z.Slice(Z.SortedMembers(z.value), start, end)) else [];
    Items(|names|, names)
  }

  ghost function CmdZread(s: State, cmd: Bytes, argv: seq<Bytes>, now: int): (State, Reply)
    requires |argv| >= if cmd == "ZRANGE" then 4 else if cmd == "ZCARD" then 2 else 3
  {
    var (s', z) := ReadZset(s, argv[1], now);
    (s', if z.None? then WrongType
         else if cmd == "ZSCORE" then ScoreReply(z.value, argv[2])
         else if cmd == "ZRANGE" then RangeReply(z.value, Atoi(argv[2]), Atoi(argv[3]))
         else if cmd == "ZCARD" then CardReply(z.value)
         else RankReply(z.value, argv[2]))
  }

  /** The hash as a dictionary holds it, and what a listing of it answers. */
  ghost function AsStore(h: Fields): Store<Bytes> { map f | f in h :: Item(h[f], 0) }

  ghost predicate Answers(r: Reply, spec: Reply)
  {
    if spec.Hash? then r.Listing? && exists es :: Lists(es, AsStore(spec.fields)) && r.text == Encode(Walk.Fields(es))
    else r == spec
  }

  function CmdHgetall(s: State, key: Bytes, now: int): (State, Reply)
  {
    var (s', h) := GetHash(s, key, now);
    (s', Hash(if h.Some? then h.value else map[]))
  }

  lemma ReadStates(s: State, argv: seq<Bytes>, now: int)
    requires |argv| >= 2
    ensures forall cmd :: |argv| >= (if cmd == "ZRANGE" then 4 else if cmd == "ZCARD" then 2 else 3) ==>
              CmdZread(s, cmd, argv, now).0 == ReadZset(s, argv[1], now).0
    ensures CmdHgetall(s, argv[1], now).0 == GetHash(s, argv[1], now).0
  {
  }

  /** handle_command. Commands outside the list leave the data set alone. */
  ghost function Exec(s: State, argv: seq<Bytes>, now: int, atof: Bytes -> Score): (State, Reply)
  {
    if argv == [] then (s, Other)
    else
      var cmd := CStr(Upper(argv[0]));
      var n := |argv|;
      if cmd == "SET" then if n < 3 then (s, WrongArgs) else CmdSet(s, argv, now)
      else if cmd == "GET" then if n < 2 then (s, WrongArgs) else CmdGet(s, argv[1], now)
      else if cmd == "DEL" then
        if n < 2 then (s, WrongArgs) else var (s1, d) := DeleteKeys(s, argv[1..], now); (s1, Int(d))
      else if cmd == "EXISTS" then
        if n < 2 then (s, WrongArgs) else var (s1, d) := ExistKeys(s, argv[1..], now); (s1, Int(d))
      else if cmd == "INCR" then if n < 2 then (s, WrongArgs) else CmdIncr(s, argv[1], 1, now)
      else if cmd == "DECR" then if n < 2 then (s, WrongArgs) else CmdIncr(s, argv[1], -1, now)
      else if cmd == "TTL" then if n < 2 then (s, WrongArgs) else CmdTtl(s, argv[1], now)
      else if cmd == "EXPIRE" then if n < 3 then (s, WrongArgs) else CmdExpire(s, argv[1], argv[2], now)
      else if cmd == "FLUSHDB" then CmdFlush(s)
      else if cmd == "ZADD" then if n < 4 then (s, WrongArgs) else CmdZadd(s, argv[1], argv[2], argv[3], now, atof)
      else if cmd == "ZSCORE" || cmd == "ZRANK" then if n < 3 then (s, WrongArgs) else CmdZread(s, cmd, argv, now)
      else if cmd == "ZRANGE" then if n < 4 then (s, WrongArgs) else CmdZread(s, cmd, argv, now)
      else if cmd == "ZCARD" then if n < 2 then (s, WrongArgs) else CmdZread(s, cmd, argv, now)
      else if cmd == "APPEND" then if n < 3 then (s, WrongArgs) else CmdAppend(s, argv[1], argv[2], now)
      else if cmd == "SETNX" then if n < 3 then (s, WrongArgs) else CmdSetnx(s, argv[1], argv[2], now)
      else if cmd == "ZREM" then if n < 3 then (s, WrongArgs) else CmdZrem(s, argv[1], argv[2..], now)
      else if cmd == "HSET" then if n < 4 || (n - 2) % 2 != 0 then (s, WrongArgs) else CmdHset(s, argv, now)
      else if cmd == "HGETALL" then if n < 2 then (s, WrongArgs) else CmdHgetall(s, argv[1], now)
      else (s, Other)
  }

  // ----- what every command keeps -----

  ghost predicate Covered<V>(m: Store<V>, heap: multiset<ExpEntry>)
  {
    forall k :: k in m && m[k].expire > 0 ==> ExpEntry(k, m[k].expire) in heap
  }

  /** No key is both a string and a sorted set, and each of their deadlines is in the heap. */
  ghost predicate KeysOk(strings: Store<Bytes>, zsets: Store<Scores>, heap: multiset<ExpEntry>)
  {
    (forall k :: k in strings ==> k !in zsets) && Covered(strings, heap) && Covered(zsets, heap)
  }

  ghost predicate KeysInv(s: State) { KeysOk(s.strings, s.zsets, s.heap) }

  ghost predicate Sub<V>(m': Store<V>, m: Store<V>) { forall k :: k in m' ==> k in m && m'[k] == m[k] }

  /** Dropping keys keeps both properties. */
  lemma FewerKeys(s: State, s': State)
    requires KeysInv(s) && Sub(s'.strings, s.strings) && Sub(s'.zsets, s.zsets) && s.heap <= s'.heap
    ensures KeysInv(s')
  {
  }

  lemma ReadsAreSub(s: State, key: Bytes, now: int)
    ensures Sub(Purge(s.strings, key, now), s.strings) && Sub(Purge(s.zsets, key, now), s.zsets)
    ensures Sub(Delete(s.strings, key), s.strings) && Sub(Delete(s.zsets, key), s.zsets)
    ensures Get(s.strings, key, now).None? ==> key !in Purge(s.strings, key, now)
    ensures Get(s.zsets, key, now).None? ==> key !in Purge(s.zsets, key, now)
  {
  }

  lemma GettersKeep(s: State, key: Bytes, now: int)
    requires KeysInv(s)
    ensures KeysInv(GetString(s, key, now).0) && KeysInv(GetZset(s, key, now).0) && KeysInv(GetHash(s, key, now).0)
    ensures KeysInv(GetZset(GetString(s, key, now).0, key, now).0)
      && KeysInv(GetString(GetZset(s, key, now).0, key, now).0)
    ensures Get(s.strings, key, now).None? ==> key !in Purge(s.strings, key, now)
    ensures Get(s.zsets, key, now).None? ==> key !in Purge(s.zsets, key, now)
    ensures Get(s.strings, key, now).Some? ==> key !in s.zsets
  {
    hide KeysOk, Sub;
    ReadsAreSub(s, key, now);
    SubRefl(s.strings);
    SubRefl(s.zsets);
    FewerKeys(s, GetString(s, key, now).0);
    FewerKeys(s, GetZset(s, key, now).0);
    FewerKeys(s, GetHash(s, key, now).0);
    FewerKeys(s, GetZset(GetString(s, key, now).0, key, now).0);
    NotBoth(s, key);
  }

  lemma SubRefl<V>(m: Store<V>)
    ensures Sub(m, m)
  {
  }

  lemma NotBoth(s: State, key: Bytes)
    requires KeysInv(s)
    ensures key in s.strings ==> key !in s.zsets
  {
  }

  lemma DeleteKeyKeeps(s: State, key: Bytes, now: int)
    requires KeysInv(s)
    ensures var s' := DeleteKey(s, key, now).0; KeysInv(s') && key !in s'.zsets && key !in s'.strings
    ensures var (s', n) := ExistsKey(s, key, now); KeysInv(s') && (n != 1 ==> key !in s'.zsets)
  {
    hide KeysOk, Encode;
    GettersKeep(s, key, now);
    GettersKeep(GetString(s, key, now).0, key, now);
    GettersKeep(GetZset(GetString(s, key, now).0, key, now).0, key, now);
    DeleteOneKeeps(GetString(s, key, now).0, key);
    DeleteOneKeeps(GetZset(GetString(s, key, now).0, key, now).0, key);
  }

  lemma DeleteOneKeeps(s: State, key: Bytes)
    requires KeysInv(s)
    ensures KeysOk(Delete(s.strings, key), s.zsets, s.heap) && KeysOk(s.strings, Delete(s.zsets, key), s.heap)
  {
  }

  lemma SetKvKeeps(s: State, key: Bytes, val: Bytes, ttl: int, now: int)
    requires KeysInv(s) && key !in s.zsets
    ensures KeysInv(SetKv(s, key, val, ttl, now))
  {
    hide Encode;
  }

  lemma {:induction false} DeleteKeysKeep(s: State, keys: seq<Bytes>, now: int)
    requires KeysInv(s)
    ensures KeysInv(DeleteKeys(s, keys, now).0) && KeysInv(ExistKeys(s, keys, now).0)
  {
    hide KeysOk, DeleteKey, ExistsKey;
    if keys != [] {
      DeleteKeysKeep(s, keys[..|keys| - 1], now);
      DeleteKeyKeeps(DeleteKeys(s, keys[..|keys| - 1], now).0, keys[|keys| - 1], now);
      DeleteKeyKeeps(ExistKeys(s, keys[..|keys| - 1], now).0, keys[|keys| - 1], now);
    }
  }

  /** INCR, DECR, APPEND, SET and SETNX all end in a write to a key that is no sorted set. */
  lemma StringWritesKeep(s: State, argv: seq<Bytes>, step: int, now: int)
    requires KeysInv(s) && |argv| >= 2
    ensures KeysInv(CmdIncr(s, argv[1], step, now).0)
    ensures |argv| >= 3 ==> KeysInv(CmdSet(s, argv, now).0)
    ensures |argv| >= 3 ==> KeysInv(CmdAppend(s, argv[1], argv[2], now).0)
    ensures |argv| >= 3 ==> KeysInv(CmdSetnx(s, argv[1], argv[2], now).0)
  {
    hide KeysOk, SetKv, DeleteKey, ExistsKey, SetTtl, DecInt, Atoi;
    var key := argv[1];
    GettersKeep(s, key, now);
    var s1 := GetString(GetZset(s, key, now).0, key, now).0;
    GettersKeep(s1, key, now);
    DeleteKeyKeeps(s, key, now);
    forall val, ttl | key !in s1.zsets
      ensures KeysInv(SetKv(s1.(strings := Purge(s1.strings, key, now)), key, val, ttl, now)) {
      SetKvKeeps(s1.(strings := Purge(s1.strings, key, now)), key, val, ttl, now);
    }
    if |argv| >= 3 {
      SetKvKeeps(DeleteKey(s, key, now).0, key, argv[2], SetTtl(argv), now);
      if ExistsKey(s, key, now).1 != 1 { SetKvKeeps(ExistsKey(s, key, now).0, key, argv[2], 0, now); }
    }
  }

  lemma ZsetWriteKeeps(s: State, key: Bytes, item: Item<Scores>)
    requires KeysInv(s) && key !in s.strings
    requires item.expire == 0 || (key in s.zsets && item.expire == s.zsets[key].expire)
    ensures KeysOk(s.strings, s.zsets[key := item], s.heap)
  {
  }

  lemma ZsetCommandsKeep(s: State, key: Bytes, text: Bytes, member: Bytes, members: seq<Bytes>,
      now: int, atof: Bytes -> Score)
    requires KeysInv(s)
    ensures KeysInv(CmdZadd(s, key, text, member, now, atof).0)
    ensures KeysInv(CmdZrem(s, key, members, now).0)
    ensures KeysInv(ReadZset(s, key, now).0)
  {
    hide KeysOk, ZaddRecord, ZremRecords, RemoveMembers;
    GettersKeep(s, key, now);
    var s1 := GetString(s, key, now).0;
    GettersKeep(s1, key, now);
    var s2 := GetZset(s1, key, now).0;
    if Get(s.strings, key, now).None? {
      var old_ := if key in s2.zsets then s2.zsets[key] else Item(map[], 0);
      ZsetWriteKeeps(s2, key, old_.(val := old_.val[member := atof(text)]));
      assert s2.zsets[key := Item(map[], 0)][key := Item(map[member := atof(text)], 0)]
          == s2.zsets[key := Item(map[member := atof(text)], 0)];
      ZsetWriteKeeps(s2, key, old_.(val := RemoveMembers(old_.val, members).0));
    }
  }

  lemma CoveredAgain<V>(m: Store<V>, heap: multiset<ExpEntry>, key: Bytes, ttl: int, now: int)
    requires Covered(m, heap)
    ensures Covered(m, heap + multiset{ExpEntry(key, now + ttl)})
    ensures Covered(SetExpiry(m, key, ttl, now), heap + multiset{ExpEntry(key, now + ttl)})
  {
  }

  lemma ExpireKeeps(s: State, key: Bytes, text: Bytes, now: int)
    requires KeysInv(s)
    ensures KeysInv(CmdExpire(s, key, text, now).0)
  {
    hide Atoi, PrintedBulk, Covered;
    CoveredAgain(s.strings, s.heap, key, Atoi(text), now);
    CoveredAgain(s.zsets, s.heap, key, Atoi(text), now);
  }

  lemma OtherCommandsKeep(s: State, argv: seq<Bytes>, now: int)
    requires KeysInv(s)
    ensures KeysInv(CmdFlush(s).0)
    ensures |argv| >= 4 && |argv| % 2 == 0 ==> KeysInv(CmdHset(s, argv, now).0)
    ensures |argv| >= 2 ==> KeysInv(CmdGet(s, argv[1], now).0) && KeysInv(CmdTtl(s, argv[1], now).0)
                            && KeysInv(GetHash(s, argv[1], now).0)
  {
    hide SetFields, Encode;
    if |argv| >= 2 { GettersKeep(s, argv[1], now); }
  }

  /** Every command keeps the two key spaces apart and every deadline scheduled. */
  lemma ExecKeepsKeys(s: State, argv: seq<Bytes>, now: int, atof: Bytes -> Score)
    requires KeysInv(s)
    ensures KeysInv(Exec(s, argv, now, atof).0)
  {
    hide KeysInv, CStr, Upper, DeleteKeys, ExistKeys, CmdSet, CmdGet, CmdIncr, CmdTtl, CmdExpire, CmdFlush, CmdZadd,
        CmdZread, ReadZset, CmdAppend, CmdSetnx, CmdZrem, CmdHset, CmdHgetall, GetHash;
    OtherCommandsKeep(s, argv, now);
    if |argv| >= 2 {
      var key := argv[1];
      ReadStates(s, argv, now);
      DeleteKeysKeep(s, argv[1..], now);
      StringWritesKeep(s, argv, 1, now);
      StringWritesKeep(s, argv, -1, now);
      ZsetCommandsKeep(s, key, if |argv| > 2 then argv[2] else "", if |argv| > 3 then argv[3] else "", argv[2..], now, atof);
      if |argv| >= 3 { ExpireKeeps(s, key, argv[2], now); }
    }
  }
}
