/** What the commands mean to a client, and where lifetimes and deletions differ from what one might expect. */
module KeyspaceLaws {
  import opened Sds
  import opened Text
  import opened DictSpec
  import opened ExpHeap
  import opened Resp
  import opened Keyspace
  import opened Aof

  ghost predicate SameItem<V>(a: Store<V>, b: Store<V>, k: Bytes)
  {
    (k in a <==> k in b) && (k in a ==> a[k] == b[k])
  }

  ghost predicate SameAt(s: State, t: State, k: Bytes)
  {
    SameItem(s.strings, t.strings, k) && SameItem(s.zsets, t.zsets, k) && SameItem(s.hashes, t.hashes, k)
  }

  /** The key holds a live value of some type. */
  ghost predicate Holds(s: State, key: Bytes, now: int)
  {
    Get(s.strings, key, now).Some? || Get(s.zsets, key, now).Some? || Get(s.hashes, key, now).Some?
  }

  ghost function Name(argv: seq<Bytes>): Bytes
    requires argv != []
  {
    CStr(Upper(argv[0]))
  }

  // ----- keys that are not named -----

  lemma SameTrans(s: State, t: State, u: State, k: Bytes)
    requires SameAt(s, t, k) && SameAt(t, u, k)
    ensures SameAt(s, u, k)
  {
  }

  lemma SameSelf(s: State, k: Bytes)
    ensures SameAt(s, s, k)
  {
  }

  lemma ReadsTouchOne(s: State, key: Bytes, now: int, k: Bytes)
    requires k != key
    ensures SameAt(s, GetString(s, key, now).0, k) && SameAt(s, GetZset(s, key, now).0, k)
      && SameAt(s, GetHash(s, key, now).0, k)
  {
  }

  lemma TwoReadsTouchOne(s: State, key: Bytes, now: int, k: Bytes)
    requires k != key
    ensures SameAt(s, GetString(GetZset(s, key, now).0, key, now).0, k)
      && SameAt(s, GetZset(GetString(s, key, now).0, key, now).0, k)
  {
    hide SameAt, GetString, GetZset;
    ReadsTouchOne(s, key, now, k);
    ReadsTouchOne(GetZset(s, key, now).0, key, now, k);
    ReadsTouchOne(GetString(s, key, now).0, key, now, k);
    SameTrans(s, GetZset(s, key, now).0, GetString(GetZset(s, key, now).0, key, now).0, k);
    SameTrans(s, GetString(s, key, now).0, GetZset(GetString(s, key, now).0, key, now).0, k);
  }

  lemma WritesTouchOne(s: State, key: Bytes, val: Bytes, ttl: int, now: int, k: Bytes)
    requires k != key
    ensures SameAt(s, SetKv(s, key, val, ttl, now), k)
  {
    hide Encode;
  }

  lemma RewriteTouchesOne(s: State, key: Bytes, val: Bytes, now: int, k: Bytes)
    requires k != key
    ensures SameAt(s, Rewrite(s, key, val, now), k)
  {
    hide SetKv, SameAt;
    var s1 := s.(strings := Purge(s.strings, key, now));
    ReadsTouchOne(s, key, now, k);
    WritesTouchOne(s1, key, val, TtlLeft(GetExpiry(s.strings, key, now), now), now, k);
    SameTrans(s, s1, Rewrite(s, key, val, now), k);
  }

  lemma DeleteTouchesOne(s: State, key: Bytes, now: int, k: Bytes)
    requires k != key
    ensures SameAt(s, DeleteKey(s, key, now).0, k) && SameAt(s, ExistsKey(s, key, now).0, k)
  {
    hide Encode;
  }

  lemma {:induction false} DeletedKeysOnly(s: State, keys: seq<Bytes>, now: int, k: Bytes)
    requires k !in keys
    ensures SameAt(s, DeleteKeys(s, keys, now).0, k) && SameAt(s, ExistKeys(s, keys, now).0, k)
  {
    if keys == [] {
    } else {
      hide DeleteKey, ExistsKey, SameAt;
      var last := |keys| - 1;
      DeletedKeysOnly(s, keys[..last], now, k);
      var d, e := DeleteKeys(s, keys[..last], now).0, ExistKeys(s, keys[..last], now).0;
      DeleteTouchesOne(d, keys[last], now, k);
      DeleteTouchesOne(e, keys[last], now, k);
      SameTrans(s, d, DeleteKeys(s, keys, now).0, k);
      SameTrans(s, e, ExistKeys(s, keys, now).0, k);
    }
  }

  lemma IncrTouchesOne(s: State, key: Bytes, step: int, suffix: Bytes, now: int, k: Bytes)
    requires k != key
    ensures SameAt(s, CmdIncr(s, key, step, now).0, k) && SameAt(s, CmdAppend(s, key, suffix, now).0, k)
  {
    hide SameAt, GetString, GetZset, Rewrite, Atoi, DecInt;
    ReadsTouchOne(s, key, now, k);
    TwoReadsTouchOne(s, key, now, k);
    var (s2, cur) := GetString(GetZset(s, key, now).0, key, now);
    var n := DecInt((if cur.Some? then Atoi(cur.value) else 0) + step);
    var t := (if cur.Some? then cur.value else []) + suffix;
    RewriteTouchesOne(s2, key, n, now, k);
    RewriteTouchesOne(s2, key, t, now, k);
    SameTrans(s, s2, Rewrite(s2, key, n, now), k);
    SameTrans(s, s2, Rewrite(s2, key, t, now), k);
  }

  lemma StringsTouchOne(s: State, argv: seq<Bytes>, now: int, k: Bytes)
    requires |argv| >= 3 && k != argv[1]
    ensures SameAt(s, CmdSet(s, argv, now).0, k) && SameAt(s, CmdSetnx(s, argv[1], argv[2], now).0, k)
    ensures SameAt(s, CmdExpire(s, argv[1], argv[2], now).0, k)
  {
    assert SameAt(s, CmdExpire(s, argv[1], argv[2], now).0, k) by { hide Atoi, PrintedBulk; }
    hide SameAt, DeleteKey, ExistsKey, SetKv, SetTtl, CmdExpire;
    var key := argv[1];
    DeleteTouchesOne(s, key, now, k);
    var d, e := DeleteKey(s, key, now).0, ExistsKey(s, key, now).0;
    WritesTouchOne(d, key, argv[2], SetTtl(argv), now, k);
    WritesTouchOne(e, key, argv[2], 0, now, k);
    SameTrans(s, d, SetKv(d, key, argv[2], SetTtl(argv), now), k);
    SameTrans(s, e, SetKv(e, key, argv[2], 0, now), k);
  }

  lemma LooksTouchOne(s: State, key: Bytes, now: int, k: Bytes)
    requires k != key
    ensures SameAt(s, CmdGet(s, key, now).0, k) && SameAt(s, CmdTtl(s, key, now).0, k)
      && SameAt(s, ReadZset(s, key, now).0, k)
  {
    hide SameAt, GetString, GetZset;
    ReadsTouchOne(s, key, now, k);
    TwoReadsTouchOne(s, key, now, k);
  }

  lemma ZremTouchesOne(s: State, key: Bytes, members: seq<Bytes>, now: int, k: Bytes)
    requires k != key
    ensures SameAt(s, CmdZrem(s, key, members, now).0, k)
  {
    hide RemoveMembers, ZremRecords;
  }

  lemma ZaddTouchesOne(s: State, key: Bytes, text: Bytes, member: Bytes, now: int, atof: Bytes -> Score, k: Bytes)
    requires k != key
    ensures SameAt(s, CmdZadd(s, key, text, member, now, atof).0, k)
  {
    hide ZaddRecord;
  }

  lemma HsetTouchesOne(s: State, argv: seq<Bytes>, now: int, k: Bytes)
    requires |argv| >= 4 && k != argv[1]
    ensures |argv| % 2 == 0 ==> SameAt(s, CmdHset(s, argv, now).0, k)
  {
    hide Encode, SetFields;
  }

  /** Every command but FLUSHDB leaves alone whatever is stored under a key it does not name. */
  lemma OnlyNamedKeys(s: State, argv: seq<Bytes>, now: int, atof: Bytes -> Score, k: Bytes)
    requires argv != [] && k !in argv[1..] && Name(argv) != "FLUSHDB"
    ensures SameAt(s, Exec(s, argv, now, atof).0, k)
  {
    hide CStr, Upper, DeleteKeys, ExistKeys, CmdSet, CmdGet, CmdIncr, CmdTtl, CmdExpire, CmdZadd, CmdZread, ReadZset,
         CmdAppend, CmdSetnx, CmdZrem, CmdHset, CmdHgetall, GetHash, SameAt;
    SameSelf(s, k);
    if |argv| >= 2 {
      ReadStates(s, argv, now);
      assert argv[1] == argv[1..][0];
      DeletedKeysOnly(s, argv[1..], now, k);
      var suffix := if |argv| >= 3 then argv[2] else "";
      IncrTouchesOne(s, argv[1], 1, suffix, now, k);
      IncrTouchesOne(s, argv[1], -1, suffix, now, k);
      LooksTouchOne(s, argv[1], now, k);
      ReadsTouchOne(s, argv[1], now, k);
      if |argv| >= 3 {
        StringsTouchOne(s, argv, now, k);
        ZremTouchesOne(s, argv[1], argv[2..], now, k);
        if |argv| >= 4 {
          ZaddTouchesOne(s, argv[1], argv[2], argv[3], now, atof, k);
          HsetTouchesOne(s, argv, now, k);
        }
      }
    }
  }

  // ----- strings -----

  /** What some reads run. */
  lemma ReadsRun(s: State, key: Bytes, now: int, atof: Bytes -> Score)
    ensures Exec(s, ["GET", key], now, atof) == CmdGet(s, key, now)
    ensures Exec(s, ["TTL", key], now, atof) == CmdTtl(s, key, now)
  {
    UpperLiteral("GET");
    UpperLiteral("TTL");
    hide CStr, Upper, CmdSet, CmdGet, DeleteKeys, ExistKeys, CmdIncr, CmdTtl, CmdExpire, CmdFlush, CmdZadd, CmdZread,
        CmdAppend, CmdSetnx, CmdZrem, CmdHset, CmdHgetall;
  }

  lemma HgetallRuns(s: State, key: Bytes, now: int, atof: Bytes -> Score)
    ensures Exec(s, ["HGETALL", key], now, atof) == CmdHgetall(s, key, now)
  {
    UpperLiteral("HGETALL");
    hide CStr, Upper, CmdSet, CmdGet, DeleteKeys, ExistKeys, CmdIncr, CmdTtl, CmdExpire, CmdFlush, CmdZadd, CmdZread,
        CmdAppend, CmdSetnx, CmdZrem, CmdHset, CmdHgetall;
  }

  lemma ZsetReadsRun(s: State, key: Bytes, member: Bytes, now: int, atof: Bytes -> Score)
    ensures var (s', z) := ReadZset(s, key, now); z.Some? ==>
              && Exec(s, ["ZCARD", key], now, atof).1 == CardReply(z.value)
              && Exec(s, ["ZSCORE", key, member], now, atof).1 == ScoreReply(z.value, member)
  {
    UpperLiteral("ZCARD");
    UpperLiteral("ZSCORE");
    hide CStr, Upper, ReadZset, CardReply, ScoreReply, CmdSet, CmdGet, DeleteKeys, ExistKeys, CmdIncr, CmdTtl, CmdExpire,
        CmdFlush, CmdZadd, CmdAppend, CmdSetnx, CmdZrem, CmdHset, CmdHgetall;
  }

  /** The text spells the word in upper or lower case, up to its end or its first NUL. */
  ghost predicate Spells(text: Bytes, word: Bytes)
  {
    && |word| <= |text| && (|word| < |text| ==> text[|word|] == '\0')
    && forall i :: 0 <= i < |word| ==> text[i] == word[i] || text[i] as int == word[i] as int + 32
  }

  lemma {:induction false} UpperSpells(text: Bytes, word: Bytes)
    requires forall i :: 0 <= i < |word| ==> 'A' <= word[i] <= 'Z'
    ensures CStr(Upper(text)) == word <==> Spells(text, word)
  {
    if text != [] && word != [] {
      UpperSpells(text[1..], word[1..]);
      assert Upper(text)[1..] == Upper(text[1..]);
      assert word == [word[0]] + word[1..];
      if Spells(text[1..], word[1..]) && (text[0] == word[0] || text[0] as int == word[0] as int + 32) {
        forall i | 0 <= i < |word| ensures text[i] == word[i] || text[i] as int == word[i] as int + 32 {
          if i > 0 { assert text[i] == text[1..][i - 1] && word[i] == word[1..][i - 1]; }
        }
      }
    }
  }

  /** The seconds a SET gives: those after an EX in its fourth word. */
  ghost function Seconds(argv: seq<Bytes>): int
  {
    if |argv| >= 5 && Spells(argv[3], "EX") then Atoi(argv[4]) else 0
  }

  lemma SecondsAreTtl(argv: seq<Bytes>)
    ensures SetTtl(argv) == Seconds(argv)
  {
    if |argv| >= 5 { UpperSpells(argv[3], "EX"); }
  }

  /** GET after SET answers the text until its lifetime has passed, TTL the seconds left, and a hash survives under the key
      exactly when a string or sorted set was there to be deleted in its place. */
  lemma SetThenGet(s: State, argv: seq<Bytes>, now: int, later: int, atof: Bytes -> Score)
    requires |argv| >= 3 && Name(argv) == "SET" && KeysInv(s) && 0 <= now <= later
    ensures var (s', reply) := Exec(s, argv, now, atof); var key, ttl := argv[1], Seconds(argv);
            && reply == Ok
            && Exec(s', ["GET", key], later, atof).1 == (if ttl <= 0 || later <= now + ttl then Text(argv[2]) else Null)
            && Exec(s', ["TTL", key], later, atof).1
               == Int(if ttl <= 0 then -1 else if later <= now + ttl then now + ttl - later else -2)
            && (Get(s'.hashes, key, now).Some?
                <==> Get(s.hashes, key, now).Some?
                     && (Get(s.strings, key, now).Some? || Get(s.zsets, key, now).Some?))
  {
    hide CStr, Upper, SetTtl, Seconds, Encode, KeysOk, Exec;
    SecondsAreTtl(argv);
    ExecSet(s, argv, now, atof);
    var s' := CmdSet(s, argv, now).0;
    ReadsRun(s', argv[1], later, atof);
    GettersKeep(s, argv[1], now);
    DeleteKeyKeeps(s, argv[1], now);
    SetStores(s, argv, now);
  }

  lemma ExecSet(s: State, argv: seq<Bytes>, now: int, atof: Bytes -> Score)
    requires |argv| >= 3 && Name(argv) == "SET"
    ensures Exec(s, argv, now, atof) == CmdSet(s, argv, now)
  {
    hide CStr, Upper, CmdSet;
  }

  lemma SetStores(s: State, argv: seq<Bytes>, now: int)
    requires |argv| >= 3
    ensures var s', d := CmdSet(s, argv, now).0, DeleteKey(s, argv[1], now).0;
            && s'.strings == d.strings[argv[1] := Item(argv[2], Deadline(SetTtl(argv), now))]
            && s'.zsets == d.zsets && s'.hashes == d.hashes
  {
    hide SetTtl, DeleteKey, SetKv;
    SetKvStores(DeleteKey(s, argv[1], now).0, argv[1], argv[2], SetTtl(argv), now);
  }

  lemma SetKvStores(s: State, key: Bytes, val: Bytes, ttl: int, now: int)
    ensures var s' := SetKv(s, key, val, ttl, now);
            s'.strings == Put(s.strings, key, val, ttl, now) && s'.zsets == s.zsets && s'.hashes == s.hashes
  {
    hide Encode;
  }

  /** A string or a sorted set under the key is served. */
  ghost predicate Served(s: State, key: Bytes, now: int)
  {
    Get(s.strings, key, now).Some? || Get(s.zsets, key, now).Some?
  }

  ghost predicate ServesSame<V(!new)>(m: Store<V>, m': Store<V>, now: int)
  {
    forall k, t :: t >= now ==> Get(m', k, t) == Get(m, k, t)
  }

  /** Nothing that is served from now on has changed. */
  ghost predicate SameServed(s: State, s': State, now: int)
  {
    ServesSame(s.strings, s'.strings, now) && ServesSame(s.zsets, s'.zsets, now) && ServesSame(s.hashes, s'.hashes, now)
  }

  /** GET answers the text served, refuses a sorted set, and changes nothing that is served. */
  ghost predicate GetTells(s: State, key: Bytes, now: int, s': State, reply: Reply)
  {
    && (reply == WrongType <==> Get(s.zsets, key, now).Some?)
    && (forall v :: reply == Text(v) <==> Get(s.zsets, key, now).None? && Get(s.strings, key, now) == Some(v))
    && (reply == Null <==> !Served(s, key, now))
    && SameServed(s, s', now)
  }

  lemma GetMeans(s: State, key: Bytes, now: int)
    ensures var (s', reply) := CmdGet(s, key, now); GetTells(s, key, now, s', reply)
  {
  }

  /** EXISTS counts a key that holds something, and changes nothing that is served. */
  ghost predicate ExistsTells(s: State, key: Bytes, now: int, s': State, n: int)
  {
    n == (if Holds(s, key, now) then 1 else 0) && SameServed(s, s', now)
  }

  lemma ExistsMeans(s: State, key: Bytes, now: int)
    ensures var (s', n) := ExistsKey(s, key, now); ExistsTells(s, key, now, s', n)
  {
  }

  /** TTL tells how long a string or sorted set will be served: -2 if it is not, -1 for ever, and else the seconds to the
      last one inclusive. A hash is not looked at, and nothing that is served changes. */
  ghost predicate TtlTells(s: State, key: Bytes, now: int, s': State, reply: Reply)
  {
    && reply.Int? && reply.n >= -2 && (reply.n == -2 <==> !Served(s, key, now))
    && SameServed(s, s', now)
    && (KeysInv(s) && Scheduled(s.strings, key) && Scheduled(s.zsets, key) ==>
          && (reply.n == -1 ==> forall t :: t >= now ==> Served(s, key, t))
          && (reply.n >= 0 ==> forall t :: t >= now ==> (Served(s, key, t) <==> t <= now + reply.n)))
  }

  /** Deadlines are not negative. */
  ghost predicate Scheduled<V>(m: Store<V>, key: Bytes) { key in m ==> m[key].expire >= 0 }

  lemma TtlMeans(s: State, key: Bytes, now: int)
    ensures var (s', reply) := CmdTtl(s, key, now); TtlTells(s, key, now, s', reply)
  {
    hide KeysOk;
    if KeysInv(s) { NotBoth(s, key); }
  }

  /** After FLUSHDB no string or sorted set is served under any key; hashes and scheduled deadlines stay. */
  ghost predicate FlushTells(s: State, s': State)
  {
    s'.hashes == s.hashes && s'.heap == s.heap && forall k, t :: !Served(s', k, t)
  }

  lemma FlushMeans(s: State)
    ensures FlushTells(s, CmdFlush(s).0)
  {
  }

  /** What GET, EXISTS, TTL and FLUSHDB tell, said of the commands. */
  lemma ReadLaws(s: State, argv: seq<Bytes>, now: int, atof: Bytes -> Score)
    requires argv != []
    ensures var (s', reply) := Exec(s, argv, now, atof);
            && (|argv| >= 2 && Name(argv) == "GET" ==> GetTells(s, argv[1], now, s', reply))
            && (|argv| >= 2 && Name(argv) == "TTL" ==> TtlTells(s, argv[1], now, s', reply))
            && (Name(argv) == "FLUSHDB" ==> FlushTells(s, s'))
  {
    hide CStr, Upper, GetTells, TtlTells, FlushTells, CmdGet, CmdTtl, CmdFlush;
    FlushMeans(s);
    if |argv| >= 2 {
      GetMeans(s, argv[1], now);
      TtlMeans(s, argv[1], now);
    }
  }

  /** Then GET and TTL find nothing, and HGETALL answers as before. */
  lemma FlushLaw(s: State, argv: seq<Bytes>, now: int, key: Bytes, later: int, atof: Bytes -> Score)
    requires argv != [] && Name(argv) == "FLUSHDB"
    ensures var s' := Exec(s, argv, now, atof).0;
            && Exec(s', ["GET", key], later, atof).1 == Null && Exec(s', ["TTL", key], later, atof).1 == Int(-2)
            && Exec(s', ["HGETALL", key], later, atof).1 == Exec(s, ["HGETALL", key], later, atof).1
            && (Holds(s', key, later) <==> Get(s.hashes, key, later).Some?)
  {
    hide CStr, Upper, Exec;
    ExecFlush(s, argv, now, atof);
    HgetallRuns(s, key, later, atof);
    HgetallRuns(CmdFlush(s).0, key, later, atof);
    ReadsRun(CmdFlush(s).0, key, later, atof);
  }

  lemma ExecFlush(s: State, argv: seq<Bytes>, now: int, atof: Bytes -> Score)
    requires argv != [] && Name(argv) == "FLUSHDB"
    ensures Exec(s, argv, now, atof) == CmdFlush(s)
  {
    hide CStr, Upper;
  }

  lemma AtoiOfDecInt(n: int)
    ensures Atoi(DecInt(n)) == n
  {
    if n < 0 {
      DigitsOfDec(-n);
      assert DecInt(n)[0] == '-' && DecInt(n)[1..] == Dec(-n);
    } else {
      AtoiOfDec(n);
    }
  }

  ghost function Number(s: State, key: Bytes, now: int): int
  {
    var v := Get(s.strings, key, now);
    if v.Some? then Atoi(v.value) else 0
  }

  ghost predicate IsIncr(argv: seq<Bytes>, step: int)
  {
    argv != [] && |argv| >= 2 && ((Name(argv) == "INCR" && step == 1) || (Name(argv) == "DECR" && step == -1))
  }

  /** INCR and DECR move the number by one, from zero if there was none, and say so. */
  lemma IncrCounts(s: State, argv: seq<Bytes>, step: int, now: int, atof: Bytes -> Score)
    requires IsIncr(argv, step) && KeysInv(s) && now >= 0 && Get(s.zsets, argv[1], now).None?
    ensures var (s', reply) := Exec(s, argv, now, atof);
            && reply == Int(Number(s, argv[1], now) + step)
            && Get(s'.strings, argv[1], now) == Some(DecInt(Number(s, argv[1], now) + step))
            && Number(s', argv[1], now) == Number(s, argv[1], now) + step
            && Get(s'.zsets, argv[1], now).None?
  {
    hide CStr, Upper, Encode, KeysOk, Atoi, DecInt;
    assert Exec(s, argv, now, atof) == CmdIncr(s, argv[1], step, now);
    AtoiOfDecInt(Number(s, argv[1], now) + step);
  }

  /** INCR, DECR and APPEND keep the deadline of a live text, except in its very last second: then it is still served
      but has no seconds left to carry over, and the new text never expires. */
  lemma DeadlineKept(s: State, key: Bytes, val: Bytes, now: int)
    requires Live(s.strings, key, now) && s.strings[key].expire >= 0
    ensures var m := Rewrite(s, key, val, now).strings;
            && key in m && m[key].val == val
            && (m[key].expire == s.strings[key].expire <==> s.strings[key].expire == 0 || s.strings[key].expire != now)
            && (s.strings[key].expire == now > 0 ==> m[key].expire == 0)
  {
    hide Encode;
  }

  /** A text in its last second lives for ever once it is appended to. */
  lemma LastSecondAppend(s: State, key: Bytes, text: Bytes, suffix: Bytes, now: int, atof: Bytes -> Score)
    requires now > 0 && s.strings == map[key := Item(text, now)] && s.zsets == map[]
    ensures var s' := Exec(s, ["APPEND", key, suffix], now, atof).0;
            s'.strings == map[key := Item(text + suffix, 0)]
  {
    UpperLiteral("APPEND");
    hide CStr, Upper, Encode;
    assert Exec(s, ["APPEND", key, suffix], now, atof) == CmdAppend(s, key, suffix, now);
    assert Live(s.strings, key, now);
  }

  // ----- existence -----

  /** DEL removes one of a key's values, the string or the sorted set before the hash: the key is gone exactly when it
      did not also hold a hash. */
  lemma DeleteLaw(s: State, key: Bytes, now: int)
    requires KeysInv(s)
    ensures var (s', n) := DeleteKey(s, key, now);
            && n == (if Holds(s, key, now) then 1 else 0)
            && (Holds(s', key, now)
                <==> Get(s.hashes, key, now).Some? && (Get(s.strings, key, now).Some? || Get(s.zsets, key, now).Some?))
  {
    hide Encode, KeysOk;
    NotBoth(s, key);
  }

  /** SETNX stores exactly when the key holds nothing, and EXISTS tells. */
  lemma SetnxLaw(s: State, argv: seq<Bytes>, now: int, atof: Bytes -> Score)
    requires |argv| >= 3 && Name(argv) == "SETNX"
    ensures var (s', reply) := Exec(s, argv, now, atof);
            if Holds(s, argv[1], now) then reply == Int(0) && s'.strings == Purge(s.strings, argv[1], now)
            else reply == Int(1) && s'.strings == s.strings[argv[1] := Item(argv[2], 0)]
    ensures ExistsKey(s, argv[1], now).1 == if Holds(s, argv[1], now) then 1 else 0
  {
    hide CStr, Upper, Encode;
    assert Exec(s, argv, now, atof) == CmdSetnx(s, argv[1], argv[2], now);
  }

  /** What is left of a value that is to end after ttl seconds; none or fewer make it permanent. */
  function LeftOf<V>(val: V, ttl: int, now: int, later: int): Option<V>
  {
    if ttl > 0 && later > now + ttl then None else Some(val)
  }

  /** EXPIRE ends a string, or else a sorted set, after the given seconds; with none or fewer it does the opposite, and the
      key never ends. Nothing else changes what is served. */
  lemma ExpireLaw(s: State, argv: seq<Bytes>, now: int, later: int, atof: Bytes -> Score)
    requires |argv| >= 3 && Name(argv) == "EXPIRE" && 0 <= now <= later
    ensures var (s', reply) := Exec(s, argv, now, atof); var key, ttl := argv[1], Atoi(argv[2]);
            && s'.hashes == s.hashes
            && (key in s.strings ==>
                  reply == Int(1) && s'.zsets == s.zsets
                  && Get(s'.strings, key, later) == LeftOf(s.strings[key].val, ttl, now, later))
            && (key !in s.strings && key in s.zsets ==>
                  reply == Int(1) && s'.strings == s.strings
                  && Get(s'.zsets, key, later) == LeftOf(s.zsets[key].val, ttl, now, later))
            && (key !in s.strings && key !in s.zsets ==> reply == Int(0) && s' == s)
  {
    hide CStr, Upper, PrintedBulk, Atoi;
    assert Exec(s, argv, now, atof) == CmdExpire(s, argv[1], argv[2], now);
  }

  // ----- sorted sets and hashes -----

  ghost predicate Removed(z: Scores, members: seq<Bytes>, z': Scores)
  {
    (forall x :: x in z' <==> x in z && x !in members) && forall x :: x in z' ==> z'[x] == z[x]
  }

  /** ZREM removes exactly the named members and counts those that were there. */
  lemma {:induction false} RemovedMembers(z: Scores, members: seq<Bytes>)
    ensures var (z', n) := RemoveMembers(z, members); n == |z| - |z'| && Removed(z, members, z')
  {
    if members != [] {
      var last := |members| - 1;
      hide Removed;
      RemovedMembers(z, members[..last]);
      OneRemoved(RemoveMembers(z, members[..last]).0, members[last]);
      OneMoreRemoved(z, members, RemoveMembers(z, members[..last]).0);
    }
  }

  lemma OneMoreRemoved(z: Scores, members: seq<Bytes>, z1: Scores)
    requires members != [] && Removed(z, members[..|members| - 1], z1)
    ensures Removed(z, members, z1 - {members[|members| - 1]})
  {
    assert members == members[..|members| - 1] + [members[|members| - 1]];
  }

  lemma OneRemoved(z: Scores, m: Bytes)
    ensures |z - {m}| == |z| - if m in z then 1 else 0
  {
    assert (z - {m}).Keys == z.Keys - {m};
    assert |z| == |z.Keys| && |z - {m}| == |(z - {m}).Keys|;
  }

  /** The value HSET leaves for a field: the last one given, or the old one. */
  ghost function LastValue(h: Fields, pairs: seq<Bytes>, f: Bytes): Option<Bytes>
    requires |pairs| % 2 == 0
  {
    if pairs == [] then (if f in h then Some(h[f]) else None)
    else if pairs[|pairs| - 2] == f then Some(pairs[|pairs| - 1])
    else LastValue(h, pairs[..|pairs| - 2], f)
  }

  /** HSET counts the fields that are new to the hash. */
  lemma {:induction false} StoredFields(h: Fields, pairs: seq<Bytes>)
    requires |pairs| % 2 == 0
    ensures var (h', n) := SetFields(h, pairs);
            && n == |h'| - |h|
            && forall f :: (f in h' <==> LastValue(h, pairs, f).Some?) && (f in h' ==> h'[f] == LastValue(h, pairs, f).value)
    decreases |pairs|
  {
    if pairs != [] {
      StoredFields(h, pairs[..|pairs| - 2]);
      var h1 := SetFields(h, pairs[..|pairs| - 2]).0;
      var f, v := pairs[|pairs| - 2], pairs[|pairs| - 1];
      assert h1[f := v].Keys == h1.Keys + {f};
      assert |h1[f := v]| == |h1[f := v].Keys| && |h1| == |h1.Keys|;
    }
  }

  /** ZADD stores the score and reports whether the member is new; the other members keep theirs. ZSCORE reads it back and
      ZCARD counts it, as long as the key is served. */
  lemma ZaddLaw(s: State, argv: seq<Bytes>, now: int, later: int, atof: Bytes -> Score)
    requires |argv| >= 4 && Name(argv) == "ZADD" && Get(s.strings, argv[1], now).None? && now <= later
    ensures var before := Get(s.zsets, argv[1], now); var z := if before.Some? then before.value else map[];
            var (s', reply) := Exec(s, argv, now, atof);
            && reply == Int(if argv[3] in z then 0 else 1)
            && Get(s'.zsets, argv[1], now) == Some(z[argv[3] := atof(argv[2])])
            && (Get(s'.zsets, argv[1], later).Some? ==>
                  && Exec(s', ["ZSCORE", argv[1], argv[3]], later, atof).1 == Double(atof(argv[2]))
                  && Exec(s', ["ZCARD", argv[1]], later, atof).1 == Int(|z| + if argv[3] in z then 0 else 1))
  {
    hide CStr, Upper, CmdZadd, Exec;
    ExecZadd(s, argv, now, atof);
    var s' := CmdZadd(s, argv[1], argv[2], argv[3], now, atof).0;
    var before := Get(s.zsets, argv[1], now);
    var z := if before.Some? then before.value else map[];
    ZaddMeans(s, argv[1], argv[2], argv[3], now, atof);
    ZsetReadsRun(s', argv[1], argv[3], later, atof);
    OneAdded(z, argv[3], atof(argv[2]));
  }

  /** ZADD refuses a string's key; otherwise the sorted set served there, or an empty one, has the score, all other members,
      the deadline and every other key stay as they are, and the reply tells a new member. */
  ghost predicate ZaddTells(s: State, key: Bytes, member: Bytes, score: Score, now: int, s': State, reply: Reply)
  {
    if Get(s.strings, key, now).Some? then reply == WrongType && SameServed(s, s', now)
    else
      var before := Get(s.zsets, key, now); var z := if before.Some? then before.value else map[];
      && reply == Int(if member in z then 0 else 1) && key !in s'.strings
      && key in s'.zsets && s'.zsets[key].val == z[member := score]
      && s'.zsets[key].expire == (if before.Some? then s.zsets[key].expire else 0)
      && Get(s'.zsets, key, now) == Some(z[member := score]) && s'.hashes == s.hashes
      && forall k :: k != key ==> SameAt(s, s', k)
  }

  lemma ZaddMeans(s: State, key: Bytes, text: Bytes, member: Bytes, now: int, atof: Bytes -> Score)
    ensures var (s', reply) := CmdZadd(s, key, text, member, now, atof);
            ZaddTells(s, key, member, atof(text), now, s', reply)
  {
    hide ZaddRecord;
  }

  lemma ExecZadd(s: State, argv: seq<Bytes>, now: int, atof: Bytes -> Score)
    requires |argv| >= 4 && Name(argv) == "ZADD"
    ensures Exec(s, argv, now, atof) == CmdZadd(s, argv[1], argv[2], argv[3], now, atof)
  {
    hide CStr, Upper, CmdZadd;
  }

  lemma OneAdded(z: Scores, m: Bytes, score: Score)
    ensures |z[m := score]| == |z| + if m in z then 0 else 1
  {
    assert z[m := score].Keys == z.Keys + {m};
    assert |z| == |z.Keys| && |z[m := score]| == |z[m := score].Keys|;
  }

  // ----- hashes and the log -----

  ghost function SetRecords(s: State, key: Bytes, val: Bytes): seq<seq<Bytes>>
  {
    (if key in s.strings || key in s.zsets || key in s.hashes then [["DEL", key]] else []) + [["SET", key, val]]
  }

  lemma SetWritesRecords(s: State, argv: seq<Bytes>, now: int)
    requires |argv| >= 3 && s.aof.Some? && Timeless(s) && Eternal(s.hashes)
    ensures CmdSet(s, argv, now).0.aof == Some(s.aof.value + Log(SetRecords(s, argv[1], argv[2])))
  {
    hide Encode, KeysOk, SetTtl;
    var del, set_ := ["DEL", argv[1]], ["SET", argv[1], argv[2]];
    LogOfTwo(del, set_);
    assert s.aof.value + Encode(del) + Encode(set_) == s.aof.value + (Encode(del) + Encode(set_));
  }

  lemma LogOfTwo(a: seq<Bytes>, b: seq<Bytes>)
    ensures Log([a] + [b]) == Encode(a) + Encode(b) && Log([] + [b]) == Encode(b)
  {
    hide Encode;
    assert ([a] + [b])[1..] == [b] && [b][1..] == [] && ([] + [b]) == [b];
    assert Log([b]) == Encode(b);
  }

  lemma ReplayOfTwo(r: State, a: seq<Bytes>, b: seq<Bytes>, clock: nat -> int, atof: Bytes -> Score)
    ensures Replay(r, [a] + [b], clock, 0, atof) == Exec(Exec(r, a, clock(0), atof).0, b, clock(1), atof).0
    ensures Replay(r, [] + [b], clock, 0, atof) == Exec(r, b, clock(0), atof).0
  {
    hide Exec;
    assert ([a] + [b])[1..] == [b] && [b][1..] == [] && ([] + [b]) == [b];
    assert Replay(r, [b], clock, 0, atof) == Exec(r, b, clock(0), atof).0;
    var mid := Exec(r, a, clock(0), atof).0;
    assert Replay(mid, [b], clock, 1, atof) == Exec(mid, b, clock(1), atof).0;
    assert ([a] + [b])[0] == a;
  }

  lemma DeleteEffect(s: State, key: Bytes, now: int)
    requires Eternal(s.strings) && Eternal(s.zsets) && Eternal(s.hashes) && (key in s.strings ==> key !in s.zsets)
    ensures var d := DeleteKey(s, key, now).0;
            && key !in d.strings && key !in d.zsets
            && d.hashes == if key in s.strings || key in s.zsets then s.hashes else s.hashes - {key}
  {
    hide Encode;
  }

  lemma DeleteAgain(s: State, key: Bytes, now: int)
    requires key !in s.strings && key !in s.zsets && Eternal(s.hashes)
    ensures DeleteKey(s, key, now).0.hashes == s.hashes - {key}
  {
    hide Encode;
  }

  /** A SET is replayed as DEL and SET, and the replayed SET deletes once more: the hashes agree afterwards exactly when
      the key did not hold a hash beside its string or sorted set. */
  lemma SetReplayAndHashes(s: State, r: State, argv: seq<Bytes>, now: int, clock: nat -> int,
      atof: Bytes -> Score)
    requires |argv| >= 3 && s.aof.Some? && Mirrors(s, r) && r.hashes == s.hashes && Eternal(s.hashes)
    ensures Replay(r, SetRecords(s, argv[1], argv[2]), clock, 0, atof).hashes == CmdSet(s, argv, now).0.hashes
            <==> !(argv[1] in s.hashes && (argv[1] in s.strings || argv[1] in s.zsets))
  {
    hide Replay, CmdSet, KeysOk, SetRecords;
    TimelessReplica(s, r);
    LiveHashes(s, argv, now);
    ReplayedHashes(r, argv[1], argv[2], clock, atof);
    SameRecords(s, r, argv[1], argv[2]);
  }

  lemma SameRecords(s: State, r: State, key: Bytes, val: Bytes)
    requires r.strings == s.strings && r.zsets == s.zsets && r.hashes == s.hashes
    ensures SetRecords(s, key, val) == SetRecords(r, key, val)
  {
  }

  lemma LiveHashes(s: State, argv: seq<Bytes>, now: int)
    requires |argv| >= 3 && (argv[1] in s.strings ==> argv[1] !in s.zsets)
    requires Eternal(s.strings) && Eternal(s.zsets) && Eternal(s.hashes)
    ensures CmdSet(s, argv, now).0.hashes
         == if argv[1] in s.strings || argv[1] in s.zsets then s.hashes else s.hashes - {argv[1]}
  {
    hide Encode, SetTtl, DeleteKey;
    DeleteEffect(s, argv[1], now);
  }

  lemma {:induction false} ReplayedHashes(r: State, key: Bytes, val: Bytes, clock: nat -> int, atof: Bytes -> Score)
    requires Eternal(r.strings) && Eternal(r.zsets) && Eternal(r.hashes) && (key in r.strings ==> key !in r.zsets)
    ensures Replay(r, SetRecords(r, key, val), clock, 0, atof).hashes == r.hashes - {key}
  {
    hide Encode, Exec, Replay, DeleteKey;
    ReplayOfTwo(r, ["DEL", key], ["SET", key, val], clock, atof);
    ExecRecord(r, key, val, "", clock(0), atof);
    var d := DeleteKey(r, key, clock(0)).0;
    ExecRecord(d, key, val, "", clock(1), atof);
    DeleteEffect(r, key, clock(0));
    DeleteKeepsEternal(r, key, clock(0));
    DeleteAgain(d, key, clock(1));
  }

  lemma DeleteKeepsEternal(s: State, key: Bytes, now: int)
    requires Eternal(s.hashes)
    ensures Eternal(DeleteKey(s, key, now).0.hashes)
  {
    hide Encode;
  }

  lemma TimelessReplica(s: State, r: State)
    requires Mirrors(s, r)
    ensures r.strings == s.strings && r.zsets == s.zsets
    ensures Eternal(s.strings) && Eternal(s.zsets) && forall k :: k in r.strings ==> k !in r.zsets
  {
  }
}
