/** The append-only log: what loading a log, whole or cut off, does to an empty data set. */
module Aof {
  import opened Sds
  import opened Text
  import opened DictSpec
  import opened Resp
  import opened Keyspace

  // ----- the log as a sequence of commands -----

  function Log(cmds: seq<seq<Bytes>>): Bytes
  {
    if cmds == [] then [] else Encode(cmds[0]) + Log(cmds[1..])
  }

  /** The loop of load_aof: it stops at the first command that is not complete and valid. */
  function Commands(s: Bytes): seq<seq<Bytes>>
    decreases |s|
  {
    match ParseArray(s)
    case Parsed(argv, consumed) => [argv] + Commands(s[consumed..])
    case _ => []
  }

  lemma {:induction false} LogAppend(a: seq<seq<Bytes>>, b: seq<seq<Bytes>>)
    ensures Log(a + b) == Log(a) + Log(b)
  {
    if a == [] {
      assert a + b == b;
    } else {
      assert (a + b)[1..] == a[1..] + b;
      LogAppend(a[1..], b);
    }
  }

  ghost predicate Loggable(cmds: seq<seq<Bytes>>)
  {
    |Log(cmds)| <= INT_MAX && forall i :: 0 <= i < |cmds| ==> cmds[i] != []
  }

  lemma LoggableTail(cmds: seq<seq<Bytes>>)
    requires Loggable(cmds) && cmds != []
    ensures Loggable(cmds[1..]) && |Encode(cmds[0])| <= INT_MAX && cmds[0] != []
    ensures Log(cmds) == Encode(cmds[0]) + Log(cmds[1..])
  {
    forall i | 0 <= i < |cmds[1..]| ensures cmds[1..][i] != [] {
      assert cmds[1..][i] == cmds[i + 1];
    }
  }

  /** A log cut at any byte yields exactly the commands that lie wholly before the cut. */
  lemma {:induction false} TruncatedLog(cmds: seq<seq<Bytes>>, n: nat) returns (k: nat)
    requires Loggable(cmds) && n <= |Log(cmds)|
    ensures k <= |cmds| && Commands(Log(cmds)[..n]) == cmds[..k]
    ensures |Log(cmds[..k])| <= n && (k < |cmds| ==> n < |Log(cmds[..k + 1])|)
  {
    hide Encode, ParseArray;
    if cmds == [] {
      EmptyHasNoCommand();
      return 0;
    }
    LoggableTail(cmds);
    var e := Encode(cmds[0]);
    var cut := Log(cmds)[..n];
    if n < |e| {
      assert cut == e[..n];
      ParsePrefix(cmds[0], n);
      FirstThenRest(cmds, 0);
      return 0;
    }
    var rest := Log(cmds[1..])[..n - |e|];
    assert cut == e + rest;
    ParseEncode(cmds[0], rest);
    assert (e + rest)[|e|..] == rest;
    var j := TruncatedLog(cmds[1..], n - |e|);
    k := j + 1;
    FirstThenRest(cmds, j);
    if k < |cmds| { FirstThenRest(cmds, j + 1); }
  }

  lemma FirstThenRest(cmds: seq<seq<Bytes>>, k: nat)
    requires k < |cmds|
    ensures cmds[..k + 1] == [cmds[0]] + cmds[1..][..k]
    ensures |Log(cmds[..k + 1])| == |Encode(cmds[0])| + |Log(cmds[1..][..k])|
  {
    assert cmds[..k + 1][1..] == cmds[1..][..k];
  }

  lemma EmptyHasNoCommand()
    ensures Commands([]) == []
  {
  }

  lemma PrefixNoLonger(cmds: seq<seq<Bytes>>, k: nat)
    requires k <= |cmds|
    ensures |Log(cmds[..k])| <= |Log(cmds)|
  {
    LogAppend(cmds[..k], cmds[k..]);
    assert cmds[..k] + cmds[k..] == cmds;
  }

  /** In particular nothing is lost from a log that is whole. */
  lemma WholeLog(cmds: seq<seq<Bytes>>)
    requires Loggable(cmds)
    ensures Commands(Log(cmds)) == cmds
  {
    var s := Log(cmds);
    var k := TruncatedLog(cmds, |s|);
    assert s[..|s|] == s;
    if k < |cmds| { PrefixNoLonger(cmds, k + 1); }
    assert cmds[..|cmds|] == cmds;
  }

  /** The record of FLUSHDB ends in one line end too many, and there the loading stops: whatever was logged after a
      FLUSHDB is lost, and nothing before it is. */
  lemma {:induction false} FlushEndsTheLog(cmds: seq<seq<Bytes>>, rest: Bytes)
    requires Loggable(cmds)
    ensures Commands(Log(cmds) + (FLUSH_RECORD + rest)) == cmds + [["FLUSHDB"]]
  {
    hide Encode, ParseArray;
    var tail := FLUSH_RECORD + rest;
    if cmds == [] {
      FlushRecordParses(rest);
      assert Log(cmds) + tail == tail;
    } else {
      LoggableTail(cmds);
      var e, more := Encode(cmds[0]), Log(cmds[1..]) + tail;
      assert Log(cmds) + tail == e + more;
      ParseEncode(cmds[0], more);
      assert (e + more)[|e|..] == more;
      FlushEndsTheLog(cmds[1..], rest);
      assert [cmds[0]] + (cmds[1..] + [["FLUSHDB"]]) == cmds + [["FLUSHDB"]];
    }
  }

  lemma FlushRecordParses(rest: Bytes)
    ensures Commands(FLUSH_RECORD + rest) == [["FLUSHDB"]]
  {
    FlushText();
    var e, after := Encode(["FLUSHDB"]), CRLF + rest;
    assert FLUSH_RECORD + rest == e + after by {
      Associate(e, CRLF, rest);
    }
    ParseEncode(["FLUSHDB"], after);
    hide Encode;
    assert (e + after)[|e|..] == after;
    assert after[0] == '\r';
    assert Commands(after) == [];
  }

  lemma FlushText()
    ensures FLUSH_RECORD == Encode(["FLUSHDB"]) + CRLF && |Encode(["FLUSHDB"])| <= INT_MAX
  {
    BulksOfOne("FLUSHDB");
    assert Encode(["FLUSHDB"]) == "*1\r\n$7\r\nFLUSHDB\r\n";
  }

  lemma BulksOfOne(a: Bytes)
    ensures Bulks([a]) == Bulk(a)
  {
    assert [a][1..] == [];
  }

  // ----- replaying -----

  /** Commands executed one after the other, the i-th one at clock(i). */
  ghost function Replay(s: State, cmds: seq<seq<Bytes>>, clock: nat -> int, i: nat, atof: Bytes -> Score): State
    decreases |cmds|
  {
    if cmds == [] then s
    else Replay(Exec(s, cmds[0], clock(i), atof).0, cmds[1..], clock, i + 1, atof)
  }

  lemma {:induction false} ReplayAppend(s: State, a: seq<seq<Bytes>>, b: seq<seq<Bytes>>, clock: nat -> int, i: nat,
      atof: Bytes -> Score)
    ensures Replay(s, a + b, clock, i, atof) == Replay(Replay(s, a, clock, i, atof), b, clock, i + |a|, atof)
    decreases |a|
  {
    hide Exec;
    if a == [] {
      assert a + b == b;
    } else {
      assert (a + b)[1..] == a[1..] + b;
      ReplayAppend(Exec(s, a[0], clock(i), atof).0, a[1..], b, clock, i + 1, atof);
    }
  }

  // ----- the fragment of commands that the log reproduces -----

  ghost predicate NulFree(args: seq<Bytes>) { forall i :: 0 <= i < |args| ==> '\0' !in args[i] }

  /** No lifetimes, no FLUSHDB and no log rewriting; arguments that are logged with %s hold no NUL. */
  ghost predicate InScope(argv: seq<Bytes>)
  {
    argv == [] ||
    var cmd := CStr(Upper(argv[0]));
    && cmd != "EXPIRE" && cmd != "FLUSHDB" && cmd != "BGREWRITEAOF"
    && (cmd == "SET" ==> SetTtl(argv) <= 0)
    && (cmd == "ZADD" || cmd == "ZREM" ==> NulFree(argv[1..]))
  }

  ghost predicate Eternal<V>(m: Store<V>) { forall k :: k in m ==> m[k].expire == 0 }

  ghost predicate Timeless(s: State) { Eternal(s.strings) && Eternal(s.zsets) && KeysInv(s) }

  /** The replayed state r agrees with the live state s on strings and sorted sets, and logs nothing. */
  ghost predicate Mirrors(s: State, r: State)
  {
    Timeless(s) && r.strings == s.strings && r.zsets == s.zsets && r.aof.None?
  }

  lemma EternalReads<V>(m: Store<V>, k: Bytes, now: int)
    requires Eternal(m)
    ensures Purge(m, k, now) == m && Get(m, k, now) == (if k in m then Some(m[k].val) else None) && GetExpiry(m, k, now) == 0
  {
  }

  lemma {:induction false} UpperLiteral(s: Bytes)
    requires forall i :: 0 <= i < |s| ==> 'A' <= s[i] <= 'Z'
    ensures CStr(Upper(s)) == s
  {
    if s != [] {
      UpperLiteral(s[1..]);
      assert Upper(s) == [s[0]] + Upper(s[1..]);
    }
  }

  lemma {:induction false} NoNulNoCut(s: Bytes)
    requires '\0' !in s
    ensures CStr(s) == s
  {
    if s != [] {
      NoNulNoCut(s[1..]);
    }
  }

  // ----- records and what replaying them does -----

  lemma ExecRecord(r: State, key: Bytes, val: Bytes, member: Bytes, now: int, atof: Bytes -> Score)
    ensures Exec(r, ["DEL", key], now, atof).0 == DeleteKey(r, key, now).0
    ensures Exec(r, ["SET", key, val], now, atof).0 == SetKv(DeleteKey(r, key, now).0, key, val, 0, now)
    ensures Exec(r, ["ZADD", key, val, member], now, atof) == CmdZadd(r, key, val, member, now, atof)
    ensures Exec(r, ["ZREM", key, member], now, atof) == CmdZrem(r, key, [member], now)
  {
    hide DeleteKey, SetKv, CmdZadd, CmdZrem, CStr, Upper;
    UpperLiteral("DEL");
    UpperLiteral("SET");
    UpperLiteral("ZADD");
    UpperLiteral("ZREM");
    assert ["DEL", key][1..] == [key];
    assert [key][..0] == [];
    assert DeleteKeys(r, [key][..0], now) == (r, 0);
    assert ["ZREM", key, member][2..] == [member];
  }

  lemma DeleteMirrors(s: State, r: State, key: Bytes, now: int, now': int)
    requires Mirrors(s, r)
    ensures var (s', n) := DeleteKey(s, key, now);
            && Mirrors(s', DeleteKey(r, key, now').0)
            && (n != 1 ==> Mirrors(s', r))
            && key !in s'.strings && key !in s'.zsets
  {
    hide Encode, KeysOk;
    EternalReads(s.strings, key, now);
    EternalReads(s.zsets, key, now);
    EternalReads(s.strings, key, now');
    EternalReads(s.zsets, key, now');
    NotBoth(s, key);
    DeleteKeyKeeps(s, key, now);
  }

  lemma SetMirrors(s: State, r: State, key: Bytes, val: Bytes, ttl: int, now: int, now': int)
    requires Mirrors(s, r) && key !in s.zsets && ttl <= 0
    ensures Mirrors(SetKv(s, key, val, ttl, now), SetKv(DeleteKey(r, key, now').0, key, val, 0, now'))
  {
    hide Encode, KeysOk;
    EternalReads(s.strings, key, now');
    EternalReads(s.zsets, key, now');
    SetKvKeeps(s, key, val, ttl, now);
  }

  /** Replaying `recs` from any mirror of s, at any times, ends in a mirror of s'. */
  ghost predicate Reproduces(s: State, s': State, recs: seq<seq<Bytes>>, atof: Bytes -> Score)
  {
    && s.aof.Some? && s'.aof == Some(s.aof.value + Log(recs))
    && (forall i :: 0 <= i < |recs| ==> recs[i] != [])
    && forall r: State, clock: nat -> int, i: nat :: Mirrors(s, r) ==> Mirrors(s', Replay(r, recs, clock, i, atof))
  }

  ghost predicate Reproducible(s: State, s': State, atof: Bytes -> Score)
  {
    exists recs :: Reproduces(s, s', recs, atof)
  }

  lemma ReproducesNothing(s: State, s': State, atof: Bytes -> Score)
    requires Timeless(s) && s.aof.Some? && s'.strings == s.strings && s'.zsets == s.zsets && s'.aof == s.aof
      && s'.heap == s.heap
    ensures Reproduces(s, s', [], atof)
  {
    assert s.aof.value + Log([]) == s.aof.value;
  }

  lemma ReproducesThen(s: State, m: State, s': State, a: seq<seq<Bytes>>, b: seq<seq<Bytes>>, atof: Bytes -> Score)
    requires Reproduces(s, m, a, atof) && Reproduces(m, s', b, atof)
    ensures Reproduces(s, s', a + b, atof)
  {
    hide Mirrors, Replay;
    LogAppend(a, b);
    assert s.aof.value + Log(a) + Log(b) == s.aof.value + Log(a + b);
    forall r: State, clock: nat -> int, i: nat | Mirrors(s, r) ensures Mirrors(s', Replay(r, a + b, clock, i, atof)) {
      ReplayAppend(r, a, b, clock, i, atof);
    }
  }

  lemma ReproducesOne(s: State, s': State, rec: seq<Bytes>, atof: Bytes -> Score)
    requires s.aof.Some? && s'.aof == Some(s.aof.value + Encode(rec)) && rec != []
    requires forall r: State, now: int :: Mirrors(s, r) ==> Mirrors(s', Exec(r, rec, now, atof).0)
    ensures Reproduces(s, s', [rec], atof)
  {
    hide Exec, Mirrors, Encode;
    assert Log([rec]) == Encode(rec) + Log([]) == Encode(rec);
    forall r: State, clock: nat -> int, i: nat | Mirrors(s, r) ensures Mirrors(s', Replay(r, [rec], clock, i, atof)) {
      var r1 := Exec(r, rec, clock(i), atof).0;
      assert Replay(r, [rec], clock, i, atof) == Replay(r1, [], clock, i + 1, atof) == r1;
    }
  }

  lemma SetReproduces(s: State, key: Bytes, val: Bytes, ttl: int, now: int, atof: Bytes -> Score)
    requires Timeless(s) && s.aof.Some? && key !in s.zsets && ttl <= 0
    ensures Reproduces(s, SetKv(s, key, val, ttl, now), [["SET", key, val]], atof)
  {
    hide Exec, DeleteKey, Reproduces, Encode;
    forall r: State, now': int | Mirrors(s, r)
      ensures Mirrors(SetKv(s, key, val, ttl, now), Exec(r, ["SET", key, val], now', atof).0) {
      ExecRecord(r, key, val, "", now', atof);
      SetMirrors(s, r, key, val, ttl, now, now');
    }
    ReproducesOne(s, SetKv(s, key, val, ttl, now), ["SET", key, val], atof);
  }

  ghost function DelRecords(s: State, key: Bytes, now: int): seq<seq<Bytes>>
  {
    if DeleteKey(s, key, now).1 == 1 then [["DEL", key]] else []
  }

  lemma DeleteReproduces(s: State, key: Bytes, now: int, atof: Bytes -> Score)
    requires Timeless(s) && s.aof.Some?
    ensures Reproduces(s, DeleteKey(s, key, now).0, DelRecords(s, key, now), atof)
    ensures Timeless(DeleteKey(s, key, now).0) && key !in DeleteKey(s, key, now).0.zsets
  {
    var (s', n) := DeleteKey(s, key, now);
    DeleteLogs(s, key, now);
    DeleteMirrors(s, s.(aof := None), key, now, now);
    hide Exec, DeleteKey, Reproduces, Encode;
    if n == 1 {
      forall r: State, now': int | Mirrors(s, r) ensures Mirrors(s', Exec(r, ["DEL", key], now', atof).0) {
        ExecRecord(r, key, "", "", now', atof);
        DeleteMirrors(s, r, key, now, now');
      }
      ReproducesOne(s, s', ["DEL", key], atof);
    } else {
      ReproducesNothing(s, s', atof);
    }
  }

  lemma DeleteLogs(s: State, key: Bytes, now: int)
    requires s.aof.Some?
    ensures var (s', n) := DeleteKey(s, key, now);
            s'.heap == s.heap && s'.aof == Some(if n == 1 then s.aof.value + Encode(["DEL", key]) else s.aof.value)
  {
    hide Encode;
  }

  // ----- each command in scope is reproduced by its records -----

  /** A state that differs from s in hashes only. */
  lemma ReadsAreIdle(s: State, key: Bytes, now: int)
    requires Timeless(s)
    ensures GetString(s, key, now).0 == s && GetZset(s, key, now).0 == s
  {
    EternalReads(s.strings, key, now);
    EternalReads(s.zsets, key, now);
  }

  lemma RewriteReproduces(s: State, key: Bytes, val: Bytes, now: int, atof: Bytes -> Score)
    requires Timeless(s) && s.aof.Some? && key !in s.zsets
    ensures Reproduces(s, Rewrite(s, key, val, now), [["SET", key, val]], atof)
  {
    hide SetKv, Reproduces, KeysOk;
    EternalReads(s.strings, key, now);
    SetReproduces(s, key, val, 0, now, atof);
  }

  lemma IncrReproduces(s: State, key: Bytes, step: int, suffix: Bytes, now: int, atof: Bytes -> Score)
    requires Timeless(s) && s.aof.Some?
    ensures Reproducible(s, CmdIncr(s, key, step, now).0, atof)
    ensures Reproducible(s, CmdAppend(s, key, suffix, now).0, atof)
  {
    hide Rewrite, Reproduces, KeysOk, DecInt, Atoi;
    ReadsAreIdle(s, key, now);
    EternalReads(s.strings, key, now);
    EternalReads(s.zsets, key, now);
    ReproducesNothing(s, s, atof);
    if key !in s.zsets {
      var cur := Get(s.strings, key, now);
      var text := DecInt((if cur.Some? then Atoi(cur.value) else 0) + step);
      RewriteReproduces(s, key, text, now, atof);
      RewriteReproduces(s, key, (if cur.Some? then cur.value else []) + suffix, now, atof);
    }
  }

  lemma SetReproducible(s: State, argv: seq<Bytes>, now: int, atof: Bytes -> Score)
    requires Timeless(s) && s.aof.Some? && |argv| >= 3 && SetTtl(argv) <= 0
    ensures Reproducible(s, CmdSet(s, argv, now).0, atof)
  {
    hide DeleteKey, SetKv, Reproduces, SetTtl;
    var key, val := argv[1], argv[2];
    DeleteReproduces(s, key, now, atof);
    DeleteLogs(s, key, now);
    var m := DeleteKey(s, key, now).0;
    SetReproduces(m, key, val, SetTtl(argv), now, atof);
    ReproducesThen(s, m, CmdSet(s, argv, now).0, DelRecords(s, key, now), [["SET", key, val]], atof);
  }

  lemma SetnxReproducible(s: State, key: Bytes, val: Bytes, now: int, atof: Bytes -> Score)
    requires Timeless(s) && s.aof.Some?
    ensures Reproducible(s, CmdSetnx(s, key, val, now).0, atof)
  {
    hide SetKv, Reproduces, KeysOk;
    EternalReads(s.strings, key, now);
    EternalReads(s.zsets, key, now);
    var (m, n) := ExistsKey(s, key, now);
    ReproducesNothing(s, m, atof);
    if n == 1 {
      assert CmdSetnx(s, key, val, now).0 == m;
    } else {
      SetReproduces(m, key, val, 0, now, atof);
      ReproducesThen(s, m, CmdSetnx(s, key, val, now).0, [], [["SET", key, val]], atof);
    }
  }

  lemma {:induction false} DeleteKeysReproduce(s: State, keys: seq<Bytes>, now: int, atof: Bytes -> Score)
    requires Timeless(s) && s.aof.Some?
    ensures Timeless(DeleteKeys(s, keys, now).0) && DeleteKeys(s, keys, now).0.aof.Some?
    ensures Reproducible(s, DeleteKeys(s, keys, now).0, atof)
  {
    hide DeleteKey, Reproduces, Timeless;
    if keys == [] {
      ReproducesNothing(s, s, atof);
    } else {
      var init, key := keys[..|keys| - 1], keys[|keys| - 1];
      DeleteKeysReproduce(s, init, now, atof);
      var m := DeleteKeys(s, init, now).0;
      DeleteReproduces(m, key, now, atof);
      DeleteLogs(m, key, now);
      var a :| Reproduces(s, m, a, atof);
      ReproducesThen(s, m, DeleteKeys(s, keys, now).0, a, DelRecords(m, key, now), atof);
    }
  }

  lemma HsetEffect(s: State, argv: seq<Bytes>, now: int)
    requires |argv| >= 4 && |argv| % 2 == 0
    ensures var s' := CmdHset(s, argv, now).0;
            s' == Append(s, Encode(["HSET"] + argv[1..])).(hashes := s'.hashes)
  {
    hide SetFields, Encode;
  }

  lemma HsetRuns(r: State, rec: seq<Bytes>, now: int, atof: Bytes -> Score)
    requires |rec| >= 4 && |rec| % 2 == 0 && rec[0] == "HSET"
    ensures Exec(r, rec, now, atof) == CmdHset(r, rec, now)
  {
    UpperLiteral("HSET");
    hide CStr, Upper, CmdHset;
  }

  /** HSET touches neither strings nor sorted sets. */
  lemma HsetReproduces(s: State, argv: seq<Bytes>, now: int, atof: Bytes -> Score)
    requires Timeless(s) && s.aof.Some? && |argv| >= 4 && |argv| % 2 == 0
    ensures Reproducible(s, CmdHset(s, argv, now).0, atof)
  {
    hide CmdHset, Exec, Encode, KeysOk, Reproduces;
    var rec := ["HSET"] + argv[1..];
    var s' := CmdHset(s, argv, now).0;
    HsetEffect(s, argv, now);
    forall r: State, now': int | Mirrors(s, r) ensures Mirrors(s', Exec(r, rec, now', atof).0) {
      HsetRuns(r, rec, now', atof);
      HsetEffect(r, rec, now');
    }
    ReproducesOne(s, s', rec, atof);
  }

  lemma ReadsReproduce(s: State, argv: seq<Bytes>, now: int, atof: Bytes -> Score)
    requires Timeless(s) && s.aof.Some? && |argv| >= 2
    ensures Reproduces(s, CmdGet(s, argv[1], now).0, [], atof) && Reproduces(s, CmdTtl(s, argv[1], now).0, [], atof)
    ensures Reproduces(s, ReadZset(s, argv[1], now).0, [], atof) && Reproduces(s, GetHash(s, argv[1], now).0, [], atof)
    ensures Reproduces(s, s, [], atof)
  {
    hide Reproduces, KeysOk;
    ReadsAreIdle(s, argv[1], now);
    ReproducesNothing(s, s, atof);
    ReproducesNothing(s, GetHash(s, argv[1], now).0, atof);
  }

  lemma {:induction false} ExistsReproduces(s: State, keys: seq<Bytes>, now: int, atof: Bytes -> Score)
    requires Timeless(s) && s.aof.Some?
    ensures var s' := ExistKeys(s, keys, now).0;
            s'.strings == s.strings && s'.zsets == s.zsets && s'.heap == s.heap && s'.aof == s.aof
    ensures Reproduces(s, ExistKeys(s, keys, now).0, [], atof)
  {
    hide Reproduces, KeysOk;
    if keys != [] {
      var init, key := keys[..|keys| - 1], keys[|keys| - 1];
      ExistsReproduces(s, init, now, atof);
      EternalReads(s.strings, key, now);
      EternalReads(s.zsets, key, now);
    }
    ReproducesNothing(s, ExistKeys(s, keys, now).0, atof);
  }

  // ----- sorted sets -----

  lemma PrintedIsBulk(a: Bytes)
    requires '\0' !in a
    ensures PrintedBulk(a) == Bulk(a)
  {
    NoNulNoCut(a);
  }

  lemma BulksOfThree(a: Bytes, b: Bytes, c: Bytes)
    ensures Bulks([a, b, c]) == Bulk(a) + Bulk(b) + Bulk(c)
    ensures Bulks([a, b]) == Bulk(a) + Bulk(b)
  {
    hide Bulk;
    assert [c][1..] == [] && [b, c][1..] == [c] && [a, b, c][1..] == [b, c] && [b][1..] == [] && [a, b][1..] == [b];
    assert Bulks([c]) == Bulk(c) + Bulks([]) && Bulks([b]) == Bulk(b) + Bulks([]);
    assert Bulks([b, c]) == Bulk(b) + Bulks([c]);
  }

  lemma ZaddRecordIsEncoded(key: Bytes, text: Bytes, member: Bytes)
    requires '\0' !in key && '\0' !in text && '\0' !in member
    ensures ZaddRecord(key, text, member) == Encode(["ZADD", key, text, member])
  {
    PrintedIsBulk(key);
    PrintedIsBulk(text);
    PrintedIsBulk(member);
    assert "*" + Dec(4) + CRLF + Bulk("ZADD") == "*4\r\n$4\r\nZADD\r\n";
    hide Bulk, Dec, PrintedBulk;
    BulksOfThree(key, text, member);
    assert ["ZADD", key, text, member][1..] == [key, text, member];
    assert Bulks(["ZADD", key, text, member]) == Bulk("ZADD") + Bulks([key, text, member]);
  }

  lemma ZremRecordIsEncoded(key: Bytes, member: Bytes)
    requires '\0' !in key && '\0' !in member
    ensures "*3\r\n$4\r\nZREM\r\n" + PrintedBulk(key) + PrintedBulk(member) == Encode(["ZREM", key, member])
  {
    PrintedIsBulk(key);
    PrintedIsBulk(member);
    assert "*" + Dec(3) + CRLF + Bulk("ZREM") == "*3\r\n$4\r\nZREM\r\n";
    hide Bulk, Dec, PrintedBulk;
    BulksOfThree(key, member, "");
    assert ["ZREM", key, member][1..] == [key, member];
    assert Bulks(["ZREM", key, member]) == Bulk("ZREM") + Bulks([key, member]);
  }

  lemma ZaddReproduces(s: State, key: Bytes, text: Bytes, member: Bytes, now: int, atof: Bytes -> Score)
    requires Timeless(s) && s.aof.Some? && '\0' !in key && '\0' !in text && '\0' !in member
    ensures Reproducible(s, CmdZadd(s, key, text, member, now, atof).0, atof)
  {
    hide CmdZadd, KeysOk, Reproduces;
    var s' := CmdZadd(s, key, text, member, now, atof).0;
    ZaddEffect(s, key, text, member, now, atof);
    ZaddRecordIsEncoded(key, text, member);
    hide Encode, ZaddRecord;
    if key in s.strings {
      ReproducesNothing(s, s', atof);
    } else {
      forall r: State, now': int | Mirrors(s, r) ensures Mirrors(s', Exec(r, ["ZADD", key, text, member], now', atof).0) {
        ExecRecord(r, key, text, member, now', atof);
        ZaddEffect(r, key, text, member, now', atof);
        hide Exec;
        ZsetCommandsKeep(s, key, text, member, [], now, atof);
      }
      ReproducesOne(s, s', ["ZADD", key, text, member], atof);
    }
  }

  function WithMember(z: Store<Scores>, key: Bytes, member: Bytes, score: Score): Store<Scores>
  {
    z[key := Item((if key in z then z[key].val else map[])[member := score], 0)]
  }

  /** A ZADD without lifetimes, in one expression. */
  lemma ZaddEffect(s: State, key: Bytes, text: Bytes, member: Bytes, now: int, atof: Bytes -> Score)
    requires Eternal(s.strings) && Eternal(s.zsets)
    ensures var s' := CmdZadd(s, key, text, member, now, atof).0;
            if key in s.strings then s' == s
            else s' == Append(s.(zsets := WithMember(s.zsets, key, member, atof(text))), ZaddRecord(key, text, member))
                 && Eternal(s'.zsets)
  {
    hide ZaddRecord;
    EternalReads(s.strings, key, now);
    EternalReads(s.zsets, key, now);
    var z := WithMember(s.zsets, key, member, atof(text));
    if key !in s.zsets {
      assert s.zsets[key := Item(map[], 0)][key := Item(map[member := atof(text)], 0)] == z;
    }
  }

  // Replaying one ZREM record per member, whether or not the member was there.

  function Removal(s: State, key: Bytes, z: Scores): State
    requires key in s.zsets
  {
    s.(zsets := s.zsets[key := s.zsets[key].(val := z)])
  }

  ghost function ZremCommands(key: Bytes, members: seq<Bytes>): seq<seq<Bytes>>
  {
    if members == [] then [] else ZremCommands(key, members[..|members| - 1]) + [["ZREM", key, members[|members| - 1]]]
  }

  lemma {:induction false} ZremRecordsAreEncoded(key: Bytes, members: seq<Bytes>)
    requires '\0' !in key && NulFree(members)
    ensures ZremRecords(key, members) == Log(ZremCommands(key, members))
    ensures forall i :: 0 <= i < |ZremCommands(key, members)| ==> ZremCommands(key, members)[i] != []
  {
    hide Encode, PrintedBulk;
    if members != [] {
      var init, m := members[..|members| - 1], members[|members| - 1];
      assert NulFree(init) by { assert forall i :: 0 <= i < |init| ==> init[i] == members[i]; }
      ZremRecordsAreEncoded(key, init);
      ZremRecordIsEncoded(key, m);
      var rec := ["ZREM", key, m];
      LogAppend(ZremCommands(key, init), [rec]);
      assert Log([rec]) == Encode(rec) + Log([]) == Encode(rec);
    }
  }

  lemma ZremOne(r: State, key: Bytes, m: Bytes, now: int)
    requires Eternal(r.strings) && Eternal(r.zsets) && key in r.zsets && key !in r.strings && r.aof.None?
    ensures CmdZrem(r, key, [m], now).0 == Removal(r, key, r.zsets[key].val - {m})
  {
    EternalReads(r.strings, key, now);
    EternalReads(r.zsets, key, now);
    assert [m][..0] == [];
    assert RemoveMembers(r.zsets[key].val, [m][..0]) == (r.zsets[key].val, 0);
  }

  lemma {:induction false} ZremReplays(r: State, key: Bytes, members: seq<Bytes>, clock: nat -> int, i: nat,
      atof: Bytes -> Score)
    requires Eternal(r.strings) && Eternal(r.zsets) && key in r.zsets && key !in r.strings && r.aof.None?
    ensures Replay(r, ZremCommands(key, members), clock, i, atof)
            == Removal(r, key, RemoveMembers(r.zsets[key].val, members).0)
  {
    hide Exec, CmdZrem;
    if members == [] {
      assert Removal(r, key, r.zsets[key].val) == r;
    } else {
      var init, m := members[..|members| - 1], members[|members| - 1];
      var recs := ZremCommands(key, init);
      ZremReplays(r, key, init, clock, i, atof);
      ReplayAppend(r, recs, [["ZREM", key, m]], clock, i, atof);
      var r1 := Removal(r, key, RemoveMembers(r.zsets[key].val, init).0);
      var now := clock(i + |recs|);
      ExecRecord(r1, key, "", m, now, atof);
      ZremOne(r1, key, m, now);
      var r2 := Exec(r1, ["ZREM", key, m], now, atof).0;
      assert Replay(r1, [["ZREM", key, m]], clock, i + |recs|, atof) == Replay(r2, [], clock, i + |recs| + 1, atof) == r2;
    }
  }

  lemma {:induction false} NothingRemoved(z: Scores, members: seq<Bytes>)
    ensures RemoveMembers(z, members).1 >= 0
    ensures RemoveMembers(z, members).1 == 0 ==> RemoveMembers(z, members).0 == z
  {
    if members != [] {
      NothingRemoved(z, members[..|members| - 1]);
    }
  }

  /** A ZREM without lifetimes, in one expression. */
  lemma ZremEffect(s: State, key: Bytes, members: seq<Bytes>, now: int)
    requires Eternal(s.strings) && Eternal(s.zsets)
    ensures var s' := CmdZrem(s, key, members, now).0;
            if key in s.strings || key !in s.zsets then s' == s
            else
              var (z, n) := RemoveMembers(s.zsets[key].val, members);
              s' == if n > 0 then Append(Removal(s, key, z), ZremRecords(key, members)) else s
  {
    hide ZremRecords, RemoveMembers;
    EternalReads(s.strings, key, now);
    EternalReads(s.zsets, key, now);
    if key in s.zsets {
      NothingRemoved(s.zsets[key].val, members);
      assert s.zsets[key := s.zsets[key]] == s.zsets;
    }
  }

  lemma ZremReproduces(s: State, key: Bytes, members: seq<Bytes>, now: int, atof: Bytes -> Score)
    requires Timeless(s) && s.aof.Some? && '\0' !in key && NulFree(members)
    ensures Reproducible(s, CmdZrem(s, key, members, now).0, atof)
  {
    ZremRecordsAreEncoded(key, members);
    ZremEffect(s, key, members, now);
    ZsetCommandsKeep(s, key, "", "", members, now, atof);
    hide ZremRecords, KeysOk, RemoveMembers, ZremCommands, Log, Replay, CmdZrem;
    var s' := CmdZrem(s, key, members, now).0;
    if s' == s {
      ReproducesNothing(s, s, atof);
    } else {
      var recs := ZremCommands(key, members);
      forall r: State, clock: nat -> int, i: nat | Mirrors(s, r) ensures Mirrors(s', Replay(r, recs, clock, i, atof)) {
        ZremReplays(r, key, members, clock, i, atof);
      }
      assert Reproduces(s, s', recs, atof);
    }
  }

  lemma ZsetsReproduce(s: State, argv: seq<Bytes>, now: int, atof: Bytes -> Score)
    requires Timeless(s) && s.aof.Some? && |argv| >= 2 && NulFree(argv[1..])
    ensures |argv| >= 4 ==> Reproducible(s, CmdZadd(s, argv[1], argv[2], argv[3], now, atof).0, atof)
    ensures |argv| >= 3 ==> Reproducible(s, CmdZrem(s, argv[1], argv[2..], now).0, atof)
  {
    hide Timeless, Reproducible, CmdZadd, CmdZrem;
    var a := argv[1..];
    assert a[0] == argv[1];
    if |argv| >= 3 {
      assert NulFree(argv[2..]) by { assert forall i :: 0 <= i < |argv[2..]| ==> argv[2..][i] == a[i + 1]; }
      ZremReproduces(s, argv[1], argv[2..], now, atof);
    }
    if |argv| >= 4 {
      assert a[1] == argv[2] && a[2] == argv[3];
      ZaddReproduces(s, argv[1], argv[2], argv[3], now, atof);
    }
  }

  /** Every command in scope. */
  lemma ExecReproduces(s: State, argv: seq<Bytes>, now: int, atof: Bytes -> Score)
    requires Timeless(s) && s.aof.Some? && InScope(argv)
    ensures Reproducible(s, Exec(s, argv, now, atof).0, atof)
  {
    hide Timeless, Reproducible, CStr, Upper, NulFree, SetTtl, DeleteKeys, ExistKeys, CmdSet, CmdGet, CmdIncr,
        CmdTtl, CmdExpire, CmdZadd, CmdZread, ReadZset, CmdAppend, CmdSetnx, CmdZrem, CmdHset, CmdHgetall, GetHash;
    IdleReproduces(s, argv, now, atof);
    if |argv| >= 2 {
      ReadStates(s, argv, now);
      DeleteKeysReproduce(s, argv[1..], now, atof);
      IncrReproduces(s, argv[1], 1, if |argv| > 2 then argv[2] else "", now, atof);
      IncrReproduces(s, argv[1], -1, "", now, atof);
      if |argv| >= 3 {
        SetnxReproducible(s, argv[1], argv[2], now, atof);
        if SetTtl(argv) <= 0 { SetReproducible(s, argv, now, atof); }
      }
      if |argv| >= 4 && |argv| % 2 == 0 { HsetReproduces(s, argv, now, atof); }
      if NulFree(argv[1..]) { ZsetsReproduce(s, argv, now, atof); }
    }
  }

  /** The commands that change neither strings nor sorted sets nor the log. */
  lemma IdleReproduces(s: State, argv: seq<Bytes>, now: int, atof: Bytes -> Score)
    requires Timeless(s) && s.aof.Some?
    ensures Reproducible(s, s, atof)
    ensures |argv| >= 2 ==>
              && Reproducible(s, CmdGet(s, argv[1], now).0, atof) && Reproducible(s, CmdTtl(s, argv[1], now).0, atof)
              && Reproducible(s, ReadZset(s, argv[1], now).0, atof) && Reproducible(s, GetHash(s, argv[1], now).0, atof)
              && Reproducible(s, ExistKeys(s, argv[1..], now).0, atof)
  {
    hide Reproduces, CmdGet, CmdTtl, ReadZset, GetHash, ExistKeys, KeysOk;
    ReproducesNothing(s, s, atof);
    if |argv| >= 2 {
      ReadsReproduce(s, argv, now, atof);
      ExistsReproduces(s, argv[1..], now, atof);
    }
  }

  // ----- whole runs -----

  datatype Command = Command(argv: seq<Bytes>, now: int)

  /** A live run, each command at its own time. */
  ghost function Run(s: State, cmds: seq<Command>, atof: Bytes -> Score): State
  {
    if cmds == [] then s
    else Exec(Run(s, cmds[..|cmds| - 1], atof), cmds[|cmds| - 1].argv, cmds[|cmds| - 1].now, atof).0
  }

  /** The server with its log just opened, and the one that is about to load a log. */
  const Fresh: State := Empty.(aof := Some([]))

  lemma {:induction false} RunReproducible(cmds: seq<Command>, atof: Bytes -> Score)
    requires forall i :: 0 <= i < |cmds| ==> InScope(cmds[i].argv)
    ensures var s := Run(Fresh, cmds, atof); Timeless(s) && Reproducible(Fresh, s, atof)
  {
    hide Exec, Reproduces, InScope, KeysOk;
    FreshIsTimeless();
    if cmds == [] {
      ReproducesNothing(Fresh, Fresh, atof);
    } else {
      var init, last := cmds[..|cmds| - 1], cmds[|cmds| - 1];
      RunReproducible(init, atof);
      var s := Run(Fresh, init, atof);
      var s' := Exec(s, last.argv, last.now, atof).0;
      var a :| Reproduces(Fresh, s, a, atof);
      HasLog(Fresh, s, a, atof);
      ExecReproduces(s, last.argv, last.now, atof);
      var b :| Reproduces(s, s', b, atof);
      ReproducesThen(Fresh, s, s', a, b, atof);
      KeepsTimeless(s, s', b, atof);
    }
  }

  lemma FreshIsTimeless()
    ensures Timeless(Fresh) && Mirrors(Fresh, Empty)
  {
  }

  lemma HasLog(s: State, s': State, recs: seq<seq<Bytes>>, atof: Bytes -> Score)
    requires Reproduces(s, s', recs, atof)
    ensures s'.aof.Some?
  {
  }

  lemma KeepsTimeless(s: State, s': State, recs: seq<seq<Bytes>>, atof: Bytes -> Score)
    requires Timeless(s) && Reproduces(s, s', recs, atof)
    ensures Timeless(s')
  {
    hide Replay;
    var r := s.(aof := None);
    assert Mirrors(s, r);
    assert Mirrors(s', Replay(r, recs, (_: nat) => 0, 0, atof));
  }

  /** Loading the log of any run, at any later times, reproduces exactly its strings and sorted sets. */
  lemma ReplayReproducesRun(cmds: seq<Command>, clock: nat -> int, atof: Bytes -> Score)
    requires forall i :: 0 <= i < |cmds| ==> InScope(cmds[i].argv)
    ensures var live := Run(Fresh, cmds, atof);
            && live.aof.Some?
            && (|live.aof.value| <= INT_MAX ==>
                  var loaded := Replay(Empty, Commands(live.aof.value), clock, 0, atof);
                  loaded.strings == live.strings && loaded.zsets == live.zsets)
  {
    hide Exec, KeysOk, Commands, Replay, Run;
    RunReproducible(cmds, atof);
    FreshIsTimeless();
    var live := Run(Fresh, cmds, atof);
    var recs :| Reproduces(Fresh, live, recs, atof);
    assert live.aof == Some([] + Log(recs)) && [] + Log(recs) == Log(recs);
    assert Mirrors(live, Replay(Empty, recs, clock, 0, atof));
    if |live.aof.value| <= INT_MAX {
      WholeLog(recs);
    }
  }
}
