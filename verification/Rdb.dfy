/** rdb.c: the format of the snapshot file, and loading it. */
module Rdb {
  import opened Sds
  import opened DictSpec
  import opened DictTable
  import opened Walk
  import AvlTree
  import D = Dict
  import Z = ZSet
  import K = Keyspace

  const MAGIC: Bytes := "REDIS0001"
  const TWO32: nat := 0x1_0000_0000
  const TWO63: nat := 0x8000_0000_0000_0000

  // The host is taken to be little-endian. A score stands for the 64-bit pattern of its double, read as sign and
  // magnitude, which orders all doubles but NaN.

  // ----- numbers as bytes -----

  function Byte(n: nat): char { (n % 256) as char }

  function LE(n: nat, k: nat): (s: Bytes)
    ensures |s| == k
    decreases k
  {
    if k == 0 then [] else [Byte(n)] + LE(n / 256, k - 1)
  }

  function FromLE(s: Bytes): nat { if s == [] then 0 else s[0] as nat + 256 * FromLE(s[1..]) }

  /** htonl on the way out. */
  function BE(n: nat, k: nat): (s: Bytes)
    ensures |s| == k
    decreases k
  {
    if k == 0 then [] else BE(n / 256, k - 1) + [Byte(n)]
  }

  function FromBE(s: Bytes): nat
  {
    if s == [] then 0 else 256 * FromBE(s[..|s| - 1]) + s[|s| - 1] as nat
  }

  ghost function Pow256(k: nat): (n: nat)
    ensures n > 0
  {
    if k == 0 then 1 else 256 * Pow256(k - 1)
  }

  lemma Divided(n: nat, p: nat)
    requires n < 256 * p
    ensures n / 256 < p && n == n % 256 + 256 * (n / 256)
  {
  }

  lemma {:induction false} NumbersBack(n: nat, k: nat)
    requires n < Pow256(k)
    ensures FromLE(LE(n, k)) == n && FromBE(BE(n, k)) == n
    decreases k
  {
    if k > 0 {
      Divided(n, Pow256(k - 1));
      NumbersBack(n / 256, k - 1);
      assert LE(n, k)[1..] == LE(n / 256, k - 1);
      assert BE(n, k)[..k - 1] == BE(n / 256, k - 1);
    }
  }

  lemma Pow256Values()
    ensures Pow256(4) == TWO32 && Pow256(8) == 2 * TWO63
  {
    assert Pow256(4) == 256 * Pow256(3) == 65536 * Pow256(2) == 16777216 * Pow256(1);
    assert Pow256(8) == 256 * Pow256(7) == 65536 * Pow256(6) == 16777216 * Pow256(5);
  }

  /** Sign in the top bit, magnitude below it. */
  function Pattern(s: K.Score): nat { if s >= 0 then s else TWO63 - s }

  function FromPattern(n: nat): K.Score { if n < TWO63 then n else TWO63 - n }

  predicate IsDouble(s: K.Score) { 0 - TWO63 < s < TWO63 }

  // ----- records -----

  datatype Record =
    | Str(key: Bytes, val: Bytes)
    | Zset(key: Bytes, members: seq<AvlTree.Member>)
    | Hash(key: Bytes, fields: seq<Entry<Bytes>>)

  function WriteString(s: Bytes): Bytes { LE(|s|, 4) + s }

  function WriteMember(m: AvlTree.Member): Bytes { LE(Pattern(m.score), 8) + WriteString(m.key) }

  function WriteField(e: Entry<Bytes>): Bytes { WriteString(e.key) + WriteString(e.val) }

  function WriteMembers(ms: seq<AvlTree.Member>): Bytes
  {
    if ms == [] then [] else WriteMember(ms[0]) + WriteMembers(ms[1..])
  }

  function WriteFields(es: seq<Entry<Bytes>>): Bytes
  {
    if es == [] then [] else WriteField(es[0]) + WriteFields(es[1..])
  }

  function WriteRecord(r: Record): Bytes
  {
    match r
    case Str(key, val) => [0 as char] + (WriteString(key) + WriteString(val))
    case Zset(key, members) => [1 as char] + (WriteString(key) + (BE(|members|, 4) + WriteMembers(members)))
    case Hash(key, fields) => [2 as char] + (WriteString(key) + (LE(|fields|, 4) + WriteFields(fields)))
  }

  function WriteRecords(rs: seq<Record>): Bytes
  {
    if rs == [] then [] else WriteRecord(rs[0]) + WriteRecords(rs[1..])
  }

  function WriteFile(rs: seq<Record>): Bytes { MAGIC + (WriteRecords(rs) + [255 as char]) }

  predicate MemberFits(m: AvlTree.Member) { IsDouble(m.score) && |m.key| < TWO32 }

  predicate FieldFits(e: Entry<Bytes>) { |e.key| < TWO32 && |e.val| < TWO32 }

  /** No length or count is cut by the cast to 32 bits, and every score is a double. */
  ghost predicate Fits(r: Record)
  {
    && |r.key| < TWO32
    && (r.Str? ==> |r.val| < TWO32)
    && (r.Zset? ==> |r.members| < TWO32 && forall i :: 0 <= i < |r.members| ==> MemberFits(r.members[i]))
    && (r.Hash? ==> |r.fields| < TWO32 && forall i :: 0 <= i < |r.fields| ==> FieldFits(r.fields[i]))
  }

  // ----- reading -----

  datatype Db = Db(strings: Store<Bytes>, zsets: Store<K.Scores>, hashes: Store<K.Fields>)

  const EMPTY: Db := Db(map[], map[], map[])

  /** Undefined: a null key is stored or a count is used that was never read. */
  datatype Load = Refused | Undefined | Loaded(db: Db)

  /** A short read leaves the file at its end. */
  function ReadString(s: Bytes): (r: (Option<Bytes>, Bytes))
    ensures |r.1| <= |s|
    ensures r.0.Some? ==> |s| >= 4
  {
    if |s| < 4 then (None, [])
    else
      var len := FromLE(s[..4]);
      if 4 + len > |s| then (None, []) else (Some(s[4..4 + len]), s[4 + len..])
  }

  function ReadMembers(s: Bytes, n: nat, z: K.Scores): (r: (K.Scores, Bytes))
    ensures |r.1| <= |s|
    decreases n
  {
    if n == 0 then (z, s)
    else
      var (member, rest) := ReadString(if |s| < 8 then [] else s[8..]);
      ReadMembers(rest, n - 1, if member.Some? then z[member.value := FromPattern(FromLE(s[..8]))] else z)
  }

  function ReadFields(s: Bytes, n: nat, h: K.Fields): (r: (K.Fields, Bytes))
    ensures |r.1| <= |s|
    decreases n
  {
    if n == 0 then (h, s)
    else
      var (f, rest) := ReadString(s);
      var (v, rest') := ReadString(rest);
      ReadFields(rest', n - 1, if f.Some? && v.Some? then h[f.value := v.value] else h)
  }

  datatype Step = End | Bad | Next(db: Db, rest: Bytes)

  /** One turn of the loading loop. */
  function ReadRecord(s: Bytes, db: Db): (r: Step)
    requires s != []
    ensures r.Next? ==> |r.rest| < |s|
  {
    var kind, (key, r1) := s[0] as int, ReadString(s[1..]);
    if kind == 0 then
      var (val, r2) := ReadString(r1);
      Next(if key.Some? && val.Some? then db.(strings := db.strings[key.value := Item(val.value, 0)]) else db, r2)
    else if kind == 1 then
      if key.None? || |r1| < 4 then Bad
      else
        var (z, r2) := ReadMembers(r1[4..], FromBE(r1[..4]), map[]);
        Next(db.(zsets := db.zsets[key.value := Item(z, 0)]), r2)
    else if kind == 2 then
      if key.None? || |r1| < 4 then Bad
      else
        var (h, r2) := ReadFields(r1[4..], FromLE(r1[..4]), map[]);
        Next(db.(hashes := db.hashes[key.value := Item(h, 0)]), r2)
    else End
  }

  function ReadRecords(s: Bytes, db: Db): Load
    decreases |s|
  {
    if s == [] then Loaded(db)
    else
      match ReadRecord(s, db)
      case End => Loaded(db)
      case Bad => Undefined
      case Next(db', rest) => ReadRecords(rest, db')
  }

  /** Loading into dictionaries that already hold db. */
  function ReadInto(file: Bytes, db: Db): Load
  {
    if |file| < 9 || file[..9] != MAGIC then Refused else ReadRecords(file[9..], db)
  }

  function ReadFile(file: Bytes): Load { ReadInto(file, EMPTY) }

  // ----- reading undoes writing -----

  lemma StringBack(s: Bytes, tail: Bytes)
    requires |s| < TWO32
    ensures ReadString(WriteString(s) + tail) == (Some(s), tail)
  {
    Pow256Values();
    NumbersBack(|s|, 4);
    hide LE, FromLE;
    var t := WriteString(s) + tail;
    assert t[..4] == LE(|s|, 4) && t[4..4 + |s|] == s && t[4 + |s|..] == tail;
  }

  lemma ScoreBack(score: K.Score, tail: Bytes)
    requires IsDouble(score)
    ensures var t := LE(Pattern(score), 8) + tail;
            FromPattern(FromLE(t[..8])) == score && t[8..] == tail
  {
    Pow256Values();
    NumbersBack(Pattern(score), 8);
    hide LE, FromLE;
    assert (LE(Pattern(score), 8) + tail)[..8] == LE(Pattern(score), 8);
  }

  ghost function AddAll(z: K.Scores, ms: seq<AvlTree.Member>): K.Scores
    decreases |ms|
  {
    if ms == [] then z else AddAll(z[ms[0].key := ms[0].score], ms[1..])
  }

  ghost function SetAll(h: K.Fields, es: seq<Entry<Bytes>>): K.Fields
    decreases |es|
  {
    if es == [] then h else SetAll(h[es[0].key := es[0].val], es[1..])
  }

  lemma {:induction false} MembersBack(ms: seq<AvlTree.Member>, tail: Bytes, z: K.Scores)
    requires forall i :: 0 <= i < |ms| ==> MemberFits(ms[i])
    ensures ReadMembers(WriteMembers(ms) + tail, |ms|, z) == (AddAll(z, ms), tail)
    decreases |ms|
  {
    hide ReadString, WriteString, LE, FromLE, Pattern, FromPattern;
    if ms != [] {
      var m, rest := ms[0], WriteMembers(ms[1..]) + tail;
      assert WriteMembers(ms) + tail == LE(Pattern(m.score), 8) + (WriteString(m.key) + rest);
      ScoreBack(m.score, WriteString(m.key) + rest);
      StringBack(m.key, rest);
      MembersBack(ms[1..], tail, z[m.key := m.score]);
    } else {
      assert WriteMembers(ms) + tail == tail;
    }
  }

  lemma {:induction false} FieldsBack(es: seq<Entry<Bytes>>, tail: Bytes, h: K.Fields)
    requires forall i :: 0 <= i < |es| ==> FieldFits(es[i])
    ensures ReadFields(WriteFields(es) + tail, |es|, h) == (SetAll(h, es), tail)
    decreases |es|
  {
    hide ReadString, WriteString;
    if es != [] {
      var e, rest := es[0], WriteFields(es[1..]) + tail;
      assert WriteFields(es) + tail == WriteString(e.key) + (WriteString(e.val) + rest);
      StringBack(e.key, WriteString(e.val) + rest);
      StringBack(e.val, rest);
      FieldsBack(es[1..], tail, h[e.key := e.val]);
    } else {
      assert WriteFields(es) + tail == tail;
    }
  }

  ghost function Apply(db: Db, r: Record): Db
  {
    match r
    case Str(key, val) => db.(strings := db.strings[key := Item(val, 0)])
    case Zset(key, members) => db.(zsets := db.zsets[key := Item(AddAll(map[], members), 0)])
    case Hash(key, fields) => db.(hashes := db.hashes[key := Item(SetAll(map[], fields), 0)])
  }

  ghost function ApplyAll(db: Db, rs: seq<Record>): Db
    decreases |rs|
  {
    if rs == [] then db else ApplyAll(Apply(db, rs[0]), rs[1..])
  }

  lemma {:induction false} CountBack(n: nat, rest: Bytes)
    requires n < TWO32
    ensures FromLE((LE(n, 4) + rest)[..4]) == n && (LE(n, 4) + rest)[4..] == rest
    ensures FromBE((BE(n, 4) + rest)[..4]) == n && (BE(n, 4) + rest)[4..] == rest
  {
    Pow256Values();
    NumbersBack(n, 4);
    hide LE, BE, FromLE, FromBE;
    assert (LE(n, 4) + rest)[..4] == LE(n, 4) && (BE(n, 4) + rest)[..4] == BE(n, 4);
  }

  lemma RecordBack(r: Record, tail: Bytes, db: Db)
    requires Fits(r)
    ensures WriteRecord(r) != [] && ReadRecord(WriteRecord(r) + tail, db) == Next(Apply(db, r), tail)
  {
    hide ReadString, WriteString, ReadMembers, WriteMembers, ReadFields, WriteFields, LE, BE, FromLE, FromBE, AddAll,
        SetAll,
         MemberFits, FieldFits;
    match r {
      case Str(key, val) =>
        KindRead(0, WriteString(key) + WriteString(val), tail);
        assert WriteString(key) + WriteString(val) + tail == WriteString(key) + (WriteString(val) + tail);
        StringBack(key, WriteString(val) + tail);
        StringBack(val, tail);
      case Zset(key, members) =>
        var count, body := BE(|members|, 4), WriteMembers(members);
        KindRead(1, WriteString(key) + (count + body), tail);
        assert WriteString(key) + (count + body) + tail == WriteString(key) + (count + (body + tail));
        StringBack(key, count + (body + tail));
        CountBack(|members|, body + tail);
        MembersBack(members, tail, map[]);
      case Hash(key, fields) =>
        var count, body := LE(|fields|, 4), WriteFields(fields);
        KindRead(2, WriteString(key) + (count + body), tail);
        assert WriteString(key) + (count + body) + tail == WriteString(key) + (count + (body + tail));
        StringBack(key, count + (body + tail));
        CountBack(|fields|, body + tail);
        FieldsBack(fields, tail, map[]);
    }
  }

  lemma KindRead(kind: nat, body: Bytes, tail: Bytes)
    requires kind < 256
    ensures var s := [kind as char] + body + tail; s != [] && s[0] as int == kind && s[1..] == body + tail
  {
  }

  lemma {:induction false} RecordsBack(rs: seq<Record>, db: Db)
    requires forall i :: 0 <= i < |rs| ==> Fits(rs[i])
    ensures ReadRecords(WriteRecords(rs) + [255 as char], db) == Loaded(ApplyAll(db, rs))
    decreases |rs|
  {
    hide WriteRecord, Apply, Fits, ReadRecord;
    var end := [255 as char];
    if rs == [] {
      assert WriteRecords(rs) + end == end;
      EndRead(db);
    } else {
      var rest := WriteRecords(rs[1..]) + end;
      assert WriteRecords(rs) + end == WriteRecord(rs[0]) + rest;
      RecordBack(rs[0], rest, db);
      RecordsBack(rs[1..], Apply(db, rs[0]));
    }
  }

  lemma EndRead(db: Db)
    ensures ReadRecord([255 as char], db) == End
  {
  }

  /** Loading a written file applies its records in order. */
  lemma FileBack(rs: seq<Record>)
    requires forall i :: 0 <= i < |rs| ==> Fits(rs[i])
    ensures ReadFile(WriteFile(rs)) == Loaded(ApplyAll(EMPTY, rs))
  {
    hide ReadRecords, WriteRecords, Fits;
    RecordsBack(rs, EMPTY);
    var body := WriteRecords(rs) + [255 as char];
    assert WriteFile(rs)[..9] == MAGIC && WriteFile(rs)[9..] == body;
  }

  // ----- the format itself -----

  /** Byte i of a number has its weight 256 to the i; the count of a sorted set is written the other way round. */
  lemma {:induction false} BytesOfNumbers(n: nat, k: nat, i: nat)
    requires i < k
    ensures LE(n, k)[i] as int == (n / Pow256(i)) % 256 && BE(n, k)[k - 1 - i] == LE(n, k)[i]
    decreases k
  {
    if i > 0 {
      BytesOfNumbers(n / 256, k - 1, i - 1);
      DivideTwice(n, Pow256(i - 1));
    } else {
      assert n / Pow256(0) == n;
    }
  }

  lemma DivideTwice(n: nat, p: nat)
    requires p > 0
    ensures n / 256 / p == n / (256 * p)
  {
    var q := n / (256 * p);
    var r := n % (256 * p);
    assert n == 256 * (p * q) + r;
    assert n / 256 == p * q + r / 256;
    assert r / 256 < p;
    SameRemainder(n / 256, p, q, r / 256);
  }

  /** What each record starts with: its kind, and the key behind its length. */
  lemma RecordHeads(r: Record)
    ensures var text := WriteRecord(r); var kind := if r.Str? then 0 else if r.Zset? then 1 else 2;
            && |text| >= 5 + |r.key| && text[0] as int == kind
            && text[1..5] == LE(|r.key|, 4) && text[5..5 + |r.key|] == r.key
  {
    hide LE, WriteMembers, WriteFields, BE;
    var text := WriteRecord(r);
    assert text[1..5] == LE(|r.key|, 4);
    assert text[5..5 + |r.key|] == r.key;
  }

  lemma {:induction false} RecordsThen(rs: seq<Record>, tail: Bytes, db: Db)
    requires forall i :: 0 <= i < |rs| ==> Fits(rs[i])
    ensures ReadRecords(WriteRecords(rs) + tail, db) == ReadRecords(tail, ApplyAll(db, rs))
    decreases |rs|
  {
    hide WriteRecord, Apply, Fits, ReadRecord;
    if rs == [] {
      assert WriteRecords(rs) + tail == tail;
    } else {
      var rest := WriteRecords(rs[1..]) + tail;
      assert WriteRecords(rs) + tail == WriteRecord(rs[0]) + rest;
      RecordBack(rs[0], rest, db);
      RecordsThen(rs[1..], tail, Apply(db, rs[0]));
    }
  }

  /** A snapshot cut short within a text's record gives exactly the records before it. */
  lemma CutSnapshot(rs: seq<Record>, key: Bytes, val: Bytes, k: nat)
    requires (forall i :: 0 <= i < |rs| ==> Fits(rs[i])) && Fits(Str(key, val)) && k < |WriteRecord(Str(key, val))|
    ensures ReadFile(MAGIC + (WriteRecords(rs) + WriteRecord(Str(key, val))[..k])) == Loaded(ApplyAll(EMPTY, rs))
  {
    var cut, body := WriteRecord(Str(key, val))[..k], WriteRecords(rs) + WriteRecord(Str(key, val))[..k];
    assert (MAGIC + body)[..9] == MAGIC && (MAGIC + body)[9..] == body;
    RecordsThen(rs, cut, EMPTY);
    CutText(key, val, k, ApplyAll(EMPTY, rs));
    hide ReadRecords, WriteRecords, WriteRecord, ApplyAll, Fits;
  }

  lemma CutText(key: Bytes, val: Bytes, k: nat, db: Db)
    requires |key| < TWO32 && |val| < TWO32 && k < |WriteRecord(Str(key, val))|
    ensures ReadRecords(WriteRecord(Str(key, val))[..k], db) == Loaded(db)
  {
    hide LE, FromLE;
    var text := WriteRecord(Str(key, val));
    var cut := text[..k];
    if k > 0 {
      assert cut[0] as int == 0;
      CutStrings(key, val, k - 1);
      assert cut[1..] == (WriteString(key) + WriteString(val))[..k - 1];
      hide ReadString, WriteString;
      assert ReadRecords([], db) == Loaded(db);
    }
  }

  /** One of the two strings is missing, and then nothing is left. */
  lemma CutStrings(key: Bytes, val: Bytes, k: nat)
    requires |key| < TWO32 && |val| < TWO32 && k < |WriteString(key) + WriteString(val)|
    ensures var (a, rest) := ReadString((WriteString(key) + WriteString(val))[..k]);
            var (b, end) := ReadString(rest);
            (a.None? || b.None?) && end == []
  {
    hide LE, FromLE;
    var both, n := WriteString(key) + WriteString(val), |WriteString(key)|;
    CutString(key, k);
    CutString(val, k - n);
    if k < n {
      assert both[..k] == WriteString(key)[..k];
    } else {
      StringBack(key, WriteString(val)[..k - n]);
      assert both[..k] == WriteString(key) + WriteString(val)[..k - n];
    }
  }

  lemma CutString(s: Bytes, k: int)
    requires |s| < TWO32
    ensures 0 <= k < |WriteString(s)| ==> ReadString(WriteString(s)[..k]) == (None, [])
  {
    Pow256Values();
    NumbersBack(|s|, 4);
    hide LE, FromLE;
    if 4 <= k < |WriteString(s)| {
      assert WriteString(s)[..k][..4] == LE(|s|, 4);
    }
  }
}
