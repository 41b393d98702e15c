/** The two live tables of a dictionary as values, and the invariant every operation keeps. */
module DictTable {
  import opened Sds
  import opened DictSpec

  datatype Entry<V> = Entry(key: Bytes, val: V, expire: int) {
    function ToItem(): Item<V> { Item(val, expire) }
  }

  /** A collision chain: head of the linked list first. */
  type Chain<V> = seq<Entry<V>>

  // ----- where a key belongs -----

  function HashFrom(h: nat, s: Bytes): nat
    decreases s
  {
    if s == [] then h else HashFrom((h * 33 + s[0] as int) % 0x1_0000_0000_0000_0000, s[1..])
  }

  /** djb2 over a 64-bit accumulator, truncated to 32 bits. */
  function Hash(key: Bytes): nat { HashFrom(5381, key) % 0x1_0000_0000 }

  function BitAnd(a: nat, b: nat): (r: nat)
    ensures r <= b
  {
    if a == 0 || b == 0 then 0 else 2 * BitAnd(a / 2, b / 2) + (a % 2) * (b % 2)
  }

  /** `hash & sizemask`, with sizemask = size - 1. */
  function Bucket(key: Bytes, size: nat): (i: nat)
    requires size > 0
    ensures i < size
  {
    BitAnd(Hash(key), size - 1)
  }

  /** Table sizes: 4, doubled any number of times. */
  ghost predicate TableSize(n: nat) { n == 4 || (n > 4 && n % 2 == 0 && TableSize(n / 2)) }

  lemma {:induction false} HashFromMore(h: nat, s: Bytes, c: char)
    ensures HashFrom(h, s + [c]) == (HashFrom(h, s) * 33 + c as int) % 0x1_0000_0000_0000_0000
    decreases |s|
  {
    if s == [] {
      assert (s + [c])[1..] == [];
    } else {
      assert (s + [c])[1..] == s[1..] + [c];
      HashFromMore((h * 33 + s[0] as int) % 0x1_0000_0000_0000_0000, s[1..], c);
    }
  }

  /** djb2 in 32 bits: the wider accumulator makes no difference to the bits that are kept. */
  lemma HashIsDjb2(s: Bytes, c: char)
    ensures Hash("") == 5381 && Hash(s + [c]) == (Hash(s) * 33 + c as int) % 0x1_0000_0000
  {
    HashFromMore(5381, s, c);
    var h := HashFrom(5381, s);
    hide HashFrom;
    Wrapped(h * 33 + c as int);
    Carried(h, c as int);
  }

  lemma Wrapped(a: nat)
    ensures a % 0x1_0000_0000_0000_0000 % 0x1_0000_0000 == a % 0x1_0000_0000
  {
    var q, t := a / 0x1_0000_0000_0000_0000, a % 0x1_0000_0000_0000_0000;
    SameRemainder(a, 0x1_0000_0000, 0x1_0000_0000 * q + t / 0x1_0000_0000, t % 0x1_0000_0000);
  }

  lemma Carried(h: nat, c: nat)
    ensures (h % 0x1_0000_0000 * 33 + c) % 0x1_0000_0000 == (h * 33 + c) % 0x1_0000_0000
  {
    var k, t := h / 0x1_0000_0000, h % 0x1_0000_0000 * 33 + c;
    SameRemainder(h * 33 + c, 0x1_0000_0000, 33 * k + t / 0x1_0000_0000, t % 0x1_0000_0000);
  }

  lemma MaskStep(h: nat, m: nat)
    requires m > 0 && BitAnd(h / 2, m - 1) == h / 2 % m
    ensures BitAnd(h, 2 * m - 1) == h % (2 * m)
  {
    HalfRemainder(h, m);
    var mask := 2 * m - 1;
    assert mask / 2 == m - 1 && mask % 2 == 1;
    OddMask(h, mask);
  }

  lemma OddMask(h: nat, mask: nat)
    requires mask % 2 == 1
    ensures BitAnd(h, mask) == 2 * BitAnd(h / 2, mask / 2) + h % 2
  {
  }

  /** With a table size, hash & mask is the remainder. */
  lemma {:induction false} MaskIsRemainder(h: nat, size: nat)
    requires TableSize(size)
    ensures BitAnd(h, size - 1) == h % size
    decreases size
  {
    if size == 4 {
      assert BitAnd(h / 2 / 2, 0) == h / 2 / 2 % 1;
      MaskStep(h / 2, 1);
      MaskStep(h, 2);
    } else {
      MaskIsRemainder(h / 2, size / 2);
      MaskStep(h, size / 2);
    }
  }

  lemma HalfRemainder(h: nat, m: nat)
    requires m > 0
    ensures h % (2 * m) == 2 * (h / 2 % m) + h % 2
  {
    var q, r := h / 2 / m, h / 2 % m;
    assert h / 2 == m * q + r;
    assert h == 2 * m * q + (2 * r + h % 2);
    assert 2 * r + h % 2 < 2 * m;
    SameRemainder(h, 2 * m, q, 2 * r + h % 2);
  }

  lemma SameRemainder(h: nat, m: nat, q: nat, r: nat)
    requires h == m * q + r && r < m
    ensures h % m == r && h / m == q
  {
    var x := h / m;
    assert h == m * x + h % m;
    if x > q {
      TimesMonotone(m, q + 1, x);
    } else if x < q {
      TimesMonotone(m, x + 1, q);
    }
  }

  lemma TimesMonotone(m: nat, a: nat, b: nat)
    requires a <= b
    ensures m * a <= m * b
  {
  }

  // ----- chains -----

  ghost function Find<V>(c: Chain<V>, key: Bytes): Option<Item<V>>
  {
    if c == [] then None
    else if c[0].key == key then Some(c[0].ToItem())
    else Find(c[1..], key)
  }

  ghost predicate Distinct<V>(c: Chain<V>) { forall i, j :: 0 <= i < j < |c| ==> c[i].key != c[j].key }

  lemma {:induction false} FindAt<V>(c: Chain<V>, i: nat)
    requires i < |c| && Distinct(c)
    ensures Find(c, c[i].key) == Some(c[i].ToItem())
  {
    if i > 0 {
      FindAt(c[1..], i - 1);
    }
  }

  lemma {:induction false} FindNone<V>(c: Chain<V>, key: Bytes)
    ensures Find(c, key).None? <==> forall i :: 0 <= i < |c| ==> c[i].key != key
  {
    if c != [] {
      FindNone(c[1..], key);
      assert Find(c, key).None? ==> forall i :: 0 < i < |c| ==> c[i] == c[1..][i - 1];
      if c[0].key != key && Find(c, key).Some? {
        var i :| 0 <= i < |c[1..]| && c[1..][i].key == key;
        assert c[i + 1].key == key;
      }
    }
  }

  /** Only membership matters in a chain with distinct keys. */
  lemma FindMember<V>(c: Chain<V>, key: Bytes)
    requires Distinct(c)
    ensures forall i :: 0 <= i < |c| && c[i].key == key ==> Find(c, key) == Some(c[i].ToItem())
    ensures Find(c, key).Some? ==> exists i :: 0 <= i < |c| && c[i].key == key
  {
    FindNone(c, key);
    forall i | 0 <= i < |c| && c[i].key == key ensures Find(c, key) == Some(c[i].ToItem()) {
      FindAt(c, i);
    }
  }

  // ----- one table -----

  ghost function Count<V>(b: seq<Chain<V>>): nat
  {
    if b == [] then 0 else |b[0]| + Count(b[1..])
  }

  lemma {:induction false} CountUpdate<V>(b: seq<Chain<V>>, i: nat, c: Chain<V>)
    requires i < |b|
    ensures Count(b[i := c]) == Count(b) - |b[i]| + |c|
  {
    if i == 0 {
      assert b[i := c][1..] == b[1..];
    } else {
      assert b[i := c][1..] == b[1..][i - 1 := c];
      CountUpdate(b[1..], i - 1, c);
    }
  }

  lemma {:induction false} CountZero<V>(b: seq<Chain<V>>)
    ensures Count(b) == 0 <==> forall i :: 0 <= i < |b| ==> b[i] == []
  {
    if b != [] {
      CountZero(b[1..]);
      assert forall i :: 0 < i < |b| ==> b[i] == b[1..][i - 1];
      if Count(b[1..]) > 0 {
        var i :| 0 <= i < |b[1..]| && b[1..][i] != [];
        assert b[i + 1] != [];
      }
    }
  }

  ghost predicate Placed<V>(b: seq<Chain<V>>)
  {
    forall i, j :: 0 <= i < |b| && 0 <= j < |b[i]| ==> Bucket(b[i][j].key, |b|) == i
  }

  ghost predicate TableOk<V>(b: seq<Chain<V>>, used: int)
  {
    && (b == [] || TableSize(|b|))
    && used == Count(b)
    && Placed(b)
    && forall i :: 0 <= i < |b| ==> Distinct(b[i])
  }

  ghost function Look<V>(b: seq<Chain<V>>, key: Bytes): Option<Item<V>>
  {
    if |b| == 0 then None else Find(b[Bucket(key, |b|)], key)
  }

  lemma LookAt<V>(b: seq<Chain<V>>, used: int, i: nat, j: nat)
    requires TableOk(b, used) && i < |b| && j < |b[i]|
    ensures Look(b, b[i][j].key) == Some(b[i][j].ToItem())
  {
    FindAt(b[i], j);
  }

  /** Rewriting one chain, without changing what any key outside it maps to. */
  lemma {:induction false} TableUpdate<V>(b: seq<Chain<V>>, used: int, i: nat, c: Chain<V>)
    requires TableOk(b, used) && i < |b|
    requires Distinct(c) && forall j :: 0 <= j < |c| ==> Bucket(c[j].key, |b|) == i
    ensures TableOk(b[i := c], used - |b[i]| + |c|)
    ensures forall k :: Look(b[i := c], k) == if Bucket(k, |b|) == i then Find(c, k) else Look(b, k)
  {
    CountUpdate(b, i, c);
    var b': seq<Chain<V>> := b[i := c];
    assert Placed(b') by {
      forall x, j | 0 <= x < |b'| && 0 <= j < |b'[x]| ensures Bucket(b'[x][j].key, |b'|) == x {
        assert x != i ==> b'[x] == b[x];
      }
    }
    forall x | 0 <= x < |b'| ensures Distinct(b'[x]) {
      assert x != i ==> b'[x] == b[x];
    }
  }

  // ----- both tables -----

  datatype State<V> = State(b0: seq<Chain<V>>, used0: int, b1: seq<Chain<V>>, used1: int, rehashidx: int)

  /** The map both tables stand for; no key is in both. */
  ghost predicate Represents<V>(b0: seq<Chain<V>>, b1: seq<Chain<V>>, m: Store<V>)
  {
    && (forall k :: Look(b0, k).None? || Look(b1, k).None?)
    && (forall k :: k in m <==> Look(b0, k).Some? || Look(b1, k).Some?)
    && (forall k :: Look(b0, k).Some? ==> m[k] == Look(b0, k).value)
    && (forall k :: Look(b1, k).Some? ==> m[k] == Look(b1, k).value)
  }

  /** Growing starts with a full table of size S and a new one of size 2S. Each put moves at least two
      buckets and adds at most one entry, so the entries never exceed S + rehashidx / 2. */
  ghost predicate Rehashing<V>(s: State<V>)
  {
    && 0 <= s.rehashidx <= |s.b0| && |s.b0| > 0 && |s.b1| == 2 * |s.b0|
    && (forall i :: 0 <= i < s.rehashidx ==> s.b0[i] == [])
    && 2 * (s.used0 + s.used1) <= 2 * |s.b0| + s.rehashidx
  }

  ghost predicate Tables<V>(s: State<V>)
  {
    && TableOk(s.b0, s.used0)
    && TableOk(s.b1, s.used1)
    && (s.rehashidx == -1 ==> s.b1 == [] && s.used0 <= |s.b0|)
    && (s.rehashidx != -1 ==> Rehashing(s))
  }

  ghost predicate Inv<V>(s: State<V>, m: Store<V>)
  {
    Tables(s) && Represents(s.b0, s.b1, m)
  }

  lemma InvEmpty<V>()
    ensures Inv<V>(State([], 0, [], 0, -1), map[])
  {
  }

  /** No table ever holds more entries than buckets, and a growth in progress leaves room to spare. */
  lemma LoadAtMostOne<V>(s: State<V>, m: Store<V>)
    requires Inv(s, m)
    ensures s.rehashidx == -1 ==> s.used0 <= |s.b0| && s.used1 == 0
    ensures s.rehashidx != -1 ==> s.used0 + s.used1 < |s.b1|
  {
    assert Count<V>([]) == 0;
  }

  lemma InvShape<V>(s: State<V>, m: Store<V>)
    requires Inv(s, m)
    ensures s.used0 >= 0 && s.used1 >= 0
    ensures s.b0 == [] ==> s.used0 == 0 && s.rehashidx == -1
    ensures s.b0 != [] ==> TableSize(|s.b0|) && |s.b0| >= 4
    ensures s.rehashidx == -1 ==> s.b1 == [] && s.used1 == 0 && s.used0 <= |s.b0|
    ensures s.rehashidx != -1 ==> |s.b1| == 2 * |s.b0| && 0 <= s.rehashidx <= |s.b0| && |s.b0| >= 4
                                  && 2 * (s.used0 + s.used1) <= 2 * |s.b0| + s.rehashidx
    ensures s.rehashidx != -1 && s.used0 > 0 ==> exists i :: s.rehashidx <= i < |s.b0| && s.b0[i] != []
  {
    LoadAtMostOne(s, m);
    CountZero(s.b0);
  }

  /** What a walk of the two candidate chains means. */
  lemma InvLook<V>(s: State<V>, m: Store<V>, key: Bytes)
    requires Inv(s, m)
    ensures key in m <==> Look(s.b0, key).Some? || Look(s.b1, key).Some?
    ensures Look(s.b0, key).Some? ==> m[key] == Look(s.b0, key).value && Look(s.b1, key).None?
    ensures Look(s.b1, key).Some? ==> m[key] == Look(s.b1, key).value
    ensures s.used0 + s.used1 == 0 ==> key !in m
  {
    InvShape(s, m);
    CountZero(s.b0);
    CountZero(s.b1);
  }

  lemma {:induction false} InvSkip<V>(s: State<V>, m: Store<V>)
    requires Inv(s, m) && s.rehashidx != -1 && s.rehashidx < |s.b0| && s.b0[s.rehashidx] == []
    ensures Inv(s.(rehashidx := s.rehashidx + 1), m)
  {
  }

  /** `hash & sizemask` finds every key in exactly one chain of exactly one table. */
  lemma {:induction false} InOneChain<V>(s: State<V>, m: Store<V>, key: Bytes)
    requires Inv(s, m)
    ensures key in m <==> Look(s.b0, key).Some? != Look(s.b1, key).Some?
    ensures forall i, j :: 0 <= i < |s.b0| && 0 <= j < |s.b0[i]| && s.b0[i][j].key == key
              ==> i == Bucket(key, |s.b0|) && key in m && s.b0[i][j].ToItem() == m[key] && Look(s.b1, key).None?
    ensures forall i, j :: 0 <= i < |s.b1| && 0 <= j < |s.b1[i]| && s.b1[i][j].key == key
              ==> i == Bucket(key, |s.b1|) && key in m && s.b1[i][j].ToItem() == m[key] && Look(s.b0, key).None?
  {
    forall i, j | 0 <= i < |s.b0| && 0 <= j < |s.b0[i]| && s.b0[i][j].key == key
      ensures i == Bucket(key, |s.b0|) && key in m && s.b0[i][j].ToItem() == m[key] && Look(s.b1, key).None?
    {
      LookAt(s.b0, s.used0, i, j);
    }
    forall i, j | 0 <= i < |s.b1| && 0 <= j < |s.b1[i]| && s.b1[i][j].key == key
      ensures i == Bucket(key, |s.b1|) && key in m && s.b1[i][j].ToItem() == m[key] && Look(s.b0, key).None?
    {
      LookAt(s.b1, s.used1, i, j);
    }
  }

  // ----- moving a bucket -----

  /** The inner loop of dict_rehash: each entry in turn becomes the head of its new chain. */
  function MoveAll<V>(c: Chain<V>, b: seq<Chain<V>>): (r: seq<Chain<V>>)
    requires |b| > 0
    ensures |r| == |b|
    decreases |c|
  {
    if c == [] then b
    else
      var i := Bucket(c[0].key, |b|);
      MoveAll(c[1..], b[i := [c[0]] + b[i]])
  }

  lemma {:induction false} MoveAllSpec<V>(c: Chain<V>, b: seq<Chain<V>>, used: int)
    requires |b| > 0 && TableOk(b, used) && Distinct(c)
    requires forall k :: Find(c, k).None? || Look(b, k).None?
    ensures TableOk(MoveAll(c, b), used + |c|)
    ensures forall k :: Look(MoveAll(c, b), k) == if Find(c, k).Some? then Find(c, k) else Look(b, k)
    decreases |c|
  {
    if c != [] {
      var i := Bucket(c[0].key, |b|);
      var head := [c[0]] + b[i];
      assert Find(c, c[0].key).Some?;
      FindNone(b[i], c[0].key);
      assert Distinct(head);
      TableUpdate(b, used, i, head);
      var b' := b[i := head];
      assert head[1..] == b[i];
      forall k ensures Look(b', k) == if k == c[0].key then Some(c[0].ToItem()) else Look(b, k) {
      }
      FindNone(c[1..], c[0].key);
      assert forall j :: 0 <= j < |c[1..]| ==> c[1..][j] == c[j + 1];
      assert Distinct(c[1..]);
      assert Find(c[1..], c[0].key).None?;
      forall k ensures Find(c[1..], k).None? || Look(b', k).None? {
      }
      MoveAllSpec(c[1..], b', used + 1);
    }
  }

  lemma InChain<V>(b: seq<Chain<V>>, used: int, i: nat, k: Bytes)
    requires TableOk(b, used) && i < |b| && Find(b[i], k).Some?
    ensures Bucket(k, |b|) == i
  {
    FindMember(b[i], k);
  }

  lemma MoveBucketLooks<V>(s: State<V>)
    requires TableOk(s.b0, s.used0) && TableOk(s.b1, s.used1) && |s.b1| > 0 && 0 <= s.rehashidx < |s.b0|
    requires forall k :: Look(s.b0, k).None? || Look(s.b1, k).None?
    ensures var c := s.b0[s.rehashidx];
            var b0, b1 := s.b0[s.rehashidx := []], MoveAll(c, s.b1);
            && TableOk(b0, s.used0 - |c|) && TableOk(b1, s.used1 + |c|)
            && forall m :: Represents(s.b0, s.b1, m) ==> Represents(b0, b1, m)
  {
    var c := s.b0[s.rehashidx];
    forall k ensures Find(c, k).Some? ==> Bucket(k, |s.b0|) == s.rehashidx {
      if Find(c, k).Some? { InChain(s.b0, s.used0, s.rehashidx, k); }
    }
    MoveAllSpec(c, s.b1, s.used1);
    TableUpdate(s.b0, s.used0, s.rehashidx, []);
    var b0, b1 := s.b0[s.rehashidx := []], MoveAll(c, s.b1);
    assert forall k :: if Bucket(k, |s.b0|) == s.rehashidx
                 then Look(b0, k).None? && Look(b1, k) == if Look(s.b0, k).Some? then Look(s.b0, k) else Look(s.b1, k)
                 else Look(b0, k) == Look(s.b0, k) && Look(b1, k) == Look(s.b1, k);
    forall m | Represents(s.b0, s.b1, m) ensures Represents(b0, b1, m) {
    }
  }

  lemma InvMoveBucket<V>(s: State<V>, m: Store<V>)
    requires Inv(s, m) && s.rehashidx != -1 && s.rehashidx < |s.b0|
    ensures var c := s.b0[s.rehashidx];
            Inv(State(s.b0[s.rehashidx := []], s.used0 - |c|, MoveAll(c, s.b1), s.used1 + |c|, s.rehashidx + 1), m)
  {
    MoveBucketLooks(s);
  }

  lemma InvFinish<V>(s: State<V>, m: Store<V>)
    requires Inv(s, m) && s.rehashidx != -1 && s.used0 == 0
    ensures Inv(State(s.b1, s.used1, [], 0, -1), m)
    ensures s.used1 < |s.b1|
  {
    CountZero(s.b0);
    forall k ensures Look(s.b0, k) == None {
    }
    LoadAtMostOne(s, m);
  }

  ghost function EmptyBuckets<V>(n: nat): seq<Chain<V>> { seq(n, _ => []) }

  lemma EmptyTable<V>(n: nat)
    requires TableSize(n)
    ensures TableOk(EmptyBuckets<V>(n), 0)
    ensures forall k :: Look(EmptyBuckets<V>(n), k) == None
  {
    CountZero(EmptyBuckets<V>(n));
  }

  lemma InvGrow<V>(s: State<V>, m: Store<V>, b1: seq<Chain<V>>)
    requires Inv(s, m) && s.rehashidx == -1 && |s.b0| > 0
    requires |b1| == 2 * |s.b0| && TableOk(b1, 0) && forall k :: Look(b1, k) == None
    ensures Inv(State(s.b0, s.used0, b1, 0, 0), m)
  {
    assert Represents(s.b0, b1, m);
  }

  lemma InvFirst<V>(s: State<V>, m: Store<V>, b0: seq<Chain<V>>)
    requires Inv(s, m) && s.b0 == []
    requires |b0| == 4 && TableOk(b0, 0) && forall k :: Look(b0, k) == None
    ensures Inv(State(b0, 0, [], 0, -1), m)
  {
    InvShape(s, m);
  }

  // ----- progress -----

  /** What a call may do to the tables: it adds at most `added` entries, and while a rehash is under way it either moves
      it on by `least` buckets or ends it, with at least a quarter of the new table free but for what was added. */
  ghost predicate Moved<V>(s: State<V>, t: State<V>, least: nat, added: nat)
  {
    && t.used0 + t.used1 <= s.used0 + s.used1 + added
    && if s.rehashidx == -1 then t.rehashidx == -1 && |t.b0| == |s.b0|
       else if t.rehashidx == -1 then |t.b0| == |s.b1| && 4 * (t.used0 + t.used1) <= 3 * |t.b0| + 4 * added
       else s.rehashidx + least <= t.rehashidx && |t.b0| == |s.b0| && |t.b1| == |s.b1|
  }

  lemma MovedNone<V>(s: State<V>)
    ensures Moved(s, s, 0, 0)
  {
  }

  lemma MovedAny<V>(s: State<V>, t: State<V>, least: nat)
    requires Moved(s, t, least, 0)
    ensures Moved(s, t, 0, 0)
  {
  }

  lemma MovedAgain<V>(s: State<V>, t: State<V>, u: State<V>, i: nat, j: nat, x: nat, y: nat)
    requires Moved(s, t, i, x) && Moved(t, u, j, y)
    ensures Moved(s, u, i + j, x + y)
  {
  }

  lemma MovedMore<V>(s: State<V>, t: State<V>, least: nat, added: nat)
    requires Moved(s, t, least, added) && added <= 1 && (least >= 1 || s.rehashidx == -1)
    ensures Moved(s, t, 1, 1)
  {
  }

  /** A put of the key made during a rehash. */
  ghost predicate PutStep<V>(s: State<V>, m: Store<V>, key: Bytes, t: State<V>, m': Store<V>)
  {
    && Inv(s, m) && Inv(t, m') && Moved(s, t, 2, 1) && (t.rehashidx != -1 ==> t.used0 > 0)
    && key in m' && m' == m[key := m'[key]]
  }

  /** Any other call but a clearing one: it adds no key. */
  ghost predicate OtherStep<V>(s: State<V>, m: Store<V>, t: State<V>, m': Store<V>)
  {
    Inv(s, m) && Inv(t, m') && Moved(s, t, 0, 0) && m'.Keys <= m.Keys
  }

  lemma OtherStepOf<V>(s: State<V>, m: Store<V>, t: State<V>, m': Store<V>)
    requires Inv(s, m) && Inv(t, m') && Moved(s, t, 0, 0) && m'.Keys <= m.Keys
    ensures OtherStep(s, m, t, m')
  {
  }

  function Puts(calls: seq<Option<Bytes>>): nat
  {
    if calls == [] then 0 else Puts(calls[..|calls| - 1]) + if calls[|calls| - 1].Some? then 1 else 0
  }

  /** Along any calls made while one rehash goes on, where calls[i] has the key of a put: as long as it lasts there have
      been fewer puts than half the old table has buckets, and the load stays below one; when it is over, the new table
      has room, so no call so far can have started the next growth. */
  lemma {:induction false} RehashEndsInTime<V>(run: seq<State<V>>, models: seq<Store<V>>, calls: seq<Option<Bytes>>)
    requires |run| == |models| == |calls| + 1 && Inv(run[0], models[0]) && run[0].rehashidx != -1
    requires forall i :: 0 <= i < |calls| ==> run[i].rehashidx != -1
    requires forall i :: 0 <= i < |calls| ==>
               if calls[i].Some? then PutStep(run[i], models[i], calls[i].value, run[i + 1], models[i + 1])
               else OtherStep(run[i], models[i], run[i + 1], models[i + 1])
    ensures var last := run[|calls|];
            if last.rehashidx != -1 then
              && |last.b0| == |run[0].b0| && run[0].rehashidx + 2 * Puts(calls) <= last.rehashidx
              && 2 * Puts(calls) < |run[0].b0| && last.used0 + last.used1 < |last.b1|
            else |last.b0| == 2 * |run[0].b0| && last.used0 < |last.b0|
  {
    hide Inv;
    var n := |calls|;
    InvShape(run[0], models[0]);
    LoadAtMostOne(run[0], models[0]);
    if n > 0 {
      RehashEndsInTime(run[..n], models[..n], calls[..n - 1]);
      assert run[..n][n - 1] == run[n - 1] && models[..n][n - 1] == models[n - 1];
      assert Inv(run[n - 1], models[n - 1]) && Inv(run[n], models[n]);
      InvShape(run[n - 1], models[n - 1]);
      InvShape(run[n], models[n]);
      LoadAtMostOne(run[n], models[n]);
    }
  }

  // ----- changing one chain -----

  lemma RepresentsChange<V>(b0: seq<Chain<V>>, b1: seq<Chain<V>>, c0: seq<Chain<V>>, c1: seq<Chain<V>>,
                            m: Store<V>, m': Store<V>, key: Bytes)
    requires Represents(b0, b1, m)
    requires forall k :: k != key ==> Look(c0, k) == Look(b0, k) && Look(c1, k) == Look(b1, k)
    requires forall k :: k != key ==> (k in m <==> k in m') && (k in m ==> m'[k] == m[k])
    requires Look(c0, key).None? || Look(c1, key).None?
    requires key in m' <==> Look(c0, key).Some? || Look(c1, key).Some?
    requires Look(c0, key).Some? ==> m'[key] == Look(c0, key).value
    requires Look(c1, key).Some? ==> m'[key] == Look(c1, key).value
    ensures Represents(c0, c1, m')
  {
  }

  ghost predicate InsertHere<V>(s: State<V>, e: Entry<V>, m: Store<V>) {
    && Inv(s, m) && e.key !in m
    && if s.rehashidx == -1 then |s.b0| > 0 && s.used0 < |s.b0|
       else 2 * (s.used0 + s.used1 + 1) <= 2 * |s.b0| + s.rehashidx
  }

  lemma TablePush<V>(b: seq<Chain<V>>, used: int, e: Entry<V>)
    requires TableOk(b, used) && |b| > 0 && Look(b, e.key).None?
    ensures var i := Bucket(e.key, |b|);
            TableOk(b[i := [e] + b[i]], used + 1)
            && forall k :: Look(b[i := [e] + b[i]], k) == if k == e.key then Some(e.ToItem()) else Look(b, k)
  {
    var i := Bucket(e.key, |b|);
    FindNone(b[i], e.key);
    TableUpdate(b, used, i, [e] + b[i]);
    assert ([e] + b[i])[1..] == b[i];
  }

  /** A new entry goes to the new table while a rehash is under way. */
  function Insert<V>(s: State<V>, e: Entry<V>): State<V>
    requires if s.rehashidx == -1 then |s.b0| > 0 else |s.b1| > 0
  {
    if s.rehashidx == -1 then
      var i := Bucket(e.key, |s.b0|);
      s.(b0 := s.b0[i := [e] + s.b0[i]], used0 := s.used0 + 1)
    else
      var i := Bucket(e.key, |s.b1|);
      s.(b1 := s.b1[i := [e] + s.b1[i]], used1 := s.used1 + 1)
  }

  lemma InvInsert<V>(s: State<V>, e: Entry<V>, m: Store<V>)
    requires InsertHere(s, e, m)
    ensures Inv(Insert(s, e), m[e.key := e.ToItem()])
  {
    var s' := Insert(s, e);
    if s.rehashidx == -1 {
      TablePush(s.b0, s.used0, e);
    } else {
      TablePush(s.b1, s.used1, e);
    }
    RepresentsChange(s.b0, s.b1, s'.b0, s'.b1, m, m[e.key := e.ToItem()], e.key);
  }

  /** Replaces the chain i of one of the tables, adjusting that table's count. */
  function SetChain<V>(s: State<V>, table: int, i: nat, c: Chain<V>): State<V>
    requires table == 0 ==> i < |s.b0|
    requires table != 0 ==> i < |s.b1|
  {
    if table == 0 then s.(b0 := s.b0[i := c], used0 := s.used0 - |s.b0[i]| + |c|)
    else s.(b1 := s.b1[i := c], used1 := s.used1 - |s.b1[i]| + |c|)
  }

  ghost predicate EntryAt<V>(s: State<V>, table: int, i: nat, j: nat)
  {
    if table == 0 then i < |s.b0| && j < |s.b0[i]|
    else table == 1 && s.rehashidx != -1 && i < |s.b1| && j < |s.b1[i]|
  }

  ghost function ChainAt<V>(s: State<V>, table: int, i: nat): Chain<V>
    requires if table == 0 then i < |s.b0| else i < |s.b1|
  {
    if table == 0 then s.b0[i] else s.b1[i]
  }

  lemma {:induction false} FindRemove<V>(c: Chain<V>, j: nat, k: Bytes)
    requires Distinct(c) && j < |c|
    ensures Find(c[..j] + c[j + 1..], k) == if k == c[j].key then None else Find(c, k)
  {
    var c' := c[..j] + c[j + 1..];
    if j == 0 {
      assert c' == c[1..];
      FindNone(c[1..], c[0].key);
    } else {
      FindRemove(c[1..], j - 1, k);
      assert c'[1..] == c[1..][..j - 1] + c[1..][j..];
    }
  }

  lemma TableRemove<V>(b: seq<Chain<V>>, used: int, i: nat, j: nat)
    requires TableOk(b, used) && i < |b| && j < |b[i]|
    ensures var b' := b[i := b[i][..j] + b[i][j + 1..]];
            TableOk(b', used - 1)
            && forall k :: Look(b', k) == if k == b[i][j].key then None else Look(b, k)
  {
    var c := b[i];
    var c' := c[..j] + c[j + 1..];
    forall k ensures Find(c', k) == if k == c[j].key then None else Find(c, k) {
      FindRemove(c, j, k);
    }
    assert forall x :: 0 <= x < |c'| ==> c'[x] == if x < j then c[x] else c[x + 1];
    assert Distinct(c');
    TableUpdate(b, used, i, c');
  }

  /** One table changes at one present key, to another value or to nothing; no bucket is added or moved. */
  ghost predicate OneChange<V>(s: State<V>, s': State<V>, key: Bytes, r: Option<Item<V>>)
  {
    && TableOk(s'.b0, s'.used0) && TableOk(s'.b1, s'.used1)
    && s'.rehashidx == s.rehashidx && |s'.b0| == |s.b0| && |s'.b1| == |s.b1|
    && s'.used0 <= s.used0 && s'.used1 <= s.used1
    && (forall i :: 0 <= i < |s.b0| && s.b0[i] == [] ==> s'.b0[i] == [])
    && (Look(s.b0, key).Some? || Look(s.b1, key).Some?)
    && (forall k :: Look(s'.b0, k) == if k == key && Look(s.b0, k).Some? then r else Look(s.b0, k))
    && (forall k :: Look(s'.b1, k) == if k == key && Look(s.b1, k).Some? then r else Look(s.b1, k))
  }

  lemma InvChange<V>(s: State<V>, m: Store<V>, s': State<V>, key: Bytes, r: Option<Item<V>>)
    ensures Inv(s, m) && OneChange(s, s', key, r) ==> Inv(s', if r.Some? then m[key := r.value] else m - {key})
  {
    if Inv(s, m) && OneChange(s, s', key, r) {
      RepresentsChange(s.b0, s.b1, s'.b0, s'.b1, m, if r.Some? then m[key := r.value] else m - {key}, key);
    }
  }

  lemma InvTables<V>(s: State<V>, m: Store<V>)
    requires Inv(s, m)
    ensures TableOk(s.b0, s.used0) && TableOk(s.b1, s.used1)
  {
  }

  lemma InvRemove<V>(s: State<V>, m: Store<V>, table: int, i: nat, j: nat)
    requires Inv(s, m) && EntryAt(s, table, i, j)
    ensures var c := ChainAt(s, table, i);
            c[j].key in m && m[c[j].key] == c[j].ToItem()
            && Inv(SetChain(s, table, i, c[..j] + c[j + 1..]), m - {c[j].key})
  {
    hide Inv, TableOk, Look;
    var c := ChainAt(s, table, i);
    InvTables(s, m);
    InvLook(s, m, c[j].key);
    if table == 0 {
      LookAt(s.b0, s.used0, i, j);
      TableRemove(s.b0, s.used0, i, j);
    } else {
      LookAt(s.b1, s.used1, i, j);
      TableRemove(s.b1, s.used1, i, j);
    }
    var s' := SetChain(s, table, i, c[..j] + c[j + 1..]);
    assert OneChange(s, s', c[j].key, None);
    InvChange(s, m, s', c[j].key, None);
  }

  lemma FindReplace<V>(c: Chain<V>, j: nat, e: Entry<V>, k: Bytes)
    requires Distinct(c) && j < |c| && c[j].key == e.key
    ensures Distinct(c[j := e])
    ensures Find(c[j := e], k) == if k == e.key then Some(e.ToItem()) else Find(c, k)
  {
    var c' := c[j := e];
    assert forall i :: 0 <= i < |c| ==> c'[i].key == c[i].key;
    FindMember(c, k);
    FindMember(c', k);
    FindNone(c, k);
    FindNone(c', k);
    assert c'[j] == e;
  }

  lemma TableReplace<V>(b: seq<Chain<V>>, used: int, i: nat, j: nat, e: Entry<V>)
    requires TableOk(b, used) && i < |b| && j < |b[i]| && e.key == b[i][j].key
    ensures var b' := b[i := b[i][j := e]];
            TableOk(b', used)
            && forall k :: Look(b', k) == if k == e.key then Some(e.ToItem()) else Look(b, k)
  {
    var c := b[i];
    var c' := c[j := e];
    forall k ensures Find(c', k) == if k == e.key then Some(e.ToItem()) else Find(c, k) {
      FindReplace(c, j, e, k);
    }
    FindReplace(c, j, e, e.key);
    assert forall x :: 0 <= x < |c'| ==> c'[x].key == c[x].key;
    TableUpdate(b, used, i, c');
  }

  lemma InvReplace<V>(s: State<V>, m: Store<V>, table: int, i: nat, j: nat, val: V, expire: int)
    requires Inv(s, m) && EntryAt(s, table, i, j)
    ensures var c := ChainAt(s, table, i); var e := c[j].(val := val, expire := expire);
            e.key in m && m[e.key] == c[j].ToItem()
            && Inv(SetChain(s, table, i, c[j := e]), m[e.key := e.ToItem()])
  {
    hide Inv, TableOk, Look;
    var c := ChainAt(s, table, i);
    var e := c[j].(val := val, expire := expire);
    InvTables(s, m);
    InvLook(s, m, e.key);
    if table == 0 {
      LookAt(s.b0, s.used0, i, j);
      TableReplace(s.b0, s.used0, i, j, e);
    } else {
      LookAt(s.b1, s.used1, i, j);
      TableReplace(s.b1, s.used1, i, j, e);
    }
    var s' := SetChain(s, table, i, c[j := e]);
    assert OneChange(s, s', e.key, Some(e.ToItem()));
    InvChange(s, m, s', e.key, Some(e.ToItem()));
  }
}
