/** serverCron on values: the deadlines that have come, taken from the heap one at a time. */
module Cron {
  import opened Sds
  import opened DictSpec
  import opened ExpHeap
  import opened Keyspace
  import Resp

  /** Deletions of keys that lazy expiry did not take first, per call. */
  const BUDGET: int := 20

  /** The key of a popped entry in one dictionary: whether the read found it, what is left, and whether it counts. */
  function TakeDue<V>(m: Store<V>, key: Bytes, now: int): (bool, Store<V>, int)
  {
    var m1 := Purge(m, key, now);
    if Get(m, key, now).None? then (false, m1, 0)
    else
      var exp := GetExpiry(m1, key, now);
      if exp > 0 && exp <= now then (true, Delete(m1, key), 1) else (true, m1, 0)
  }

  /** One entry off the heap. A stale entry, whose key is gone or has a later deadline by now, changes nothing
      else. A key whose deadline lies strictly in the past is already removed by the read that looks for it
      and is not counted; one whose deadline is this very second is deleted here and counted. */
  function PopDeadline(s: State, e: ExpEntry, now: int): (State, int)
  {
    var heap := s.heap - multiset{e};
    var (isString, strings, n) := TakeDue(s.strings, e.key, now);
    if isString then (s.(heap := heap, strings := strings), n)
    else
      var (_, zsets, k) := TakeDue(s.zsets, e.key, now);
      (s.(heap := heap, strings := strings, zsets := zsets), k)
  }

  predicate Due<V>(m: Store<V>, k: Bytes, now: int) { k in m && 0 < m[k].expire <= now }

  /** Only keys whose deadline has come are dropped, and the rest keep value and deadline. */
  ghost predicate DropsOnlyDue<V>(m: Store<V>, m': Store<V>, now: int)
  {
    Sub(m', m) && forall k :: k in m && k !in m' ==> Due(m, k, now)
  }

  ghost predicate CronSafe(s: State, s': State, now: int)
  {
    && DropsOnlyDue(s.strings, s'.strings, now) && DropsOnlyDue(s.zsets, s'.zsets, now)
    && s'.hashes == s.hashes && s'.aof == s.aof && s'.heap <= s.heap
  }

  lemma CronSafeAgain(a: State, b: State, c: State, now: int)
    requires CronSafe(a, b, now) && CronSafe(b, c, now)
    ensures CronSafe(a, c, now)
  {
  }

  /** What happens to one of the two stores when e is popped. */
  lemma PopStore<V>(m: Store<V>, m': Store<V>, e: ExpEntry, heap: multiset<ExpEntry>, now: int)
    requires Covered(m, heap) && e in heap && e.expire <= now
    requires DropsOnlyDue(m, m', now)
    requires Due(m, e.key, now) ==> e.key !in m'
    ensures Covered(m', heap - multiset{e})
  {
    forall k | k in m' && m'[k].expire > 0 ensures ExpEntry(k, m'[k].expire) in heap - multiset{e} {
      assert ExpEntry(k, m[k].expire) in heap;
      assert ExpEntry(k, m[k].expire) != e;
    }
  }

  lemma TakeDueDrops<V>(m: Store<V>, key: Bytes, now: int)
    ensures var (live, m', n) := TakeDue(m, key, now);
            && DropsOnlyDue(m, m', now) && (Due(m, key, now) ==> key !in m')
            && 0 <= n <= 1 && (live ==> key in m) && (!live ==> n == 0)
    ensures DropsOnlyDue(m, m, now)
  {
  }

  lemma PopDeadlineKeeps(s: State, e: ExpEntry, now: int)
    requires KeysInv(s) && e in s.heap && e.expire <= now
    ensures var (s', n) := PopDeadline(s, e, now);
            KeysInv(s') && CronSafe(s, s', now) && 0 <= n <= 1 && s'.heap == s.heap - multiset{e}
  {
    hide TakeDue, DropsOnlyDue, Covered;
    var (s', n) := PopDeadline(s, e, now);
    NotBoth(s, e.key);
    TakeDueDrops(s.strings, e.key, now);
    TakeDueDrops(s.zsets, e.key, now);
    PopStore(s.strings, s'.strings, e, s.heap, now);
    PopStore(s.zsets, s'.zsets, e, s.heap, now);
    FewerIsExclusive(s, s', now);
  }

  lemma FewerIsExclusive(s: State, s': State, now: int)
    requires KeysInv(s) && DropsOnlyDue(s.strings, s'.strings, now) && DropsOnlyDue(s.zsets, s'.zsets, now)
    ensures forall k :: k in s'.strings ==> k !in s'.zsets
  {
  }

  ghost predicate NoneDue<V>(m: Store<V>, now: int) { forall k :: k in m ==> !Due(m, k, now) }

  /** With no deadline left in the heap that has come, no key is due. */
  lemma NothingDue(s: State, now: int)
    requires KeysInv(s) && forall e :: e in s.heap ==> e.expire > now
    ensures NoneDue(s.strings, now) && NoneDue(s.zsets, now)
  {
  }

  lemma SampledDrops<V>(m: Store<V>, m': Store<V>, now: int)
    requires Sampled(m, m', now)
    ensures DropsOnlyDue(m, m', now) && (NoneDue(m, now) ==> NoneDue(m', now))
  {
    assert forall k :: k in m && k !in m' ==> Due(m, k, now);
    assert forall k :: k in m' && Due(m', k, now) ==> Due(m, k, now);
  }

  /** The random sampling after the loop. */
  lemma SamplingKeeps(s: State, strings: Store<Bytes>, zsets: Store<Scores>, now: int)
    requires KeysInv(s) && Sampled(s.strings, strings, now) && Sampled(s.zsets, zsets, now)
    ensures var s' := s.(strings := strings, zsets := zsets); KeysInv(s') && CronSafe(s, s', now)
    ensures NoneDue(s.strings, now) && NoneDue(s.zsets, now) ==> NoneDue(strings, now) && NoneDue(zsets, now)
  {
    hide NoneDue, Sampled, KeysOk;
    SampledDrops(s.strings, strings, now);
    SampledDrops(s.zsets, zsets, now);
    FewerKeys(s, s.(strings := strings, zsets := zsets));
  }

  // ----- one call -----

  /** The entries of a call popped in turn: the data set afterwards, and how many deletions count. */
  function PopAll(s: State, popped: seq<ExpEntry>, now: int): (State, int)
  {
    if popped == [] then (s, 0)
    else
      var (s1, n) := PopAll(s, popped[..|popped| - 1], now);
      var (s2, k) := PopDeadline(s1, popped[|popped| - 1], now);
      (s2, n + k)
  }

  ghost predicate Least(e: ExpEntry, heap: multiset<ExpEntry>)
  {
    e in heap && forall f :: f in heap ==> e.expire <= f.expire
  }

  /** Each entry was the least of the heap, its time come, and the budget not used up, when it was popped. */
  ghost predicate Taken(s: State, popped: seq<ExpEntry>, now: int)
  {
    popped == [] ||
    (var (s1, n) := PopAll(s, popped[..|popped| - 1], now);
     var e := popped[|popped| - 1];
     Taken(s, popped[..|popped| - 1], now) && Least(e, s1.heap) && e.expire <= now && n < BUDGET)
  }

  /** The loop goes on until the budget is used up or no deadline in the heap has come. */
  ghost predicate Stops(s: State, n: int, now: int)
  {
    n >= BUDGET || forall e :: e in s.heap ==> e.expire > now
  }

  /** serverCron: the loop over the heap, then the sampling of both dictionaries. */
  ghost predicate Ticked(s: State, popped: seq<ExpEntry>, now: int, s': State)
  {
    var (s1, n) := PopAll(s, popped, now);
    && Taken(s, popped, now) && Stops(s1, n, now)
    && Sampled(s1.strings, s'.strings, now) && Sampled(s1.zsets, s'.zsets, now)
    && s' == s1.(strings := s'.strings, zsets := s'.zsets)
  }

  lemma TakenNone(s: State, now: int)
    ensures Taken(s, [], now) && PopAll(s, [], now) == (s, 0)
  {
  }

  lemma TakenMore(s: State, popped: seq<ExpEntry>, e: ExpEntry, now: int)
    requires Taken(s, popped, now)
    requires var (s1, n) := PopAll(s, popped, now); Least(e, s1.heap) && e.expire <= now && n < BUDGET
    ensures Taken(s, popped + [e], now)
    ensures var (s1, n) := PopAll(s, popped, now); var (s2, k) := PopDeadline(s1, e, now);
            PopAll(s, popped + [e], now) == (s2, n + k)
  {
    hide PopDeadline, Least;
    assert (popped + [e])[..|popped|] == popped;
  }

  lemma {:induction false} LoopKeeps(s: State, popped: seq<ExpEntry>, now: int)
    requires KeysInv(s) && Taken(s, popped, now)
    ensures var (s1, n) := PopAll(s, popped, now); KeysInv(s1) && CronSafe(s, s1, now) && 0 <= n <= BUDGET
  {
    hide KeysInv, CronSafe, PopDeadline;
    CronSafeSelf(s, now);
    if popped != [] {
      var s1 := PopAll(s, popped[..|popped| - 1], now).0;
      LoopKeeps(s, popped[..|popped| - 1], now);
      PopDeadlineKeeps(s1, popped[|popped| - 1], now);
      CronSafeAgain(s, s1, PopAll(s, popped, now).0, now);
    }
  }

  lemma CronSafeSelf(s: State, now: int)
    ensures CronSafe(s, s, now)
  {
  }

  /** A call keeps the key invariant and drops only due keys; if it does not use up its budget it leaves none of those. */
  lemma TickKeeps(s: State, popped: seq<ExpEntry>, now: int, s': State)
    requires KeysInv(s) && Ticked(s, popped, now, s')
    ensures KeysInv(s') && CronSafe(s, s', now)
    ensures PopAll(s, popped, now).1 < BUDGET ==> NoneDue(s'.strings, now) && NoneDue(s'.zsets, now)
  {
    hide KeysInv, CronSafe, NoneDue, Sampled, PopAll, Taken;
    var (s1, n) := PopAll(s, popped, now);
    LoopKeeps(s, popped, now);
    SamplingKeeps(s1, s'.strings, s'.zsets, now);
    CronSafeAgain(s, s1, s', now);
    if n < BUDGET { NothingDue(s1, now); }
  }

  // ----- what the budget counts -----

  /** The keys whose last second this is, and those whose last second is over. */
  ghost function LastOf<V>(m: Store<V>, now: int): set<Bytes> { set k | k in m && 0 < m[k].expire == now }

  ghost function PastOf<V>(m: Store<V>, now: int): set<Bytes> { set k | k in m && Expired(m[k], now) }

  ghost function LastKeys(s: State, now: int): set<Bytes> { LastOf(s.strings, now) + LastOf(s.zsets, now) }

  ghost function PastKeys(s: State, now: int): set<Bytes> { PastOf(s.strings, now) + PastOf(s.zsets, now) }

  ghost function DueKeys(s: State, now: int): set<Bytes> { LastKeys(s, now) + PastKeys(s, now) }

  lemma DueIsLastOrPast(s: State, now: int)
    requires KeysInv(s)
    ensures forall k :: k in DueKeys(s, now) <==> Due(s.strings, k, now) || Due(s.zsets, k, now)
    ensures LastKeys(s, now) !! PastKeys(s, now)
    ensures |DueKeys(s, now)| == |LastKeys(s, now)| + |PastKeys(s, now)|
  {
  }

  /** Only a key deleted in its last second counts: the read that looks for an older one removes it unseen. */
  lemma CountsLastSecond(s: State, e: ExpEntry, now: int)
    requires KeysInv(s)
    ensures var (s', n) := PopDeadline(s, e, now);
            && n == (if e.key in LastKeys(s, now) then 1 else 0)
            && LastKeys(s', now) == LastKeys(s, now) - {e.key}
            && PastKeys(s', now) == PastKeys(s, now) - {e.key}
  {
    hide TakeDue, KeysInv, LastOf, PastOf;
    NotBoth(s, e.key);
    TakeDueDrops(s.strings, e.key, now);
    TakeDueCounts(s.strings, e.key, now);
    TakeDueCounts(s.zsets, e.key, now);
  }

  lemma TakeDueCounts<V>(m: Store<V>, key: Bytes, now: int)
    ensures var (live, m', n) := TakeDue(m, key, now);
            && n == (if key in LastOf(m, now) then 1 else 0)
            && LastOf(m', now) == LastOf(m, now) - {key} && PastOf(m', now) == PastOf(m, now) - {key}
    ensures key in LastOf(m, now) + PastOf(m, now) ==> key in m
  {
  }

  ghost function KeysOf(popped: seq<ExpEntry>): set<Bytes> { set e | e in popped :: e.key }

  lemma KeysOfMore(popped: seq<ExpEntry>, e: ExpEntry)
    ensures KeysOf(popped + [e]) == KeysOf(popped) + {e.key} && KeysOf([]) == {}
  {
  }

  lemma LastTaken(s: State, popped: seq<ExpEntry>, now: int)
    requires Taken(s, popped, now)
    ensures PopAll(s, [], now) == (s, 0)
    ensures popped != [] ==>
            var (s1, n) := PopAll(s, popped[..|popped| - 1], now);
            var (s2, k) := PopDeadline(s1, popped[|popped| - 1], now);
            && Taken(s, popped[..|popped| - 1], now) && n < BUDGET && PopAll(s, popped, now) == (s2, n + k)
            && Least(popped[|popped| - 1], s1.heap) && popped[|popped| - 1].expire <= now
  {
    hide PopDeadline;
  }

  /** Taking the keys k away has left these sets, counting n of the last-second ones. */
  ghost predicate Counted<T>(last: set<T>, past: set<T>, k: set<T>, last': set<T>, past': set<T>, n: int)
  {
    n == |last * k| && last' == last - k && past' == past - k
  }

  lemma CountedNone<T>(last: set<T>, past: set<T>)
    ensures Counted(last, past, {}, last, past, 0)
  {
    assert last * {} == {};
  }

  lemma CountedMore<T>(last: set<T>, past: set<T>, k: set<T>, last': set<T>, past': set<T>, n: int, x: T)
    requires Counted(last, past, k, last', past', n)
    ensures Counted(last, past, k + {x}, last' - {x}, past' - {x}, n + if x in last' then 1 else 0)
  {
    assert last * (k + {x}) == if x in last - k then last * k + {x} else last * k;
  }

  lemma {:induction false} LoopCounts(s: State, popped: seq<ExpEntry>, now: int)
    requires KeysInv(s) && Taken(s, popped, now)
    ensures var (s1, n) := PopAll(s, popped, now);
            Counted(LastKeys(s, now), PastKeys(s, now), KeysOf(popped), LastKeys(s1, now), PastKeys(s1, now), n)
  {
    hide KeysInv, LastKeys, PastKeys, KeysOf, PopAll, Taken, Counted, PopDeadline, Least;
    LastTaken(s, popped, now);
    CountedNone(LastKeys(s, now), PastKeys(s, now));
    if popped == [] {
      KeysOfMore([], ExpEntry("", 0));
    } else {
      var init, e := popped[..|popped| - 1], popped[|popped| - 1];
      var (s1, n) := PopAll(s, init, now);
      LoopKeeps(s, init, now);
      LoopCounts(s, init, now);
      CountsLastSecond(s1, e, now);
      KeysOfMore(init, e);
      assert popped == init + [e];
      CountedMore(LastKeys(s, now), PastKeys(s, now), KeysOf(init), LastKeys(s1, now), PastKeys(s1, now), n, e.key);
    }
  }

  /** The keys that are in a dictionary before and in neither afterwards. */
  ghost function Gone(s: State, s': State): set<Bytes>
  {
    (s.strings.Keys + s.zsets.Keys) - (s'.strings.Keys + s'.zsets.Keys)
  }

  lemma GoneIsDue(s: State, s': State, now: int)
    requires KeysInv(s) && KeysInv(s') && CronSafe(s, s', now)
    ensures Gone(s, s') == DueKeys(s, now) - DueKeys(s', now)
  {
    hide DueKeys, KeysInv, CronSafe, Gone, Due;
    forall k ensures k in Gone(s, s') <==> k in DueKeys(s, now) && k !in DueKeys(s', now) {
      GoneKey(s, s', now, k);
      DueKey(s, now, k);
      DueKey(s', now, k);
    }
  }

  lemma DueKey(s: State, now: int, k: Bytes)
    ensures k in DueKeys(s, now) <==> Due(s.strings, k, now) || Due(s.zsets, k, now)
  {
  }

  lemma GoneKey(s: State, s': State, now: int, k: Bytes)
    requires KeysInv(s) && KeysInv(s') && CronSafe(s, s', now)
    ensures k in Gone(s, s') <==> (Due(s.strings, k, now) || Due(s.zsets, k, now))
                                  && !Due(s'.strings, k, now) && !Due(s'.zsets, k, now)
  {
    hide KeysInv;
    NotBoth(s, k);
    NotBoth(s', k);
  }

  /** The loop removes the keys it counts, and besides them every older one it comes across. */
  lemma LoopRemoves(s: State, popped: seq<ExpEntry>, now: int)
    requires KeysInv(s) && Taken(s, popped, now)
    ensures var (s1, n) := PopAll(s, popped, now);
            && Gone(s, s1) == DueKeys(s, now) * KeysOf(popped)
            && |Gone(s, s1)| == n + |PastKeys(s, now) * KeysOf(popped)|
  {
    hide KeysInv, CronSafe, PopAll, LastKeys, PastKeys, Gone, Taken, KeysOf;
    LoopKeeps(s, popped, now);
    LoopCounts(s, popped, now);
    DueIsLastOrPast(s, now);
    GoneIsDue(s, PopAll(s, popped, now).0, now);
    assert DueKeys(s, now) * KeysOf(popped)
        == LastKeys(s, now) * KeysOf(popped) + PastKeys(s, now) * KeysOf(popped);
  }

  ghost function Swept<V>(m: Store<V>, now: int): Store<V> { map k | k in m && !Expired(m[k], now) :: m[k] }

  lemma SweptIsSampled(s: State, now: int)
    ensures Sampled(s.strings, Swept(s.strings, now), now) && Sampled(s.zsets, Swept(s.zsets, now), now)
    ensures PastKeys(s.(strings := Swept(s.strings, now), zsets := Swept(s.zsets, now)), now) == {}
  {
  }

  /** Nothing past its second, nothing to sample. */
  lemma NothingSampled(s: State, s': State, now: int)
    requires PastKeys(s, now) == {} && Sampled(s.strings, s'.strings, now) && Sampled(s.zsets, s'.zsets, now)
    ensures s'.strings == s.strings && s'.zsets == s.zsets
  {
    assert forall k :: k in s.strings && Expired(s.strings[k], now) ==> k in PastKeys(s, now);
    assert forall k :: k in s.zsets && Expired(s.zsets[k], now) ==> k in PastKeys(s, now);
  }

  /** Whatever the sampling picks, one call removes no more keys than its budget if and only if no more are due, or none
      of them is past its second. */
  lemma BudgetHolds(s: State, popped: seq<ExpEntry>, now: int)
    requires KeysInv(s) && Taken(s, popped, now) && Stops(PopAll(s, popped, now).0, PopAll(s, popped, now).1, now)
    ensures (forall s' :: Ticked(s, popped, now, s') ==> |Gone(s, s')| <= 20)
       <==> |DueKeys(s, now)| <= 20 || PastKeys(s, now) == {}
  {
    hide KeysInv, CronSafe, PopAll, LastKeys, PastKeys, Gone, Taken, KeysOf, Sampled;
    var (s1, n) := PopAll(s, popped, now);
    LoopKeeps(s, popped, now);
    LoopCounts(s, popped, now);
    DueIsLastOrPast(s, now);
    forall s' | Ticked(s, popped, now, s') && (|DueKeys(s, now)| <= BUDGET || PastKeys(s, now) == {})
      ensures |Gone(s, s')| <= BUDGET
    {
      TickKeeps(s, popped, now, s');
      GoneIsDue(s, s', now);
      if PastKeys(s, now) == {} {
        NothingSampled(s1, s', now);
        LoopRemoves(s, popped, now);
      } else {
        FewerThan(Gone(s, s'), DueKeys(s, now));
      }
    }
    if |DueKeys(s, now)| > BUDGET && PastKeys(s, now) != {} {
      var s' := s1.(strings := Swept(s1.strings, now), zsets := Swept(s1.zsets, now));
      SweptIsSampled(s1, now);
      assert Ticked(s, popped, now, s');
      TooMany(s, popped, now, s');
    }
  }

  lemma FewerThan<T>(a: set<T>, b: set<T>)
    requires a <= b
    ensures |a| <= |b|
  {
    assert b == a + (b - a);
  }

  lemma SampledKeepsLast(s: State, s': State, now: int)
    requires Sampled(s.strings, s'.strings, now) && Sampled(s.zsets, s'.zsets, now)
    ensures LastKeys(s', now) == LastKeys(s, now)
  {
  }

  /** A call whose sampling finds every key past its second removes those and the ones it counts. */
  lemma TooMany(s: State, popped: seq<ExpEntry>, now: int, s': State)
    requires KeysInv(s) && Ticked(s, popped, now, s') && PastKeys(s', now) == {}
    ensures |Gone(s, s')| == (if PopAll(s, popped, now).1 < BUDGET then |LastKeys(s, now)| else BUDGET)
                               + |PastKeys(s, now)|
  {
    hide KeysInv, CronSafe, PopAll, LastKeys, PastKeys, Gone, Taken, KeysOf, Sampled, NoneDue;
    var (s1, n) := PopAll(s, popped, now);
    LoopKeeps(s, popped, now);
    LoopCounts(s, popped, now);
    TickKeeps(s, popped, now, s');
    DueIsLastOrPast(s, now);
    GoneIsDue(s, s', now);
    SampledKeepsLast(s1, s', now);
    CountParts(LastKeys(s, now), PastKeys(s, now), KeysOf(popped));
    if n < BUDGET { NoKeyDue(s', now); }
  }

  lemma NoKeyDue(s: State, now: int)
    ensures NoneDue(s.strings, now) && NoneDue(s.zsets, now) ==> DueKeys(s, now) == {} && LastKeys(s, now) == {}
  {
  }

  lemma CountParts<T>(last: set<T>, past: set<T>, k: set<T>)
    requires last !! past
    ensures |last + past - (last - k)| == |last * k| + |past|
    ensures |last + past| == |last| + |past|
  {
    assert last + past - (last - k) == last * k + past;
  }

  /** n texts put at second 0 with one second to live. */
  function OverdueKey(n: nat): Bytes { seq(n, _ => 'k') }

  function Overdue(n: nat): State
  {
    if n == 0 then Empty else SetKv(Overdue(n - 1), OverdueKey(n), "", 1, 0)
  }

  lemma OverdueMore(s: State, key: Bytes)
    ensures var s' := SetKv(s, key, "", 1, 0); s'.strings == s.strings[key := Item("", 1)] && s'.zsets == s.zsets
  {
    hide Resp.Encode;
  }

  lemma {:induction false} OverdueShape(n: nat)
    ensures var s := Overdue(n);
            && KeysInv(s) && |s.strings| == n && s.zsets == map[]
            && (forall k :: k in s.strings ==> |k| <= n && s.strings[k].expire == 1)
  {
    hide KeysInv, SetKv;
    NoKeysYet(Empty);
    if n > 0 {
      OverdueShape(n - 1);
      SetKvKeeps(Overdue(n - 1), OverdueKey(n), "", 1, 0);
      OverdueMore(Overdue(n - 1), OverdueKey(n));
      var m := Overdue(n - 1).strings;
      assert OverdueKey(n) !in m;
      assert m[OverdueKey(n) := Item("", 1)].Keys == m.Keys + {OverdueKey(n)};
    }
  }

  /** Any number of such keys goes in one call, which reports no deletion at all. */
  lemma {:induction false} BudgetMisses(n: nat, popped: seq<ExpEntry>, now: int, s': State)
    requires now > 1 && Ticked(Overdue(n), popped, now, s')
    ensures |Overdue(n).strings| == n && s'.strings == map[] && PopAll(Overdue(n), popped, now).1 == 0
  {
    hide KeysInv, CronSafe, PopAll, Taken;
    var s := Overdue(n);
    OverdueShape(n);
    assert LastKeys(s, now) == {};
    LoopCounts(s, popped, now);
    assert {} * KeysOf(popped) == {};
    TickKeeps(s, popped, now, s');
    DropsStrings(s, s', now);
  }

  lemma DropsStrings(s: State, s': State, now: int)
    requires CronSafe(s, s', now)
    ensures Sub(s'.strings, s.strings)
  {
  }

  // ----- runs -----

  /** A tick comes with the entries it popped. */
  datatype Event = Command(argv: seq<Bytes>, now: int) | Tick(popped: seq<ExpEntry>, now: int)

  ghost predicate Step(s: State, e: Event, s': State, atof: Bytes -> Score)
  {
    match e
    case Command(argv, now) => s' == Exec(s, argv, now, atof).0
    case Tick(popped, now) => Ticked(s, popped, now, s')
  }

  /** The tick did not use up its budget. */
  ghost predicate UnderBudget(s: State, e: Event) { e.Tick? && PopAll(s, e.popped, e.now).1 < 20 }

  /** In every state that commands and timer ticks reach from an empty data set, in any order and at any times, no key is
      both a string and a sorted set and every deadline is scheduled; and a tick that does not use up its budget leaves
      no key whose deadline has come. */
  lemma {:induction false} RunKeepsKeys(states: seq<State>, events: seq<Event>, atof: Bytes -> Score)
    requires |states| == |events| + 1
    requires states[0].strings == map[] && states[0].zsets == map[]
    requires forall i :: 0 <= i < |events| ==> Step(states[i], events[i], states[i + 1], atof)
    ensures forall i :: 0 <= i < |states| ==> KeysInv(states[i])
    ensures forall i :: 0 <= i < |events| && UnderBudget(states[i], events[i]) ==>
              NoneDue(states[i + 1].strings, events[i].now) && NoneDue(states[i + 1].zsets, events[i].now)
  {
    hide KeysInv, NoneDue, Exec, Ticked, PopAll;
    var n := |events|;
    if n == 0 {
      NoKeysYet(states[0]);
    } else {
      RunKeepsKeys(states[..n], events[..n - 1], atof);
      assert states[..n][n - 1] == states[n - 1];
      var s, s' := states[n - 1], states[n];
      assert Step(s, events[n - 1], s', atof);
      match events[n - 1] {
        case Command(argv, now) => ExecKeepsKeys(s, argv, now, atof);
        case Tick(popped, now) => TickKeeps(s, popped, now, s');
      }
      forall i | 0 <= i < |states| ensures KeysInv(states[i]) {
        if i < n { assert states[..n][i] == states[i]; }
      }
      forall i | 0 <= i < n && UnderBudget(states[i], events[i])
        ensures NoneDue(states[i + 1].strings, events[i].now) && NoneDue(states[i + 1].zsets, events[i].now)
      {
        if i < n - 1 { assert UnderBudget(states[..n][i], events[..n - 1][i]); }
      }
    }
  }

  lemma NoKeysYet(s: State)
    requires s.strings == map[] && s.zsets == map[]
    ensures KeysInv(s)
  {
  }
}
