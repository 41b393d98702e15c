/** The timers of ae.c: the list, the nearest-timer search, and the pass that restarts after every callback. */
module AeTime {
  import opened Sds

  /** A clock reading or a due time, as whole seconds and milliseconds. */
  datatype Time = Time(sec: int, ms: int) {
    function Millis(): int { 1000 * sec + ms }

    predicate Normal() { 0 <= ms < 1000 }

    /** The comparison of the source, field by field. */
    predicate Before(t: Time) { sec < t.sec || (sec == t.sec && ms < t.ms) }
  }

  datatype Timer = Timer(id: nat, when: Time)

  /** What a timer callback does: the delays of the timers it creates, in order, and the value it returns. */
  datatype Callback = Callback(creates: seq<int>, retval: int)

  const AE_NOMORE: int := -1
  const AE_OK: int := 0
  const AE_ERR: int := -1

  // C division truncates towards zero.
  function Quot(a: int, b: nat): int requires b > 0 { if a >= 0 then a / b else -(-a / b) }
  function Rem(a: int, b: nat): int requires b > 0 { a - b * Quot(a, b) }

  function AddMilliseconds(now: Time, delay: int): Time
  {
    var t := Time(now.sec + Quot(delay, 1000), now.ms + Rem(delay, 1000));
    if t.ms >= 1000 then Time(t.sec + 1, t.ms - 1000) else t
  }

  /** The sum is exact for every delay; its fields are normalised exactly when the truncated remainder does not
      take the milliseconds below zero, which no non-negative delay can. */
  lemma AddIsExact(now: Time, delay: int)
    requires now.Normal()
    ensures AddMilliseconds(now, delay).Millis() == now.Millis() + delay
    ensures AddMilliseconds(now, delay).Normal() <==> now.ms + Rem(delay, 1000) >= 0
    ensures delay >= 0 ==> AddMilliseconds(now, delay).Normal()
    ensures delay > 0 ==> now.Before(AddMilliseconds(now, delay))
  {
  }

  /** On normalised times the field-by-field order is the order of time. */
  lemma BeforeIsEarlier(a: Time, b: Time)
    requires a.Normal() && b.Normal()
    ensures a.Before(b) <==> a.Millis() < b.Millis()
  {
  }

  predicate Due(t: Timer, now: Time) { !now.Before(t.when) }

  ghost predicate Unique(ts: seq<Timer>, nextId: nat)
  {
    && (forall i :: 0 <= i < |ts| ==> ts[i].id < nextId)
    && (forall i, j :: 0 <= i < j < |ts| ==> ts[i].id != ts[j].id)
  }

  // ----- what a pass is to do -----

  /** The identifiers of the due timers, in list order. */
  ghost function Ran(ts: seq<Timer>, now: Time): seq<nat>
  {
    if ts == [] then []
    else Ran(ts[..|ts| - 1], now) + if Due(ts[|ts| - 1], now) then [ts[|ts| - 1].id] else []
  }

  /** What becomes of a timer that has run. */
  ghost function Again(t: Timer, now: Time, callback: Callback): seq<Timer>
  {
    if callback.retval == AE_NOMORE then [] else [t.(when := AddMilliseconds(now, callback.retval))]
  }

  /** The timers that stay: those not due as they are, those due with their new time unless finished. */
  ghost function Stay(ts: seq<Timer>, now: Time, procs: nat -> Callback): seq<Timer>
  {
    if ts == [] then []
    else
      var t := ts[|ts| - 1];
      Stay(ts[..|ts| - 1], now, procs)
      + if Due(t, now) then Again(t, now, procs(t.id)) else [t]
  }

  /** Timers created one after the other, the newest at the head. */
  ghost function Created(delays: seq<int>, now: Time, nextId: nat): (r: seq<Timer>)
    ensures |r| == |delays|
    ensures forall i :: 0 <= i < |r| ==> nextId <= r[i].id < nextId + |delays|
  {
    if delays == [] then []
    else
      var n := |delays| - 1;
      [Timer(nextId + n, AddMilliseconds(now, delays[n]))] + Created(delays[..n], now, nextId)
  }

  /** All delays asked for by the callbacks of the timers `ids`, in order. */
  ghost function Asked(ids: seq<nat>, procs: nat -> Callback): seq<int>
  {
    if ids == [] then [] else Asked(ids[..|ids| - 1], procs) + procs(ids[|ids| - 1]).creates
  }

  lemma {:induction false} CreatedAppend(a: seq<int>, b: seq<int>, now: Time, nextId: nat)
    ensures Created(a + b, now, nextId) == Created(b, now, nextId + |a|) + Created(a, now, nextId)
  {
    if b == [] {
      assert a + b == a;
    } else {
      var n := |b| - 1;
      CreatedAppend(a, b[..n], now, nextId);
      assert (a + b)[..|a| + n] == a + b[..n];
    }
  }

  lemma {:induction false} StayNotDue(ts: seq<Timer>, now: Time, procs: nat -> Callback)
    requires now.Normal() && forall id: nat :: procs(id).retval == AE_NOMORE || procs(id).retval > 0
    ensures forall i :: 0 <= i < |Stay(ts, now, procs)| ==> !Due(Stay(ts, now, procs)[i], now)
  {
    if ts != [] {
      StayNotDue(ts[..|ts| - 1], now, procs);
      AddIsExact(now, procs(ts[|ts| - 1].id).retval);
    }
  }

  /** Exactly the timers due at the start have run, each once, for identifiers are unique. */
  lemma {:induction false} RanExactly(ts: seq<Timer>, now: Time, nextId: nat)
    requires Unique(ts, nextId)
    ensures forall i :: 0 <= i < |ts| ==> (ts[i].id in Ran(ts, now) <==> Due(ts[i], now))
    ensures forall id :: id in Ran(ts, now) ==> exists i :: 0 <= i < |ts| && ts[i].id == id
    ensures forall i, j :: 0 <= i < j < |Ran(ts, now)| ==> Ran(ts, now)[i] != Ran(ts, now)[j]
  {
    if ts != [] {
      var n := |ts| - 1;
      RanExactly(ts[..n], now, nextId);
      assert forall i :: 0 <= i < n ==> ts[..n][i] == ts[i];
      var r := Ran(ts[..n], now);
      forall k | 0 <= k < |r| ensures r[k] != ts[n].id {
        assert r[k] in r;
        var i :| 0 <= i < n && ts[..n][i].id == r[k];
        assert ts[i].id == r[k];
      }
      assert Ran(ts, now) == r || Ran(ts, now) == r + [ts[n].id];
      forall i | 0 <= i < |ts| ensures ts[i].id in Ran(ts, now) <==> Due(ts[i], now) {
        if i < n { assert ts[..n][i] == ts[i]; }
      }
    }
  }

  /** A timer is gone afterwards exactly when it was due and returned AE_NOMORE. */
  lemma {:induction false} GoneExactly(ts: seq<Timer>, now: Time, procs: nat -> Callback, nextId: nat, k: nat)
    requires Unique(ts, nextId) && k < |ts|
    ensures (exists t :: t in Stay(ts, now, procs) && t.id == ts[k].id)
            <==> !(Due(ts[k], now) && procs(ts[k].id).retval == AE_NOMORE)
    ensures !Due(ts[k], now) ==> ts[k] in Stay(ts, now, procs)
  {
    var n := |ts| - 1;
    StayIds(ts[..n], now, procs);
    if k < n {
      GoneExactly(ts[..n], now, procs, nextId, k);
    }
  }

  lemma {:induction false} StayIds(ts: seq<Timer>, now: Time, procs: nat -> Callback)
    ensures forall t :: t in Stay(ts, now, procs) ==> exists i :: 0 <= i < |ts| && ts[i].id == t.id
  {
    if ts != [] {
      var n := |ts| - 1;
      StayIds(ts[..n], now, procs);
      forall t | t in Stay(ts, now, procs) ensures exists i :: 0 <= i < |ts| && ts[i].id == t.id {
        if t in Stay(ts[..n], now, procs) {
          var i :| 0 <= i < n && ts[..n][i].id == t.id;
          assert ts[i].id == t.id;
        } else {
          assert ts[n].id == t.id;
        }
      }
    }
  }

  // ----- what a pass has done -----

  lemma DueMeans(t: Timer, now: Time)
    requires now.Normal() && t.when.Normal()
    ensures Due(t, now) <==> t.when.Millis() <= now.Millis()
  {
  }

  /** What has become of one timer: untouched if its time has not come; gone if it ran and is finished; and otherwise there
      again, to the millisecond its callback asked for after now. */
  ghost predicate TimerTells(t: Timer, after: seq<Timer>, now: Time, retval: int)
  {
    if t.when.Millis() > now.Millis() then t in after && forall u :: u in after && u.id == t.id ==> u == t
    else if retval == AE_NOMORE then forall u :: u in after ==> u.id != t.id
    else
      && (exists u :: u in after && u.id == t.id)
      && forall u :: u in after && u.id == t.id ==> u.when.Normal() && u.when.Millis() == now.Millis() + retval
  }

  /** A pass, said of the lists before and after it: each timer as TimerTells, each of those asked for with the next
      identifier and its time, and no others. */
  ghost predicate PassTells(before: seq<Timer>, after: seq<Timer>, now: Time, procs: nat -> Callback, nextId: nat,
      asked: seq<int>)
  {
    && (forall k :: 0 <= k < |before| && before[k].when.Normal() ==>
          TimerTells(before[k], after, now, procs(before[k].id).retval))
    && (forall i :: 0 <= i < |asked| ==> AskedFor(after, nextId + i, now.Millis() + asked[i]))
    && forall u :: u in after && u.id < nextId ==> exists k :: 0 <= k < |before| && before[k].id == u.id
  }

  /** There is one timer with the identifier, and this is its time. */
  ghost predicate AskedFor(after: seq<Timer>, id: nat, millis: int)
  {
    && (exists u :: u in after && u.id == id)
    && forall u :: u in after && u.id == id ==> u.when.Millis() == millis
  }

  lemma {:induction false} StayOf(ts: seq<Timer>, now: Time, procs: nat -> Callback, nextId: nat, k: nat)
    requires Unique(ts, nextId) && k < |ts|
    ensures forall u :: u in Stay(ts, now, procs) && u.id == ts[k].id ==>
              if Due(ts[k], now) then u.when == AddMilliseconds(now, procs(u.id).retval) else u == ts[k]
  {
    hide Due, AddMilliseconds;
    var n := |ts| - 1;
    StayIds(ts[..n], now, procs);
    if k < n {
      StayOf(ts[..n], now, procs, nextId, k);
    } else {
      forall u | u in Stay(ts[..n], now, procs) ensures u.id != ts[n].id {
        var i :| 0 <= i < n && ts[..n][i].id == u.id;
        assert ts[i].id == u.id;
      }
    }
  }

  lemma {:induction false} CreatedOf(delays: seq<int>, now: Time, nextId: nat, i: nat)
    requires now.Normal() && i < |delays|
    ensures AskedFor(Created(delays, now, nextId), nextId + i, now.Millis() + delays[i])
  {
    var n := |delays| - 1;
    AddIsExact(now, delays[n]);
    var head, rest := Timer(nextId + n, AddMilliseconds(now, delays[n])), Created(delays[..n], now, nextId);
    hide AddMilliseconds;
    assert Created(delays, now, nextId) == [head] + rest;
    if i < n {
      CreatedOf(delays[..n], now, nextId, i);
      var u :| u in rest && u.id == nextId + i;
      assert u in [head] + rest;
    } else {
      assert head in [head] + rest;
      forall u | u in rest ensures u.id != nextId + n {
        var j :| 0 <= j < |rest| && rest[j] == u;
      }
    }
  }

  lemma PassIsTold(ts: seq<Timer>, now: Time, procs: nat -> Callback, nextId: nat, asked: seq<int>)
    requires Unique(ts, nextId) && now.Normal()
    requires forall id: nat :: procs(id).retval == AE_NOMORE || procs(id).retval > 0
    ensures PassTells(ts, Created(asked, now, nextId) + Stay(ts, now, procs), now, procs, nextId, asked)
  {
    hide Due, Unique, Created, Stay, AddMilliseconds, TimerTells;
    var new_, stay := Created(asked, now, nextId), Stay(ts, now, procs);
    CreatedIds(asked, now, nextId);
    StayIds(ts, now, procs);
    forall k | 0 <= k < |ts| && ts[k].when.Normal() ensures TimerTells(ts[k], new_ + stay, now, procs(ts[k].id).retval) {
      OneTold(ts, now, procs, nextId, asked, k);
    }
    forall i | 0 <= i < |asked| ensures AskedFor(new_ + stay, nextId + i, now.Millis() + asked[i]) {
      CreatedOf(asked, now, nextId, i);
      BelowNext(ts, nextId);
    }
  }

  lemma CreatedIds(asked: seq<int>, now: Time, nextId: nat)
    ensures forall u :: u in Created(asked, now, nextId) ==> u.id >= nextId
  {
  }

  lemma BelowNext(ts: seq<Timer>, nextId: nat)
    requires Unique(ts, nextId)
    ensures forall i :: 0 <= i < |ts| ==> ts[i].id < nextId
  {
  }

  lemma OneTold(ts: seq<Timer>, now: Time, procs: nat -> Callback, nextId: nat, asked: seq<int>, k: nat)
    requires Unique(ts, nextId) && now.Normal() && k < |ts| && ts[k].when.Normal()
    requires forall id: nat :: procs(id).retval == AE_NOMORE || procs(id).retval > 0
    ensures TimerTells(ts[k], Created(asked, now, nextId) + Stay(ts, now, procs), now, procs(ts[k].id).retval)
  {
    hide Unique, Created, Stay, AddMilliseconds;
    CreatedIds(asked, now, nextId);
    BelowNext(ts, nextId);
    DueMeans(ts[k], now);
    hide Due;
    StayOf(ts, now, procs, nextId, k);
    GoneExactly(ts, now, procs, nextId, k);
    AddIsExact(now, procs(ts[k].id).retval);
  }

  /** They ran in the order of the list. */
  lemma {:induction false} RanInOrder(ts: seq<Timer>, now: Time, i: nat, j: nat)
    requires i < j < |ts| && Due(ts[i], now) && Due(ts[j], now)
    ensures exists p, q :: 0 <= p < q < |Ran(ts, now)| && Ran(ts, now)[p] == ts[i].id && Ran(ts, now)[q] == ts[j].id
  {
    hide Due;
    var n := |ts| - 1;
    var r := Ran(ts[..n], now);
    if j < n {
      RanInOrder(ts[..n], now, i, j);
      var p, q :| 0 <= p < q < |r| && r[p] == ts[i].id && r[q] == ts[j].id;
      assert Ran(ts, now)[p] == ts[i].id && Ran(ts, now)[q] == ts[j].id;
    } else {
      RanHas(ts[..n], now, i);
      var p :| 0 <= p < |r| && r[p] == ts[i].id;
      assert Ran(ts, now)[p] == ts[i].id && Ran(ts, now)[|r|] == ts[j].id;
    }
  }

  lemma {:induction false} RanHas(ts: seq<Timer>, now: Time, i: nat)
    requires i < |ts| && Due(ts[i], now)
    ensures ts[i].id in Ran(ts, now)
  {
    if i < |ts| - 1 {
      RanHas(ts[..|ts| - 1], now, i);
    }
  }

  // ----- a pass under way: the first p timers of the list it started from are dealt with -----

  datatype Pass = Pass(ts: seq<Timer>, now: Time, procs: nat -> Callback, nextId: nat)

  ghost predicate PassOk(s: Pass)
  {
    && Unique(s.ts, s.nextId) && s.now.Normal()
    && forall id: nat :: s.procs(id).retval == AE_NOMORE || s.procs(id).retval > 0
  }

  ghost function RanBy(s: Pass, p: nat): seq<nat>
    requires p <= |s.ts|
  {
    Ran(s.ts[..p], s.now)
  }

  ghost function NextIdAt(s: Pass, p: nat): (id: nat)
    requires p <= |s.ts|
    ensures id >= s.nextId
  {
    s.nextId + |Asked(RanBy(s, p), s.procs)|
  }

  /** The list in front of the timer whose turn is next. */
  ghost function Front(s: Pass, p: nat): seq<Timer>
    requires p <= |s.ts|
  {
    Created(Asked(RanBy(s, p), s.procs), s.now, s.nextId) + Stay(s.ts[..p], s.now, s.procs)
  }

  ghost function ListAt(s: Pass, p: nat): seq<Timer>
    requires p <= |s.ts|
  {
    Front(s, p) + s.ts[p..]
  }

  ghost function Turn(s: Pass, p: nat): nat
    requires p <= |s.ts|
  {
    |Front(s, p)|
  }

  lemma PassStart(s: Pass)
    ensures RanBy(s, 0) == [] && NextIdAt(s, 0) == s.nextId && ListAt(s, 0) == s.ts
  {
  }

  lemma PassEnd(s: Pass, p: nat)
    requires p <= |s.ts| && Turn(s, p) >= |ListAt(s, p)|
    ensures var ran := Ran(s.ts, s.now);
            && RanBy(s, p) == ran && NextIdAt(s, p) == s.nextId + |Asked(ran, s.procs)|
            && ListAt(s, p) == Created(Asked(ran, s.procs), s.now, s.nextId) + Stay(s.ts, s.now, s.procs)
  {
    assert s.ts[..p] == s.ts;
  }

  lemma FrontStep(s: Pass, p: nat)
    requires p < |s.ts|
    ensures var t := s.ts[p];
            if Due(t, s.now) then
              && RanBy(s, p + 1) == RanBy(s, p) + [t.id]
              && NextIdAt(s, p + 1) == NextIdAt(s, p) + |s.procs(t.id).creates|
              && Front(s, p + 1)
                 == Created(s.procs(t.id).creates, s.now, NextIdAt(s, p)) + (Front(s, p) + Again(t, s.now, s.procs(t.id)))
            else
              RanBy(s, p + 1) == RanBy(s, p) && NextIdAt(s, p + 1) == NextIdAt(s, p) && Front(s, p + 1) == Front(s, p) + [t]
  {
    hide Created, Again, Due;
    var t := s.ts[p];
    assert s.ts[..p + 1][..p] == s.ts[..p];
    assert (RanBy(s, p) + [t.id])[..|RanBy(s, p)|] == RanBy(s, p);
    CreatedAppend(Asked(RanBy(s, p), s.procs), s.procs(t.id).creates, s.now, s.nextId);
  }

  /** One more timer of the list dealt with. */
  lemma PassStep(s: Pass, p: nat)
    requires p < |s.ts|
    ensures var t, list, te, callback := s.ts[p], ListAt(s, p), Turn(s, p), s.procs(s.ts[p].id);
            && te < |list| && list[te] == t && Turn(s, p + 1) >= te
            && if Due(t, s.now) then
              && RanBy(s, p + 1) == RanBy(s, p) + [t.id]
              && NextIdAt(s, p + 1) == NextIdAt(s, p) + |callback.creates|
              && ListAt(s, p + 1) == Created(callback.creates, s.now, NextIdAt(s, p))
                                     + (list[..te] + Again(t, s.now, callback) + list[te + 1..])
            else
              && RanBy(s, p + 1) == RanBy(s, p) && NextIdAt(s, p + 1) == NextIdAt(s, p)
              && ListAt(s, p + 1) == list && Turn(s, p + 1) == te + 1
  {
    hide Created, Again, Due, RanBy, NextIdAt, Front;
    FrontStep(s, p);
  }

  /** Timers already dealt with are passed over: they are too new or no longer due, and none has the next one's id. */
  lemma PassedOver(s: Pass, p: nat)
    requires PassOk(s) && p <= |s.ts|
    ensures Turn(s, p) <= |ListAt(s, p)| && (p == |s.ts| ==> Turn(s, p) == |ListAt(s, p)|)
    ensures forall j :: 0 <= j < Turn(s, p) ==> ListAt(s, p)[j].id >= s.nextId || !Due(ListAt(s, p)[j], s.now)
    ensures p < |s.ts| ==> s.ts[p].id < s.nextId
    ensures p < |s.ts| ==> forall j :: 0 <= j < Turn(s, p) ==> ListAt(s, p)[j].id != s.ts[p].id
  {
    hide Due;
    StayNotDue(s.ts[..p], s.now, s.procs);
    StayIds(s.ts[..p], s.now, s.procs);
    var stay := Stay(s.ts[..p], s.now, s.procs);
    forall j | 0 <= j < |stay| ensures p < |s.ts| ==> stay[j].id != s.ts[p].id {
      assert stay[j] in stay;
      var i :| 0 <= i < p && s.ts[..p][i].id == stay[j].id;
      assert s.ts[i].id == stay[j].id;
    }
  }

  lemma {:induction false} CreatedUnique(delays: seq<int>, now: Time, nextId: nat)
    ensures Unique(Created(delays, now, nextId), nextId + |delays|)
  {
    if delays != [] {
      CreatedUnique(delays[..|delays| - 1], now, nextId);
    }
  }

  lemma {:induction false} StayUnique(ts: seq<Timer>, now: Time, procs: nat -> Callback, nextId: nat)
    requires Unique(ts, nextId)
    ensures Unique(Stay(ts, now, procs), nextId)
  {
    if ts != [] {
      var n := |ts| - 1;
      StayUnique(ts[..n], now, procs, nextId);
      StayIds(ts[..n], now, procs);
      var stay := Stay(ts[..n], now, procs);
      forall k | 0 <= k < |stay| ensures stay[k].id != ts[n].id {
        assert stay[k] in stay;
        var i :| 0 <= i < n && ts[..n][i].id == stay[k].id;
        assert ts[i].id == stay[k].id;
      }
    }
  }

  /** Creating, deleting and whole passes keep identifiers unique and below the next one. */
  lemma UniqueAfterPass(ts: seq<Timer>, now: Time, procs: nat -> Callback, nextId: nat, delays: seq<int>)
    requires Unique(ts, nextId)
    ensures Unique(Created(delays, now, nextId) + Stay(ts, now, procs), nextId + |delays|)
  {
    CreatedUnique(delays, now, nextId);
    StayUnique(ts, now, procs, nextId);
  }

  lemma {:induction false} WithoutUnique(ts: seq<Timer>, id: nat, nextId: nat)
    requires Unique(ts, nextId)
    ensures Unique(Without(ts, id), nextId)
    ensures forall t :: t in Without(ts, id) <==> t in ts && t.id != id
  {
    if k :| 0 <= k < |ts| && ts[k].id == id {
      WithoutAt(ts, k);
    } else {
      WithoutNone(ts, id);
    }
  }

  ghost function Without(ts: seq<Timer>, id: nat): seq<Timer>
  {
    if ts == [] then [] else if ts[0].id == id then ts[1..] else [ts[0]] + Without(ts[1..], id)
  }

  lemma {:induction false} WithoutAt(ts: seq<Timer>, k: nat)
    requires k < |ts| && forall i :: 0 <= i < k ==> ts[i].id != ts[k].id
    ensures Without(ts, ts[k].id) == ts[..k] + ts[k + 1..]
  {
    if k > 0 {
      WithoutAt(ts[1..], k - 1);
      assert ts[..k] + ts[k + 1..] == [ts[0]] + (ts[1..][..k - 1] + ts[1..][k..]);
    }
  }

  lemma {:induction false} WithoutNone(ts: seq<Timer>, id: nat)
    requires forall i :: 0 <= i < |ts| ==> ts[i].id != id
    ensures Without(ts, id) == ts
  {
    if ts != [] {
      WithoutNone(ts[1..], id);
    }
  }

  function Max(a: int, b: int): int { if a > b then a else b }

  class TimerLoop {
    var timers: seq<Timer>
    var nextId: nat

    constructor ()
      ensures timers == [] && nextId == 0
    {
      timers, nextId := [], 0;
    }

    method CreateTimeEvent(now: Time, milliseconds: int) returns (id: nat)
      modifies this
      ensures id == old(nextId) && nextId == id + 1
      ensures timers == [Timer(id, AddMilliseconds(now, milliseconds))] + old(timers)
      ensures old(Unique(timers, nextId)) ==> Unique(timers, nextId)
    {
      id := nextId;
      nextId := nextId + 1;
      timers := [Timer(id, AddMilliseconds(now, milliseconds))] + timers;
    }

    method DeleteTimeEvent(id: nat) returns (r: int)
      modifies this`timers
      ensures timers == Without(old(timers), id)
      ensures Unique(old(timers), nextId) ==> Unique(timers, nextId)
      ensures r == if exists t :: t in old(timers) && t.id == id then AE_OK else AE_ERR
    {
      if Unique(timers, nextId) { WithoutUnique(timers, id, nextId); }
      var i := 0;
      while i < |timers|
        invariant i <= |timers| && timers == old(timers)
        invariant forall j :: 0 <= j < i ==> timers[j].id != id
      {
        if timers[i].id == id {
          WithoutAt(timers, i);
          assert timers[i] in old(timers);
          timers := timers[..i] + timers[i + 1..];
          return AE_OK;
        }
        i := i + 1;
      }
      WithoutNone(timers, id);
      return AE_ERR;
    }

    /** The first of the timers that no other precedes. */
    method SearchNearestTimer() returns (nearest: Option<Timer>)
      ensures nearest.None? <==> timers == []
      ensures nearest.Some? ==> nearest.value in timers
      ensures nearest.Some? ==> forall t :: t in timers ==> !t.when.Before(nearest.value.when)
    {
      nearest := None;
      for i := 0 to |timers|
        invariant nearest.None? <==> i == 0
        invariant nearest.Some? ==> nearest.value in timers
        invariant nearest.Some? ==> forall j :: 0 <= j < i ==> !timers[j].when.Before(nearest.value.when)
      {
        if nearest.None? || timers[i].when.Before(nearest.value.when) {
          nearest := Some(timers[i]);
        }
      }
    }

    /** How long the poll may sleep: not at all, until the nearest timer to the millisecond, or for ever. */
    method PollTimeout(now: Time, timeEvents: bool, dontWait: bool) returns (timeout: int)
      ensures !timeEvents || dontWait ==> timeout == 0
      ensures timeEvents && !dontWait ==> (timeout == -1 <==> timers == [])
      ensures timeEvents && !dontWait && timers != [] && (forall t :: t in timers ==> t.when.Normal()) ==>
                && (forall t :: t in timers ==> 0 <= timeout <= Max(0, t.when.Millis() - now.Millis()))
                && exists t :: t in timers && timeout == Max(0, t.when.Millis() - now.Millis())
    {
      var tv := Some((0, 0));
      if timeEvents && !dontWait {
        var shortest := SearchNearestTimer();
        if shortest.Some? {
          var when := shortest.value.when;
          var ms := (when.sec - now.sec) * 1000 + (when.ms - now.ms);
          if ms > 0 {
            tv := Some((ms / 1000, ms % 1000 * 1000));
          }
          assert ms == when.Millis() - now.Millis();
          if forall t :: t in timers ==> t.when.Normal() {
            forall t | t in timers ensures when.Millis() <= t.when.Millis() {
              BeforeIsEarlier(t.when, when);
            }
          }
          assert shortest.value in timers;
        } else {
          tv := None;
        }
      }
      timeout := if tv.Some? then tv.value.0 * 1000 + tv.value.1 / 1000 else -1;
    }

    /** The callback of one timer: it creates timers and returns its value. */
    method Run(callback: Callback, now: Time) returns (retval: int)
      modifies this
      ensures retval == callback.retval
      ensures nextId == old(nextId) + |callback.creates|
      ensures timers == Created(callback.creates, now, old(nextId)) + old(timers)
    {
      var delays := callback.creates;
      for i := 0 to |delays|
        invariant nextId == old(nextId) + i
        invariant timers == Created(delays[..i], now, old(nextId)) + old(timers)
      {
        assert delays[..i + 1][..i] == delays[..i];
        var _ := CreateTimeEvent(now, delays[i]);
      }
      assert delays[..|delays|] == delays;
      retval := callback.retval;
    }

    /** One due timer runs and is rescheduled or deleted, behind the timers it has created. */
    method Fire(te: nat, now: Time, callback: Callback)
      requires te < |timers| && forall i :: 0 <= i < te ==> timers[i].id != timers[te].id
      requires timers[te].id < nextId
      modifies this
      ensures nextId == old(nextId) + |callback.creates|
      ensures timers == Created(callback.creates, now, old(nextId))
                        + (old(timers[..te]) + Again(old(timers[te]), now, callback) + old(timers[te + 1..]))
      ensures now.Normal() && callback.retval != AE_NOMORE && callback.retval >= 0 ==>
                var t := timers[|callback.creates| + te];
                t.id == old(timers[te]).id && t.when.Normal() && t.when.Millis() == now.Millis() + callback.retval
    {
      if now.Normal() { AddIsExact(now, callback.retval); }
      hide Created, Without, AddMilliseconds;
      var id := timers[te].id;
      var retval := Run(callback, now);
      var at := |callback.creates| + te;
      assert timers[at] == old(timers[te]);
      if retval != AE_NOMORE {
        timers := timers[at := timers[at].(when := AddMilliseconds(now, retval))];
      } else {
        WithoutAt(timers, at);
        var _ := DeleteTimeEvent(id);
      }
    }

    /** With the clock standing still, callbacks that return a positive delay or AE_NOMORE, and no callback deleting a
        timer, the restarts come to an end: each timer due at the start runs once, in list order, timers created on
        the way do not run, and only those returning AE_NOMORE are removed. */
    method ProcessTimeEvents(now: Time, procs: nat -> Callback) returns (processed: nat, ghost ran: seq<nat>)
      requires Unique(timers, nextId) && now.Normal()
      requires forall id: nat :: procs(id).retval == AE_NOMORE || procs(id).retval > 0
      modifies this
      ensures ran == Ran(old(timers), now) && processed == |ran|
      ensures timers == Created(Asked(ran, procs), now, old(nextId)) + Stay(old(timers), now, procs)
      ensures nextId == old(nextId) + |Asked(ran, procs)| && Unique(timers, nextId)
      ensures PassTells(old(timers), timers, now, procs, old(nextId), Asked(ran, procs))
    {
      hide PassTells, Unique, Ran, Stay, Asked, RanBy, NextIdAt, ListAt, Turn, Created, Again, Due;
      processed, ran := 0, [];
      var te := 0;
      var maxId := nextId - 1;
      ghost var s, p := Pass(timers, now, procs, nextId), 0;
      PassStart(s);
      while te < |timers|
        invariant 0 <= p <= |s.ts| && te <= Turn(s, p)
        invariant ran == RanBy(s, p) && processed == |ran| && nextId == NextIdAt(s, p) && timers == ListAt(s, p)
        decreases |s.ts| - p, |timers| - te
      {
        PassedOver(s, p);
        if te == Turn(s, p) {
          PassStep(s, p);
        }
        if timers[te].id > maxId {
          te := te + 1;
          continue;
        }
        if Due(timers[te], now) {
          ran := ran + [timers[te].id];
          Fire(te, now, procs(timers[te].id));
          p := p + 1;
          processed := processed + 1;
          te := 0;
        } else {
          if te == Turn(s, p) {
            p := p + 1;
          }
          te := te + 1;
        }
      }
      PassEnd(s, p);
      UniqueAfterPass(s.ts, now, procs, s.nextId, Asked(ran, procs));
      PassIsTold(s.ts, now, procs, s.nextId, Asked(ran, procs));
    }
  }
}
