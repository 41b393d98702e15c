module AePoll {
  // ae_poll.c: a dense array of descriptors and the index into it; and the event table of ae.c they must agree with.

  /** AE_READABLE and AE_WRITABLE, and just as well POLLIN and POLLOUT. */
  datatype Mask = Mask(readable: bool, writable: bool) {
    function Or(m: Mask): Mask { Mask(readable || m.readable, writable || m.writable) }
    function Without(m: Mask): Mask { Mask(readable && !m.readable, writable && !m.writable) }
  }

  const NONE: Mask := Mask(false, false)
  const AE_OK: int := 0
  const AE_ERR: int := -1

  datatype PollFd = PollFd(fd: int, events: Mask)

  /** What the kernel reports for one entry: POLLIN, POLLOUT, and POLLERR or POLLHUP. */
  datatype Ready = Ready(input: bool, output: bool, failed: bool)

  /** A mask as a set of bits: 1 for readable, 2 for writable. */
  ghost function Bits(m: Mask): set<int> { (if m.readable then {1} else {}) + if m.writable then {2} else {} }

  lemma MasksAreBits(a: Mask, b: Mask)
    ensures Bits(a.Or(b)) == Bits(a) + Bits(b) && Bits(a.Without(b)) == Bits(a) - Bits(b)
    ensures a == b <==> Bits(a) == Bits(b)
  {
    assert 1 in Bits(a) <==> a.readable;
    assert 2 in Bits(a) <==> a.writable;
    assert 1 in Bits(b) <==> b.readable;
    assert 2 in Bits(b) <==> b.writable;
  }

  datatype Fired = Fired(fd: int, mask: Mask)

  // ----- counting descriptors -----

  ghost function Below(n: nat): set<int> { if n == 0 then {} else Below(n - 1) + {n - 1} }

  lemma {:induction false} BelowSize(n: nat)
    ensures |Below(n)| == n && forall i :: i in Below(n) <==> 0 <= i < n
  {
    if n > 0 {
      BelowSize(n - 1);
    }
  }

  ghost predicate Distinct(s: seq<int>) { forall i, j :: 0 <= i < j < |s| ==> s[i] != s[j] }

  lemma {:induction false} DistinctSize(s: seq<int>)
    requires Distinct(s)
    ensures |set x | x in s| == |s|
  {
    if s != [] {
      var n := |s| - 1;
      DistinctSize(s[..n]);
      assert s == s[..n] + [s[n]];
      assert (set x | x in s) == (set x | x in s[..n]) + {s[n]};
    }
  }

  /** Distinct numbers below n that avoid `gap` are fewer than n. */
  lemma Pigeonhole(s: seq<int>, n: nat, gap: int)
    requires Distinct(s) && forall x :: x in s ==> 0 <= x < n
    ensures |s| <= n
    ensures 0 <= gap < n && gap !in s ==> |s| < n
  {
    var elems := set x | x in s;
    DistinctSize(s);
    BelowSize(n);
    assert elems <= Below(n);
    SubsetSize(elems, Below(n));
    if 0 <= gap < n && gap !in s {
      assert elems <= Below(n) - {gap};
      SubsetSize(elems, Below(n) - {gap});
    }
  }

  lemma SubsetSize(a: set<int>, b: set<int>)
    requires a <= b
    ensures |a| <= |b|
  {
    assert b == a + (b - a);
  }

  // ----- the index as values -----

  /** pfds and fd_to_idx are inverse to each other, and no entry is without an interest. */
  ghost predicate Inverse(pfds: seq<PollFd>, idx: seq<int>)
  {
    && (forall i :: 0 <= i < |pfds| ==> 0 <= pfds[i].fd < |idx| && idx[pfds[i].fd] == i && pfds[i].events != NONE)
    && (forall fd :: 0 <= fd < |idx| ==> idx[fd] == -1 || (0 <= idx[fd] < |pfds| && pfds[idx[fd]].fd == fd))
  }

  ghost function Interest(pfds: seq<PollFd>, idx: seq<int>, fd: int): Mask
    requires Inverse(pfds, idx)
  {
    if 0 <= fd < |idx| && idx[fd] != -1 then pfds[idx[fd]].events else NONE
  }

  ghost function Fds(pfds: seq<PollFd>): seq<int> { seq(|pfds|, i requires 0 <= i < |pfds| => pfds[i].fd) }

  /** There is always room for a descriptor that is not registered. */
  lemma RoomForNew(pfds: seq<PollFd>, idx: seq<int>, fd: int)
    requires Inverse(pfds, idx)
    ensures |pfds| <= |idx|
    ensures 0 <= fd < |idx| ==> -1 <= idx[fd] < |pfds| && (idx[fd] == -1 ==> |pfds| < |idx|)
  {
    assert forall i :: 0 <= i < |pfds| ==> idx[Fds(pfds)[i]] == i;
    assert Distinct(Fds(pfds));
    Pigeonhole(Fds(pfds), |idx|, fd);
  }

  /** realloc, and the slots not carried over set to `fill`. */
  method Realloc<T>(a: array<T>, kept: nat, size: nat, fill: T) returns (b: array<T>)
    requires kept <= a.Length && kept <= size
    ensures fresh(b) && b.Length == size
    ensures forall i :: 0 <= i < size ==> b[i] == if i < kept then a[i] else fill
  {
    b := new T[size](_ => fill);
    for i := 0 to kept
      invariant forall j :: 0 <= j < size ==> b[j] == if j < i then a[j] else fill
      modifies b
    {
      b[i] := a[i];
    }
  }

  class ApiState {
    var pfds: array<PollFd>
    var fdToIdx: array<int>
    var nfds: nat
    var capacity: nat

    ghost predicate Valid()
      reads this, pfds, fdToIdx
    {
      && pfds.Length == fdToIdx.Length == capacity
      && nfds <= capacity
      && Inverse(pfds[..nfds], fdToIdx[..])
    }

    ghost function Wants(fd: int): Mask
      requires Valid()
      reads this, pfds, fdToIdx
    {
      Interest(pfds[..nfds], fdToIdx[..], fd)
    }

    lemma OutOfRange(fd: int)
      requires Valid() && fd >= capacity
      ensures Wants(fd) == NONE
    {
    }

    constructor (setsize: nat)
      ensures Valid() && fresh(pfds) && fresh(fdToIdx) && capacity == setsize
      ensures forall fd :: Wants(fd) == NONE
    {
      capacity := setsize;
      pfds := new PollFd[setsize](_ => PollFd(0, NONE));
      fdToIdx := new int[setsize](_ => -1);
      nfds := 0;
    }

    /** The capacity check never fails. */
    method AddEvent(fd: int, mask: Mask) returns (r: int)
      requires Valid() && 0 <= fd < capacity && mask != NONE
      modifies this, pfds, fdToIdx
      ensures Valid() && pfds == old(pfds) && fdToIdx == old(fdToIdx) && capacity == old(capacity)
      ensures r == 0
      ensures forall f :: Wants(f) == if f == fd then old(Wants(f)).Or(mask) else old(Wants(f))
    {
      hide Inverse, Interest;
      ghost var p, x := pfds[..nfds], fdToIdx[..];
      RoomForNew(p, x, fd);
      Added(p, x, fd, mask);
      var idx := fdToIdx[fd];
      if idx == -1 {
        if nfds >= capacity { return -1; }
        idx := nfds;
        nfds := nfds + 1;
        fdToIdx[fd] := idx;
        pfds[idx] := PollFd(fd, NONE);
      } else {
        assert x[fd := idx] == x;
      }
      pfds[idx] := pfds[idx].(events := pfds[idx].events.Or(mask));
      assert pfds[..nfds] == AddEntry(p, x, fd, mask);
      assert fdToIdx[..] == x[fd := idx];
      return 0;
    }

    /** An entry left without interest is replaced by the last one. */
    method DelEvent(fd: int, mask: Mask)
      requires Valid() && 0 <= fd < capacity
      modifies this, pfds, fdToIdx
      ensures Valid() && pfds == old(pfds) && fdToIdx == old(fdToIdx) && capacity == old(capacity)
      ensures forall f :: Wants(f) == if f == fd then old(Wants(f)).Without(mask) else old(Wants(f))
    {
      hide Inverse, Interest;
      ghost var p, x := pfds[..nfds], fdToIdx[..];
      Narrowed(p, x, fd, mask);
      var idx := fdToIdx[fd];
      if idx == -1 { return; }
      pfds[idx] := pfds[idx].(events := pfds[idx].events.Without(mask));
      if pfds[idx].events == NONE {
        Dropped(p, x, fd);
        var last := nfds - 1;
        if idx != last {
          pfds[idx] := pfds[last];
          fdToIdx[pfds[idx].fd] := idx;
        }
        fdToIdx[fd] := -1;
        nfds := nfds - 1;
        assert pfds[..nfds] == DropEntry(p, idx);
        assert fdToIdx[..] == DropIndex(p, x, fd);
      } else {
        assert pfds[..nfds] == p[idx := PollFd(fd, p[idx].events.Without(mask))];
      }
    }

    /** Callers shrink only below descriptors that are all unregistered. */
    method Resize(setsize: nat)
      requires Valid() && forall fd :: fd >= setsize ==> Wants(fd) == NONE
      modifies this
      ensures Valid() && fresh(pfds) && fresh(fdToIdx) && capacity == setsize
      ensures forall fd :: Wants(fd) == old(Wants(fd))
    {
      hide Inverse, Interest;
      ghost var p, x := pfds[..nfds], fdToIdx[..];
      assert forall fd :: Interest(p, x, fd) == Wants(fd);
      ShrinkIsSafe(p, x, setsize);
      var newPfds := Realloc(pfds, nfds, setsize, PollFd(0, NONE));
      var kept := if setsize < capacity then setsize else capacity;
      var newIdx := Realloc(fdToIdx, kept, setsize, -1);
      pfds, fdToIdx, capacity := newPfds, newIdx, setsize;
      assert pfds[..nfds] == p;
      assert fdToIdx[..] == x[..kept] + seq(setsize - kept, _ => -1);
    }

    /** Reports the ready descriptors in array order. */
    method Poll(retval: int, ready: seq<Ready>, fired: array<Fired>) returns (numevents: nat)
      requires Valid() && |ready| == nfds && fired.Length == capacity
      modifies fired
      ensures numevents <= nfds
      ensures fired[..numevents] == if retval > 0 then FiredBy(pfds[..nfds], ready) else []
    {
      numevents := 0;
      if retval > 0 {
        for i := 0 to nfds
          invariant numevents <= i
          invariant fired[..numevents] == FiredBy(pfds[..i], ready[..i])
        {
          assert pfds[..i + 1][..i] == pfds[..i] && ready[..i + 1][..i] == ready[..i];
          var mask := NONE;
          if ready[i].input { mask := mask.Or(Mask(true, false)); }
          if ready[i].output { mask := mask.Or(Mask(false, true)); }
          if ready[i].failed { mask := mask.Or(Mask(true, true)); }
          if mask != NONE {
            fired[numevents] := Fired(pfds[i].fd, mask);
            numevents := numevents + 1;
          }
        }
        assert ready[..nfds] == ready;
      }
    }
  }

  function ReadyMask(r: Ready): Mask { Mask(r.input || r.failed, r.output || r.failed) }

  ghost function FiredBy(pfds: seq<PollFd>, ready: seq<Ready>): seq<Fired>
    requires |pfds| == |ready|
  {
    if pfds == [] then []
    else
      var n := |pfds| - 1;
      FiredBy(pfds[..n], ready[..n])
      + if ReadyMask(ready[n]) == NONE then [] else [Fired(pfds[n].fd, ReadyMask(ready[n]))]
  }

  /** Input makes a descriptor readable, room for output writable, and an error or hang-up both. */
  ghost predicate Reports(r: Ready, m: Mask)
  {
    (m.readable <==> r.input || r.failed) && (m.writable <==> r.output || r.failed)
  }

  /** Exactly the descriptors with something to report are fired, each once. */
  lemma {:induction false} FiredExactly(pfds: seq<PollFd>, ready: seq<Ready>)
    requires |pfds| == |ready| && Distinct(Fds(pfds))
    ensures forall f :: f in FiredBy(pfds, ready)
              <==> f.mask != NONE && exists i :: 0 <= i < |pfds| && f.fd == pfds[i].fd && Reports(ready[i], f.mask)
    ensures forall i, j :: 0 <= i < j < |FiredBy(pfds, ready)| ==> FiredBy(pfds, ready)[i].fd != FiredBy(pfds, ready)[j].fd
  {
    if pfds != [] {
      var n := |pfds| - 1;
      assert Distinct(Fds(pfds[..n])) by {
        assert Fds(pfds[..n]) == Fds(pfds)[..n];
      }
      FiredExactly(pfds[..n], ready[..n]);
      var init := FiredBy(pfds[..n], ready[..n]);
      forall f ensures f in FiredBy(pfds, ready)
              <==> f.mask != NONE && exists i :: 0 <= i < |pfds| && f.fd == pfds[i].fd && f.mask == ReadyMask(ready[i]) {
        if i :| 0 <= i < |pfds| && f.fd == pfds[i].fd && f.mask == ReadyMask(ready[i]) && f.mask != NONE {
          if i < n { assert pfds[..n][i] == pfds[i] && ready[..n][i] == ready[i]; }
        }
        if f in init {
          var i :| 0 <= i < n && f.fd == pfds[..n][i].fd && f.mask == ReadyMask(ready[..n][i]);
          assert f.fd == pfds[i].fd && f.mask == ReadyMask(ready[i]);
        }
      }
      forall f | f in init ensures f.fd != pfds[n].fd {
        var i :| 0 <= i < n && f.fd == pfds[..n][i].fd && f.mask == ReadyMask(ready[..n][i]);
        assert Fds(pfds)[i] == f.fd && Fds(pfds)[n] == pfds[n].fd;
      }
    }
  }

  ghost function DropEntry(p: seq<PollFd>, idx: nat): seq<PollFd>
    requires idx < |p|
  {
    var last := |p| - 1;
    if idx == last then p[..last] else p[..last][idx := p[last]]
  }

  ghost function DropIndex(p: seq<PollFd>, x: seq<int>, fd: int): seq<int>
    requires Inverse(p, x) && 0 <= fd < |x| && x[fd] != -1
  {
    var last := |p| - 1;
    (if x[fd] == last then x else x[p[last].fd := x[fd]])[fd := -1]
  }

  ghost function AddEntry(p: seq<PollFd>, x: seq<int>, fd: int, mask: Mask): seq<PollFd>
    requires 0 <= fd < |x| && -1 <= x[fd] < |p|
  {
    if x[fd] == -1 then p + [PollFd(fd, NONE.Or(mask))] else p[x[fd] := p[x[fd]].(events := p[x[fd]].events.Or(mask))]
  }

  /** Adding widens one interest, in a new last entry when there was none. */
  lemma Added(p: seq<PollFd>, x: seq<int>, fd: int, mask: Mask)
    requires Inverse(p, x) && 0 <= fd < |x| && mask != NONE
    ensures -1 <= x[fd] < |p|
    ensures var p', x' := AddEntry(p, x, fd, mask), if x[fd] == -1 then x[fd := |p|] else x;
            Inverse(p', x') && forall f :: Interest(p', x', f) == if f == fd then Interest(p, x, f).Or(mask) else Interest(p, x, f)
  {
  }

  /** Narrowing an interest that stays non-empty keeps its entry; emptying it is followed by swap-remove. */
  lemma Narrowed(p: seq<PollFd>, x: seq<int>, fd: int, mask: Mask)
    requires Inverse(p, x) && 0 <= fd < |x|
    ensures -1 <= x[fd] < |p|
    ensures x[fd] == -1 ==> Interest(p, x, fd) == NONE
    ensures x[fd] != -1 ==>
              var entry := PollFd(fd, p[x[fd]].events.Without(mask));
              && p[x[fd]].fd == fd && Interest(p, x, fd) == p[x[fd]].events
              && (entry.events != NONE ==>
                    var p' := p[x[fd] := entry];
                    Inverse(p', x) && forall f :: Interest(p', x, f) == if f == fd then entry.events else Interest(p, x, f))
  {
  }

  /** Swap-remove keeps the two arrays inverse and touches nobody else's interest. */
  lemma Dropped(p: seq<PollFd>, x: seq<int>, fd: int)
    requires Inverse(p, x) && 0 <= fd < |x| && x[fd] != -1
    ensures x[fd] < |p| && 0 <= p[|p| - 1].fd < |x|
    ensures var p', x' := DropEntry(p, x[fd]), DropIndex(p, x, fd);
            Inverse(p', x') && forall f :: Interest(p', x', f) == if f == fd then NONE else Interest(p, x, f)
  {
    var last := |p| - 1;
    var p', x' := DropEntry(p, x[fd]), DropIndex(p, x, fd);
    assert x[p[last].fd] == last;
    forall i | 0 <= i < |p'| ensures 0 <= p'[i].fd < |x'| && x'[p'[i].fd] == i && p'[i].events != NONE {
    }
    forall f | 0 <= f < |x'| ensures x'[f] == -1 || (0 <= x'[f] < |p'| && p'[x'[f]].fd == f) {
    }
  }

  lemma ShrinkIsSafe(p: seq<PollFd>, x: seq<int>, setsize: nat)
    requires Inverse(p, x) && forall fd :: fd >= setsize ==> Interest(p, x, fd) == NONE
    ensures |p| <= setsize
    ensures var kept := if setsize < |x| then setsize else |x|;
            var x' := x[..kept] + seq(setsize - kept, _ => -1);
            Inverse(p, x') && forall fd :: Interest(p, x', fd) == Interest(p, x, fd)
  {
    var kept := if setsize < |x| then setsize else |x|;
    var x' := x[..kept] + seq(setsize - kept, _ => -1);
    assert forall i :: 0 <= i < |p| ==> Interest(p, x, p[i].fd) != NONE;
    assert Inverse(p, x');
    RoomForNew(p, x', 0);
  }

  // ----- the event loop -----

  class EventLoop {
    var maxfd: int
    var setsize: nat
    var events: array<Mask>
    const api: ApiState

    ghost function Repr(): set<object>
      reads this, api
    {
      {this, events, api, api.pfds, api.fdToIdx}
    }

    /** The largest registered descriptor, or -1. */
    ghost predicate MaxFd()
      reads this, events
    {
      && -1 <= maxfd < events.Length
      && (maxfd >= 0 ==> events[maxfd] != NONE)
      && forall fd :: maxfd < fd < events.Length ==> events[fd] == NONE
    }

    ghost predicate Valid()
      reads this, events, api, api.pfds, api.fdToIdx
    {
      && api.Valid() && events.Length == setsize == api.capacity
      && (forall fd :: 0 <= fd < setsize ==> events[fd] == api.Wants(fd))
      && MaxFd()
    }

    constructor (setsize: nat)
      ensures Valid() && fresh(Repr()) && this.setsize == setsize
      ensures forall fd :: 0 <= fd < setsize ==> events[fd] == NONE
    {
      this.setsize := setsize;
      events := new Mask[setsize](_ => NONE);
      maxfd := -1;
      api := new ApiState(setsize);
    }

    method CreateFileEvent(fd: int, mask: Mask) returns (r: int)
      requires Valid() && 0 <= fd && mask != NONE
      modifies Repr()
      ensures Valid() && Repr() == old(Repr()) && setsize == old(setsize)
      ensures r == if fd < setsize then AE_OK else AE_ERR
      ensures forall f :: 0 <= f < setsize ==> events[f] == if f == fd then old(events[f]).Or(mask) else old(events[f])
    {
      hide Inverse, Interest;
      if fd >= setsize { return AE_ERR; }
      var added := api.AddEvent(fd, mask);
      if added == -1 { return AE_ERR; }
      events[fd] := events[fd].Or(mask);
      if fd > maxfd { maxfd := fd; }
      return AE_OK;
    }

    method DeleteFileEvent(fd: int, mask: Mask)
      requires Valid() && 0 <= fd
      modifies Repr()
      ensures Valid() && Repr() == old(Repr()) && setsize == old(setsize)
      ensures forall f :: 0 <= f < setsize ==> events[f] == if f == fd then old(events[f]).Without(mask) else old(events[f])
    {
      hide Inverse, Interest;
      if fd >= setsize { return; }
      if events[fd] == NONE { return; }
      api.DelEvent(fd, mask);
      events[fd] := events[fd].Without(mask);
      if fd == maxfd && events[fd] == NONE {
        var j := maxfd - 1;
        while j >= 0
          invariant -1 <= j < maxfd
          invariant forall k :: j < k < setsize ==> events[k] == NONE
        {
          if events[j] != NONE { break; }
          j := j - 1;
        }
        maxfd := j;
      }
    }

    /** Refused when a registered descriptor would not fit. */
    method ResizeEventLoop(newSize: nat) returns (r: int)
      requires Valid()
      modifies this, api
      ensures Valid() && fresh(Repr() - old(Repr()))
      ensures r == if newSize == old(setsize) || old(maxfd) < newSize then AE_OK else AE_ERR
      ensures setsize == if r == AE_OK then newSize else old(setsize)
      ensures maxfd == old(maxfd)
      ensures forall f :: 0 <= f < setsize ==> events[f] == if f < old(setsize) then old(events[f]) else NONE
    {
      hide Inverse, Interest;
      if newSize == setsize { return AE_OK; }
      if maxfd >= newSize { return AE_ERR; }
      forall fd | fd > maxfd ensures api.Wants(fd) == NONE {
        if fd >= api.capacity {
          api.OutOfRange(fd);
        }
      }
      api.Resize(newSize);
      var grown := Realloc(events, maxfd + 1, newSize, NONE);
      events := grown;
      setsize := newSize;
      return AE_OK;
    }
  }
}
