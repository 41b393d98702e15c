/** expheap.c: the binary min-heap of deadlines. */
module ExpHeap {
  import opened Sds

  datatype ExpEntry = ExpEntry(key: Bytes, expire: int)

  /** The entry at i expires no earlier than its parent. */
  ghost predicate Fits(h: seq<ExpEntry>, i: nat)
    requires i < |h|
  {
    i > 0 ==> h[(i - 1) / 2].expire <= h[i].expire
  }

  ghost predicate Ordered(h: seq<ExpEntry>) { forall i :: 0 <= i < |h| ==> Fits(h, i) }

  /** The children of idx expire no earlier than the parent of idx. */
  ghost predicate Bridged(h: seq<ExpEntry>, idx: nat)
    requires idx < |h|
  {
    idx > 0 ==>
      && (2 * idx + 1 < |h| ==> h[(idx - 1) / 2].expire <= h[2 * idx + 1].expire)
      && (2 * idx + 2 < |h| ==> h[(idx - 1) / 2].expire <= h[2 * idx + 2].expire)
  }

  /** Ordered, except that h[idx] may be too early for its parent. */
  ghost predicate OrderedButUp(h: seq<ExpEntry>, idx: nat)
  {
    idx < |h| && Bridged(h, idx) && forall i :: 0 <= i < |h| && i != idx ==> Fits(h, i)
  }

  /** Ordered, except that h[idx] may be too late for its children. */
  ghost predicate OrderedButDown(h: seq<ExpEntry>, idx: nat)
  {
    idx < |h| && Bridged(h, idx)
    && forall i :: 0 <= i < |h| && i != 2 * idx + 1 && i != 2 * idx + 2 ==> Fits(h, i)
  }

  lemma {:induction false} RootIsLeast(h: seq<ExpEntry>, i: nat)
    requires Ordered(h) && i < |h|
    ensures h[0].expire <= h[i].expire
  {
    if i > 0 {
      assert Fits(h, i);
      RootIsLeast(h, (i - 1) / 2);
    }
  }

  ghost function Bag(h: seq<ExpEntry>): multiset<ExpEntry> { multiset(h) }

  lemma EmptyBag(h: seq<ExpEntry>)
    ensures Bag(h) == multiset{} <==> h == []
  {
    if h != [] {
      assert h[0] in Bag(h);
    }
  }

  lemma SwapKeeps(h: seq<ExpEntry>, i: nat, j: nat)
    requires i < |h| && j < |h|
    ensures Bag(h[i := h[j]][j := h[i]]) == Bag(h)
  {
  }

  class ExpHeap {
    var entries: array<ExpEntry>
    var size: nat
    var capacity: nat

    ghost predicate Sized()
      reads this
    {
      entries.Length == capacity > 0 && size <= capacity
    }

    ghost function Used(): seq<ExpEntry>
      requires Sized()
      reads this, entries
    {
      entries[..size]
    }

    ghost predicate Valid()
      reads this, entries
    {
      Sized() && Ordered(Used())
    }

    /** The scheduled deadlines. */
    ghost function Contents(): multiset<ExpEntry>
      requires Sized()
      reads this, entries
    {
      Bag(Used())
    }

    constructor (initialCap: nat)
      ensures Valid() && fresh(entries) && Contents() == multiset{}
    {
      var cap := if initialCap > 0 then initialCap else 16;
      capacity := cap;
      entries := new ExpEntry[cap](_ => ExpEntry("", 0));
      size := 0;
    }

    method Swap(i: nat, j: nat, n: nat)
      requires i < n <= entries.Length && j < n
      modifies entries
      ensures entries[..n] == old(entries[..n])[i := old(entries[j])][j := old(entries[i])]
      ensures Bag(entries[..n]) == old(Bag(entries[..n]))
      ensures entries[n..] == old(entries[n..])
    {
      hide Bag;
      SwapKeeps(entries[..n], i, j);
      var tmp := entries[i];
      entries[i] := entries[j];
      entries[j] := tmp;
      assert entries[..n] == old(entries[..n])[i := old(entries[j])][j := old(entries[i])];
    }

    /** n is the number of slots in use, counting a slot just filled by a push. */
    method SiftUp(start: nat, n: nat)
      requires start < n <= entries.Length && OrderedButUp(entries[..n], start)
      modifies entries
      ensures Ordered(entries[..n]) && Bag(entries[..n]) == old(Bag(entries[..n]))
    {
      hide Ordered, OrderedButUp, Bag;
      var idx := start;
      while idx > 0
        invariant 0 <= idx < n && OrderedButUp(entries[..n], idx)
        invariant Bag(entries[..n]) == old(Bag(entries[..n]))
      {
        var parent := (idx - 1) / 2;
        if entries[idx].expire < entries[parent].expire {
          ghost var h := entries[..n];
          Swap(idx, parent, n);
          UpStep(h, idx);
          idx := parent;
        } else {
          UpDone(entries[..n], idx);
          return;
        }
      }
      UpDone(entries[..n], idx);
    }

    method SiftDown(start: nat)
      requires Sized() && start < size && OrderedButDown(Used(), start)
      modifies entries
      ensures Valid() && Contents() == old(Contents())
    {
      hide Ordered, OrderedButDown, Bag;
      var idx := start;
      while true
        invariant Sized() && idx < size && OrderedButDown(Used(), idx) && Contents() == old(Contents())
        decreases size - idx
      {
        var smallest := idx;
        var left := 2 * idx + 1;
        var right := 2 * idx + 2;
        if left < size && entries[left].expire < entries[smallest].expire {
          smallest := left;
        }
        if right < size && entries[right].expire < entries[smallest].expire {
          smallest := right;
        }
        if smallest != idx {
          ghost var h := Used();
          Swap(idx, smallest, size);
          DownStep(h, idx, smallest);
          idx := smallest;
        } else {
          DownDone(Used(), idx);
          break;
        }
      }
    }

    method Push(key: Bytes, expire: int)
      requires Valid()
      modifies this, entries
      ensures Valid() && (entries == old(entries) || fresh(entries))
      ensures Contents() == old(Contents()) + multiset{ExpEntry(key, expire)}
    {
      hide Ordered, OrderedButUp, Fits, Bridged, Bag;
      ghost var h := Used();
      Reserve();
      entries[size] := ExpEntry(key, expire);
      assert entries[..size + 1] == h + [ExpEntry(key, expire)];
      PushedUp(h, ExpEntry(key, expire));
      SiftUp(size, size + 1);
      ghost var g := entries[..size + 1];
      size := size + 1;
      assert Used() == g;
    }

    /** Doubles a full array. */
    method Reserve()
      requires Sized()
      modifies this
      ensures Sized() && size == old(size) < capacity && Used() == old(Used())
      ensures entries == old(entries) || fresh(entries)
    {
      if size >= capacity {
        ghost var h := Used();
        capacity := capacity * 2;
        var grown := new ExpEntry[capacity](_ => ExpEntry("", 0));
        for i := 0 to size
          invariant grown[..i] == h[..i]
          modifies grown
        {
          grown[i] := entries[i];
        }
        entries := grown;
      }
    }

    method Peek() returns (top: Option<ExpEntry>)
      requires Valid()
      ensures top.None? <==> Contents() == multiset{}
      ensures top.Some? ==> top.value in Contents() && forall e :: e in Contents() ==> top.value.expire <= e.expire
    {
      EmptyBag(Used());
      if size == 0 { return None; }
      FirstIsLeast();
      return Some(entries[0]);
    }

    lemma FirstIsLeast()
      requires Valid() && size > 0
      ensures entries[0] in Contents() && forall e :: e in Contents() ==> entries[0].expire <= e.expire
    {
      assert entries[0] in Used();
      forall e | e in Contents() ensures entries[0].expire <= e.expire {
        var i :| 0 <= i < |Used()| && Used()[i] == e;
        RootIsLeast(Used(), i);
      }
    }

    /** Popping an empty heap yields the zero entry. */
    method Pop() returns (result: ExpEntry)
      requires Valid()
      modifies this, entries
      ensures Valid() && entries == old(entries)
      ensures old(Contents()) == multiset{} ==> Contents() == multiset{} && result == ExpEntry("", 0)
      ensures old(Contents()) != multiset{} ==>
                && result in old(Contents())
                && Contents() == old(Contents()) - multiset{result}
                && forall e :: e in old(Contents()) ==> result.expire <= e.expire
    {
      hide Ordered, OrderedButUp, OrderedButDown, Fits, Bridged, Bag;
      EmptyBag(Used());
      if size == 0 { return ExpEntry("", 0); }
      FirstIsLeast();
      ghost var h := Used();
      result := entries[0];
      size := size - 1;
      RemoveAt(h, 0);
      if size > 0 {
        entries[0] := entries[size];
        assert Used() == h[..size][0 := h[size]];
        Refilled(h, 0);
        SiftDown(0);
      } else {
        assert Used() == h[..0];
        OrderedPrefix(h);
      }
    }

    /** Removes the first entry in array order that carries the key. */
    method Remove(key: Bytes)
      requires Valid()
      modifies this, entries
      ensures Valid() && entries == old(entries)
      ensures (forall e :: e in old(Contents()) ==> e.key != key) ==> Contents() == old(Contents())
      ensures (exists e :: e in old(Contents()) && e.key == key) ==>
                exists e :: e in old(Contents()) && e.key == key && Contents() == old(Contents()) - multiset{e}
    {
      for i := 0 to size
        invariant Valid() && entries[..] == old(entries[..]) && size == old(size) && entries == old(entries)
        invariant forall k :: 0 <= k < i ==> entries[k].key != key
      {
        CompareEqual(entries[i].key, key);
        if Compare(entries[i].key, key) == 0 {
          RemoveSlot(i);
          return;
        }
      }
      forall e | e in Contents() ensures e.key != key {
        var i :| 0 <= i < |Used()| && Used()[i] == e;
      }
    }

    /** The last entry takes the free slot and then moves up or down, whichever its parent calls for. */
    method RemoveSlot(i: nat)
      requires Valid() && i < size
      modifies this, entries
      ensures Valid() && entries == old(entries)
      ensures old(entries[i]) in old(Contents()) && Contents() == old(Contents()) - multiset{old(entries[i])}
    {
      hide Ordered, OrderedButUp, OrderedButDown, Fits, Bridged, TooEarly, Bag;
      ghost var h := Used();
      size := size - 1;
      RemoveAt(h, i);
      if i < size {
        entries[i] := entries[size];
        assert Used() == h[..size][i := h[size]];
        Refilled(h, i);
        Settle(i);
      } else {
        OrderedPrefix(h);
        assert Used() == h[..size];
      }
    }

    method Settle(i: nat)
      requires Sized() && i < size
      requires TooEarly(Used(), i) ==> OrderedButUp(Used(), i)
      requires !TooEarly(Used(), i) ==> OrderedButDown(Used(), i)
      modifies entries
      ensures Valid() && Contents() == old(Contents())
    {
      hide Ordered, OrderedButUp, OrderedButDown, Fits, Bridged, Bag;
      assert i > 0 ==> Used()[(i - 1) / 2] == entries[(i - 1) / 2];
      if i > 0 && entries[i].expire < entries[(i - 1) / 2].expire {
        SiftUp(i, size);
      } else {
        SiftDown(i);
      }
    }
  }

  ghost predicate TooEarly(h: seq<ExpEntry>, i: nat)
    requires i < |h|
  {
    i > 0 && h[i].expire < h[(i - 1) / 2].expire
  }

  lemma UpStep(h: seq<ExpEntry>, idx: nat)
    requires 0 < idx && OrderedButUp(h, idx) && h[idx].expire < h[(idx - 1) / 2].expire
    ensures var p := (idx - 1) / 2; OrderedButUp(h[idx := h[p]][p := h[idx]], p)
  {
    var p := (idx - 1) / 2;
    var h' := h[idx := h[p]][p := h[idx]];
    assert Fits(h, p);
    assert 2 * p + 1 < |h| && 2 * p + 1 != idx ==> Fits(h, 2 * p + 1);
    assert 2 * p + 2 < |h| && 2 * p + 2 != idx ==> Fits(h, 2 * p + 2);
    forall i | 0 <= i < |h'| && i != p ensures Fits(h', i) {
      assert i != idx ==> Fits(h, i);
    }
  }

  lemma UpDone(h: seq<ExpEntry>, idx: nat)
    requires OrderedButUp(h, idx) && (idx > 0 ==> h[(idx - 1) / 2].expire <= h[idx].expire)
    ensures Ordered(h)
  {
    forall i | 0 <= i < |h| ensures Fits(h, i) {
    }
  }

  lemma DownStep(h: seq<ExpEntry>, idx: nat, c: nat)
    requires OrderedButDown(h, idx) && c < |h| && (c == 2 * idx + 1 || c == 2 * idx + 2)
    requires h[c].expire < h[idx].expire
    requires 2 * idx + 1 < |h| ==> h[c].expire <= h[2 * idx + 1].expire
    requires 2 * idx + 2 < |h| ==> h[c].expire <= h[2 * idx + 2].expire
    ensures OrderedButDown(h[idx := h[c]][c := h[idx]], c)
  {
    assert (c - 1) / 2 == idx;
    var h' := h[idx := h[c]][c := h[idx]];
    assert 2 * c + 1 < |h| ==> Fits(h, 2 * c + 1);
    assert 2 * c + 2 < |h| ==> Fits(h, 2 * c + 2);
    forall i | 0 <= i < |h'| && i != 2 * c + 1 && i != 2 * c + 2 ensures Fits(h', i) {
      assert i != 2 * idx + 1 && i != 2 * idx + 2 ==> Fits(h, i);
    }
  }

  lemma DownDone(h: seq<ExpEntry>, idx: nat)
    requires OrderedButDown(h, idx)
    requires 2 * idx + 1 < |h| ==> h[idx].expire <= h[2 * idx + 1].expire
    requires 2 * idx + 2 < |h| ==> h[idx].expire <= h[2 * idx + 2].expire
    ensures Ordered(h)
  {
    forall i | 0 <= i < |h| ensures Fits(h, i) {
    }
  }

  lemma RemoveAt(h: seq<ExpEntry>, i: nat)
    requires i < |h|
    ensures var n := |h| - 1;
            h[i] in Bag(h) && Bag(if i < n then h[..n][i := h[n]] else h[..n]) == Bag(h) - multiset{h[i]}
  {
    var n := |h| - 1;
    assert h == h[..n] + [h[n]];
    if i < n {
      assert h[..n] == h[..i] + [h[i]] + h[i + 1..n];
      assert h[..n][i := h[n]] == h[..i] + [h[n]] + h[i + 1..n];
    }
  }

  lemma OrderedPrefix(h: seq<ExpEntry>)
    requires Ordered(h) && |h| > 0
    ensures Ordered(h[..|h| - 1])
  {
    var h' := h[..|h| - 1];
    forall i | 0 <= i < |h'| ensures Fits(h', i) {
      assert Fits(h, i);
    }
  }

  lemma PushedUp(h: seq<ExpEntry>, e: ExpEntry)
    requires Ordered(h)
    ensures OrderedButUp(h + [e], |h|)
    ensures Bag(h + [e]) == Bag(h) + multiset{e}
  {
    forall i | 0 <= i < |h| ensures Fits(h + [e], i) {
      assert Fits(h, i);
    }
  }

  lemma Refilled(h: seq<ExpEntry>, i: nat)
    requires Ordered(h) && i < |h| - 1
    ensures var h' := h[..|h| - 1][i := h[|h| - 1]];
            if TooEarly(h', i) then OrderedButUp(h', i) else OrderedButDown(h', i)
  {
    Filled(h, i);
    var h' := h[..|h| - 1][i := h[|h| - 1]];
    assert Fits(h, i);
    assert 2 * i + 1 < |h| ==> Fits(h, 2 * i + 1);
    assert 2 * i + 2 < |h| ==> Fits(h, 2 * i + 2);
  }

  lemma Filled(h: seq<ExpEntry>, i: nat)
    requires Ordered(h) && i < |h| - 1
    ensures var h' := h[..|h| - 1][i := h[|h| - 1]];
            Bridged(h', i)
            && (forall k :: 0 <= k < |h'| && k != i && k != 2 * i + 1 && k != 2 * i + 2 ==> Fits(h', k))
  {
    var h' := h[..|h| - 1][i := h[|h| - 1]];
    assert Fits(h, i);
    assert 2 * i + 1 < |h| ==> Fits(h, 2 * i + 1);
    assert 2 * i + 2 < |h| ==> Fits(h, 2 * i + 2);
    forall k | 0 <= k < |h'| && k != i && k != 2 * i + 1 && k != 2 * i + 2 ensures Fits(h', k) {
      assert Fits(h, k);
    }
  }

  /** What a run of pops returns, by the contract of a single pop. */
  ghost predicate Pops(m: multiset<ExpEntry>, out: seq<ExpEntry>)
    decreases |out|
  {
    out == [] || (out[0] in m && (forall e :: e in m ==> out[0].expire <= e.expire)
                  && Pops(m - multiset{out[0]}, out[1..]))
  }

  /** Repeated pops come out in order of expiry, and nothing comes out twice or from nowhere. */
  lemma {:induction false} PopsAreSorted(m: multiset<ExpEntry>, out: seq<ExpEntry>)
    requires Pops(m, out)
    ensures forall i, j :: 0 <= i < j < |out| ==> out[i].expire <= out[j].expire
    ensures multiset(out) <= m
    decreases |out|
  {
    if out != [] {
      PopsAreSorted(m - multiset{out[0]}, out[1..]);
      assert out == [out[0]] + out[1..];
      forall j | 0 < j < |out| ensures out[0].expire <= out[j].expire {
        assert out[j] == out[1..][j - 1];
        assert out[j] in multiset(out[1..]);
        assert out[j] in m;
      }
    }
  }

  lemma {:induction false} PopsMore(m: multiset<ExpEntry>, out: seq<ExpEntry>, e: ExpEntry)
    requires Pops(m, out) && e in m - multiset(out) && forall f :: f in m - multiset(out) ==> e.expire <= f.expire
    ensures Pops(m, out + [e])
    decreases |out|
  {
    if out == [] {
      assert Pops(m - multiset{e}, ([] + [e])[1..]);
    } else {
      assert out == [out[0]] + out[1..] && (out + [e])[1..] == out[1..] + [e];
      assert m - multiset{out[0]} - multiset(out[1..]) == m - multiset(out);
      PopsMore(m - multiset{out[0]}, out[1..], e);
    }
  }

  /** Popped until it is empty, as the timer callback does while deadlines have come, the heap gives back every entry it
      held, in order of expiry. */
  method Drain(h: ExpHeap) returns (out: seq<ExpEntry>)
    requires h.Valid()
    modifies h, h.entries
    ensures h.Valid() && h.Contents() == multiset{}
    ensures multiset(out) == old(h.Contents())
    ensures forall i, j :: 0 <= i < j < |out| ==> out[i].expire <= out[j].expire
  {
    hide Ordered, Bag, Drained;
    ghost var all := h.Contents();
    out := [];
    DrainedNone(all);
    var top := h.Peek();
    while top.Some?
      invariant h.Valid() && h.entries == old(h.entries)
      invariant Drained(all, out, h.Contents())
      invariant top.None? <==> h.Contents() == multiset{}
      decreases |h.Contents()|
    {
      ghost var left := h.Contents();
      var e := h.Pop();
      DrainedMore(all, out, left, e);
      out := out + [e];
      top := h.Peek();
    }
    DrainedAll(all, out);
  }

  /** What has been popped so far, and what is left. */
  ghost predicate Drained(all: multiset<ExpEntry>, out: seq<ExpEntry>, left: multiset<ExpEntry>)
  {
    left == all - multiset(out) && multiset(out) <= all && Pops(all, out)
  }

  lemma DrainedNone(all: multiset<ExpEntry>)
    ensures Drained(all, [], all)
  {
  }

  lemma DrainedMore(all: multiset<ExpEntry>, out: seq<ExpEntry>, left: multiset<ExpEntry>, e: ExpEntry)
    requires Drained(all, out, left) && e in left && forall f :: f in left ==> e.expire <= f.expire
    ensures Drained(all, out + [e], left - multiset{e})
  {
    PopsMore(all, out, e);
  }

  lemma DrainedAll(all: multiset<ExpEntry>, out: seq<ExpEntry>)
    requires Drained(all, out, multiset{})
    ensures multiset(out) == all
    ensures forall i, j :: 0 <= i < j < |out| ==> out[i].expire <= out[j].expire
  {
    assert multiset(out) == all;
    PopsAreSorted(all, out);
  }
}
