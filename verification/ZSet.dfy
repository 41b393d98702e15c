/** zset.c: a sorted set keeps each member twice, by name in a dictionary and by score in an AVL tree. */
module ZSet {
  import opened Sds
  import opened DictSpec
  import opened Dict
  import opened AvlTree
  import opened Avl
  import DictTable

  /** The dictionary and the tree hold the same (member, score) pairs, and no member ever expires. */
  ghost predicate Agree(m: Store<Score>, s: set<AvlTree.Member>)
  {
    && (forall k :: k in m ==> m[k].expire == 0)
    && (forall x: AvlTree.Member :: x in s <==> x.key in m && m[x.key].val == x.score)
  }

  ghost function Scores(m: Store<Score>): map<Bytes, Score> { map k | k in m :: m[k].val }

  lemma AgreeAdd(m: Store<Score>, s: set<AvlTree.Member>, key: Bytes, score: Score)
    requires Agree(m, s)
    ensures var m' := m[key := Item(score, 0)];
            && Scores(m') == Scores(m)[key := score]
            && (key !in m ==> Agree(m', s + {Member(score, key)}))
            && (key in m && m[key].val != score ==> Agree(m', s - {Member(m[key].val, key)} + {Member(score, key)}))
            && (key in m && m[key].val == score ==> m' == m)
  {
  }

  lemma AgreeNeverExpires(m: Store<Score>, s: set<AvlTree.Member>, now: int)
    requires Agree(m, s)
    ensures forall k :: k in m ==> m[k].expire == 0
    ensures forall k :: Purge(m, k, now) == m && Get(m, k, now) == if k in m then Some(m[k].val) else None
    ensures forall k :: k !in m ==> Scores(m) - {k} == Scores(m)
  {
  }

  lemma AgreeRemove(m: Store<Score>, s: set<AvlTree.Member>, key: Bytes)
    requires Agree(m, s) && key in m
    ensures Member(m[key].val, key) in s
    ensures Agree(m - {key}, s - {Member(m[key].val, key)}) && Scores(m - {key}) == Scores(m) - {key}
  {
  }

  lemma AgreeCard(m: Store<Score>, s: set<AvlTree.Member>)
    requires Agree(m, s)
    ensures |s| == |m| == |Scores(m)|
    decreases m
  {
    assert Scores(m).Keys == m.Keys;
    if m == map[] {
      assert s == {};
    } else {
      var k :| k in m;
      SizeWithout(m, k);
      AgreeRemove(m, s, k);
      assert (m - {k}).Keys < m.Keys;
      AgreeCard(m - {k}, s - {Member(m[k].val, k)});
    }
  }

  // ----- ranges and ranks of a sequence -----

  /** The members whose index, counted from `from`, lies in start..end. */
  ghost function Window(s: seq<AvlTree.Member>, from: int, start: int, end: int): seq<AvlTree.Member>
  {
    if s == [] then []
    else (if start <= from <= end then [s[0]] else []) + Window(s[1..], from + 1, start, end)
  }

  lemma WindowStep(s: seq<AvlTree.Member>, from: int, start: int, end: int)
    requires s != []
    ensures Window(s, from, start, end)
         == (if start <= from <= end then [s[0]] else []) + Window(s[1..], from + 1, start, end)
  {
  }

  lemma {:induction false} WindowConcat(s: seq<AvlTree.Member>, t: seq<AvlTree.Member>, from: int, start: int, end: int)
    ensures Window(s + t, from, start, end) == Window(s, from, start, end) + Window(t, from + |s|, start, end)
  {
    if s == [] {
      assert s + t == t;
    } else {
      hide Window;
      assert (s + t)[1..] == s[1..] + t && (s + t)[0] == s[0];
      WindowStep(s + t, from, start, end);
      WindowStep(s, from, start, end);
      WindowConcat(s[1..], t, from + 1, start, end);
    }
  }

  ghost function Cut(s: seq<AvlTree.Member>, lo: nat, hi: int): seq<AvlTree.Member>
  {
    if lo >= |s| || hi < lo then [] else s[lo..if hi >= |s| then |s| else hi + 1]
  }

  /** A slice with Redis index rules: negative indices count from the end, and both ends are included. */
  ghost function Slice(s: seq<AvlTree.Member>, start: int, end: int): seq<AvlTree.Member>
  {
    var x := if start < 0 then |s| + start else start;
    Cut(s, if x < 0 then 0 else x, if end < 0 then |s| + end else end)
  }

  lemma {:induction false} WindowIsSlice(s: seq<AvlTree.Member>, from: int, start: int, end: int)
    requires start <= end
    ensures var lo := if start <= from then 0 else start - from;
            var hi := end + 1 - from;
            Window(s, from, start, end) ==
            if lo >= |s| || hi <= lo then [] else s[lo..if hi >= |s| then |s| else hi]
  {
    if s != [] {
      WindowStep(s, from, start, end);
      hide Window;
      WindowIsSlice(s[1..], from + 1, start, end);
      var hi := end + 1 - from;
      var hi' := if hi >= |s| then |s| else hi;
      if start <= from <= end {
        TakeTail(s, hi');
      } else if start > from && start - from < hi' {
        SliceTail(s, start - from, hi');
      }
    }
  }

  lemma WindowIsCut(s: seq<AvlTree.Member>, lo: nat, hi: int)
    requires lo <= hi
    ensures Window(s, 0, lo, hi) == Cut(s, lo, hi)
  {
    hide Window;
    WindowIsSlice(s, 0, lo, hi);
  }

  /** The window between the ends as zset_range puts them, each counted from the start. */
  lemma SliceIsWindow(s: seq<AvlTree.Member>, start: int, end: int)
    ensures var x := if start < 0 then |s| + start else start;
            var lo, hi := if x < 0 then 0 else x, if end < 0 then |s| + end else end;
            Slice(s, start, end) == if lo >= |s| || hi < lo then [] else Window(s, 0, lo, hi)
  {
    hide Window;
    var x := if start < 0 then |s| + start else start;
    var lo, hi := if x < 0 then 0 else x, if end < 0 then |s| + end else end;
    if lo < |s| && lo <= hi {
      WindowIsCut(s, lo, hi);
      hide Cut;
      assert Slice(s, start, end) == Cut(s, lo, hi);
    }
  }

  lemma TakeTail<T>(s: seq<T>, hi: nat)
    requires 0 < hi <= |s|
    ensures s[0..hi] == [s[0]] + s[1..][0..hi - 1]
  {
  }

  lemma SliceTail<T>(s: seq<T>, lo: nat, hi: nat)
    requires 0 < lo <= hi <= |s|
    ensures s[lo..hi] == s[1..][lo - 1..hi - 1]
  {
    var x, y := s[lo..hi], s[1..][lo - 1..hi - 1];
    forall i | 0 <= i < |x| ensures x[i] == y[i] {
      assert y[i] == s[1..][lo - 1 + i];
    }
    assert x == y;
  }

  ghost function FirstIndex(s: seq<AvlTree.Member>, key: Bytes): int
  {
    if s == [] then -1
    else if s[0].key == key then 0
    else
      var i := FirstIndex(s[1..], key);
      if i < 0 then -1 else i + 1
  }

  lemma {:induction false} FirstIndexConcat(s: seq<AvlTree.Member>, t: seq<AvlTree.Member>, key: Bytes)
    ensures var i, j := FirstIndex(s, key), FirstIndex(t, key);
            FirstIndex(s + t, key) == if i >= 0 then i else if j >= 0 then |s| + j else -1
    ensures -1 <= FirstIndex(s, key) < |s|
  {
    if s == [] {
      assert s + t == t;
    } else {
      assert (s + t)[1..] == s[1..] + t;
      FirstIndexConcat(s[1..], t, key);
    }
  }

  lemma {:induction false} FirstIndexFinds(s: seq<AvlTree.Member>, key: Bytes)
    ensures var i := FirstIndex(s, key);
            if i >= 0 then i < |s| && s[i].key == key else forall x :: x in s ==> x.key != key
  {
    if s != [] {
      FirstIndexFinds(s[1..], key);
      assert s == [s[0]] + s[1..];
    }
  }

  ghost function Before(s: set<AvlTree.Member>, m: AvlTree.Member): set<AvlTree.Member>
  {
    set x | x in s && Less(x, m)
  }

  /** In a sorted sequence the index of a member is the number of members before it. */
  lemma IndexCountsBefore(s: seq<AvlTree.Member>, elems: set<AvlTree.Member>, i: nat)
    requires Sorted(s) && i < |s| && (forall x :: x in s <==> x in elems)
    ensures |Before(elems, s[i])| == i
  {
    TotalOrder();
    hide Less;
    var prefix := set x | x in s[..i];
    assert Before(elems, s[i]) == prefix by {
      forall x ensures x in Before(elems, s[i]) <==> x in prefix {
        if x in Before(elems, s[i]) {
          var j :| 0 <= j < |s| && s[j] == x;
          assert j < i;
          assert s[..i][j] == x;
        }
        if x in prefix {
          var j :| 0 <= j < |s[..i]| && s[..i][j] == x;
          assert s[j] == x;
        }
      }
    }
    DistinctCount(s[..i]);
  }

  lemma {:induction false} DistinctCount(s: seq<AvlTree.Member>)
    requires Sorted(s)
    ensures |set x | x in s| == |s|
  {
    if s != [] {
      TotalOrder();
      var n := |s| - 1;
      DistinctCount(s[..n]);
      assert s == s[..n] + [s[n]];
      assert (set x | x in s) == (set x | x in s[..n]) + {s[n]};
      assert s[n] !in s[..n];
    }
  }

  // ----- the members of a set of scores -----

  ghost function MembersOf(z: map<Bytes, Score>): set<AvlTree.Member> { set k | k in z :: Member(z[k], k) }

  lemma InMembers(z: map<Bytes, Score>)
    ensures forall x: AvlTree.Member :: x in MembersOf(z) <==> x.key in z && z[x.key] == x.score
  {
    forall x: AvlTree.Member | x.key in z && z[x.key] == x.score ensures x in MembersOf(z) {
      assert x == Member(z[x.key], x.key);
    }
  }

  lemma MembersMore(z: map<Bytes, Score>, k: Bytes)
    requires k in z
    ensures MembersOf(z) == MembersOf(z - {k}) + {Member(z[k], k)} && Member(z[k], k) !in MembersOf(z - {k})
    ensures |z| == |z - {k}| + 1
  {
    hide MembersOf;
    InMembers(z);
    InMembers(z - {k});
    assert (z - {k}).Keys == z.Keys - {k};
    assert |z| == |z.Keys| && |z - {k}| == |(z - {k}).Keys|;
  }

  ghost predicate ListsMembers(s: seq<AvlTree.Member>, z: map<Bytes, Score>)
  {
    Sorted(s) && forall x :: x in s <==> x in MembersOf(z)
  }

  /** By score, and by member where scores are equal. */
  ghost function SortedMembers(z: map<Bytes, Score>): (s: seq<AvlTree.Member>)
    ensures ListsMembers(s, z) && |s| == |z|
  {
    SortedExists(z);
    var s :| ListsMembers(s, z) && |s| == |z|;
    s
  }

  lemma {:induction false} SortedExists(z: map<Bytes, Score>)
    ensures exists s :: ListsMembers(s, z) && |s| == |z|
  {
    var t := TreeOf(z);
    InOrderIsSorted(t);
    MembersCount(z);
    TreeCount(t);
    assert ListsMembers(InOrder(t), z);
  }

  lemma {:induction false} TreeOf(z: map<Bytes, Score>) returns (t: Tree)
    ensures IsAvl(t) && Elems(t) == MembersOf(z)
  {
    if z == map[] {
      t := Nil;
    } else {
      hide Less, MembersOf;
      var k :| k in z;
      MembersMore(z, k);
      var t' := TreeOf(z - {k});
      t := AvlTree.Insert(t', Member(z[k], k));
      InsertKeepsAvl(t', Member(z[k], k));
    }
  }

  lemma {:induction false} MembersCount(z: map<Bytes, Score>)
    ensures |MembersOf(z)| == |z|
  {
    if z != map[] {
      hide MembersOf;
      var k :| k in z;
      MembersMore(z, k);
      MembersCount(z - {k});
    }
  }

  /** What the tree holds and lists, said of the scores in the dictionary. */
  lemma AgreeSorted(m: Store<Score>, t: Tree)
    requires IsAvl(t) && Agree(m, Elems(t))
    ensures Elems(t) == MembersOf(Scores(m)) && InOrder(t) == SortedMembers(Scores(m))
  {
    hide IsAvl, InOrder, Elems, MembersOf, Sorted;
    InMembers(Scores(m));
    assert forall x :: x in Elems(t) <==> x in MembersOf(Scores(m));
    InOrderLists(t);
    SortedIsUnique(InOrder(t), SortedMembers(Scores(m)));
  }

  lemma InOrderLists(t: Tree)
    requires IsAvl(t)
    ensures Sorted(InOrder(t)) && forall x :: x in InOrder(t) <==> x in Elems(t)
  {
    InOrderIsSorted(t);
  }

  // ----- callbacks -----

  class RangeCtx {
    var curIdx: int
    const start: int
    const end: int
    var emitted: seq<AvlTree.Member>

    constructor (start: int, end: int)
      ensures curIdx == 0 && this.start == start && this.end == end && emitted == []
    {
      curIdx, this.start, this.end, emitted := 0, start, end, [];
    }

    method RangeCb(node: AVLNode)
      modifies this
      ensures curIdx == old(curIdx) + 1
      ensures emitted == old(emitted) + Window([Member(node.score, node.key)], old(curIdx), start, end)
    {
      assert Window([], curIdx + 1, start, end) == [];
      if curIdx >= start && curIdx <= end {
        emitted := emitted + [Member(node.score, node.key)];
      }
      curIdx := curIdx + 1;
    }
  }

  class RankCtx {
    const target: Bytes
    var curIdx: int
    var foundRank: int

    constructor (target: Bytes)
      ensures this.target == target && curIdx == 0 && foundRank == -1
    {
      this.target, curIdx, foundRank := target, 0, -1;
    }

    method RankCb(node: AVLNode)
      requires foundRank >= -1
      modifies this
      ensures old(foundRank) >= 0 ==> foundRank == old(foundRank) && curIdx == old(curIdx)
      ensures old(foundRank) < 0 ==> curIdx == old(curIdx) + 1 && foundRank == if node.key == target then old(curIdx) else -1
    {
      if foundRank >= 0 { return; }
      CompareEqual(node.key, target);
      if Compare(node.key, target) == 0 {
        foundRank := curIdx;
      }
      curIdx := curIdx + 1;
    }
  }

  method TraverseRange(node: AVLNode?, ctx: RangeCtx)
    requires ValidOrNull(node)
    modifies ctx
    ensures ctx.curIdx == old(ctx.curIdx) + |InOrder(ModelOf(node))|
    ensures ctx.emitted == old(ctx.emitted) + Window(InOrder(ModelOf(node)), old(ctx.curIdx), ctx.start, ctx.end)
    decreases ReprOf(node)
  {
    hide AVLNode.Valid, Window;
    if node == null {
      WindowEmpty(ctx.curIdx, ctx.start, ctx.end);
      return;
    }
    node.Unfold();
    WindowOfNode(node.model, ctx.curIdx, ctx.start, ctx.end);
    TraverseRange(node.left, ctx);
    ctx.RangeCb(node);
    TraverseRange(node.right, ctx);
  }

  lemma WindowEmpty(from: int, start: int, end: int)
    ensures Window([], from, start, end) == []
  {
  }

  lemma WindowOfNode(t: Tree, from: int, start: int, end: int)
    requires t.Node?
    ensures var l := |InOrder(t.left)|;
            Window(InOrder(t), from, start, end) ==
            Window(InOrder(t.left), from, start, end) + Window([t.member], from + l, start, end)
            + Window(InOrder(t.right), from + l + 1, start, end)
  {
    hide Window;
    WindowConcat(InOrder(t.left) + [t.member], InOrder(t.right), from, start, end);
    WindowConcat(InOrder(t.left), [t.member], from, start, end);
  }

  method TraverseRank(node: AVLNode?, ctx: RankCtx)
    requires ValidOrNull(node) && ctx.foundRank >= -1 && ctx.curIdx >= 0
    modifies ctx
    ensures ctx.foundRank >= -1 && ctx.curIdx >= 0
    ensures old(ctx.foundRank) >= 0 ==> ctx.foundRank == old(ctx.foundRank)
    ensures var s := InOrder(ModelOf(node));
            old(ctx.foundRank) < 0 ==>
              if FirstIndex(s, ctx.target) >= 0 then ctx.foundRank == old(ctx.curIdx) + FirstIndex(s, ctx.target)
              else ctx.foundRank == -1 && ctx.curIdx == old(ctx.curIdx) + |s|
    decreases ReprOf(node)
  {
    if node == null { return; }
    node.Unfold();
    ghost var l, r := InOrder(ModelOf(node.left)), InOrder(ModelOf(node.right));
    ghost var m := [Member(node.score, node.key)];
    FirstIndexConcat(l + m, r, ctx.target);
    FirstIndexConcat(l, m, ctx.target);
    assert FirstIndex([], ctx.target) == -1;
    TraverseRank(node.left, ctx);
    ctx.RankCb(node);
    TraverseRank(node.right, ctx);
  }

  class ZSet {
    const dict: Dict<Score>
    const tree: AVLTree

    ghost function Repr(): set<object>
      reads this, dict, tree, tree.root
    {
      {this} + dict.Repr() + tree.Repr()
    }

    ghost predicate Valid()
      reads this, dict, dict.ht0.table, dict.ht1.table, tree, tree.root, ReprOf(tree.root)
    {
      && dict.Valid() && tree.Valid() && dict.Repr() !! tree.Repr()
      && Agree(dict.model, Elems(tree.Model()))
    }

    constructor ()
      ensures Valid() && fresh(Repr()) && Scores(dict.model) == map[]
    {
      dict := new Dict<Score>();
      tree := new AVLTree();
    }

    /** The score in the dictionary; no member is ever purged by the read. */
    method Find(member: Bytes, now: int) returns (v: Option<Score>)
      requires Valid()
      modifies dict, dict.ht0.table, dict.ht1.table
      ensures Valid() && dict.Repr() <= old(dict.Repr()) && dict.model == old(dict.model)
      ensures v == if member in dict.model then Some(dict.model[member].val) else None
    {
      hide DictTable.PutStep, DictTable.OtherStep, DictTable.Moved, DictTable.Inv, Dict.Valid, AVLTree.Valid, Agree,
          Elems;
      AgreeNeverExpires(dict.model, Elems(tree.Model()), now);
      v := dict.Get(member, now);
    }

    /** 1 for a new member, 0 for one whose score was set again. */
    method Add(member: Bytes, score: Score, now: int) returns (isNew: int)
      requires Valid()
      modifies Repr()
      ensures Valid() && fresh(Repr() - old(Repr()))
      ensures Scores(dict.model) == old(Scores(dict.model))[member := score]
      ensures isNew == if member in old(dict.model) then 0 else 1
    {
      hide DictTable.PutStep, DictTable.OtherStep, DictTable.Moved, DictTable.Inv, Dict.Valid, AVLTree.Valid, Agree,
          Scores, Elems;
      AgreeAdd(dict.model, Elems(tree.Model()), member, score);
      var v := Find(member, now);
      if v.Some? {
        var oldScore := v.value;
        if oldScore != score {
          var _ := tree.Delete(member, oldScore);
          AddBoth(member, score, now);
        }
        isNew := 0;
      } else {
        AddBoth(member, score, now);
        isNew := 1;
      }
    }

    /** The tree insertion and the dictionary update that every change of a score ends with. */
    method AddBoth(member: Bytes, score: Score, now: int)
      requires dict.Valid() && tree.Valid() && dict.Repr() !! tree.Repr()
      requires Agree(dict.model[member := Item(score, 0)], Elems(tree.Model()) + {Member(score, member)})
      modifies Repr()
      ensures Valid() && fresh(Repr() - old(Repr()))
      ensures dict.model == old(dict.model)[member := Item(score, 0)]
    {
      hide DictTable.PutStep, DictTable.OtherStep, DictTable.Moved, DictTable.Inv, Dict.Valid, AVLTree.Valid, Agree,
          Elems;
      var _ := tree.Insert(member, score);
      dict.Put(member, score, 0, now);
    }

    method Rem(member: Bytes, now: int) returns (removed: int)
      requires Valid()
      modifies Repr()
      ensures Valid() && fresh(Repr() - old(Repr()))
      ensures Scores(dict.model) == old(Scores(dict.model)) - {member}
      ensures removed == if member in old(dict.model) then 1 else 0
    {
      hide DictTable.PutStep, DictTable.OtherStep, DictTable.Moved, DictTable.Inv, Dict.Valid, AVLTree.Valid, Agree,
          Scores, Elems;
      var v := Find(member, now);
      if v.None? {
        AgreeNeverExpires(dict.model, Elems(tree.Model()), now);
        return 0;
      }
      AgreeRemove(dict.model, Elems(tree.Model()), member);
      RemoveBoth(member, v.value);
      return 1;
    }

    method RemoveBoth(member: Bytes, score: Score)
      requires dict.Valid() && tree.Valid() && dict.Repr() !! tree.Repr()
      requires Agree(dict.model - {member}, Elems(tree.Model()) - {Member(score, member)})
      modifies Repr()
      ensures Valid() && fresh(Repr() - old(Repr()))
      ensures dict.model == old(dict.model) - {member}
    {
      hide DictTable.PutStep, DictTable.OtherStep, DictTable.Moved, DictTable.Inv, Dict.Valid, AVLTree.Valid, Agree,
          Elems;
      var _ := tree.Delete(member, score);
      dict.Delete(member);
    }

    method GetScore(member: Bytes, now: int) returns (r: Option<Score>)
      requires Valid()
      modifies dict, dict.ht0.table, dict.ht1.table
      ensures Valid() && dict.Repr() <= old(dict.Repr()) && dict.model == old(dict.model)
      ensures r == if member in Scores(dict.model) then Some(Scores(dict.model)[member]) else None
    {
      r := Find(member, now);
    }

    method Card() returns (n: int)
      requires Valid()
      ensures n == |Scores(dict.model)|
    {
      hide DictTable.PutStep, DictTable.OtherStep, DictTable.Moved, DictTable.Inv, Dict.Valid, Agree, IsAvl, Elems;
      TreeCount(tree.Model());
      AgreeCard(dict.model, Elems(tree.Model()));
      n := tree.count;
    }

    lemma Listed()
      requires Valid()
      ensures InOrder(tree.Model()) == SortedMembers(Scores(dict.model))
    {
      hide Dict.Valid, Agree, IsAvl, InOrder, Elems, SortedMembers, Scores;
      AgreeSorted(dict.model, tree.Model());
    }

    /** Emits the slice, by the callback, in order of (score, member). */
    method Range(start: int, end: int) returns (emitted: seq<AvlTree.Member>)
      requires Valid()
      ensures emitted == Slice(InOrder(tree.Model()), start, end)
      ensures emitted == Slice(SortedMembers(Scores(dict.model)), start, end)
    {
      hide DictTable.PutStep, DictTable.OtherStep, DictTable.Moved, DictTable.Inv, Dict.Valid, Agree, IsAvl, InOrder,
          AVLNode.Valid, Scores, Elems, Slice, Window;
      AgreeSorted(dict.model, tree.Model());
      SliceIsWindow(InOrder(tree.Model()), start, end);
      TreeCount(tree.Model());
      var len := tree.count;
      var s, e := start, end;
      if s < 0 { s := len + s; }
      if e < 0 { e := len + e; }
      if s < 0 { s := 0; }
      if s >= len { return []; }
      if e < s { return []; }
      var ctx := new RangeCtx(s, e);
      TraverseRange(tree.root, ctx);
      emitted := ctx.emitted;
    }

    /** The number of members before this one, or -1. */
    method Rank(member: Bytes, now: int) returns (rank: int)
      requires Valid()
      modifies dict, dict.ht0.table, dict.ht1.table
      ensures Valid() && dict.Repr() <= old(dict.Repr()) && dict.model == old(dict.model)
      ensures member !in dict.model ==> rank == -1
      ensures member in dict.model ==> rank == |Before(Elems(tree.Model()), Member(dict.model[member].val, member))|
      ensures Elems(tree.Model()) == MembersOf(Scores(dict.model))
    {
      hide DictTable.PutStep, DictTable.OtherStep, DictTable.Moved, DictTable.Inv, Dict.Valid, Agree, IsAvl, InOrder,
          AVLNode.Valid, FirstIndex, Before, Scores, Elems;
      AgreeSorted(dict.model, tree.Model());
      var v := Find(member, now);
      if v.None? { return -1; }
      RankFound(dict.model, tree.Model(), member);
      var ctx := new RankCtx(member);
      TraverseRank(tree.root, ctx);
      rank := ctx.foundRank;
    }
  }

  lemma TreeCount(t: Tree)
    requires IsAvl(t)
    ensures |InOrder(t)| == Size(t) == |Elems(t)|
  {
    InOrderIsSorted(t);
    SizeIsCardinality(t);
  }

  lemma {:induction false} RankFound(m: Store<Score>, t: Tree, member: Bytes)
    requires IsAvl(t) && Agree(m, Elems(t)) && member in m
    ensures var i := FirstIndex(InOrder(t), member);
            i >= 0 && i == |Before(Elems(t), Member(m[member].val, member))|
  {
    InOrderIsSorted(t);
    FirstIndexFinds(InOrder(t), member);
    var i := FirstIndex(InOrder(t), member);
    assert Member(m[member].val, member) in Elems(t);
    assert i >= 0;
    assert InOrder(t)[i] in Elems(t);
    assert InOrder(t)[i] == Member(m[member].val, member);
    IndexCountsBefore(InOrder(t), Elems(t), i);
  }
}
