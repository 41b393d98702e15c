/** The AVL tree as a value: what avl.c computes on its nodes, and why it stays ordered and balanced. */
module AvlTree {
  import opened Sds

  /** Scores are ordered like the doubles of the program, NaN excluded. */
  type Score = int

  datatype Member = Member(score: Score, key: Bytes)

  datatype Tree = Nil | Node(member: Member, height: int, left: Tree, right: Tree)

  // ----- the order -----

  /** By score, then by key; the sign alone matters. */
  function CompareNodes(a: Member, b: Member): (c: int)
  {
    if a.score < b.score then -1
    else if a.score > b.score then 1
    else Compare(a.key, b.key)
  }

  ghost predicate Less(a: Member, b: Member) { CompareNodes(a, b) < 0 }

  /** The comparison is a strict total order. */
  lemma TotalOrder()
    ensures forall a, b :: CompareNodes(a, b) == 0 <==> a == b
    ensures forall a, b :: CompareNodes(a, b) > 0 <==> Less(b, a)
    ensures forall a, b, c :: Less(a, b) && Less(b, c) ==> Less(a, c)
  {
    forall a: Member, b: Member
      ensures CompareNodes(a, b) == 0 <==> a == b
      ensures CompareNodes(a, b) > 0 <==> Less(b, a)
    {
      CompareEqual(a.key, b.key);
      CompareAntisymmetric(b.key, a.key);
    }
    forall a: Member, b: Member, c: Member | Less(a, b) && Less(b, c) ensures Less(a, c) {
      if a.score == b.score == c.score {
        CompareTransitive(a.key, b.key, c.key);
      }
    }
  }

  // ----- shape -----

  function Height(t: Tree): int { if t.Nil? then 0 else t.height }

  function Max(a: int, b: int): int { if a > b then a else b }

  function Balance(t: Tree): int { if t.Nil? then 0 else Height(t.left) - Height(t.right) }

  /** A node with its height recomputed from its children. */
  function Join(m: Member, l: Tree, r: Tree): Tree { Node(m, 1 + Max(Height(l), Height(r)), l, r) }

  /** A rotation is only ever asked of a node with the child it lifts: see CanRotate. */
  function RotateRight(y: Tree): Tree
  {
    if y.Node? && y.left.Node? then
      var x := y.left;
      Join(x.member, x.left, Join(y.member, x.right, y.right))
    else y
  }

  function RotateLeft(x: Tree): Tree
  {
    if x.Node? && x.right.Node? then
      var y := x.right;
      Join(y.member, Join(x.member, x.left, y.left), y.right)
    else x
  }

  ghost function Elems(t: Tree): set<Member>
  {
    if t.Nil? then {} else Elems(t.left) + {t.member} + Elems(t.right)
  }

  ghost predicate Ordered(t: Tree)
  {
    t.Node? ==>
      && Ordered(t.left) && Ordered(t.right)
      && (forall x :: x in Elems(t.left) ==> Less(x, t.member))
      && (forall x :: x in Elems(t.right) ==> Less(t.member, x))
  }

  /** Stored heights are exact. */
  ghost predicate Exact(t: Tree)
  {
    t.Node? ==> Exact(t.left) && Exact(t.right) && t.height == 1 + Max(Height(t.left), Height(t.right))
  }

  ghost predicate Balanced(t: Tree)
  {
    t.Node? ==> Balanced(t.left) && Balanced(t.right) && -1 <= Balance(t) <= 1
  }

  ghost predicate IsAvl(t: Tree) { Ordered(t) && Exact(t) && Balanced(t) }

  lemma Heights(t: Tree)
    requires Exact(t)
    ensures Height(t) >= 0 && (Height(t) == 0 <==> t.Nil?)
  {
  }

  /** The facts about two levels of children that a rotation needs. */
  lemma GoodChild(t: Tree)
    requires Exact(t) && Balanced(t) && t.Node?
    ensures Exact(t.left) && Balanced(t.left) && Exact(t.right) && Balanced(t.right)
    ensures t.height == 1 + Max(Height(t.left), Height(t.right)) && -1 <= Balance(t) <= 1
    ensures t.left.Node? ==> Exact(t.left.left) && Balanced(t.left.left) && Exact(t.left.right) && Balanced(t.left.right)
    ensures t.left.Node? ==> t.left.height == 1 + Max(Height(t.left.left), Height(t.left.right)) && -1 <= Balance(t.left) <= 1
    ensures t.right.Node? ==> Exact(t.right.left) && Balanced(t.right.left) && Exact(t.right.right) && Balanced(t.right.right)
    ensures t.right.Node? ==> t.right.height == 1 + Max(Height(t.right.left), Height(t.right.right)) && -1 <= Balance(t.right) <= 1
    ensures Height(t.left) >= 0 && Height(t.right) >= 0
    ensures (Height(t.left) == 0 <==> t.left.Nil?) && (Height(t.right) == 0 <==> t.right.Nil?)
  {
    Heights(t.left);
    Heights(t.right);
  }

  ghost function Size(t: Tree): nat { if t.Nil? then 0 else Size(t.left) + 1 + Size(t.right) }

  lemma SizeIsCardinality(t: Tree)
    requires Ordered(t)
    ensures |Elems(t)| == Size(t)
  {
    if t.Node? {
      TotalOrder();
      SizeIsCardinality(t.left);
      SizeIsCardinality(t.right);
      assert Elems(t.left) !! Elems(t.right) && t.member !in Elems(t.left) && t.member !in Elems(t.right);
    }
  }

  lemma {:induction false} RotationsKeepOrder(t: Tree)
    requires Ordered(t)
    ensures Ordered(RotateRight(t)) && Elems(RotateRight(t)) == Elems(t)
    ensures Ordered(RotateLeft(t)) && Elems(RotateLeft(t)) == Elems(t)
  {
    TotalOrder();
    hide Less;
    if t.Node? && t.left.Node? {
      var x := t.left;
      var low := Join(t.member, x.right, t.right);
      assert x.member in Elems(t.left) && Elems(low) == Elems(x.right) + {t.member} + Elems(t.right);
      forall z | z in Elems(low) ensures Less(x.member, z) {
      }
      assert Ordered(low);
      assert Elems(RotateRight(t)) == Elems(t);
    }
    if t.Node? && t.right.Node? {
      var y := t.right;
      var low := Join(t.member, t.left, y.left);
      assert y.member in Elems(t.right) && Elems(low) == Elems(t.left) + {t.member} + Elems(y.left);
      forall z | z in Elems(low) ensures Less(z, y.member) {
      }
      assert Ordered(low);
      assert Elems(RotateLeft(t)) == Elems(t);
    }
  }

  lemma {:induction false} DoubleRotationsKeepOrder(t: Tree)
    requires Ordered(t) && t.Node?
    ensures var d := RotateRight(t.(left := RotateLeft(t.left))); Ordered(d) && Elems(d) == Elems(t)
    ensures var d := RotateLeft(t.(right := RotateRight(t.right))); Ordered(d) && Elems(d) == Elems(t)
  {
    hide RotateRight, RotateLeft, Less;
    RotationsKeepOrder(t.left);
    RotationsKeepOrder(t.right);
    RotationsKeepOrder(t.(left := RotateLeft(t.left)));
    RotationsKeepOrder(t.(right := RotateRight(t.right)));
  }

  /** Exact stored heights and balances within one, below the root. */
  ghost predicate GoodBelow(t: Tree)
  {
    t.Node? && Exact(t) && Balanced(t.left) && Balanced(t.right)
  }

  ghost predicate Fixed(t': Tree, level: int)
  {
    t'.Node? && Exact(t') && Balanced(t') && Height(t') == level
  }

  lemma SingleRight(t: Tree)
    requires GoodBelow(t) && Balance(t) == 2 && Balance(t.left) >= 0
    ensures Fixed(RotateRight(t), t.height - if Balance(t.left) == 0 then 0 else 1)
  {
    Heights(t.left);
    Heights(t.right);
    GoodChild(t.left);
  }

  lemma SingleLeft(t: Tree)
    requires GoodBelow(t) && Balance(t) == -2 && Balance(t.right) <= 0
    ensures Fixed(RotateLeft(t), t.height - if Balance(t.right) == 0 then 0 else 1)
  {
    Heights(t.left);
    Heights(t.right);
    GoodChild(t.right);
  }

  lemma DoubleRight(t: Tree)
    requires GoodBelow(t) && Balance(t) == 2 && Balance(t.left) < 0
    ensures Fixed(RotateRight(t.(left := RotateLeft(t.left))), t.height - 1)
  {
    Heights(t.left);
    Heights(t.right);
    GoodChild(t.left);
  }

  lemma DoubleLeft(t: Tree)
    requires GoodBelow(t) && Balance(t) == -2 && Balance(t.right) > 0
    ensures Fixed(RotateLeft(t.(right := RotateRight(t.right))), t.height - 1)
  {
    Heights(t.left);
    Heights(t.right);
    GoodChild(t.right);
  }

  // ----- insertion -----

  /** After an insertion the rotation is chosen by where the new member went. */
  function RebalanceInsert(t: Tree, m: Member): Tree
  {
    if t.Nil? then t
    else if Balance(t) > 1 && t.left.Node? && CompareNodes(m, t.left.member) < 0 then RotateRight(t)
    else if Balance(t) < -1 && t.right.Node? && CompareNodes(m, t.right.member) > 0 then RotateLeft(t)
    else if Balance(t) > 1 && t.left.Node? && CompareNodes(m, t.left.member) > 0 then RotateRight(t.(left := RotateLeft(t.left)))
    else if Balance(t) < -1 && t.right.Node? && CompareNodes(m, t.right.member) < 0 then RotateLeft(t.(right := RotateRight(t.right)))
    else t
  }

  function Insert(t: Tree, m: Member): Tree
  {
    match t
    case Nil => Node(m, 1, Nil, Nil)
    case Node(r, _, left, right) =>
      if CompareNodes(m, r) < 0 then RebalanceInsert(Join(r, Insert(left, m), right), m)
      else if CompareNodes(m, r) > 0 then RebalanceInsert(Join(r, left, Insert(right, m)), m)
      else t
  }

  /** The new tree, with what the levels above need: how far the height grew, and that a subtree
      which grew leans to the side of the new member. */
  ghost predicate Inserted(t: Tree, m: Member, t': Tree)
  {
    && t'.Node? && IsAvl(t') && Elems(t') == Elems(t) + {m}
    && Height(t) <= Height(t') <= Height(t) + 1
    && (Height(t') > Height(t) && t.Node? ==> Leans(t', m))
    && (m in Elems(t) ==> t' == t)
  }

  lemma {:induction false} InsertKeepsAvl(t: Tree, m: Member)
    requires IsAvl(t)
    ensures Inserted(t, m, Insert(t, m))
  {
    TotalOrder();
    if t.Node? && m != t.member {
      if Less(m, t.member) {
        InsertKeepsAvl(t.left, m);
        RebalancedLeft(t, m, Insert(t.left, m));
      } else {
        InsertKeepsAvl(t.right, m);
        RebalancedRight(t, m, Insert(t.right, m));
      }
    }
  }

  lemma RebalanceInsertKeepsOrder(t: Tree, m: Member)
    requires Ordered(t)
    ensures Ordered(RebalanceInsert(t, m)) && Elems(RebalanceInsert(t, m)) == Elems(t)
  {
    hide CompareNodes, RotateRight, RotateLeft, Ordered, Elems;
    RotationsKeepOrder(t);
    if t.Node? { DoubleRotationsKeepOrder(t); }
  }

  /** The member went into the taller side of a node that is not its own. */
  ghost predicate Leans(t: Tree, m: Member)
  {
    t.Node? && CompareNodes(m, t.member) != 0 && Balance(t) == if CompareNodes(m, t.member) < 0 then 1 else -1
  }

  lemma RebalanceInsertBalances(t: Tree, m: Member)
    requires AfterInsert(t, m)
    ensures var t' := RebalanceInsert(t, m);
            t'.Node? && Exact(t') && Balanced(t')
            && if -1 <= Balance(t) <= 1 then t' == t else Height(t') == Height(t) - 1
  {
    hide CompareNodes, RotateRight, RotateLeft;
    Heights(t.left);
    Heights(t.right);
    if t.left.Node? { GoodChild(t.left); }
    if t.right.Node? { GoodChild(t.right); }
    if Balance(t) == 2 {
      if Balance(t.left) >= 0 { SingleRight(t); } else { DoubleRight(t); }
    } else if Balance(t) == -2 {
      if Balance(t.right) <= 0 { SingleLeft(t); } else { DoubleLeft(t); }
    }
  }

  /** What the rotation after an insertion finds: an imbalance of two at most, leaning to the new member. */
  ghost predicate AfterInsert(j: Tree, m: Member)
  {
    && GoodBelow(j) && -2 <= Balance(j) <= 2
    && (Balance(j) == 2 ==> Leans(j.left, m))
    && (Balance(j) == -2 ==> Leans(j.right, m))
  }

  /** The children a rotation after an insertion dereferences are there. */
  lemma RotationsAreSafe(j: Tree, m: Member)
    requires AfterInsert(j, m)
    ensures Balance(j) > 1 ==> j.left.Node? && (CompareNodes(m, j.left.member) > 0 ==> j.left.right.Node?)
    ensures Balance(j) < -1 ==> j.right.Node? && (CompareNodes(m, j.right.member) < 0 ==> j.right.left.Node?)
  {
    hide CompareNodes;
    Heights(j.left);
    Heights(j.right);
    if j.left.Node? { GoodChild(j.left); }
    if j.right.Node? { GoodChild(j.right); }
  }

  lemma {:induction false} JoinedLeft(t: Tree, m: Member, l: Tree)
    requires IsAvl(t) && t.Node? && Less(m, t.member) && Inserted(t.left, m, l)
    ensures var j := Join(t.member, l, t.right);
            AfterInsert(j, m) && Ordered(j) && Elems(j) == Elems(t) + {m} && (m in Elems(t) ==> j == t)
            && (Height(j) > Height(t) && -1 <= Balance(j) <= 1 ==> Leans(j, m))
            && Height(t) <= Height(j) <= Height(t) + 1 && (Balance(j) > 1 || Balance(j) < -1 ==> Height(j) == Height(t) + 1)
  {
    var j := Join(t.member, l, t.right);
    JoinedLeftOrder(t, m, l);
    TotalOrder();
    hide Less, CompareNodes, Ordered, Elems;
    Heights(t.left);
    Heights(t.right);
  }

  lemma JoinedLeftOrder(t: Tree, m: Member, l: Tree)
    requires IsAvl(t) && t.Node? && Less(m, t.member) && Inserted(t.left, m, l)
    ensures var j := Join(t.member, l, t.right); Ordered(j) && Elems(j) == Elems(t) + {m}
    ensures m in Elems(t) ==> m in Elems(t.left)
  {
    TotalOrder();
    hide Less, CompareNodes;
  }

  lemma RebalancedLeft(t: Tree, m: Member, l: Tree)
    requires IsAvl(t) && t.Node? && Less(m, t.member) && Inserted(t.left, m, l)
    ensures AfterInsert(Join(t.member, l, t.right), m)
    ensures Inserted(t, m, RebalanceInsert(Join(t.member, l, t.right), m))
  {
    hide RebalanceInsert, Less, CompareNodes, Ordered, Elems;
    var j := Join(t.member, l, t.right);
    JoinedLeft(t, m, l);
    RebalanceInsertKeepsOrder(j, m);
    RebalanceInsertBalances(j, m);
  }

  lemma {:induction false} JoinedRight(t: Tree, m: Member, r: Tree)
    requires IsAvl(t) && t.Node? && Less(t.member, m) && Inserted(t.right, m, r)
    ensures var j := Join(t.member, t.left, r);
            AfterInsert(j, m) && Ordered(j) && Elems(j) == Elems(t) + {m} && (m in Elems(t) ==> j == t)
            && (Height(j) > Height(t) && -1 <= Balance(j) <= 1 ==> Leans(j, m))
            && Height(t) <= Height(j) <= Height(t) + 1 && (Balance(j) > 1 || Balance(j) < -1 ==> Height(j) == Height(t) + 1)
  {
    var j := Join(t.member, t.left, r);
    JoinedRightOrder(t, m, r);
    TotalOrder();
    hide Less, CompareNodes, Ordered, Elems;
    Heights(t.left);
    Heights(t.right);
  }

  lemma JoinedRightOrder(t: Tree, m: Member, r: Tree)
    requires IsAvl(t) && t.Node? && Less(t.member, m) && Inserted(t.right, m, r)
    ensures var j := Join(t.member, t.left, r); Ordered(j) && Elems(j) == Elems(t) + {m}
    ensures m in Elems(t) ==> m in Elems(t.right)
  {
    TotalOrder();
    hide Less, CompareNodes;
  }

  lemma RebalancedRight(t: Tree, m: Member, r: Tree)
    requires IsAvl(t) && t.Node? && Less(t.member, m) && Inserted(t.right, m, r)
    ensures AfterInsert(Join(t.member, t.left, r), m)
    ensures Inserted(t, m, RebalanceInsert(Join(t.member, t.left, r), m))
  {
    hide RebalanceInsert, Less, CompareNodes, Ordered, Elems;
    var j := Join(t.member, t.left, r);
    JoinedRight(t, m, r);
    RebalanceInsertKeepsOrder(j, m);
    RebalanceInsertBalances(j, m);
  }

  /** Which side of the root a member can be on. */
  lemma {:induction false} Side(t: Tree, m: Member)
    requires IsAvl(t) && t.Node?
    ensures IsAvl(t.left) && IsAvl(t.right)
    ensures CompareNodes(m, t.member) < 0 ==> Less(m, t.member) && (m in Elems(t) <==> m in Elems(t.left))
    ensures CompareNodes(m, t.member) > 0 ==> Less(t.member, m) && (m in Elems(t) <==> m in Elems(t.right))
    ensures CompareNodes(m, t.member) == 0 ==> m == t.member && m in Elems(t)
  {
    TotalOrder();
  }

  /** One level of an insertion. */
  lemma InsertLevel(t: Tree, m: Member)
    requires IsAvl(t) && t.Node?
    ensures var c := CompareNodes(m, t.member);
            if c < 0 then AfterInsert(Join(t.member, Insert(t.left, m), t.right), m)
            else c > 0 ==> AfterInsert(Join(t.member, t.left, Insert(t.right, m)), m)
  {
    hide Less, CompareNodes, Inserted, IsAvl, Elems, AfterInsert, RebalanceInsert, Insert;
    Side(t, m);
    if CompareNodes(m, t.member) < 0 {
      InsertKeepsAvl(t.left, m);
      RebalancedLeft(t, m, Insert(t.left, m));
    } else if CompareNodes(m, t.member) > 0 {
      InsertKeepsAvl(t.right, m);
      RebalancedRight(t, m, Insert(t.right, m));
    }
  }

  // ----- deletion -----

  /** After a deletion the rotation is chosen by the balance of the taller child. */
  function RebalanceDelete(t: Tree): Tree
  {
    if t.Nil? then t
    else if Balance(t) > 1 && Balance(t.left) >= 0 then RotateRight(t)
    else if Balance(t) > 1 && Balance(t.left) < 0 then RotateRight(t.(left := RotateLeft(t.left)))
    else if Balance(t) < -1 && Balance(t.right) <= 0 then RotateLeft(t)
    else if Balance(t) < -1 && Balance(t.right) > 0 then RotateLeft(t.(right := RotateRight(t.right)))
    else t
  }

  function Min(t: Tree): Member
    requires t.Node?
  {
    if t.left.Nil? then t.member else Min(t.left)
  }

  function Delete(t: Tree, m: Member): Tree
  {
    match t
    case Nil => Nil
    case Node(r, _, left, right) =>
      if CompareNodes(m, r) < 0 then RebalanceDelete(Join(r, Delete(left, m), right))
      else if CompareNodes(m, r) > 0 then RebalanceDelete(Join(r, left, Delete(right, m)))
      else if left.Nil? && right.Nil? then Nil
      else if left.Nil? then RebalanceDelete(Join(right.member, right.left, right.right))
      else if right.Nil? then RebalanceDelete(Join(left.member, left.left, left.right))
      else RebalanceDelete(Join(Min(right), left, Delete(right, Min(right))))
  }

  ghost predicate Deleted(t: Tree, m: Member, t': Tree)
  {
    && IsAvl(t') && Elems(t') == Elems(t) - {m}
    && Height(t) - 1 <= Height(t') <= Height(t)
  }

  lemma RebalanceDeleteKeepsOrder(t: Tree)
    requires Ordered(t)
    ensures Ordered(RebalanceDelete(t)) && Elems(RebalanceDelete(t)) == Elems(t)
  {
    hide CompareNodes, RotateRight, RotateLeft, Ordered, Elems;
    RotationsKeepOrder(t);
    if t.Node? { DoubleRotationsKeepOrder(t); }
  }

  lemma RebalanceDeleteBalances(t: Tree)
    requires GoodBelow(t) && -2 <= Balance(t) <= 2
    ensures var t' := RebalanceDelete(t);
            t'.Node? && Exact(t') && Balanced(t') && Height(t) - 1 <= Height(t') <= Height(t)
            && (-1 <= Balance(t) <= 1 ==> t' == t)
  {
    hide CompareNodes, RotateRight, RotateLeft;
    Heights(t.left);
    Heights(t.right);
    if t.left.Node? { GoodChild(t.left); }
    if t.right.Node? { GoodChild(t.right); }
    if Balance(t) == 2 {
      if Balance(t.left) >= 0 { SingleRight(t); } else { DoubleRight(t); }
    } else if Balance(t) == -2 {
      if Balance(t.right) <= 0 { SingleLeft(t); } else { DoubleLeft(t); }
    }
  }

  /** What the rotation after a deletion finds. */
  ghost predicate AfterDelete(j: Tree) { GoodBelow(j) && -2 <= Balance(j) <= 2 }

  lemma DeleteRotationsAreSafe(j: Tree)
    requires AfterDelete(j)
    ensures Balance(j) > 1 ==> j.left.Node? && (Balance(j.left) < 0 ==> j.left.right.Node?)
    ensures Balance(j) < -1 ==> j.right.Node? && (Balance(j.right) > 0 ==> j.right.left.Node?)
  {
    Heights(j.left);
    Heights(j.right);
    if j.left.Node? { GoodChild(j.left); }
    if j.right.Node? { GoodChild(j.right); }
  }

  lemma {:induction false} MinIsLeast(t: Tree)
    requires Ordered(t) && t.Node?
    ensures Min(t) in Elems(t) && forall x :: x in Elems(t) && x != Min(t) ==> Less(Min(t), x)
  {
    TotalOrder();
    if t.left.Node? {
      MinIsLeast(t.left);
    }
  }

  /** An only child, copied over its parent, takes its place. */
  lemma OnlyChild(t: Tree, c: Tree)
    requires IsAvl(t) && t.Node? && c.Node? && ((c == t.left && t.right.Nil?) || (c == t.right && t.left.Nil?))
    ensures RebalanceDelete(Join(c.member, c.left, c.right)) == c && Deleted(t, t.member, c)
    ensures AfterDelete(Join(c.member, c.left, c.right))
  {
    TotalOrder();
    GoodChild(t);
    GoodChild(c);
    assert Elems(t) == Elems(c) + {t.member} && t.member !in Elems(c);
  }

  lemma {:induction false} DeleteKeepsAvl(t: Tree, m: Member)
    requires IsAvl(t)
    ensures Deleted(t, m, Delete(t, m))
  {
    TotalOrder();
    hide RebalanceDelete, CompareNodes;
    if t.Node? {
      if Less(m, t.member) {
        DeleteKeepsAvl(t.left, m);
        RebalancedDelete(t, m, t.member, Delete(t.left, m), t.right);
      } else if Less(t.member, m) {
        DeleteKeepsAvl(t.right, m);
        RebalancedDelete(t, m, t.member, t.left, Delete(t.right, m));
      } else if t.left.Nil? && t.right.Nil? {
      } else if t.left.Nil? {
        OnlyChild(t, t.right);
      } else if t.right.Nil? {
        OnlyChild(t, t.left);
      } else {
        MinIsLeast(t.right);
        DeleteKeepsAvl(t.right, Min(t.right));
        RootReplaced(t, Delete(t.right, Min(t.right)));
        RebalancedDelete(t, m, Min(t.right), t.left, Delete(t.right, Min(t.right)));
      }
    }
  }

  /** The least member of the right subtree can stand in for the root. */
  lemma RootReplaced(t: Tree, r: Tree)
    requires Ordered(t) && t.Node? && t.right.Node? && Ordered(r) && Elems(r) == Elems(t.right) - {Min(t.right)}
    ensures Ordered(Join(Min(t.right), t.left, r))
    ensures Elems(Join(Min(t.right), t.left, r)) == Elems(t) - {t.member}
  {
    TotalOrder();
    hide Less, CompareNodes;
    MinIsLeast(t.right);
    assert t.member !in Elems(t.left) && t.member !in Elems(t.right);
  }

  /** Joining a node of t again after one side may have lost a member and a level. */
  lemma {:induction false} RebalancedDelete(t: Tree, m: Member, root: Member, l: Tree, r: Tree)
    requires IsAvl(t) && t.Node? && IsAvl(l) && IsAvl(r)
    requires Height(t.left) - 1 <= Height(l) <= Height(t.left) && Height(t.right) - 1 <= Height(r) <= Height(t.right)
    requires Height(l) == Height(t.left) || Height(r) == Height(t.right)
    requires Ordered(Join(root, l, r)) && Elems(Join(root, l, r)) == Elems(t) - {m}
    ensures AfterDelete(Join(root, l, r)) && Deleted(t, m, RebalanceDelete(Join(root, l, r)))
  {
    var j := Join(root, l, r);
    RebalanceDeleteKeepsOrder(j);
    hide Less, CompareNodes, Ordered, Elems;
    RebalanceDeleteBalances(j);
  }

  /** One level of a deletion: what is joined again is ready for a rotation. */
  lemma DeleteLevel(t: Tree, m: Member)
    requires IsAvl(t) && t.Node?
    ensures var c := CompareNodes(m, t.member);
            if c < 0 then AfterDelete(Join(t.member, Delete(t.left, m), t.right))
            else if c > 0 then AfterDelete(Join(t.member, t.left, Delete(t.right, m)))
            else
              && (t.left.Nil? && t.right.Node? ==> AfterDelete(Join(t.right.member, t.right.left, t.right.right)))
              && (t.left.Node? && t.right.Nil? ==> AfterDelete(Join(t.left.member, t.left.left, t.left.right)))
              && (t.left.Node? && t.right.Node? ==>
                    Min(t.right) in Elems(t.right) && AfterDelete(Join(Min(t.right), t.left, Delete(t.right, Min(t.right)))))
  {
    Side(t, m);
    if CompareNodes(m, t.member) < 0 {
      DeleteKeepsAvl(t.left, m);
      DeletedLeft(t, m);
    } else if CompareNodes(m, t.member) > 0 {
      DeleteKeepsAvl(t.right, m);
      DeletedRight(t, m);
    } else if t.left.Nil? && t.right.Node? {
      OnlyChild(t, t.right);
    } else if t.left.Node? && t.right.Nil? {
      OnlyChild(t, t.left);
    } else if t.left.Node? && t.right.Node? {
      MinIsLeast(t.right);
      DeleteKeepsAvl(t.right, Min(t.right));
      RootReplaced(t, Delete(t.right, Min(t.right)));
      RebalancedDelete(t, m, Min(t.right), t.left, Delete(t.right, Min(t.right)));
    }
  }

  lemma DeletedLeft(t: Tree, m: Member)
    requires IsAvl(t) && t.Node? && Less(m, t.member) && Deleted(t.left, m, Delete(t.left, m))
    ensures AfterDelete(Join(t.member, Delete(t.left, m), t.right))
  {
    TotalOrder();
    hide Less, CompareNodes;
    RebalancedDelete(t, m, t.member, Delete(t.left, m), t.right);
  }

  lemma DeletedRight(t: Tree, m: Member)
    requires IsAvl(t) && t.Node? && Less(t.member, m) && Deleted(t.right, m, Delete(t.right, m))
    ensures AfterDelete(Join(t.member, t.left, Delete(t.right, m)))
  {
    TotalOrder();
    hide Less, CompareNodes;
    RebalancedDelete(t, m, t.member, t.left, Delete(t.right, m));
  }

  // ----- in-order traversal -----

  function InOrder(t: Tree): seq<Member>
  {
    if t.Nil? then [] else InOrder(t.left) + [t.member] + InOrder(t.right)
  }

  ghost predicate Sorted(s: seq<Member>) { forall i, j :: 0 <= i < j < |s| ==> Less(s[i], s[j]) }

  lemma {:induction false} InOrderIsSorted(t: Tree)
    requires Ordered(t)
    ensures Sorted(InOrder(t)) && |InOrder(t)| == Size(t)
    ensures forall m :: m in InOrder(t) <==> m in Elems(t)
  {
    if t.Node? {
      TotalOrder();
      hide Less, CompareNodes;
      InOrderIsSorted(t.left);
      InOrderIsSorted(t.right);
      var l, r := InOrder(t.left), InOrder(t.right);
      forall i, j | 0 <= i < j < |InOrder(t)| ensures Less(InOrder(t)[i], InOrder(t)[j]) {
        if i < |l| { assert l[i] in Elems(t.left); }
        if j > |l| { assert r[j - |l| - 1] in Elems(t.right); }
      }
    }
  }

  /** A sorted sequence is determined by its members, so any two trees over one set list it alike. */
  lemma {:induction false} SortedIsUnique(s: seq<Member>, t: seq<Member>)
    requires Sorted(s) && Sorted(t) && (forall m :: m in s <==> m in t)
    ensures s == t
  {
    TotalOrder();
    hide Less, CompareNodes;
    assert s != [] ==> s[0] in t;
    assert t != [] ==> t[0] in s;
    if s != [] && t != [] {
      var n, k := |s| - 1, |t| - 1;
      assert s[n] == t[k] by {
        assert s[n] in t && t[k] in s;
      }
      assert s == s[..n] + [s[n]] && t == t[..k] + [t[k]];
      forall m ensures m in s[..n] <==> m in t[..k] {
        assert m in s <==> m in t;
        if m in s[..n] { var i :| 0 <= i < n && s[i] == m; assert Less(m, s[n]); }
        if m in t[..k] { var i :| 0 <= i < k && t[i] == m; assert Less(m, t[k]); }
      }
      SortedIsUnique(s[..n], t[..k]);
    }
  }

  // ----- runs -----

  datatype Op = Ins(m: Member) | Del(m: Member)

  function Apply(t: Tree, op: Op): Tree
  {
    match op
    case Ins(m) => Insert(t, m)
    case Del(m) => Delete(t, m)
  }

  function Run(ops: seq<Op>): Tree
  {
    if ops == [] then Nil else Apply(Run(ops[..|ops| - 1]), ops[|ops| - 1])
  }

  ghost function Expected(ops: seq<Op>): set<Member>
  {
    if ops == [] then {}
    else
      var s := Expected(ops[..|ops| - 1]);
      match ops[|ops| - 1]
      case Ins(m) => s + {m}
      case Del(m) => s - {m}
  }

  /** Any run of insertions and deletions from the empty tree: order, exact heights, balance, contents. */
  lemma {:induction false} RunIsAvl(ops: seq<Op>)
    ensures IsAvl(Run(ops)) && Elems(Run(ops)) == Expected(ops)
  {
    if ops != [] {
      var t := Run(ops[..|ops| - 1]);
      RunIsAvl(ops[..|ops| - 1]);
      match ops[|ops| - 1] {
        case Ins(m) => InsertKeepsAvl(t, m);
        case Del(m) => DeleteKeepsAvl(t, m);
      }
    }
  }

  // ----- logarithmic height -----

  ghost function Fib(n: nat): nat { if n < 2 then n else Fib(n - 1) + Fib(n - 2) }

  ghost function Pow2(n: nat): nat { if n == 0 then 1 else 2 * Pow2(n - 1) }

  lemma {:induction false} FibGrows(n: nat)
    ensures Fib(n) <= Fib(n + 1)
  {
    if n >= 2 { FibGrows(n - 1); FibGrows(n - 2); }
  }

  lemma {:induction false} FibMonotone(a: nat, b: nat)
    requires a <= b
    ensures Fib(a) <= Fib(b)
    decreases b
  {
    if a < b { FibMonotone(a, b - 1); FibGrows(b - 1); }
  }

  lemma {:induction false} MinimalSize(t: Tree)
    requires Exact(t) && Balanced(t)
    ensures Height(t) >= 0 && Fib(Height(t) + 2) <= Size(t) + 1
  {
    if t.Node? {
      MinimalSize(t.left);
      MinimalSize(t.right);
      Heights(t.left);
      Heights(t.right);
      var h := Height(t);
      FibMonotone(h, Height(t.left) + 2);
      FibMonotone(h, Height(t.right) + 2);
      assert Height(t.left) == h - 1 || Height(t.right) == h - 1;
      assert Fib(h + 2) == Fib(h + 1) + Fib(h);
    }
  }

  lemma Quadruple(p: nat, f: nat, g: nat)
    requires p <= f * f && 2 * f <= g
    ensures 4 * p <= g * g
  {
    MulMonotone(2 * f, g);
    assert (2 * f) * (2 * f) == 4 * (f * f);
  }

  lemma {:induction false} FibSquare(h: nat)
    ensures Pow2(h) <= Fib(h + 2) * Fib(h + 2)
  {
    if h >= 2 {
      FibSquare(h - 2);
      FibGrows(h);
      Quadruple(Pow2(h - 2), Fib(h), Fib(h + 2));
    } else {
      assert Fib(2) == 1 && Fib(3) == 2;
    }
  }

  lemma MulMonotone(a: nat, b: nat)
    requires a <= b
    ensures a * a <= b * b
  {
    assert a * a <= a * b <= b * b;
  }

  /** 2^(h/2) <= count + 1, squared so as to cover odd heights exactly. */
  lemma {:induction false} HeightIsLogarithmic(t: Tree)
    requires IsAvl(t)
    ensures Height(t) >= 0 && Pow2(Height(t)) <= (Size(t) + 1) * (Size(t) + 1)
  {
    MinimalSize(t);
    FibSquare(Height(t));
    MulMonotone(Fib(Height(t) + 2), Size(t) + 1);
  }
}
