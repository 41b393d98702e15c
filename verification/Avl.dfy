/** avl.c: the tree in the heap. Each operation rewrites nodes in place and computes the value AvlTree gives for it. */
module Avl {
  import opened Sds
  import opened AvlTree

  class AVLNode {
    var key: Bytes
    var score: Score
    var height: int
    var left: AVLNode?
    var right: AVLNode?
    ghost var Repr: set<AVLNode>
    ghost var model: Tree

    /** The links and the ghost view of one node, given those of its children. */
    ghost predicate Linked()
      reads this, left, right
    {
      && Repr == {this} + ReprOf(left) + ReprOf(right)
      && this !in ReprOf(left) && this !in ReprOf(right) && ReprOf(left) !! ReprOf(right)
      && (left != null ==> left in left.Repr) && (right != null ==> right in right.Repr)
      && model == Node(Member(score, key), height, ModelOf(left), ModelOf(right))
    }

    ghost predicate Valid()
      reads this, Repr
      decreases Repr
    {
      && this in Repr
      && (left != null ==> left in Repr && left.Repr < Repr && left.Valid())
      && (right != null ==> right in Repr && right.Repr < Repr && right.Valid())
      && Linked()
    }

    lemma Unfold()
      requires Valid()
      ensures Linked() && ValidOrNull(left) && ValidOrNull(right) && this in Repr
    {
    }

    lemma Fold()
      requires Linked() && ValidOrNull(left) && ValidOrNull(right)
      ensures Valid()
    {
    }

    constructor (key: Bytes, score: Score)
      ensures Valid() && Repr == {this} && model == Node(Member(score, key), 1, Nil, Nil)
    {
      this.key, this.score, this.height, this.left, this.right := key, score, 1, null, null;
      Repr, model := {this}, Node(Member(score, key), 1, Nil, Nil);
    }

    /** Recomputes the height, and with it the ghost view of this node. */
    method UpdateHeight()
      requires ValidOrNull(left) && ValidOrNull(right)
      requires this !in ReprOf(left) && this !in ReprOf(right) && ReprOf(left) !! ReprOf(right)
      modifies this`height, this`Repr, this`model
      ensures Valid() && Repr == {this} + ReprOf(left) + ReprOf(right)
      ensures model == Join(Member(score, key), ModelOf(left), ModelOf(right))
    {
      height := 1 + Max(GetHeight(left), GetHeight(right));
      UpdateGhosts();
    }

    ghost method UpdateGhosts()
      requires ValidOrNull(left) && ValidOrNull(right)
      requires this !in ReprOf(left) && this !in ReprOf(right) && ReprOf(left) !! ReprOf(right)
      modifies this`Repr, this`model
      ensures Valid() && Repr == {this} + ReprOf(left) + ReprOf(right)
      ensures model == Node(Member(score, key), height, ModelOf(left), ModelOf(right))
    {
      hide Valid;
      if left != null { left.Unfold(); }
      if right != null { right.Unfold(); }
      Repr := {this} + ReprOf(left) + ReprOf(right);
      model := Node(Member(score, key), height, ModelOf(left), ModelOf(right));
      Fold();
    }
  }

  ghost function ReprOf(n: AVLNode?): set<AVLNode>
    reads n
  {
    if n == null then {} else n.Repr
  }

  ghost function ModelOf(n: AVLNode?): Tree
    reads n
  {
    if n == null then Nil else n.model
  }

  function GetHeight(n: AVLNode?): int
    reads n
  {
    if n == null then 0 else n.height
  }

  function GetBalance(n: AVLNode?): int
    reads n, if n == null then {} else {n.left, n.right}
  {
    if n == null then 0 else GetHeight(n.left) - GetHeight(n.right)
  }

  ghost predicate ValidOrNull(n: AVLNode?)
    reads n, ReprOf(n)
  {
    n != null ==> n.Valid()
  }

  lemma BalanceAgrees(n: AVLNode?)
    requires ValidOrNull(n)
    ensures GetBalance(n) == Balance(ModelOf(n)) && GetHeight(n) == Height(ModelOf(n)) && (n == null <==> ModelOf(n).Nil?)
    ensures n != null ==> n in n.Repr && n.model.member == Member(n.score, n.key)
    ensures n != null ==> ValidOrNull(n.left) && ValidOrNull(n.right)
                          && n.model.left == ModelOf(n.left) && n.model.right == ModelOf(n.right)
                          && (n.left == null <==> n.model.left.Nil?) && (n.right == null <==> n.model.right.Nil?)
  {
    if n != null {
      n.Unfold();
      if n.left != null { n.left.Unfold(); }
      if n.right != null { n.right.Unfold(); }
    }
  }

  method RotateRightNode(y: AVLNode) returns (x: AVLNode)
    requires y.Valid() && y.left != null
    modifies y, y.left
    ensures x.Valid() && x.Repr == old(y.Repr) && x.model == RotateRight(old(y.model))
  {
    hide Max, AVLNode.Valid;
    y.Unfold();
    x := y.left;
    x.Unfold();
    var t2 := x.right;
    x.right := y;
    y.left := t2;
    y.UpdateHeight();
    x.UpdateHeight();
  }

  method RotateLeftNode(x: AVLNode) returns (y: AVLNode)
    requires x.Valid() && x.right != null
    modifies x, x.right
    ensures y.Valid() && y.Repr == old(x.Repr) && y.model == RotateLeft(old(x.model))
  {
    hide Max, AVLNode.Valid;
    x.Unfold();
    y := x.right;
    y.Unfold();
    var t2 := y.left;
    y.left := x;
    x.right := t2;
    x.UpdateHeight();
    y.UpdateHeight();
  }

  method RebalanceInsertNode(node: AVLNode, m: Member) returns (r: AVLNode)
    requires node.Valid() && AfterInsert(node.model, m)
    modifies node.Repr
    ensures r.Valid() && r.Repr == old(node.Repr) && r.model == RebalanceInsert(old(node.model), m)
  {
    hide RotateRight, RotateLeft, CompareNodes, AVLNode.Valid, AfterInsert;
    RotationsAreSafe(node.model, m);
    node.Unfold();
    BalanceAgrees(node);
    BalanceAgrees(node.left);
    BalanceAgrees(node.right);
    if node.left != null { node.left.Unfold(); }
    if node.right != null { node.right.Unfold(); }
    var balance := GetBalance(node);
    if balance > 1 && CompareNodes(m, Member(node.left.score, node.left.key)) < 0 {
      r := RotateRightNode(node);
    } else if balance < -1 && CompareNodes(m, Member(node.right.score, node.right.key)) > 0 {
      r := RotateLeftNode(node);
    } else if balance > 1 && CompareNodes(m, Member(node.left.score, node.left.key)) > 0 {
      r := RotateLeftNode(node.left);
      r.Unfold();
      node.left := r;
      node.UpdateGhosts();
      r := RotateRightNode(node);
    } else if balance < -1 && CompareNodes(m, Member(node.right.score, node.right.key)) < 0 {
      r := RotateRightNode(node.right);
      r.Unfold();
      node.right := r;
      node.UpdateGhosts();
      r := RotateLeftNode(node);
    } else {
      r := node;
    }
  }

  method InsertNode(node: AVLNode?, key: Bytes, score: Score) returns (r: AVLNode, inserted: bool)
    requires ValidOrNull(node) && IsAvl(ModelOf(node))
    modifies ReprOf(node)
    ensures r.Valid() && fresh(r.Repr - old(ReprOf(node)))
    ensures r.model == Insert(old(ModelOf(node)), Member(score, key))
    ensures inserted <==> Member(score, key) !in old(Elems(ModelOf(node)))
    decreases ReprOf(node)
  {
    hide AVLNode.Valid, IsAvl, Elems, AfterInsert, RebalanceInsert, CompareNodes;
    if node == null {
      r := new AVLNode(key, score);
      NilHasNoElements();
      return r, true;
    }
    var m := Member(score, key);
    node.Unfold();
    InsertLevel(node.model, m);
    Side(node.model, m);
    var cmp := CompareNodes(m, Member(node.score, node.key));
    if cmp < 0 {
      var l;
      l, inserted := InsertNode(node.left, key, score);
      node.left := l;
    } else if cmp > 0 {
      var rr;
      rr, inserted := InsertNode(node.right, key, score);
      node.right := rr;
    } else {
      return node, false;
    }
    node.UpdateHeight();
    r := RebalanceInsertNode(node, m);
  }

  lemma NilHasNoElements()
    ensures IsAvl(Nil) && Elems(Nil) == {}
  {
  }

  method RebalanceDeleteNode(node: AVLNode) returns (r: AVLNode)
    requires node.Valid() && AfterDelete(node.model)
    modifies node.Repr
    ensures r.Valid() && r.Repr == old(node.Repr) && r.model == RebalanceDelete(old(node.model))
  {
    hide RotateRight, RotateLeft, AVLNode.Valid, AfterDelete;
    DeleteRotationsAreSafe(node.model);
    node.Unfold();
    BalanceAgrees(node);
    BalanceAgrees(node.left);
    BalanceAgrees(node.right);
    if node.left != null { node.left.Unfold(); }
    if node.right != null { node.right.Unfold(); }
    var balance := GetBalance(node);
    if balance > 1 && GetBalance(node.left) >= 0 {
      r := RotateRightNode(node);
    } else if balance > 1 && GetBalance(node.left) < 0 {
      r := RotateLeftNode(node.left);
      r.Unfold();
      node.left := r;
      node.UpdateGhosts();
      r := RotateRightNode(node);
    } else if balance < -1 && GetBalance(node.right) <= 0 {
      r := RotateLeftNode(node);
    } else if balance < -1 && GetBalance(node.right) > 0 {
      r := RotateRightNode(node.right);
      r.Unfold();
      node.right := r;
      node.UpdateGhosts();
      r := RotateLeftNode(node);
    } else {
      r := node;
    }
  }

  method MinValueNode(node: AVLNode) returns (current: AVLNode)
    requires node.Valid()
    ensures node.model.Node? && Member(current.score, current.key) == Min(node.model)
  {
    hide AVLNode.Valid;
    node.Unfold();
    current := node;
    while current.left != null
      invariant current.Valid() && node.model.Node? && current.model.Node?
      invariant Min(current.model) == Min(node.model)
      decreases current.Repr
    {
      current.Unfold();
      current.left.Unfold();
      current := current.left;
    }
    current.Unfold();
  }

  method DeleteNode(root: AVLNode?, key: Bytes, score: Score) returns (r: AVLNode?, deleted: bool)
    requires ValidOrNull(root) && IsAvl(ModelOf(root))
    modifies ReprOf(root)
    ensures ValidOrNull(r) && ReprOf(r) <= old(ReprOf(root))
    ensures ModelOf(r) == Delete(old(ModelOf(root)), Member(score, key))
    ensures deleted <==> Member(score, key) in old(Elems(ModelOf(root)))
    decreases ReprOf(root)
  {
    hide AVLNode.Valid, IsAvl, Elems, AfterDelete, RebalanceDelete, CompareNodes;
    if root == null {
      NilHasNoElements();
      return null, false;
    }
    var m := Member(score, key);
    root.Unfold();
    BalanceAgrees(root);
    DeleteLevel(root.model, m);
    Side(root.model, m);
    var cmp := CompareNodes(m, Member(root.score, root.key));
    if cmp < 0 {
      var l;
      l, deleted := DeleteNode(root.left, key, score);
      root.left := l;
    } else if cmp > 0 {
      var rr;
      rr, deleted := DeleteNode(root.right, key, score);
      root.right := rr;
    } else {
      deleted := true;
      if root.left == null || root.right == null {
        var temp := if root.left != null then root.left else root.right;
        if temp == null { return null, true; }
        CopyNode(root, temp);
      } else {
        var temp := MinValueNode(root.right);
        var minKey, minScore := temp.key, temp.score;
        root.key, root.score := minKey, minScore;
        var rr, _ := DeleteNode(root.right, minKey, minScore);
        root.right := rr;
      }
    }
    root.UpdateHeight();
    r := RebalanceDeleteNode(root);
  }

  /** The struct copy that moves an only child over its parent. */
  method CopyNode(root: AVLNode, temp: AVLNode)
    requires root.Valid() && ((temp == root.left && root.right == null) || (temp == root.right && root.left == null))
    modifies root
    ensures ValidOrNull(root.left) && ValidOrNull(root.right)
    ensures root !in ReprOf(root.left) && root !in ReprOf(root.right) && ReprOf(root.left) !! ReprOf(root.right)
    ensures {root} + ReprOf(root.left) + ReprOf(root.right) <= old(root.Repr)
    ensures old(temp.model).Node? && Member(root.score, root.key) == old(temp.model).member
    ensures ModelOf(root.left) == old(temp.model).left && ModelOf(root.right) == old(temp.model).right
  {
    hide AVLNode.Valid;
    root.Unfold();
    temp.Unfold();
    root.key, root.score, root.height := temp.key, temp.score, temp.height;
    root.left, root.right := temp.left, temp.right;
  }

  /** The node at an index of the in-order sequence; `curr` counts the nodes already passed. */
  method GetRankRec(node: AVLNode?, rank: nat, curr: nat) returns (res: AVLNode?, curr': nat)
    requires ValidOrNull(node) && curr <= rank
    ensures var s := InOrder(ModelOf(node));
            if rank < curr + |s|
            then res != null && res in ReprOf(node) && Member(res.score, res.key) == s[rank - curr]
            else res == null && curr' == curr + |s|
    decreases ReprOf(node)
  {
    if node == null { return null, curr; }
    node.Unfold();
    res, curr' := GetRankRec(node.left, rank, curr);
    if res != null { return; }
    if curr' == rank { return node, curr'; }
    res, curr' := GetRankRec(node.right, rank, curr' + 1);
  }

  class AVLTree {
    var root: AVLNode?
    var count: int

    ghost function Repr(): set<object>
      reads this, root
    {
      {this} + ReprOf(root)
    }

    ghost function Model(): Tree
      reads this, root
    {
      ModelOf(root)
    }

    ghost predicate Valid()
      reads this, root, ReprOf(root)
    {
      ValidOrNull(root) && IsAvl(Model()) && count == Size(Model())
    }

    constructor ()
      ensures Valid() && fresh(Repr()) && Model() == Nil
    {
      root, count := null, 0;
    }

    method Insert(key: Bytes, score: Score) returns (inserted: bool)
      requires Valid()
      modifies this, ReprOf(root)
      ensures Valid() && fresh(Repr() - old(Repr()))
      ensures Model() == AvlTree.Insert(old(Model()), Member(score, key))
      ensures Elems(Model()) == old(Elems(Model())) + {Member(score, key)}
      ensures inserted <==> Member(score, key) !in old(Elems(Model()))
    {
      hide AVLNode.Valid, AvlTree.Insert, IsAvl, Size, Elems;
      Outcome(Model(), Member(score, key));
      root, inserted := InsertNode(root, key, score);
      if inserted { count := count + 1; }
    }

    method Delete(key: Bytes, score: Score) returns (deleted: bool)
      requires Valid()
      modifies this, ReprOf(root)
      ensures Valid() && fresh(Repr() - old(Repr()))
      ensures Model() == AvlTree.Delete(old(Model()), Member(score, key))
      ensures Elems(Model()) == old(Elems(Model())) - {Member(score, key)}
      ensures deleted <==> Member(score, key) in old(Elems(Model()))
    {
      hide AVLNode.Valid, AvlTree.Delete, IsAvl, Size, Elems;
      Outcome(Model(), Member(score, key));
      root, deleted := DeleteNode(root, key, score);
      if deleted { count := count - 1; }
    }

    /** Null when the rank is out of range. */
    method GetByRank(rank: nat) returns (res: AVLNode?)
      requires Valid()
      ensures var s := InOrder(Model());
              if rank < |s| then res != null && Member(res.score, res.key) == s[rank] else res == null
    {
      InOrderIsSorted(Model());
      if rank >= count { return null; }
      var curr;
      res, curr := GetRankRec(root, rank, 0);
    }
  }

  /** One insertion or deletion changes the set of members and the count by exactly the requested member. */
  lemma {:induction false} Outcome(t: Tree, m: Member)
    requires IsAvl(t)
    ensures IsAvl(AvlTree.Insert(t, m)) && Elems(AvlTree.Insert(t, m)) == Elems(t) + {m}
    ensures IsAvl(AvlTree.Delete(t, m)) && Elems(AvlTree.Delete(t, m)) == Elems(t) - {m}
    ensures Size(AvlTree.Insert(t, m)) == Size(t) + if m in Elems(t) then 0 else 1
    ensures Size(AvlTree.Delete(t, m)) == Size(t) - if m in Elems(t) then 1 else 0
  {
    hide AvlTree.Insert, AvlTree.Delete, Size, Elems;
    InsertKeepsAvl(t, m);
    DeleteKeepsAvl(t, m);
    SizeIsCardinality(t);
    SizeIsCardinality(AvlTree.Insert(t, m));
    SizeIsCardinality(AvlTree.Delete(t, m));
  }
}
