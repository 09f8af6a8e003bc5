/** The recursive traversal of set_stocks_info as a machine that moves from one point of
    the recursion to the next. */
module TreeWalk {

  datatype Tree = Leaf | Node(left: Tree, right: Tree)

  /** The way from the root: false is left, true is right. */
  type Path = seq<bool>

  predicate InTree(t: Tree, p: Path) {
    t.Node? && (p == [] || InTree(if p[0] then t.right else t.left, p[1..]))
  }

  function Height(t: Tree): nat {
    if t.Leaf? then 0 else 1 + if Height(t.left) > Height(t.right) then Height(t.left) else Height(t.right)
  }

  lemma {:induction false} PathIsShort(t: Tree, p: Path)
    requires InTree(t, p)
    ensures |p| < Height(t)
  {
    if p != [] {
      PathIsShort(if p[0] then t.right else t.left, p[1..]);
    }
  }

  /** A point that the recursion can be at: a node, or a missing child of a node. */
  predicate Reached(t: Tree, p: Path) {
    p == [] || (t.Node? && Reached(if p[0] then t.right else t.left, p[1..]))
  }

  lemma {:induction false} InTreeReached(t: Tree, p: Path)
    requires InTree(t, p)
    ensures Reached(t, p)
  {
    if p != [] {
      InTreeReached(if p[0] then t.right else t.left, p[1..]);
    }
  }

  lemma {:induction false} ChildReached(t: Tree, p: Path, b: bool)
    requires InTree(t, p)
    ensures Reached(t, p + [b])
  {
    if p != [] {
      assert (p + [b])[1..] == p[1..] + [b];
      ChildReached(if p[0] then t.right else t.left, p[1..], b);
    } else {
      assert [b][1..] == [];
    }
  }

  lemma {:induction false} ParentInTree(t: Tree, p: Path)
    requires Reached(t, p) && p != []
    ensures InTree(t, p[..|p| - 1])
  {
    if |p| > 1 {
      assert p[1..][..|p| - 2] == p[..|p| - 1][1..];
      ParentInTree(if p[0] then t.right else t.left, p[1..]);
    }
  }

  /** The nodes of t, which hangs at at, in the order in which they are printed. */
  function Preorder(t: Tree, at: Path): seq<Path> {
    if t.Leaf? then [] else [at] + Preorder(t.left, at + [false]) + Preorder(t.right, at + [true])
  }

  /** Node p comes before node q: it is above q, or further left. */
  predicate Comes(p: Path, q: Path) {
    q != [] && (p == [] || if p[0] == q[0] then Comes(p[1..], q[1..]) else !p[0])
  }

  /** Entry p of a listing belongs to the tree t that hangs at at. */
  predicate Hangs(t: Tree, at: Path, p: Path) {
    |at| <= |p| && p[..|at|] == at && InTree(t, p[|at|..])
  }

  lemma HangsInChild(t: Tree, at: Path, b: bool, p: Path)
    requires t.Node? && Hangs(if b then t.right else t.left, at + [b], p)
    ensures Hangs(t, at, p) && |p| > |at| && p[|at|] == b
  {
    assert p[..|at|] == p[..|at| + 1][..|at|] && p[|at|] == p[..|at| + 1][|at|];
    assert p[|at|..][1..] == p[|at| + 1..];
  }

  /** A node comes before its descendants, and what hangs on its left before what hangs on its right. */
  lemma {:induction false} ComesEarlier(at: Path, p: Path, q: Path)
    requires |at| <= |p| && p[..|at|] == at && |at| < |q| && q[..|at|] == at
    requires |p| == |at| || (!p[|at|] && q[|at|])
    ensures Comes(p, q)
  {
    if at != [] {
      assert p[0] == p[..|at|][0] && q[0] == q[..|at|][0];
      assert p[1..][..|at| - 1] == p[..|at|][1..] && q[1..][..|at| - 1] == q[..|at|][1..];
      ComesEarlier(at[1..], p[1..], q[1..]);
    }
  }

  lemma ListingOfNode(t: Tree, at: Path, l: seq<Path>, r: seq<Path>)
    requires t.Node?
    requires forall i {:trigger l[i]} :: 0 <= i < |l| ==> Hangs(t.left, at + [false], l[i])
    requires forall i {:trigger r[i]} :: 0 <= i < |r| ==> Hangs(t.right, at + [true], r[i])
    requires forall i, j {:trigger l[i], l[j]} :: 0 <= i < j < |l| ==> Comes(l[i], l[j])
    requires forall i, j {:trigger r[i], r[j]} :: 0 <= i < j < |r| ==> Comes(r[i], r[j])
    ensures var s := [at] + l + r;
      && (forall i {:trigger s[i]} :: 0 <= i < |s| ==> Hangs(t, at, s[i]))
      && (forall i, j {:trigger s[i], s[j]} :: 0 <= i < j < |s| ==> Comes(s[i], s[j]))
  {
    hide Comes;
    var s := [at] + l + r;
    assert at[..|at|] == at;
    forall i | 0 <= i < |s| ensures Hangs(t, at, s[i]) {
      if 0 < i <= |l| {
        HangsInChild(t, at, false, l[i - 1]);
      } else if i > 0 {
        HangsInChild(t, at, true, r[i - 1 - |l|]);
      }
    }
    forall i, j | 0 <= i < j < |s| ensures Comes(s[i], s[j]) {
      if i == 0 || (i <= |l| && j > |l|) {
        if i > 0 { HangsInChild(t, at, false, l[i - 1]); }
        if j <= |l| { HangsInChild(t, at, false, l[j - 1]); } else { HangsInChild(t, at, true, r[j - 1 - |l|]); }
        ComesEarlier(at, s[i], s[j]);
      } else if j <= |l| {
        assert Comes(l[i - 1], l[j - 1]);
      } else {
        assert Comes(r[i - 1 - |l|], r[j - 1 - |l|]);
      }
    }
  }

  lemma {:induction false} PreorderOrders(t: Tree, at: Path)
    ensures forall i {:trigger Preorder(t, at)[i]} :: 0 <= i < |Preorder(t, at)| ==> Hangs(t, at, Preorder(t, at)[i])
    ensures forall i, j {:trigger Preorder(t, at)[i], Preorder(t, at)[j]} :: 0 <= i < j < |Preorder(t, at)| ==>
      Comes(Preorder(t, at)[i], Preorder(t, at)[j])
  {
    if t.Node? {
      hide Comes, Hangs;
      var l, r := Preorder(t.left, at + [false]), Preorder(t.right, at + [true]);
      PreorderOrders(t.left, at + [false]);
      PreorderOrders(t.right, at + [true]);
      ListingOfNode(t, at, l, r);
      assert Preorder(t, at) == [at] + l + r;
    }
  }

  lemma {:induction false} PreorderHolds(t: Tree, at: Path, p: Path)
    requires InTree(t, p)
    ensures at + p in Preorder(t, at)
  {
    if p == [] {
      assert at + p == at;
    } else {
      PreorderHolds(if p[0] then t.right else t.left, at + [p[0]], p[1..]);
      assert at + p == at + [p[0]] + p[1..];
    }
  }

  /** The printing order: every node of the tree, each before its descendants, and left subtrees
      before right ones. */
  lemma PreorderIs(t: Tree)
    ensures forall p: Path {:trigger p in Preorder(t, [])} :: p in Preorder(t, []) <==> InTree(t, p)
    ensures forall i, j {:trigger Preorder(t, [])[i], Preorder(t, [])[j]} :: 0 <= i < j < |Preorder(t, [])| ==>
      Comes(Preorder(t, [])[i], Preorder(t, [])[j])
  {
    hide Comes, Preorder;
    var s := Preorder(t, []);
    PreorderOrders(t, []);
    forall p: Path ensures p in s <==> InTree(t, p) {
      if InTree(t, p) {
        PreorderHolds(t, [], p);
        assert [] + p == p;
      }
      if p in s {
        var i :| 0 <= i < |s| && s[i] == p;
        assert Hangs(t, [], s[i]) && p[0..] == p;
      }
    }
  }

  /** The steps of a whole call on t. */
  function CallSteps(t: Tree): nat {
    if t.Leaf? then 1 else 5 + CallSteps(t.left) + CallSteps(t.right)
  }

  /** What a traversal of t still prints when it is at point p.  In phase 0 the call on p
      starts, in 1 it prints, in 2 and 3 it calls left and right, in 4 it returns. */
  function Rest(t: Tree, at: Path, p: Path, phase: nat): seq<Path> {
    if p == [] then
      if phase <= 1 then Preorder(t, at)
      else if t.Leaf? then []
      else if phase == 2 then Preorder(t.left, at + [false]) + Preorder(t.right, at + [true])
      else if phase == 3 then Preorder(t.right, at + [true])
      else []
    else if t.Leaf? then []
    else if p[0] then Rest(t.right, at + [true], p[1..], phase)
    else Rest(t.left, at + [false], p[1..], phase) + Preorder(t.right, at + [true])
  }

  /** The steps that it still takes. */
  function Steps(t: Tree, p: Path, phase: nat): nat {
    if p == [] then
      if phase == 0 then CallSteps(t)
      else if t.Leaf? then 0
      else if phase == 1 then 4 + CallSteps(t.left) + CallSteps(t.right)
      else if phase == 2 then 3 + CallSteps(t.left) + CallSteps(t.right)
      else if phase == 3 then 2 + CallSteps(t.right)
      else if phase == 4 then 1
      else 0
    else if t.Leaf? then 0
    else if p[0] then Steps(t.right, p[1..], phase) + 1
    else Steps(t.left, p[1..], phase) + 2 + CallSteps(t.right)
  }

  lemma {:induction false} EnterStep(t: Tree, at: Path, p: Path)
    requires InTree(t, p)
    ensures Rest(t, at, p, 0) == Rest(t, at, p, 1) && Steps(t, p, 0) == Steps(t, p, 1) + 1
  {
    if p != [] {
      EnterStep(if p[0] then t.right else t.left, at + [p[0]], p[1..]);
    }
  }

  lemma {:induction false} PrintStep(t: Tree, at: Path, p: Path)
    requires InTree(t, p)
    ensures Rest(t, at, p, 1) == [at + p] + Rest(t, at, p, 2) && Steps(t, p, 1) == Steps(t, p, 2) + 1
  {
    if p != [] {
      assert at + p == at + [p[0]] + p[1..];
      PrintStep(if p[0] then t.right else t.left, at + [p[0]], p[1..]);
    } else {
      assert at + p == at;
    }
  }

  lemma {:induction false} CallStep(t: Tree, at: Path, p: Path, b: bool)
    requires InTree(t, p)
    ensures var phase := if b then 3 else 2;
      Rest(t, at, p, phase) == Rest(t, at, p + [b], 0) && Steps(t, p, phase) == Steps(t, p + [b], 0) + 1
  {
    if p != [] {
      assert (p + [b])[0] == p[0] && (p + [b])[1..] == p[1..] + [b];
      CallStep(if p[0] then t.right else t.left, at + [p[0]], p[1..], b);
    } else {
      assert (p + [b])[0] == b && (p + [b])[1..] == [];
    }
  }

  /** A call on a missing child returns at once, and a finished call returns; either way
      the caller goes on. */
  lemma {:induction false} ReturnStep(t: Tree, at: Path, p: Path, phase: nat)
    requires Reached(t, p) && p != [] && (if InTree(t, p) then phase == 4 else phase == 0)
    ensures var up := if p[|p| - 1] then 4 else 3;
      Rest(t, at, p, phase) == Rest(t, at, p[..|p| - 1], up) && Steps(t, p, phase) == Steps(t, p[..|p| - 1], up) + 1
  {
    if |p| > 1 {
      var q := p[1..];
      assert q[|q| - 1] == p[|p| - 1] && q[..|q| - 1] == p[..|p| - 1][1..];
      ReturnStep(if p[0] then t.right else t.left, at + [p[0]], q, phase);
    } else {
      var c := if p[0] then t.right else t.left;
      assert p[1..] == [] && p[..|p| - 1] == [];
      assert InTree(t, p) == InTree(c, []) == c.Node?;
      assert Rest(c, at + [p[0]], [], phase) == [];
      assert Rest(t, at, [], 3) == Preorder(t.right, at + [true]) && Rest(t, at, [], 4) == [];
    }
  }
}
