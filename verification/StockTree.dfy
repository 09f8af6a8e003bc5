/** The stock table as a search tree. */
module StockTree {
  // Its preorder listing is the file format of task1/stock_endpoint.c.

  datatype Record = Record(id: int, cnt: int, price: int)

  datatype Tree = Leaf | Node(left: Tree, rec: Record, right: Tree)

  datatype Option<T> = None | Some(value: T)

  /** insert_stock: equal ids go to the right. */
  function Insert(t: Tree, r: Record): Tree {
    if t.Leaf? then Node(Leaf, r, Leaf)
    else if t.rec.id > r.id then t.(left := Insert(t.left, r))
    else t.(right := Insert(t.right, r))
  }

  /** get_stock */
  function Lookup(t: Tree, id: int): Option<Record> {
    if t.Leaf? then None
    else if t.rec.id == id then Some(t.rec)
    else if t.rec.id > id then Lookup(t.left, id)
    else Lookup(t.right, id)
  }

  /** set_stocks_info */
  function Preorder(t: Tree): seq<Record> {
    if t.Leaf? then [] else [t.rec] + Preorder(t.left) + Preorder(t.right)
  }

  /** init_stock: the records of the file, one after the other. */
  function InsertAll(t: Tree, rs: seq<Record>): Tree
    decreases |rs|
  {
    if rs == [] then t else InsertAll(Insert(t, rs[0]), rs[1..])
  }

  ghost predicate AllBelow(rs: seq<Record>, id: int) {
    forall r {:trigger r in rs} :: r in rs ==> r.id < id
  }

  ghost predicate NoneBelow(rs: seq<Record>, id: int) {
    forall r {:trigger r in rs} :: r in rs ==> id <= r.id
  }

  /** left < node <= right, everywhere. */
  ghost predicate Ordered(t: Tree) {
    t.Node? ==>
      && Ordered(t.left) && Ordered(t.right)
      && AllBelow(Preorder(t.left), t.rec.id) && NoneBelow(Preorder(t.right), t.rec.id)
  }

  lemma {:induction false} InsertMembers(t: Tree, r: Record)
    ensures forall x {:trigger x in Preorder(Insert(t, r))} :: x in Preorder(Insert(t, r)) <==>
      x in Preorder(t) || x == r
  {
    if t.Node? {
      InsertMembers(if t.rec.id > r.id then t.left else t.right, r);
    }
  }

  lemma {:induction false} InsertAdds(t: Tree, r: Record)
    ensures multiset(Preorder(Insert(t, r))) == multiset(Preorder(t)) + multiset{r}
  {
    if t.Node? {
      InsertAdds(if t.rec.id > r.id then t.left else t.right, r);
    }
  }

  lemma InsertKeepsBounds(t: Tree, r: Record, id: int)
    ensures AllBelow(Preorder(t), id) && r.id < id ==> AllBelow(Preorder(Insert(t, r)), id)
    ensures NoneBelow(Preorder(t), id) && id <= r.id ==> NoneBelow(Preorder(Insert(t, r)), id)
  {
    hide Preorder, Insert;
    InsertMembers(t, r);
  }

  lemma LeafOrdered(r: Record)
    ensures Ordered(Node(Leaf, r, Leaf))
  {
  }

  lemma {:induction false} InsertOrdered(t: Tree, r: Record)
    requires Ordered(t)
    ensures Ordered(Insert(t, r))
  {
    hide Preorder, AllBelow, NoneBelow;
    if t.Node? {
      var child := if t.rec.id > r.id then t.left else t.right;
      InsertOrdered(child, r);
      InsertKeepsBounds(child, r, t.rec.id);
    } else {
      LeafOrdered(r);
    }
  }

  /** Whatever is inserted in whatever order, the tree stays a search tree and holds
      exactly the inserted records. */
  lemma {:induction false} InsertAllOrdered(t: Tree, rs: seq<Record>)
    requires Ordered(t)
    ensures Ordered(InsertAll(t, rs))
    ensures multiset(Preorder(InsertAll(t, rs))) == multiset(Preorder(t)) + multiset(rs)
    decreases |rs|
  {
    hide Ordered, Preorder;
    if rs != [] {
      InsertOrdered(t, rs[0]);
      InsertAdds(t, rs[0]);
      InsertAllOrdered(Insert(t, rs[0]), rs[1..]);
      assert rs == [rs[0]] + rs[1..];
    }
  }

  // Lookup against the insertion history

  /** The first record with the id, by linear search. */
  function FirstWith(rs: seq<Record>, id: int): Option<Record> {
    if rs == [] then None else if rs[0].id == id then Some(rs[0]) else FirstWith(rs[1..], id)
  }

  lemma {:induction false} LookupInsert(t: Tree, r: Record, id: int)
    ensures Lookup(Insert(t, r), id) ==
            if Lookup(t, id).None? && r.id == id then Some(r) else Lookup(t, id)
  {
    if t.Node? {
      LookupInsert(if t.rec.id > r.id then t.left else t.right, r, id);
    }
  }

  lemma {:induction false} LookupInsertAll(t: Tree, rs: seq<Record>, id: int)
    ensures Lookup(InsertAll(t, rs), id) == if Lookup(t, id).None? then FirstWith(rs, id) else Lookup(t, id)
    decreases |rs|
  {
    if rs != [] {
      LookupInsert(t, rs[0], id);
      LookupInsertAll(Insert(t, rs[0]), rs[1..], id);
    }
  }

  lemma {:induction false} FirstWithNone(rs: seq<Record>, id: int)
    ensures FirstWith(rs, id).None? <==> forall i :: 0 <= i < |rs| ==> rs[i].id != id
  {
    if rs != [] {
      FirstWithNone(rs[1..], id);
      assert forall i :: 0 <= i < |rs[1..]| ==> rs[1..][i] == rs[i + 1];
      if FirstWith(rs, id).None? {
        forall i | 0 <= i < |rs| ensures rs[i].id != id {
          assert i > 0 ==> rs[i] == rs[1..][i - 1];
        }
      } else if rs[0].id != id {
        var i :| 0 <= i < |rs[1..]| && rs[1..][i].id == id;
        assert rs[i + 1].id == id;
      }
    }
  }

  /** get_stock agrees with a linear scan of the insertion history: the record inserted
      first among those with the id, and none if there is none. */
  lemma LookupIsFirstInserted(rs: seq<Record>, id: int)
    ensures Lookup(InsertAll(Leaf, rs), id) == FirstWith(rs, id)
    ensures FirstWith(rs, id).None? <==> forall i :: 0 <= i < |rs| ==> rs[i].id != id
  {
    LookupInsertAll(Leaf, rs, id);
    FirstWithNone(rs, id);
  }

  // Saving and reloading

  lemma {:induction false} InsertAllTwice(t: Tree, a: seq<Record>, b: seq<Record>)
    ensures InsertAll(t, a + b) == InsertAll(InsertAll(t, a), b)
    decreases |a|
  {
    if a == [] {
      assert a + b == b;
    } else {
      assert (a + b)[1..] == a[1..] + b;
      InsertAllTwice(Insert(t, a[0]), a[1..], b);
    }
  }

  lemma {:induction false} InsertAllLeft(t: Tree, rs: seq<Record>)
    requires t.Node? && AllBelow(rs, t.rec.id)
    ensures InsertAll(t, rs) == t.(left := InsertAll(t.left, rs))
    decreases |rs|
  {
    if rs != [] {
      assert rs[0] in rs && forall r {:trigger r in rs[1..]} :: r in rs[1..] ==> r in rs;
      InsertAllLeft(Insert(t, rs[0]), rs[1..]);
    }
  }

  lemma {:induction false} InsertAllRight(t: Tree, rs: seq<Record>)
    requires t.Node? && NoneBelow(rs, t.rec.id)
    ensures InsertAll(t, rs) == t.(right := InsertAll(t.right, rs))
    decreases |rs|
  {
    if rs != [] {
      assert rs[0] in rs && forall r {:trigger r in rs[1..]} :: r in rs[1..] ==> r in rs;
      InsertAllRight(Insert(t, rs[0]), rs[1..]);
    }
  }

  lemma {:induction false} ReloadRebuilds(t: Tree)
    requires Ordered(t)
    ensures InsertAll(Leaf, Preorder(t)) == t
  {
    if t.Node? {
      var one, ls, rs := Node(Leaf, t.rec, Leaf), Preorder(t.left), Preorder(t.right);
      assert Preorder(t) == [t.rec] + (ls + rs);
      assert Preorder(t)[1..] == ls + rs;
      InsertAllTwice(one, ls, rs);
      InsertAllLeft(one, ls);
      ReloadRebuilds(t.left);
      InsertAllRight(one.(left := t.left), rs);
      ReloadRebuilds(t.right);
    }
  }

  /** Reading back the preorder listing rebuilds the tree, shape and all, exactly for
      search trees. */
  lemma SaveReload(t: Tree)
    ensures InsertAll(Leaf, Preorder(t)) == t <==> Ordered(t)
  {
    if Ordered(t) {
      ReloadRebuilds(t);
    }
    InsertAllOrdered(Leaf, Preorder(t));
  }

  // Updates

  datatype Reply = NotFound | NotEnough | Success

  /** The node that get_stock finds gets delta more. */
  function AddCnt(t: Tree, id: int, delta: int): Tree {
    if t.Leaf? then t
    else if t.rec.id == id then t.(rec := t.rec.(cnt := t.rec.cnt + delta))
    else if t.rec.id > id then t.(left := AddCnt(t.left, id, delta))
    else t.(right := AddCnt(t.right, id, delta))
  }

  /** update_stock */
  function Update(t: Tree, id: int, delta: int): (Tree, Reply) {
    var target := Lookup(t, id);
    if target.None? then (t, NotFound)
    else if target.value.cnt + delta < 0 then (t, NotEnough)
    else (AddCnt(t, id, delta), Success)
  }

  ghost predicate NoNegative(t: Tree) {
    forall r {:trigger r in Preorder(t)} :: r in Preorder(t) ==> r.cnt >= 0
  }

  lemma {:induction false} AddCntLooksUp(t: Tree, id: int, delta: int, other: int)
    ensures Lookup(AddCnt(t, id, delta), other) ==
            if other == id && Lookup(t, id).Some?
            then Some(Lookup(t, id).value.(cnt := Lookup(t, id).value.cnt + delta))
            else Lookup(t, other)
  {
    if t.Node? && t.rec.id != id {
      AddCntLooksUp(if t.rec.id > id then t.left else t.right, id, delta, other);
    }
  }

  function Ids(rs: seq<Record>): seq<(int, int)> {
    seq(|rs|, i requires 0 <= i < |rs| => (rs[i].id, rs[i].price))
  }

  lemma IdsOfNode(t: Tree)
    requires t.Node?
    ensures Ids(Preorder(t)) == [(t.rec.id, t.rec.price)] + Ids(Preorder(t.left)) + Ids(Preorder(t.right))
  {
  }

  lemma {:induction false} AddCntKeepsIds(t: Tree, id: int, delta: int)
    ensures Ids(Preorder(AddCnt(t, id, delta))) == Ids(Preorder(t))
  {
    if t.Node? {
      IdsOfNode(t);
      IdsOfNode(AddCnt(t, id, delta));
      if t.rec.id > id {
        AddCntKeepsIds(t.left, id, delta);
      } else if t.rec.id < id {
        AddCntKeepsIds(t.right, id, delta);
      }
    }
  }

  lemma SameIdsBelow(a: seq<Record>, b: seq<Record>, id: int)
    requires Ids(a) == Ids(b)
    ensures AllBelow(a, id) == AllBelow(b, id) && NoneBelow(a, id) == NoneBelow(b, id)
  {
    assert |a| == |Ids(a)| == |Ids(b)| == |b|;
    forall i | 0 <= i < |a| ensures a[i].id == b[i].id && a[i] in a && b[i] in b {
      assert Ids(a)[i] == Ids(b)[i];
    }
    forall r | r in b && AllBelow(a, id) ensures r.id < id {
      var i :| 0 <= i < |b| && b[i] == r;
      assert a[i].id == b[i].id;
    }
    forall r | r in a && AllBelow(b, id) ensures r.id < id {
      var i :| 0 <= i < |a| && a[i] == r;
      assert a[i].id == b[i].id;
    }
    forall r | r in b && NoneBelow(a, id) ensures id <= r.id {
      var i :| 0 <= i < |b| && b[i] == r;
      assert a[i].id == b[i].id;
    }
    forall r | r in a && NoneBelow(b, id) ensures id <= r.id {
      var i :| 0 <= i < |a| && a[i] == r;
      assert a[i].id == b[i].id;
    }
  }

  lemma {:induction false} AddCntOrdered(t: Tree, id: int, delta: int)
    requires Ordered(t)
    ensures Ordered(AddCnt(t, id, delta))
  {
    if t.Node? {
      if t.rec.id > id {
        AddCntOrdered(t.left, id, delta);
        AddCntKeepsIds(t.left, id, delta);
        SameIdsBelow(Preorder(t.left), Preorder(AddCnt(t.left, id, delta)), t.rec.id);
      } else if t.rec.id < id {
        AddCntOrdered(t.right, id, delta);
        AddCntKeepsIds(t.right, id, delta);
        SameIdsBelow(Preorder(t.right), Preorder(AddCnt(t.right, id, delta)), t.rec.id);
      }
    }
  }

  /** The same nodes at the same places, whatever they hold. */
  predicate SameShape(t: Tree, u: Tree) {
    t.Leaf? == u.Leaf? && (t.Node? ==> SameShape(t.left, u.left) && SameShape(t.right, u.right))
  }

  lemma {:induction false} SameShapeItself(t: Tree)
    ensures SameShape(t, t)
  {
    if t.Node? {
      SameShapeItself(t.left);
      SameShapeItself(t.right);
    }
  }

  lemma {:induction false} AddCntShape(t: Tree, id: int, delta: int)
    ensures SameShape(t, AddCnt(t, id, delta))
  {
    SameShapeItself(t);
    if t.Node? {
      AddCntShape(t.left, id, delta);
      AddCntShape(t.right, id, delta);
    }
  }

  /** The listing with delta more at the first record with the id. */
  function Recounted(rs: seq<Record>, id: int, delta: int): seq<Record> {
    if rs == [] then []
    else if rs[0].id == id then [rs[0].(cnt := rs[0].cnt + delta)] + rs[1..]
    else [rs[0]] + Recounted(rs[1..], id, delta)
  }

  predicate Lacks(rs: seq<Record>, id: int) {
    rs == [] || (rs[0].id != id && Lacks(rs[1..], id))
  }

  lemma {:induction false} OutsideLacks(rs: seq<Record>, bound: int, id: int)
    requires (AllBelow(rs, bound) && bound <= id) || (NoneBelow(rs, bound) && id < bound)
    ensures Lacks(rs, id)
  {
    if rs != [] {
      assert rs[0] in rs;
      forall r {:trigger r in rs[1..]} | r in rs[1..] ensures r in rs {}
      OutsideLacks(rs[1..], bound, id);
    }
  }

  lemma {:induction false} NothingRecounted(rs: seq<Record>, id: int, delta: int)
    requires Lacks(rs, id)
    ensures Recounted(rs, id, delta) == rs
  {
    if rs != [] {
      NothingRecounted(rs[1..], id, delta);
      assert rs == [rs[0]] + rs[1..];
    }
  }

  lemma {:induction false} RecountedBehind(a: seq<Record>, b: seq<Record>, id: int, delta: int)
    requires Lacks(a, id)
    ensures Recounted(a + b, id, delta) == a + Recounted(b, id, delta)
  {
    if a == [] {
      assert a + b == b;
    } else {
      RecountedBehind(a[1..], b, id, delta);
      assert (a + b)[1..] == a[1..] + b && a == [a[0]] + a[1..];
    }
  }

  lemma {:induction false} RecountedBefore(a: seq<Record>, b: seq<Record>, id: int, delta: int)
    requires Lacks(b, id)
    ensures Recounted(a + b, id, delta) == Recounted(a, id, delta) + b
  {
    if a == [] {
      assert a + b == b;
      NothingRecounted(b, id, delta);
    } else {
      RecountedBefore(a[1..], b, id, delta);
      assert (a + b)[1..] == a[1..] + b;
    }
  }

  /** A record in front of two listings, of which the second or the first lacks the id. */
  lemma RecountedNode(x: Record, l: seq<Record>, r: seq<Record>, id: int, delta: int)
    ensures x.id == id ==> Recounted([x] + (l + r), id, delta) == [x.(cnt := x.cnt + delta)] + (l + r)
    ensures x.id != id && Lacks(r, id) ==> Recounted([x] + (l + r), id, delta) == [x] + (Recounted(l, id, delta) + r)
    ensures x.id != id && Lacks(l, id) ==> Recounted([x] + (l + r), id, delta) == [x] + (l + Recounted(r, id, delta))
  {
    hide Lacks;
    assert ([x] + (l + r))[1..] == l + r;
    if Lacks(r, id) { RecountedBefore(l, r, id, delta); }
    if Lacks(l, id) { RecountedBehind(l, r, id, delta); }
  }

  lemma ListingOfNode(t: Tree)
    requires t.Node?
    ensures Preorder(t) == [t.rec] + (Preorder(t.left) + Preorder(t.right))
  {
  }

  /** In a search tree the node that is found is the first of its id in the listing. */
  lemma {:induction false} AddCntRecounts(t: Tree, id: int, delta: int)
    requires Ordered(t)
    ensures Preorder(AddCnt(t, id, delta)) == Recounted(Preorder(t), id, delta)
  {
    if t.Node? {
      hide Preorder, Recounted, Lacks, AllBelow, NoneBelow;
      var l, r := Preorder(t.left), Preorder(t.right);
      ListingOfNode(t);
      ListingOfNode(AddCnt(t, id, delta));
      RecountedNode(t.rec, l, r, id, delta);
      if t.rec.id > id {
        AddCntRecounts(t.left, id, delta);
        OutsideLacks(r, t.rec.id, id);
      } else if t.rec.id < id {
        AddCntRecounts(t.right, id, delta);
        OutsideLacks(l, t.rec.id, id);
      }
    }
  }

  /** Every record after the update was there before, or is the updated one. */
  lemma {:induction false} AddCntMembers(t: Tree, id: int, delta: int)
    requires Lookup(t, id).Some?
    ensures forall r {:trigger r in Preorder(AddCnt(t, id, delta))} :: r in Preorder(AddCnt(t, id, delta)) ==>
      r in Preorder(t) || r == Lookup(t, id).value.(cnt := Lookup(t, id).value.cnt + delta)
  {
    if t.rec.id > id {
      AddCntMembers(t.left, id, delta);
    } else if t.rec.id < id {
      AddCntMembers(t.right, id, delta);
    }
  }

  /** What update_stock keeps: the search tree, its shape, and in the listing every record but
      the first one with the id, which only gets its new count; no count becomes negative. */
  lemma UpdateKeeps(t: Tree, id: int, delta: int, other: int)
    requires Ordered(t)
    ensures var (t', reply) := Update(t, id, delta);
      && Ordered(t') && SameShape(t, t') && Ids(Preorder(t')) == Ids(Preorder(t))
      && (reply == Success <==> Lookup(t, id).Some? && Lookup(t, id).value.cnt + delta >= 0)
      && (reply == NotFound <==> Lookup(t, id).None?)
      && (reply == NotEnough <==> Lookup(t, id).Some? && Lookup(t, id).value.cnt + delta < 0)
      && (reply != Success ==> t' == t)
      && (reply == Success ==> Preorder(t') == Recounted(Preorder(t), id, delta))
      && (reply == Success ==> Lookup(t', id) == Some(Lookup(t, id).value.(cnt := Lookup(t, id).value.cnt + delta)))
      && (other != id ==> Lookup(t', other) == Lookup(t, other))
      && (NoNegative(t) ==> NoNegative(t'))
  {
    hide Ordered, Preorder, SameShape, AddCnt, Lookup, Recounted;
    AddCntOrdered(t, id, delta);
    AddCntKeepsIds(t, id, delta);
    AddCntLooksUp(t, id, delta, id);
    AddCntLooksUp(t, id, delta, other);
    AddCntShape(t, id, delta);
    SameShapeItself(t);
    AddCntRecounts(t, id, delta);
    if Update(t, id, delta).1 == Success {
      AddCntMembers(t, id, delta);
    }
  }
}
