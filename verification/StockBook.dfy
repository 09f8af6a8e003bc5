/** The stock table as nodes that are linked. */
module StockBook {
  // task1/stock_endpoint.c: searched and extended by loops.

  import opened StockTree

  class Stock {
    var id: int
    var left: Stock?
    var right: Stock?
    var price: int
    var cnt: int

    constructor (id: int, price: int, cnt: int)
      ensures this.id == id && this.price == price && this.cnt == cnt && left == null && right == null
    {
      this.id, this.price, this.cnt := id, price, cnt;
      left, right := null, null;
    }
  }

  /** The nodes behind a pointer, arranged as the pointers arrange them. */
  datatype Shape = Nil | At(low: Shape, node: Stock, high: Shape)

  /** The fields of some nodes at one moment. */
  datatype Image = Image(left: map<Stock, Stock?>, right: map<Stock, Stock?>, rec: map<Stock, Record>)

  ghost function Nodes(s: Shape): set<Stock> {
    if s.Nil? then {} else Nodes(s.low) + {s.node} + Nodes(s.high)
  }

  ghost function Snap(nodes: set<Stock>): Image
    reads nodes
  {
    Image(map y | y in nodes :: y.left,
          map y | y in nodes :: y.right,
          map y | y in nodes :: Record(y.id, y.cnt, y.price))
  }

  predicate Known(im: Image, y: Stock) {
    y in im.left && y in im.right && y in im.rec
  }

  /** im shows these nodes as they are now. */
  ghost predicate Pictures(im: Image, nodes: set<Stock>)
    reads nodes
  {
    forall y {:trigger y in nodes} :: y in nodes ==>
      Known(im, y) && im.left[y] == y.left && im.right[y] == y.right && im.rec[y] == Record(y.id, y.cnt, y.price)
  }

  /** Since im was taken, x was hung at node at, and nothing else changed. */
  ghost predicate HungNow(nodes: set<Stock>, at: Stock, x: Stock, id: int, im: Image)
    reads nodes
  {
    forall y {:trigger y in nodes} :: y in nodes ==>
      && Known(im, y) && Record(y.id, y.cnt, y.price) == im.rec[y]
      && y.left == (if y == at && im.rec[y].id > id then x else im.left[y])
      && y.right == (if y == at && im.rec[y].id <= id then x else im.right[y])
  }

  predicate SameFields(im: Image, im': Image, y: Stock) {
    Known(im, y) && Known(im', y) && im.left[y] == im'.left[y] && im.right[y] == im'.right[y] && im.rec[y] == im'.rec[y]
  }

  /** s is what hangs at n; no node occurs twice. */
  ghost predicate Linked(s: Shape, n: Stock?, im: Image) {
    match s
    case Nil => n == null
    case At(low, node, high) =>
      && n == node && Known(im, node)
      && node !in Nodes(low) && node !in Nodes(high) && Nodes(low) !! Nodes(high)
      && Linked(low, im.left[node], im) && Linked(high, im.right[node], im)
  }

  ghost function Value(s: Shape, rec: map<Stock, Record>): Tree {
    if s.Nil? then Leaf
    else Node(Value(s.low, rec), if s.node in rec then rec[s.node] else Record(0, 0, 0), Value(s.high, rec))
  }

  function IdOf(rec: map<Stock, Record>, y: Stock): int {
    if y in rec then rec[y].id else 0
  }

  /** Searching s for the place of id leads to sub. */
  ghost predicate LeadsTo(s: Shape, sub: Shape, id: int, rec: map<Stock, Record>) {
    s == sub || (s.At? && LeadsTo(if IdOf(rec, s.node) > id then s.low else s.high, sub, id, rec))
  }

  /** s with x hung where the search for id ends. */
  ghost function Plug(s: Shape, x: Stock, id: int, rec: map<Stock, Record>): Shape {
    if s.Nil? then At(Nil, x, Nil)
    else if IdOf(rec, s.node) > id then s.(low := Plug(s.low, x, id, rec))
    else s.(high := Plug(s.high, x, id, rec))
  }

  lemma {:induction false} LeadsFurther(s: Shape, sub: Shape, id: int, rec: map<Stock, Record>)
    requires LeadsTo(s, sub, id, rec) && sub.At?
    ensures LeadsTo(s, if IdOf(rec, sub.node) > id then sub.low else sub.high, id, rec)
    ensures Nodes(sub) <= Nodes(s)
    decreases s
  {
    if s != sub {
      LeadsFurther(if IdOf(rec, s.node) > id then s.low else s.high, sub, id, rec);
    }
  }

  /** Nodes that did not change stay linked as they are. */
  lemma {:induction false} LinkedFrame(s: Shape, n: Stock?, im: Image, im': Image)
    requires Linked(s, n, im) && forall y {:trigger y in Nodes(s)} :: y in Nodes(s) ==> SameFields(im, im', y)
    ensures Linked(s, n, im') && Value(s, im'.rec) == Value(s, im.rec)
  {
    if s.At? {
      assert s.node in Nodes(s);
      LinkedFrame(s.low, im.left[s.node], im, im');
      LinkedFrame(s.high, im.right[s.node], im, im');
    }
  }

  predicate HungAt(at: Stock, x: Stock, id: int, im: Image, im': Image, y: Stock) {
    && Known(im, y) && Known(im', y) && im'.rec[y] == im.rec[y]
    && im'.left[y] == (if y == at && im.rec[y].id > id then x else im.left[y])
    && im'.right[y] == (if y == at && im.rec[y].id <= id then x else im.right[y])
  }

  /** Where the search for id ends, at sub, x was hung; nothing else changed. */
  ghost predicate Hung(s: Shape, sub: Shape, x: Stock, id: int, im: Image, im': Image)
    requires sub.At?
  {
    && Known(im', x) && im'.left[x] == null && im'.right[x] == null && im'.rec[x].id == id && x !in Nodes(s)
    && forall y {:trigger y in Nodes(s)} :: y in Nodes(s) ==> HungAt(sub.node, x, id, im, im', y)
  }

  lemma HungAtLeaf(x: Stock, id: int, im: Image, im': Image)
    requires Known(im', x) && im'.left[x] == null && im'.right[x] == null
    ensures var p := Plug(Nil, x, id, im.rec);
      Nodes(p) == Nodes(Nil) + {x} && Linked(p, x, im') && Value(p, im'.rec) == Insert(Value(Nil, im.rec), im'.rec[x])
  {
    assert Plug(Nil, x, id, im.rec) == At(Nil, x, Nil);
  }

  /** From the child that the search enters to the node above. */
  lemma PlugHigher(s: Shape, n: Stock?, x: Stock, id: int, im: Image, im': Image)
    requires s.At? && n == s.node && Linked(s, n, im) && Known(im', s.node) && im'.rec[s.node] == im.rec[s.node]
    requires x in im'.rec && x !in Nodes(s) && im'.rec[x].id == id
    requires var left := IdOf(im.rec, s.node) > id;
      var child, m := if left then s.low else s.high, if left then im'.left[s.node] else im'.right[s.node];
      && Nodes(Plug(child, x, id, im.rec)) == Nodes(child) + {x}
      && Linked(Plug(child, x, id, im.rec), m, im')
      && Value(Plug(child, x, id, im.rec), im'.rec) == Insert(Value(child, im.rec), im'.rec[x])
    requires var left := IdOf(im.rec, s.node) > id;
      var other, m := if left then s.high else s.low, if left then im'.right[s.node] else im'.left[s.node];
      Linked(other, m, im') && Value(other, im'.rec) == Value(other, im.rec)
    ensures Nodes(Plug(s, x, id, im.rec)) == Nodes(s) + {x}
    ensures Linked(Plug(s, x, id, im.rec), n, im')
    ensures Value(Plug(s, x, id, im.rec), im'.rec) == Insert(Value(s, im.rec), im'.rec[x])
  {
    if IdOf(im.rec, s.node) > id {
      assert Plug(s, x, id, im.rec) == At(Plug(s.low, x, id, im.rec), s.node, s.high);
    } else {
      assert Plug(s, x, id, im.rec) == At(s.low, s.node, Plug(s.high, x, id, im.rec));
    }
  }

  lemma {:induction false} LeadsInside(s: Shape, sub: Shape, id: int, rec: map<Stock, Record>)
    requires LeadsTo(s, sub, id, rec) && sub.At?
    ensures sub.node in Nodes(s)
    decreases s
  {
    if s != sub {
      LeadsInside(if IdOf(rec, s.node) > id then s.low else s.high, sub, id, rec);
    }
  }

  /** The subtree that the search does not enter is as before. */
  lemma OtherSide(s: Shape, sub: Shape, x: Stock, id: int, im: Image, im': Image)
    requires s.At? && Linked(s, s.node, im) && sub.At? && Hung(s, sub, x, id, im, im')
    requires s == sub || sub.node in Nodes(if IdOf(im.rec, s.node) > id then s.low else s.high)
    ensures var low := IdOf(im.rec, s.node) > id;
      var other, n := if low then s.high else s.low, if low then im.right[s.node] else im.left[s.node];
      Linked(other, n, im') && Value(other, im'.rec) == Value(other, im.rec)
  {
    var low := IdOf(im.rec, s.node) > id;
    var other, n := if low then s.high else s.low, if low then im.right[s.node] else im.left[s.node];
    forall y | y in Nodes(other) ensures SameFields(im, im', y) {
      assert y in Nodes(s);
      assert HungAt(sub.node, x, id, im, im', y);
    }
    LinkedFrame(other, n, im, im');
  }

  lemma {:induction false} HungIsPlugged(s: Shape, n: Stock?, sub: Shape, x: Stock, id: int, im: Image, im': Image)
    requires Linked(s, n, im) && LeadsTo(s, sub, id, im.rec) && sub.At? && Hung(s, sub, x, id, im, im')
    requires if IdOf(im.rec, sub.node) > id then sub.low.Nil? else sub.high.Nil?
    ensures Nodes(Plug(s, x, id, im.rec)) == Nodes(s) + {x}
    ensures Linked(Plug(s, x, id, im.rec), n, im')
    ensures Value(Plug(s, x, id, im.rec), im'.rec) == Insert(Value(s, im.rec), im'.rec[x])
    decreases s
  {
    assert s.node in Nodes(s);
    assert HungAt(sub.node, x, id, im, im', s.node);
    var left := IdOf(im.rec, s.node) > id;
    var child, m := if left then s.low else s.high, if left then im'.left[s.node] else im'.right[s.node];
    if s != sub {
      LeadsInside(child, sub, id, im.rec);
      HungIsPlugged(child, m, sub, x, id, im, im');
    } else {
      HungAtLeaf(x, id, im, im');
    }
    OtherSide(s, sub, x, id, im, im');
    PlugHigher(s, n, x, id, im, im');
  }

  /** Only the count of node x changed, by delta. */
  ghost predicate Recounted(s: Shape, x: Stock, delta: int, im: Image, im': Image) {
    forall y {:trigger y in Nodes(s)} :: y in Nodes(s) ==>
      && Known(im, y) && Known(im', y) && im'.left[y] == im.left[y] && im'.right[y] == im.right[y]
      && im'.rec[y] == if y == x then im.rec[y].(cnt := im.rec[y].cnt + delta) else im.rec[y]
  }

  lemma {:induction false} RecountedElsewhere(s: Shape, n: Stock?, x: Stock, delta: int, im: Image, im': Image)
    requires Linked(s, n, im) && Recounted(s, x, delta, im, im') && x !in Nodes(s)
    ensures Linked(s, n, im') && Value(s, im'.rec) == Value(s, im.rec)
  {
    forall y | y in Nodes(s) ensures SameFields(im, im', y) {}
    LinkedFrame(s, n, im, im');
  }

  /** Looking up id in s comes past sub. */
  ghost predicate Seeks(s: Shape, sub: Shape, id: int, rec: map<Stock, Record>) {
    || s == sub
    || ( && s.At? && IdOf(rec, s.node) != id
         && Seeks(if IdOf(rec, s.node) > id then s.low else s.high, sub, id, rec))
  }

  lemma {:induction false} SeeksInside(s: Shape, sub: Shape, id: int, rec: map<Stock, Record>)
    requires Seeks(s, sub, id, rec) && sub.At?
    ensures sub.node in Nodes(s) && Nodes(sub) <= Nodes(s)
    decreases s
  {
    if s != sub {
      SeeksInside(if IdOf(rec, s.node) > id then s.low else s.high, sub, id, rec);
    }
  }

  lemma {:induction false} RecountedIsAddCnt(s: Shape, n: Stock?, sub: Shape, id: int, delta: int, im: Image,
        im': Image)
    requires Linked(s, n, im) && Seeks(s, sub, id, im.rec) && sub.At? && IdOf(im.rec, sub.node) == id
    requires Recounted(s, sub.node, delta, im, im')
    ensures Linked(s, n, im') && Value(s, im'.rec) == AddCnt(Value(s, im.rec), id, delta)
    decreases s
  {
    assert s.node in Nodes(s);
    if s == sub {
      RecountedElsewhere(s.low, im.left[s.node], s.node, delta, im, im');
      RecountedElsewhere(s.high, im.right[s.node], s.node, delta, im, im');
    } else if IdOf(im.rec, s.node) > id {
      SeeksInside(s.low, sub, id, im.rec);
      RecountedElsewhere(s.high, im.right[s.node], sub.node, delta, im, im');
      RecountedIsAddCnt(s.low, im.left[s.node], sub, id, delta, im, im');
    } else {
      SeeksInside(s.high, sub, id, im.rec);
      RecountedElsewhere(s.low, im.left[s.node], sub.node, delta, im, im');
      RecountedIsAddCnt(s.high, im.right[s.node], sub, id, delta, im, im');
    }
  }

  lemma {:induction false} SeeksFurther(s: Shape, sub: Shape, id: int, rec: map<Stock, Record>)
    requires Seeks(s, sub, id, rec) && sub.At? && IdOf(rec, sub.node) != id
    ensures Seeks(s, if IdOf(rec, sub.node) > id then sub.low else sub.high, id, rec)
    decreases s
  {
    if s != sub {
      SeeksFurther(if IdOf(rec, s.node) > id then s.low else s.high, sub, id, rec);
    }
  }

  /** What a node of a linked shape looks like. */
  lemma Opened(sub: Shape, cur: Stock?, im: Image)
    requires Linked(sub, cur, im)
    ensures cur == null <==> sub.Nil?
    ensures sub.At? ==>
      && cur == sub.node && cur in Nodes(sub) && Nodes(sub.low) <= Nodes(sub) && Nodes(sub.high) <= Nodes(sub)
      && cur !in Nodes(sub.low) && cur !in Nodes(sub.high) && Known(im, cur)
      && Linked(sub.low, im.left[cur], im) && Linked(sub.high, im.right[cur], im)
      && (im.left[cur] == null <==> sub.low.Nil?) && (im.right[cur] == null <==> sub.high.Nil?)
  {
  }

  lemma NowHung(s: Shape, sub: Shape, x: Stock, id: int, im: Image)
    requires sub.At? && HungNow(Nodes(s), sub.node, x, id, im) && x !in Nodes(s)
    requires x.left == null && x.right == null && x.id == id
    ensures Hung(s, sub, x, id, im, Snap(Nodes(s) + {x}))
    ensures Snap(Nodes(s) + {x}).rec[x] == Record(x.id, x.cnt, x.price)
  {
    var im' := Snap(Nodes(s) + {x});
    forall y | y in Nodes(s) ensures HungAt(sub.node, x, id, im, im', y) {}
  }

  lemma Snapped(nodes: set<Stock>)
    ensures Pictures(Snap(nodes), nodes)
  {
  }

  lemma SearchStarts(s: Shape, id: int, rec: map<Stock, Record>)
    ensures LeadsTo(s, s, id, rec) && Seeks(s, s, id, rec)
  {
  }

  lemma EmptyValue(rec: map<Stock, Record>)
    ensures Value(Nil, rec) == Leaf && Nodes(Nil) == {}
  {
  }

  lemma OneNode(x: Stock, im: Image)
    requires Known(im, x) && im.left[x] == null && im.right[x] == null
    ensures Nodes(At(Nil, x, Nil)) == {x} && Linked(At(Nil, x, Nil), x, im)
    ensures Value(At(Nil, x, Nil), im.rec) == Insert(Leaf, im.rec[x])
  {
  }

  lemma Pictured(im: Image, nodes: set<Stock>, y: Stock)
    requires Pictures(im, nodes) && y in nodes
    ensures Known(im, y) && im.left[y] == y.left && im.right[y] == y.right && im.rec[y] == Record(y.id, y.cnt, y.price)
  {
  }

  /** cur->left_stock = new_stock */
  method SetLeft(at: Stock, x: Stock, id: int, ghost nodes: set<Stock>, ghost im: Image)
    requires Pictures(im, nodes) && at in nodes && at.id > id && x !in nodes
    modifies at`left
    ensures HungNow(nodes, at, x, id, im)
  {
    at.left := x;
  }

  /** cur->right_stock = new_stock */
  method SetRight(at: Stock, x: Stock, id: int, ghost nodes: set<Stock>, ghost im: Image)
    requires Pictures(im, nodes) && at in nodes && at.id <= id && x !in nodes
    modifies at`right
    ensures HungNow(nodes, at, x, id, im)
  {
    at.right := x;
  }

  lemma Listed(sub: Shape, rec: map<Stock, Record>)
    ensures sub.Nil? ==> Preorder(Value(sub, rec)) == []
    ensures sub.At? && sub.node in rec ==>
      Preorder(Value(sub, rec)) == [rec[sub.node]] + Preorder(Value(sub.low, rec)) + Preorder(Value(sub.high, rec))
  {
  }

  class Book {
    var root: Stock?
    var stockInfo: seq<Record>
    ghost var shape: Shape

    ghost predicate Valid()
      reads this, Nodes(shape)
    {
      Linked(shape, root, Snap(Nodes(shape)))
    }

    ghost function Tree(): StockTree.Tree
      reads this, Nodes(shape)
    {
      Value(shape, Snap(Nodes(shape)).rec)
    }

    constructor ()
      ensures Valid() && Tree() == Leaf && Nodes(shape) == {}
    {
      root, stockInfo, shape := null, [], Nil;
    }

    /** insert_stock */
    method InsertStock(id: int, price: int, cnt: int) returns (ghost newNode: Stock)
      requires Valid()
      modifies this`root, this`shape, Nodes(shape)
      ensures Valid() && fresh(newNode) && Nodes(shape) == old(Nodes(shape)) + {newNode}
      ensures Tree() == Insert(old(Tree()), Record(id, cnt, price))
    {
      hide Linked, Value, Insert, Nodes;
      ghost var im, nodes := Snap(Nodes(shape)), Nodes(shape);
      Opened(shape, root, im);
      var newStock := new Stock(id, price, cnt);
      newNode := newStock;
      assert newStock !in nodes;
      if root == null {
        EmptyValue(im.rec);
        root := newStock;
        shape := At(Nil, newStock, Nil);
        OneNode(newStock, Snap({newStock}));
      } else {
        HangInTree(newStock, im);
      }
    }

    /** insert_stock, the loop: walks down and hangs the new node where the walk ends. */
    method HangInTree(newStock: Stock, ghost im: Image)
      requires root != null && Linked(shape, root, im) && Pictures(im, Nodes(shape))
      requires newStock !in Nodes(shape) && newStock.left == null && newStock.right == null
      modifies this`shape, Nodes(shape)
      ensures Valid() && Nodes(shape) == old(Nodes(shape)) + {newStock}
      ensures Tree() == Insert(old(Value(shape, im.rec)), Record(newStock.id, newStock.cnt, newStock.price))
    {
      hide Linked, Value, LeadsTo, Plug, Insert, Nodes, Snap, Pictures, HungNow, Hung;
      ghost var nodes := Nodes(shape);
      var cur := root;
      ghost var sub := shape;
      Opened(sub, cur, im);
      SearchStarts(shape, newStock.id, im.rec);
      while cur != null
        invariant shape == old(shape) && nodes == Nodes(shape) && Pictures(im, nodes)
        invariant sub.At? && cur == sub.node && Linked(sub, cur, im) && LeadsTo(shape, sub, newStock.id, im.rec)
        invariant Nodes(sub) <= nodes
        decreases sub
      {
        Opened(sub, cur, im);
        Pictured(im, nodes, cur);
        LeadsFurther(shape, sub, newStock.id, im.rec);
        if cur.id > newStock.id {
          if cur.left == null {
            SetLeft(cur, newStock, newStock.id, nodes, im);
            break;
          }
          cur := cur.left;
          sub := sub.low;
        } else {
          if cur.right == null {
            SetRight(cur, newStock, newStock.id, nodes, im);
            break;
          }
          cur := cur.right;
          sub := sub.high;
        }
        Opened(sub, cur, im);
      }
      NowHung(shape, sub, newStock, newStock.id, im);
      HungIsPlugged(shape, root, sub, newStock, newStock.id, im, Snap(nodes + {newStock}));
      shape := Plug(shape, newStock, newStock.id, im.rec);
    }

    /** get_stock: null, or the node that the search finds. */
    method GetStock(id: int) returns (r: Stock?, ghost sub: Shape)
      requires Valid()
      ensures r == null <==> Lookup(Tree(), id).None?
      ensures r != null ==> sub.At? && r == sub.node && r in Nodes(shape) && r.id == id
                            && Seeks(shape, sub, id, Snap(Nodes(shape)).rec)
                            && Lookup(Tree(), id) == Some(Record(r.id, r.cnt, r.price))
    {
      ghost var im := Snap(Nodes(shape));
      var cur := root;
      sub := shape;
      while cur != null
        invariant Linked(sub, cur, im) && Seeks(shape, sub, id, im.rec) && (sub.At? ==> Nodes(sub) <= Nodes(shape))
        invariant Lookup(Tree(), id) == Lookup(Value(sub, im.rec), id)
        decreases sub
      {
        SeeksInside(shape, sub, id, im.rec);
        if cur.id == id {
          break;
        }
        SeeksFurther(shape, sub, id, im.rec);
        if cur.id > id {
          if cur.left == null {
            cur := null;
            sub := sub.low;
            break;
          }
          cur := cur.left;
          sub := sub.low;
        } else {
          if cur.right == null {
            cur := null;
            sub := sub.high;
            break;
          }
          cur := cur.right;
          sub := sub.high;
        }
      }
      return cur, sub;
    }

    /** update_stock */
    method UpdateStock(id: int, cnt: int) returns (reply: Reply)
      requires Valid()
      modifies Nodes(shape)
      ensures Valid() && (Tree(), reply) == Update(old(Tree()), id, cnt)
    {
      hide Linked, Value, AddCnt, Nodes, Seeks, Lookup;
      ghost var im := Snap(Nodes(shape));
      var target, sub := GetStock(id);
      if target == null {
        return NotFound;
      }
      if target.cnt + cnt < 0 {
        return NotEnough;
      }
      target.cnt := target.cnt + cnt;
      RecountedIsAddCnt(shape, root, sub, id, cnt, im, Snap(Nodes(shape)));
      return Success;
    }

    /** set_stocks_info: the listing restarts at the root and grows by every subtree. */
    method SetStocksInfo(cur: Stock?, ghost sub: Shape, ghost im: Image)
      requires Pictures(im, Nodes(sub)) && Linked(sub, cur, im)
      requires cur == root || (root != null && root !in Nodes(sub))
      modifies this`stockInfo
      ensures stockInfo == (if cur == root then [] else old(stockInfo)) + Preorder(Value(sub, im.rec))
      decreases sub
    {
      hide Linked, Value, Preorder, Nodes;
      if cur == root {
        stockInfo := [];
      }
      Opened(sub, cur, im);
      Listed(sub, im.rec);
      if cur != null {
        stockInfo := stockInfo + [Record(cur.id, cur.cnt, cur.price)];
        Opened(sub.low, cur.left, im);
        Opened(sub.high, cur.right, im);
        SetStocksInfo(cur.left, sub.low, im);
        SetStocksInfo(cur.right, sub.high, im);
      }
    }

    /** write_to_file: what goes into the file. */
    method WriteToFile() returns (file: seq<Record>)
      requires Valid()
      modifies this`stockInfo
      ensures file == Preorder(Tree()) && Tree() == old(Tree()) && Valid()
    {
      hide Linked, Value, Preorder;
      ghost var im := Snap(Nodes(shape));
      SetStocksInfo(root, shape, im);
      file := stockInfo;
    }

    /** init_stock: one insertion per record of the file. */
    method InitStock(file: seq<Record>)
      requires Valid()
      modifies this, Nodes(shape)
      ensures Valid() && Tree() == InsertAll(old(Tree()), file) && fresh(Nodes(shape) - old(Nodes(shape)))
      ensures stockInfo == Preorder(Tree())
    {
      hide Linked, Value, Preorder, Insert, Nodes, Snap;
      assert file[0..] == file;
      ghost var first, made := Nodes(shape), {};
      var i := 0;
      while i < |file|
        invariant i <= |file| && Valid() && fresh(made) && Nodes(shape) <= first + made
        invariant InsertAll(Tree(), file[i..]) == InsertAll(old(Tree()), file)
      {
        assert file[i..][1..] == file[i + 1..];
        ghost var newNode := InsertStock(file[i].id, file[i].price, file[i].cnt);
        made := made + {newNode};
        i := i + 1;
      }
      assert file[i..] == [];
      ghost var im := Snap(Nodes(shape));
      Snapped(Nodes(shape));
      SetStocksInfo(root, shape, im);
    }
  }
}
