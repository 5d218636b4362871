/**
 * The generic, unbalanced binary search tree (`MyBST`) and its nodes
 * (`BSTNode`). The Java helpers return the new subtree and re-link it
 * (`root = add(root, e)`, `node.setLeft(recRemove(...))`), so a subtree is a
 * value here and the helpers are functions; the class keeps `root` and `size`
 * and updates them in place. The element order is the comparator `cmp`,
 * standing for `E.compareTo`.
 */
module BST {
  import opened Wrappers

  /** An empty child slot (null) or a node owning its two subtrees. */
  datatype BTree<T> = Empty | Node(left: BTree<T>, data: T, right: BTree<T>)
  {
    /** `setData`: replaces the data and keeps both children. */
    function SetData(d: T): (n: BTree<T>)
      requires Node?
      ensures n.Node? && n.data == d && n.left == left && n.right == right
    {
      this.(data := d)
    }

    /** `setLeft`: replaces the left child and keeps the data and the right child. */
    function SetLeft(l: BTree<T>): (n: BTree<T>)
      requires Node?
      ensures n.Node? && n.left == l && n.data == data && n.right == right
    {
      this.(left := l)
    }

    /** `setRight`: replaces the right child and keeps the data and the left child. */
    function SetRight(r: BTree<T>): (n: BTree<T>)
      requires Node?
      ensures n.Node? && n.right == r && n.data == data && n.left == left
    {
      this.(right := r)
    }
  }

  /** `new BSTNode(data)`: a node holding `data` with no children. */
  function NewNode<T>(data: T): (n: BTree<T>)
    ensures n.Node? && n.data == data && n.left == Empty && n.right == Empty
    ensures Elements(n) == {data} && Leaves(n) == {data}
  {
    Node(Empty, data, Empty)
  }

  /** `BSTNode.compareTo`: nodes compare as their data do. */
  function CompareNodes<T>(a: BTree<T>, b: BTree<T>, cmp: (T, T) -> int): (r: int)
    requires a.Node? && b.Node?
    ensures r == cmp(a.data, b.data)
  {
    cmp(a.data, b.data)
  }

  /**
   * What `compareTo` must satisfy for the tree to work: the sign is
   * antisymmetric, and "less than" is transitive through "at most".
   */
  ghost predicate IsOrder<T(!new)>(cmp: (T, T) -> int) {
    && (forall a, b :: cmp(a, b) < 0 <==> cmp(b, a) > 0)
    && (forall a, b, c :: cmp(a, b) < 0 && cmp(b, c) <= 0 ==> cmp(a, c) < 0)
    && (forall a, b, c :: cmp(a, b) <= 0 && cmp(b, c) < 0 ==> cmp(a, c) < 0)
  }

  ghost function Elements<T>(t: BTree<T>): set<T> {
    match t
    case Empty => {}
    case Node(l, d, r) => Elements(l) + {d} + Elements(r)
  }

  /** The data held in nodes that have no children. */
  ghost function Leaves<T>(t: BTree<T>): set<T> {
    match t
    case Empty => {}
    case Node(l, d, r) => if l == Empty && r == Empty then {d} else Leaves(l) + Leaves(r)
  }

  function NodeCount<T>(t: BTree<T>): nat {
    match t
    case Empty => 0
    case Node(l, _, r) => NodeCount(l) + 1 + NodeCount(r)
  }

  /** Left, node, right. */
  ghost function InOrder<T>(t: BTree<T>): seq<T> {
    match t
    case Empty => []
    case Node(l, d, r) => InOrder(l) + [d] + InOrder(r)
  }

  /** `", " + e` for each element of `s`, in order: what an in-order traversal prints. */
  function Listing<T>(s: seq<T>, show: T -> string): (r: string)
    ensures |r| >= 2 * |s|
  {
    if s == [] then [] else ", " + show(s[0]) + Listing(s[1..], show)
  }

  lemma {:induction false} ListingAppend<T>(a: seq<T>, b: seq<T>, show: T -> string)
    ensures Listing(a + b, show) == Listing(a, show) + Listing(b, show)
  {
    if a != [] {
      assert (a + b)[0] == a[0] && (a + b)[1..] == a[1..] + b;
      ListingAppend(a[1..], b, show);
      var h := ", " + show(a[0]);
      assert Listing(a + b, show) == h + (Listing(a[1..], show) + Listing(b, show));
      assert Listing(a, show) == h + Listing(a[1..], show);
    } else {
      assert a + b == b;
    }
  }

  /**
   * `inOrderTraversal` as written: the calls on the two children are made
   * but their results are dropped, so only the node's own data is printed.
   */
  function Traversal<T>(t: BTree<T>, show: T -> string): (r: string)
    ensures t == Empty ==> r == []
    ensures t.Node? ==> r == Listing([t.data], show)
  {
    if t == Empty then [] else ", " + show(t.data)
  }

  /** `inOrderTraversal` with the children's results kept: left, node, right. */
  function InOrderListing<T>(t: BTree<T>, show: T -> string): string {
    match t
    case Empty => []
    case Node(l, d, r) => InOrderListing(l, show) + ", " + show(d) + InOrderListing(r, show)
  }

  /** The corrected traversal prints every element in in-order, which `InOrderSorted` shows is ascending. */
  lemma {:induction false} InOrderListingCorrect<T>(t: BTree<T>, show: T -> string)
    ensures InOrderListing(t, show) == Listing(InOrder(t), show)
  {
    if t.Node? {
      InOrderListingCorrect(t.left, show);
      InOrderListingCorrect(t.right, show);
      ListingAppend(InOrder(t.left) + [t.data], InOrder(t.right), show);
      ListingAppend(InOrder(t.left), [t.data], show);
    }
  }

  /** A node with a child prints strictly less than its in-order listing: the children are lost. */
  lemma TraversalDropsChildren<T>(t: BTree<T>, show: T -> string)
    requires t.Node? && (t.left.Node? || t.right.Node?)
    ensures |Traversal(t, show)| < |Listing(InOrder(t), show)|
  {
    InOrderListingCorrect(t, show);
    InOrderElements(t);
    assert NodeCount(t) >= 2;
    assert Listing([t.data], show) == ", " + show(t.data) + [];
  }

  /** Everything left of a node orders before it, everything right of it after it. */
  ghost predicate IsBST<T>(t: BTree<T>, cmp: (T, T) -> int) {
    match t
    case Empty => true
    case Node(l, d, r) =>
      && IsBST(l, cmp) && IsBST(r, cmp)
      && (forall e :: e in Elements(l) ==> cmp(e, d) < 0)
      && (forall e :: e in Elements(r) ==> cmp(e, d) > 0)
  }

  /** The stored elements that compare equal to `x`. */
  ghost function Matches<T>(t: BTree<T>, x: T, cmp: (T, T) -> int): set<T> {
    set e | e in Elements(t) && cmp(x, e) == 0
  }

  // ------------------------------------------------------------ search

  /** The private `contains(node, o)`: descend left or right until an equal element or an empty slot. */
  function Member<T>(t: BTree<T>, x: T, cmp: (T, T) -> int): bool {
    match t
    case Empty => false
    case Node(l, d, r) =>
      if cmp(x, d) < 0 then Member(l, x, cmp)
      else if cmp(x, d) > 0 then Member(r, x, cmp)
      else true
  }

  /** In a search tree, the descent finds `x` exactly when some stored element compares equal to it. */
  lemma {:induction false} MemberCorrect<T(!new)>(t: BTree<T>, x: T, cmp: (T, T) -> int)
    requires IsOrder(cmp) && IsBST(t, cmp)
    ensures Member(t, x, cmp) <==> Matches(t, x, cmp) != {}
  {
    match t
    case Empty =>
    case Node(l, d, r) =>
      if cmp(x, d) < 0 {
        MemberCorrect(l, x, cmp);
        MatchesOnlyLeft(t, x, cmp);
      } else if cmp(x, d) > 0 {
        MemberCorrect(r, x, cmp);
        MatchesOnlyRight(t, x, cmp);
      } else {
        MatchesOnlyRoot(t, x, cmp);
      }
  }

  /** A search tree stores no two elements that compare equal, so its node count is its number of elements. */
  lemma {:induction false} SizeIsElementCount<T(!new)>(t: BTree<T>, cmp: (T, T) -> int)
    requires IsOrder(cmp) && IsBST(t, cmp)
    ensures |Elements(t)| == NodeCount(t)
  {
    match t
    case Empty =>
    case Node(l, d, r) =>
      SizeIsElementCount(l, cmp);
      SizeIsElementCount(r, cmp);
      NodeApart(t, cmp);
      DisjointUnionSize(Elements(l), d, Elements(r));
  }

  /** The node's own data is in neither subtree, and no element is in both. */
  lemma NodeApart<T(!new)>(t: BTree<T>, cmp: (T, T) -> int)
    requires IsOrder(cmp) && IsBST(t, cmp) && t.Node?
    ensures t.data !in Elements(t.left) && t.data !in Elements(t.right)
    ensures Elements(t.left) !! Elements(t.right)
  {
    assert cmp(t.data, t.data) == 0;
  }

  lemma DisjointUnionSize<T>(a: set<T>, d: T, b: set<T>)
    requires d !in a && d !in b && a !! b
    ensures |a + {d} + b| == |a| + 1 + |b|
  {
    assert a + {d} + b == (a + b) + {d};
  }

  /** Each element of `s` orders strictly before every later one. */
  ghost predicate Ascending<T>(s: seq<T>, cmp: (T, T) -> int) {
    forall i, j :: 0 <= i < j < |s| ==> cmp(s[i], s[j]) < 0
  }

  /** Two ascending runs, each element of the first before each of the second, concatenate to an ascending run. */
  lemma AscendingConcat<T>(x: seq<T>, y: seq<T>, cmp: (T, T) -> int)
    requires Ascending(x, cmp) && Ascending(y, cmp)
    requires forall i, j :: 0 <= i < |x| && 0 <= j < |y| ==> cmp(x[i], y[j]) < 0
    ensures Ascending(x + y, cmp)
  {
    var s := x + y;
    forall i, j | 0 <= i < j < |s| ensures cmp(s[i], s[j]) < 0 {
      if j < |x| {
        assert s[i] == x[i] && s[j] == x[j];
      } else if i >= |x| {
        assert s[i] == y[i - |x|] && s[j] == y[j - |x|];
      } else {
        assert s[i] == x[i] && s[j] == y[j - |x|];
      }
    }
  }

  /** Two ascending runs joined around a separator that lies between them form one ascending run. */
  lemma AscendingJoin<T(!new)>(a: seq<T>, d: T, b: seq<T>, cmp: (T, T) -> int)
    requires IsOrder(cmp) && Ascending(a, cmp) && Ascending(b, cmp)
    requires forall e :: e in a ==> cmp(e, d) < 0
    requires forall e :: e in b ==> cmp(e, d) > 0
    ensures Ascending(a + [d] + b, cmp)
  {
    forall i | 0 <= i < |a| ensures cmp(a[i], d) < 0 {
      assert a[i] in a;
    }
    AscendingConcat(a, [d], cmp);
    var x := a + [d];
    forall i, j | 0 <= i < |x| && 0 <= j < |b| ensures cmp(x[i], b[j]) < 0 {
      assert b[j] in b;
      assert cmp(d, b[j]) < 0;
      if i < |a| {
        assert x[i] == a[i];
      }
    }
    AscendingConcat(x, b, cmp);
  }

  /** In-order traversal of a search tree is strictly increasing. */
  lemma {:induction false} InOrderSorted<T(!new)>(t: BTree<T>, cmp: (T, T) -> int)
    requires IsOrder(cmp) && IsBST(t, cmp)
    ensures Ascending(InOrder(t), cmp)
  {
    match t
    case Empty =>
    case Node(l, d, r) =>
      InOrderSorted(l, cmp);
      InOrderSorted(r, cmp);
      InOrderElements(l);
      InOrderElements(r);
      AscendingJoin(InOrder(l), d, InOrder(r), cmp);
  }

  /** The traversal lists every element, one per node. */
  lemma {:induction false} InOrderElements<T>(t: BTree<T>)
    ensures |InOrder(t)| == NodeCount(t)
    ensures forall e :: e in Elements(t) <==> e in InOrder(t)
  {
    match t
    case Empty =>
    case Node(l, d, r) =>
      InOrderElements(l);
      InOrderElements(r);
  }

  // ------------------------------------------------------------ insertion

  /**
   * The private `add(current, newData)`: descend as `contains` does and hang a
   * new leaf in the empty slot reached; an equal element stops the descent and
   * leaves the subtree as it was.
   */
  function Insert<T>(t: BTree<T>, x: T, cmp: (T, T) -> int): (r: BTree<T>)
    ensures Member(t, x, cmp) ==> r == t
    ensures !Member(t, x, cmp) ==> Elements(r) == Elements(t) + {x} && NodeCount(r) == NodeCount(t) + 1 && x in Leaves(r)
  {
    match t
    case Empty => NewNode(x)
    case Node(l, d, r) =>
      if cmp(x, d) < 0 then t.SetLeft(Insert(l, x, cmp))
      else if cmp(x, d) > 0 then t.SetRight(Insert(r, x, cmp))
      else t
  }

  /** Insertion keeps the search-tree order. */
  lemma {:induction false} InsertKeepsOrder<T>(t: BTree<T>, x: T, cmp: (T, T) -> int)
    requires IsBST(t, cmp)
    ensures IsBST(Insert(t, x, cmp), cmp)
  {
    match t
    case Empty =>
    case Node(l, d, r) =>
      if cmp(x, d) < 0 {
        InsertKeepsOrder(l, x, cmp);
      } else if cmp(x, d) > 0 {
        InsertKeepsOrder(r, x, cmp);
      }
  }
  // ------------------------------------------------------------ extremes

  /** The node reached by following left children: the minimum. */
  function Leftmost<T>(t: BTree<T>): T
    requires t.Node?
  {
    if t.left == Empty then t.data else Leftmost(t.left)
  }

  /** The node reached by following right children: the maximum, and the predecessor of a parent whose left subtree this is. */
  function Rightmost<T>(t: BTree<T>): T
    requires t.Node?
  {
    if t.right == Empty then t.data else Rightmost(t.right)
  }

  lemma {:induction false} LeftmostIsMin<T(!new)>(t: BTree<T>, cmp: (T, T) -> int)
    requires IsOrder(cmp) && IsBST(t, cmp) && t.Node?
    ensures Leftmost(t) in Elements(t)
    ensures forall e :: e in Elements(t) && e != Leftmost(t) ==> cmp(Leftmost(t), e) < 0
  {
    var m := Leftmost(t);
    if t.left != Empty {
      LeftmostIsMin(t.left, cmp);
      assert cmp(m, t.data) < 0;
      forall e | e in Elements(t.right) ensures cmp(m, e) < 0 {
        assert cmp(t.data, e) < 0;
      }
    } else {
      forall e | e in Elements(t.right) ensures cmp(m, e) < 0 {
        assert cmp(e, t.data) > 0;
      }
    }
  }

  lemma {:induction false} RightmostIsMax<T(!new)>(t: BTree<T>, cmp: (T, T) -> int)
    requires IsOrder(cmp) && IsBST(t, cmp) && t.Node?
    ensures Rightmost(t) in Elements(t)
    ensures forall e :: e in Elements(t) && e != Rightmost(t) ==> cmp(e, Rightmost(t)) < 0
  {
    var m := Rightmost(t);
    if t.right != Empty {
      RightmostIsMax(t.right, cmp);
      assert cmp(m, t.data) > 0;
      assert cmp(t.data, m) < 0;
    }
  }

  // ------------------------------------------------------------ removal

  /** The private `recRemove(node, o)`: descend to the node equal to `x` and remove its data there. */
  function Delete<T>(t: BTree<T>, x: T, cmp: (T, T) -> int): (r: BTree<T>)
    ensures !Member(t, x, cmp) ==> r == t
    decreases t, 1
  {
    match t
    case Empty => Empty
    case Node(l, d, r) =>
      if cmp(x, d) < 0 then t.SetLeft(Delete(l, x, cmp))
      else if cmp(x, d) > 0 then t.SetRight(Delete(r, x, cmp))
      else DeleteRoot(t, cmp)
  }

  /**
   * The private `remove(node)`: a node with at most one child is replaced by
   * that child; otherwise it takes the data of its predecessor, which is then
   * removed from the left subtree.
   */
  function DeleteRoot<T>(t: BTree<T>, cmp: (T, T) -> int): BTree<T>
    requires t.Node?
    decreases t, 0
  {
    if t.left == Empty then t.right
    else if t.right == Empty then t.left
    else
      var p := Rightmost(t.left);
      t.SetData(p).SetLeft(Delete(t.left, p, cmp))
  }

  /** Removing from a search tree drops exactly the elements equal to `x`, one node if there is one, and keeps the order. */
  lemma {:induction false} DeleteCorrect<T(!new)>(t: BTree<T>, x: T, cmp: (T, T) -> int)
    requires IsOrder(cmp) && IsBST(t, cmp)
    ensures IsBST(Delete(t, x, cmp), cmp)
    ensures Elements(Delete(t, x, cmp)) == Elements(t) - Matches(t, x, cmp)
    ensures NodeCount(Delete(t, x, cmp)) == NodeCount(t) - (if Matches(t, x, cmp) == {} then 0 else 1)
    decreases t, 1
  {
    match t
    case Empty =>
    case Node(l, d, r) =>
      NodeApart(t, cmp);
      if cmp(x, d) < 0 {
        DeleteCorrect(l, x, cmp);
        MatchesOnlyLeft(t, x, cmp);
        RemoveFromLeft(Elements(l), d, Elements(r), Matches(l, x, cmp));
      } else if cmp(x, d) > 0 {
        DeleteCorrect(r, x, cmp);
        MatchesOnlyRight(t, x, cmp);
        RemoveFromRight(Elements(l), d, Elements(r), Matches(r, x, cmp));
      } else {
        DeleteRootCorrect(t, cmp);
        MatchesOnlyRoot(t, x, cmp);
      }
  }

  lemma RemoveFromLeft<T>(a: set<T>, d: T, b: set<T>, m: set<T>)
    requires m <= a && d !in a && a !! b
    ensures (a - m) + {d} + b == (a + {d} + b) - m
  {
  }

  lemma RemoveFromRight<T>(a: set<T>, d: T, b: set<T>, m: set<T>)
    requires m <= b && d !in b && a !! b
    ensures a + {d} + (b - m) == (a + {d} + b) - m
  {
  }

  lemma ReplaceRoot<T>(a: set<T>, p: T, d: T, b: set<T>)
    requires p in a && d !in a && d !in b && a !! b
    ensures (a - {p}) + {p} + b == (a + {d} + b) - {d}
  {
  }

  /** An `x` below the node's data can only match in the left subtree. */
  lemma MatchesOnlyLeft<T(!new)>(t: BTree<T>, x: T, cmp: (T, T) -> int)
    requires IsOrder(cmp) && IsBST(t, cmp) && t.Node? && cmp(x, t.data) < 0
    ensures Matches(t, x, cmp) == Matches(t.left, x, cmp)
  {
    forall e | e in Elements(t.right) ensures cmp(x, e) != 0 {
      assert cmp(t.data, e) < 0;
    }
  }

  /** An `x` above the node's data can only match in the right subtree. */
  lemma MatchesOnlyRight<T(!new)>(t: BTree<T>, x: T, cmp: (T, T) -> int)
    requires IsOrder(cmp) && IsBST(t, cmp) && t.Node? && cmp(x, t.data) > 0
    ensures Matches(t, x, cmp) == Matches(t.right, x, cmp)
  {
    assert cmp(t.data, x) < 0;
    forall e | e in Elements(t.left) ensures cmp(x, e) != 0 {
      assert cmp(e, t.data) < 0;
    }
  }

  /** An `x` equal to the node's data matches that data alone. */
  lemma MatchesOnlyRoot<T(!new)>(t: BTree<T>, x: T, cmp: (T, T) -> int)
    requires IsOrder(cmp) && IsBST(t, cmp) && t.Node? && cmp(x, t.data) == 0
    ensures Matches(t, x, cmp) == {t.data}
  {
    forall e | e in Elements(t.left) ensures cmp(x, e) > 0 {
      assert cmp(e, t.data) < 0;
    }
    forall e | e in Elements(t.right) ensures cmp(x, e) < 0 {
      assert cmp(t.data, e) < 0;
    }
  }

  lemma {:induction false} DeleteRootCorrect<T(!new)>(t: BTree<T>, cmp: (T, T) -> int)
    requires IsOrder(cmp) && IsBST(t, cmp) && t.Node?
    ensures IsBST(DeleteRoot(t, cmp), cmp)
    ensures Elements(DeleteRoot(t, cmp)) == Elements(t) - {t.data}
    ensures NodeCount(DeleteRoot(t, cmp)) == NodeCount(t) - 1
    decreases t, 0
  {
    var l, d, r := t.left, t.data, t.right;
    NodeApart(t, cmp);
    if l != Empty && r != Empty {
      var p := Rightmost(l);
      RightmostIsMax(l, cmp);
      PredecessorMatchesItself(l, cmp);
      DeleteCorrect(l, p, cmp);
      PredecessorSeparates(t, cmp);
      ReplaceRoot(Elements(l), p, d, Elements(r));
    }
  }

  /** The maximum of a search tree matches only itself. */
  lemma PredecessorMatchesItself<T(!new)>(l: BTree<T>, cmp: (T, T) -> int)
    requires IsOrder(cmp) && IsBST(l, cmp) && l.Node?
    ensures Matches(l, Rightmost(l), cmp) == {Rightmost(l)}
  {
    var p := Rightmost(l);
    RightmostIsMax(l, cmp);
    forall e | e in Elements(l) && e != p ensures cmp(p, e) != 0 {
      assert cmp(e, p) < 0;
    }
  }

  /**
   * The predecessor of a node with two children lies between the rest of the
   * left subtree and the right subtree, so it can take the node's place.
   */
  lemma PredecessorSeparates<T(!new)>(t: BTree<T>, cmp: (T, T) -> int)
    requires IsOrder(cmp) && IsBST(t, cmp) && t.Node? && t.left.Node?
    ensures forall e :: e in Elements(t.left) && e != Rightmost(t.left) ==> cmp(e, Rightmost(t.left)) < 0
    ensures forall e :: e in Elements(t.right) ==> cmp(e, Rightmost(t.left)) > 0
  {
    var p := Rightmost(t.left);
    RightmostIsMax(t.left, cmp);
    assert cmp(p, t.data) < 0;
    forall e | e in Elements(t.right) ensures cmp(e, p) > 0 {
      assert cmp(t.data, e) < 0;
    }
  }

  // ------------------------------------------------------------ the tree object

  /** `MyBST<E>`: the root slot and the running element count. */
  class MyBST<T(!new)> {
    const cmp: (T, T) -> int
    var root: BTree<T>
    var size: int

    /** The object invariant: a total order and a search tree under it. */
    ghost predicate Valid()
      reads this
    {
      IsOrder(cmp) && IsBST(root, cmp)
    }

    /** `size` agrees with the number of nodes. */
    ghost predicate SizeIsCount()
      reads this
    {
      size == NodeCount(root)
    }

    /** `new MyBST()`: an empty tree. */
    constructor (cmp: (T, T) -> int)
      requires IsOrder(cmp)
      ensures Valid() && SizeIsCount()
      ensures this.cmp == cmp && root == Empty && size == 0
    {
      this.cmp := cmp;
      root := Empty;
      size := 0;
    }

    /** `contains(o)`: some stored element compares equal to `o`. */
    function Contains(o: T): (r: bool)
      reads this
      requires Valid()
      ensures r <==> Matches(root, o, cmp) != {}
    {
      MemberCorrect(root, o, cmp);
      Member(root, o, cmp)
    }

    /** `add(e)`: rejects an element equal to a stored one, otherwise hangs it in a new leaf. */
    method Add(e: T) returns (added: bool)
      requires Valid()
      modifies this
      ensures Valid()
      ensures added <==> old(Matches(root, e, cmp)) == {}
      ensures !added ==> root == old(root) && size == old(size)
      ensures added ==> size == old(size) + 1
      ensures added ==> Elements(root) == old(Elements(root)) + {e} && e in Leaves(root)
      ensures old(SizeIsCount()) ==> SizeIsCount()
    {
      if root != Empty && Contains(e) {
        return false;
      }
      MemberCorrect(root, e, cmp);
      InsertKeepsOrder(root, e, cmp);
      root := Insert(root, e, cmp);
      size := size + 1;
      return true;
    }

    /**
     * `remove(o)` as written: on an empty tree the presence check is skipped,
     * so it reports success and decrements `size` to below the node count.
     */
    method Remove(o: T) returns (removed: bool)
      requires Valid()
      modifies this
      ensures Valid()
      ensures old(root) != Empty && old(Matches(root, o, cmp)) == {} ==> !removed && root == old(root) && size == old(size)
      ensures old(Matches(root, o, cmp)) != {} ==> removed && size == old(size) - 1
      ensures Elements(root) == old(Elements(root) - Matches(root, o, cmp))
      ensures Matches(root, o, cmp) == {}
      ensures old(root) == Empty ==> removed && root == Empty && size == old(size) - 1
      ensures old(SizeIsCount()) && old(root) != Empty ==> SizeIsCount()
    {
      DeleteCorrect(root, o, cmp);
      if root != Empty && !Contains(o) {
        return false;
      }
      root := Delete(root, o, cmp);
      size := size - 1;
      return true;
    }

    /** `remove(o)` with the empty tree treated like any tree without `o`: it reports failure and changes nothing. */
    method RemoveIfPresent(o: T) returns (removed: bool)
      requires Valid()
      modifies this
      ensures Valid()
      ensures removed <==> old(Matches(root, o, cmp)) != {}
      ensures !removed ==> root == old(root) && size == old(size)
      ensures removed ==> size == old(size) - 1
      ensures Elements(root) == old(Elements(root) - Matches(root, o, cmp))
      ensures Matches(root, o, cmp) == {}
      ensures old(SizeIsCount()) ==> SizeIsCount()
    {
      DeleteCorrect(root, o, cmp);
      if root == Empty || !Contains(o) {
        return false;
      }
      root := Delete(root, o, cmp);
      size := size - 1;
      return true;
    }

    /** `getPredecessor(node)`: the rightmost data of the left subtree; `None` stands for the exception thrown when there is no left child. */
    method GetPredecessor(node: BTree<T>) returns (p: Option<T>)
      requires node.Node?
      ensures node.left == Empty ==> p == None
      ensures node.left != Empty ==> p == Some(Rightmost(node.left)) && p.value in Elements(node.left)
      ensures IsOrder(cmp) && IsBST(node.left, cmp) && p.Some? ==>
        forall e :: e in Elements(node.left) && e != p.value ==> cmp(e, p.value) < 0
    {
      if node.left == Empty {
        return None;
      }
      var current := node.left;
      while current.right != Empty
        invariant current.Node?
        invariant Rightmost(current) == Rightmost(node.left)
        decreases current
      {
        current := current.right;
      }
      p := Some(current.data);
      if IsOrder(cmp) && IsBST(node.left, cmp) {
        RightmostIsMax(node.left, cmp);
      } else {
        RightmostInside(node.left);
      }
    }

    /**
     * `first()`: the minimum element. On an empty tree the exception is
     * caught and the read of the null node's data then fails; `None` stands
     * for that failure.
     */
    method First() returns (m: Option<T>)
      requires Valid()
      ensures root == Empty <==> m == None
      ensures m.Some? ==> m.value == Leftmost(root) && m.value in Elements(root)
      ensures m.Some? ==> forall e :: e in Elements(root) && e != m.value ==> cmp(m.value, e) < 0
    {
      if root == Empty {
        return None;
      }
      var current := root;
      while current.left != Empty
        invariant current.Node?
        invariant Leftmost(current) == Leftmost(root)
        decreases current
      {
        current := current.left;
      }
      m := Some(current.data);
      LeftmostIsMin(root, cmp);
    }

    /**
     * `last()`: the maximum element. On an empty tree the exception is
     * caught and the read of the null node's data then fails; `None` stands
     * for that failure.
     */
    method Last() returns (m: Option<T>)
      requires Valid()
      ensures root == Empty <==> m == None
      ensures m.Some? ==> m.value == Rightmost(root) && m.value in Elements(root)
      ensures m.Some? ==> forall e :: e in Elements(root) && e != m.value ==> cmp(e, m.value) < 0
    {
      if root == Empty {
        return None;
      }
      var current := root;
      while current.right != Empty
        invariant current.Node?
        invariant Rightmost(current) == Rightmost(root)
        decreases current
      {
        current := current.right;
      }
      m := Some(current.data);
      RightmostIsMax(root, cmp);
    }
  }

  lemma {:induction false} RightmostInside<T>(t: BTree<T>)
    requires t.Node?
    ensures Rightmost(t) in Elements(t)
  {
    if t.right != Empty {
      RightmostInside(t.right);
    }
  }

  /** `remove` on a fresh, empty tree reports success and leaves `size` at -1. */
  method RemoveOnEmptyTree<T(!new)>(cmp: (T, T) -> int, o: T) returns (removed: bool, size: int)
    requires IsOrder(cmp)
    ensures removed && size == -1
  {
    var tree := new MyBST(cmp);
    removed := tree.Remove(o);
    size := tree.size;
  }

  /** The corrected removal on a fresh, empty tree reports failure and leaves `size` at 0. */
  method RemoveIfPresentOnEmptyTree<T(!new)>(cmp: (T, T) -> int, o: T) returns (removed: bool, size: int)
    requires IsOrder(cmp)
    ensures !removed && size == 0
  {
    var tree := new MyBST(cmp);
    removed := tree.RemoveIfPresent(o);
    size := tree.size;
  }
}
