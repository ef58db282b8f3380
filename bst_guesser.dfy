/** The tree of the BST guesser game: a binary search tree of int values in which equal
    values go right, each node storing a height under the convention that an absent child
    and a leaf both have height 0, rebalanced by single and double rotations after every
    insertion, and laid out on screen by integer coordinates.

    The tree is modelled twice. `Tree` is its value: the shape, the values and the stored
    heights. `TreeNode` is the heap structure whose methods relink it in place; each of its
    methods is proved to compute, on the `Tree` its nodes spell, what the pure function of
    the same name computes. */
module BstGuesser {
  import opened JavaLang
  import opened Wrappers

  /** Side of a drawn node and the gap between levels, in pixels. */
  const SIZE := 60
  const MARGIN := 20

  datatype Tree = Nil | Node(left: Tree, value: int, height: int, right: Tree)

  /** A node made by the constructor: no children, height 0. */
  function Leaf(v: int): Tree {
    Node(Nil, v, 0, Nil)
  }

  function Max(a: int, b: int): int {
    if a >= b then a else b
  }

  // ---------------------------------------------------------------------------
  // Heights

  /** getHeight: the stored height, 0 for an absent node. */
  function GetHeight(t: Tree): int {
    if t.Nil? then 0 else t.height
  }

  /** calcNewHeight: 0 for an absent node or a leaf, otherwise one more than the taller
      child's stored height. */
  function CalcNewHeight(t: Tree): int {
    if t.Nil? || (t.left.Nil? && t.right.Nil?) then 0
    else Max(GetHeight(t.left), GetHeight(t.right)) + 1
  }

  /** getBalanceFactor: left height minus right height, 0 for an absent node. */
  function GetBalanceFactor(t: Tree): int {
    if t.Nil? then 0 else GetHeight(t.left) - GetHeight(t.right)
  }

  /** Every stored height is the one calcNewHeight computes for that node. */
  ghost predicate HeightsOk(t: Tree) {
    t.Node? ==> t.height == CalcNewHeight(t) && HeightsOk(t.left) && HeightsOk(t.right)
  }

  /** The number of edges on the longest downward path, with 0 for a missing tree. */
  function Depth(t: Tree): nat {
    if t.Nil? then 0
    else if t.left.Nil? && t.right.Nil? then 0
    else Max(Depth(t.left), Depth(t.right)) + 1
  }

  /** Under the height convention every stored height is the node's depth, so it is never
      negative; and a node is absent or a leaf exactly when its height is 0. */
  lemma {:induction false} HeightIsDepth(t: Tree)
    requires HeightsOk(t)
    ensures GetHeight(t) == Depth(t) && GetHeight(t) >= 0
    ensures GetHeight(t) == 0 <==> t.Nil? || (t.left.Nil? && t.right.Nil?)
  {
    if t.Node? {
      HeightIsDepth(t.left);
      HeightIsDepth(t.right);
    }
  }

  // ---------------------------------------------------------------------------
  // Order and contents

  /** The values in order: left subtree, node, right subtree. */
  function InOrder(t: Tree): seq<int> {
    if t.Nil? then [] else InOrder(t.left) + [t.value] + InOrder(t.right)
  }

  predicate SortedInts(s: seq<int>) {
    forall i, j :: 0 <= i < j < |s| ==> s[i] <= s[j]
  }

  // ---------------------------------------------------------------------------
  // Rotations (None where the source dereferences an absent child)

  /** rotateRight: the left child l becomes the root, the node becomes l's right child and
      takes l's old right subtree as its left; the node's height is recomputed, then l's. */
  function RotateRightTree(t: Tree): Option<Tree> {
    if t.Nil? || t.left.Nil? then None
    else
      var l := t.left;
      var n := Node(l.right, t.value, t.height, t.right);
      var n' := n.(height := CalcNewHeight(n));
      var l' := Node(l.left, l.value, l.height, n');
      Some(l'.(height := CalcNewHeight(l')))
  }

  /** rotateLeft: the mirror image of rotateRight. */
  function RotateLeftTree(t: Tree): Option<Tree> {
    if t.Nil? || t.right.Nil? then None
    else
      var r := t.right;
      var n := Node(t.left, t.value, t.height, r.left);
      var n' := n.(height := CalcNewHeight(n));
      var r' := Node(n', r.value, r.height, r.right);
      Some(r'.(height := CalcNewHeight(r')))
  }

  /** The two ways a rotation brackets the same in-order sequence. */
  lemma Reassociate(x: seq<int>, y: seq<int>, m: seq<int>, z: seq<int>)
    ensures ((x + y) + m) + z == x + ((y + m) + z)
  {
    assert (x + y) + m == x + (y + m);
  }

  /** A rotation succeeds exactly when the child it lifts is there; it keeps the values in
      order, returns the lifted child as the new root, and leaves every stored height right
      when the subtrees it moves had theirs right. */
  lemma RotateRightSpec(t: Tree)
    ensures RotateRightTree(t).Some? <==> t.Node? && t.left.Node?
    ensures RotateRightTree(t).Some? ==>
              && InOrder(RotateRightTree(t).value) == InOrder(t)
              && RotateRightTree(t).value.value == t.left.value
              && (HeightsOk(t.left.left) && HeightsOk(t.left.right) && HeightsOk(t.right)
                  ==> HeightsOk(RotateRightTree(t).value))
  {
    if t.Node? && t.left.Node? {
      var l := t.left;
      Reassociate(InOrder(l.left) + [l.value], InOrder(l.right), [t.value], InOrder(t.right));
    }
  }

  lemma RotateLeftSpec(t: Tree)
    ensures RotateLeftTree(t).Some? <==> t.Node? && t.right.Node?
    ensures RotateLeftTree(t).Some? ==>
              && InOrder(RotateLeftTree(t).value) == InOrder(t)
              && RotateLeftTree(t).value.value == t.right.value
              && (HeightsOk(t.left) && HeightsOk(t.right.left) && HeightsOk(t.right.right)
                  ==> HeightsOk(RotateLeftTree(t).value))
  {
    if t.Node? && t.right.Node? {
      var r := t.right;
      Reassociate(InOrder(t.left) + [t.value], InOrder(r.left), [r.value], InOrder(r.right));
    }
  }

  // ---------------------------------------------------------------------------
  // Insertion

  /** How insert decides between a single and a double rotation. The source compares the
      inserted value with the child's value; the alternative decides by the child's own
      balance factor. */
  datatype DoubleRotationTest = ByInsertedValue | ByChildBalance

  /** Whether the left-heavy node t needs its left child rotated left first. */
  function LeftRightCase(test: DoubleRotationTest, l: Tree, v: int): bool
    requires l.Node?
  {
    match test
    case ByInsertedValue => v > l.value
    case ByChildBalance => GetBalanceFactor(l) < 0
  }

  /** Whether the right-heavy node t needs its right child rotated right first. */
  function RightLeftCase(test: DoubleRotationTest, r: Tree, v: int): bool
    requires r.Node?
  {
    match test
    case ByInsertedValue => v < r.value
    case ByChildBalance => GetBalanceFactor(r) > 0
  }

  /** The rotations at the end of insert, applied to the node whose child has just grown
      and whose height has been recomputed; None where a dereference fails. */
  function RebalanceTree(t: Tree, v: int, test: DoubleRotationTest): Option<Tree>
    requires t.Node?
  {
    var bf := GetBalanceFactor(t);
    if bf > 1 then
      if t.left.Nil? then None
      else
        var l := if LeftRightCase(test, t.left, v) then RotateLeftTree(t.left) else Some(t.left);
        if l.None? then None else RotateRightTree(t.(left := l.value))
    else if bf < -1 then
      if t.right.Nil? then None
      else
        var r := if RightLeftCase(test, t.right, v) then RotateRightTree(t.right) else Some(t.right);
        if r.None? then None else RotateLeftTree(t.(right := r.value))
    else Some(t)
  }

  /** The node after the recursive step of insert and the height update, before the
      rotations: v goes into the left subtree when the node's value is larger, otherwise
      into the right one, as a new leaf where the child is absent. */
  function GrowTree(t: Tree, v: int, test: DoubleRotationTest): Option<Tree>
    requires t.Node?
    decreases t, 0
  {
    var below := if t.value > v then t.left else t.right;
    var sub := if below.Nil? then Some(Leaf(v)) else InsertTree(below, v, test);
    if sub.None? then None
    else
      var t1 := if t.value > v then t.(left := sub.value) else t.(right := sub.value);
      Some(t1.(height := CalcNewHeight(t1)))
  }

  /** insert: the new root of the subtree, or None when the source would throw a
      NullPointerException. */
  function InsertTree(t: Tree, v: int, test: DoubleRotationTest): Option<Tree>
    requires t.Node?
    decreases t, 1
  {
    var g := GrowTree(t, v, test);
    if g.None? then None else RebalanceTree(g.value, v, test)
  }

  /** Whether insert returns the node it was called on: the balance factor after the
      height update lies in [-1, 1]. */
  predicate NoRotation(g: Tree)
    requires g.Node?
  {
    -1 <= GetBalanceFactor(g) <= 1
  }

  /** The rotations keep the values in order and the stored heights right. When the
      balance factor is in [-1, 1] nothing moves. */
  lemma RebalanceSpec(t: Tree, v: int, test: DoubleRotationTest)
    requires t.Node?
    ensures RebalanceTree(t, v, test).Some? ==> InOrder(RebalanceTree(t, v, test).value) == InOrder(t)
    ensures HeightsOk(t) && RebalanceTree(t, v, test).Some? ==> HeightsOk(RebalanceTree(t, v, test).value)
    ensures NoRotation(t) ==> RebalanceTree(t, v, test) == Some(t)
  {
    var bf := GetBalanceFactor(t);
    if bf > 1 && t.left.Node? {
      RebalanceLeftHeavy(t, v, test);
    } else if bf < -1 && t.right.Node? {
      RebalanceRightHeavy(t, v, test);
    }
  }

  lemma RebalanceLeftHeavy(t: Tree, v: int, test: DoubleRotationTest)
    requires t.Node? && t.left.Node? && GetBalanceFactor(t) > 1
    ensures RebalanceTree(t, v, test).Some? ==> InOrder(RebalanceTree(t, v, test).value) == InOrder(t)
    ensures HeightsOk(t) && RebalanceTree(t, v, test).Some? ==> HeightsOk(RebalanceTree(t, v, test).value)
  {
    var tl := t.left;
    if LeftRightCase(test, tl, v) {
      RotateLeftSpec(tl);
      if tl.right.Node? {
        var l' := RotateLeftTree(tl).value;
        var t' := t.(left := l');
        assert RebalanceTree(t, v, test) == RotateRightTree(t');
        RotateRightSpec(t');
        assert InOrder(t') == InOrder(t);
        if HeightsOk(t) {
          assert HeightsOk(tl) && HeightsOk(tl.right);
          assert HeightsOk(tl.left) && HeightsOk(tl.right.left) && HeightsOk(tl.right.right);
          assert HeightsOk(l'.left) && HeightsOk(l'.right);
        }
      }
    } else {
      assert RebalanceTree(t, v, test) == RotateRightTree(t);
      RotateRightSpec(t);
      if HeightsOk(t) {
        assert HeightsOk(tl) && HeightsOk(tl.left) && HeightsOk(tl.right);
      }
    }
  }

  lemma RebalanceRightHeavy(t: Tree, v: int, test: DoubleRotationTest)
    requires t.Node? && t.right.Node? && GetBalanceFactor(t) < -1
    ensures RebalanceTree(t, v, test).Some? ==> InOrder(RebalanceTree(t, v, test).value) == InOrder(t)
    ensures HeightsOk(t) && RebalanceTree(t, v, test).Some? ==> HeightsOk(RebalanceTree(t, v, test).value)
  {
    var tr := t.right;
    if RightLeftCase(test, tr, v) {
      RotateRightSpec(tr);
      if tr.left.Node? {
        var r' := RotateRightTree(tr).value;
        var t' := t.(right := r');
        assert RebalanceTree(t, v, test) == RotateLeftTree(t');
        RotateLeftSpec(t');
        assert InOrder(t') == InOrder(t);
        if HeightsOk(t) {
          assert HeightsOk(tr) && HeightsOk(tr.left);
          assert HeightsOk(tr.right) && HeightsOk(tr.left.left) && HeightsOk(tr.left.right);
          assert HeightsOk(r'.left) && HeightsOk(r'.right);
        }
      }
    } else {
      assert RebalanceTree(t, v, test) == RotateLeftTree(t);
      RotateLeftSpec(t);
      if HeightsOk(t) {
        assert HeightsOk(tr) && HeightsOk(tr.left) && HeightsOk(tr.right);
      }
    }
  }

  /** Where the descent of insert puts v in the in-order sequence: left of a node whose
      value is larger, right of one whose value is at most v. */
  function InsertPos(t: Tree, v: int): nat {
    if t.Nil? then 0
    else if t.value > v then InsertPos(t.left, v)
    else |InOrder(t.left)| + 1 + InsertPos(t.right, v)
  }

  /** In a sorted sequence that position comes after every value at most v and before
      every larger value. */
  lemma {:induction false} InsertPosSorted(t: Tree, v: int)
    ensures InsertPos(t, v) <= |InOrder(t)|
    ensures SortedInts(InOrder(t)) ==>
              (forall i :: 0 <= i < InsertPos(t, v) ==> InOrder(t)[i] <= v) &&
              (forall i :: InsertPos(t, v) <= i < |InOrder(t)| ==> v < InOrder(t)[i])
  {
    if t.Node? {
      var L, R := InOrder(t.left), InOrder(t.right);
      var s := InOrder(t);
      InsertPosSorted(t.left, v);
      InsertPosSorted(t.right, v);
      if SortedInts(s) {
        SortedParts(L, t.value, R);
        var k := InsertPos(t, v);
        if t.value > v {
          forall i | k <= i < |s|
            ensures v < s[i]
          {
            if i > |L| {
              assert s[i] == R[i - |L| - 1];
            }
          }
        } else {
          forall i | 0 <= i < k
            ensures s[i] <= v
          {
            if i < |L| {
              assert s[i] == L[i];
            } else if i > |L| {
              assert s[i] == R[i - |L| - 1];
            }
          }
          forall i | k <= i < |s|
            ensures v < s[i]
          {
            assert s[i] == R[i - |L| - 1];
          }
        }
      }
    }
  }

  /** insert adds v to the in-order sequence at the position of the descent. */
  lemma {:induction false} InsertInOrder(t: Tree, v: int, test: DoubleRotationTest)
    requires t.Node? && InsertTree(t, v, test).Some?
    ensures InsertPos(t, v) <= |InOrder(t)|
    ensures var s, k := InOrder(t), InsertPos(t, v);
            InOrder(InsertTree(t, v, test).value) == s[..k] + [v] + s[k..]
    decreases t, 1
  {
    GrowInOrder(t, v, test);
    RebalanceSpec(GrowTree(t, v, test).value, v, test);
  }

  lemma {:induction false} GrowInOrder(t: Tree, v: int, test: DoubleRotationTest)
    requires t.Node? && GrowTree(t, v, test).Some?
    ensures InsertPos(t, v) <= |InOrder(t)|
    ensures var s, k := InOrder(t), InsertPos(t, v);
            InOrder(GrowTree(t, v, test).value) == s[..k] + [v] + s[k..]
    decreases t, 0
  {
    var g := GrowTree(t, v, test).value;
    InsertPosSorted(t, v);
    var L, R := InOrder(t.left), InOrder(t.right);
    if t.value > v {
      if t.left.Node? {
        InsertInOrder(t.left, v, test);
      }
      SpliceLeft(L, t.value, R, InsertPos(t.left, v), v);
    } else {
      if t.right.Node? {
        InsertInOrder(t.right, v, test);
      }
      SpliceRight(L, t.value, R, InsertPos(t.right, v), v);
    }
  }

  lemma SpliceLeft(L: seq<int>, x: int, R: seq<int>, k: nat, v: int)
    requires k <= |L|
    ensures var s := L + [x] + R;
            (L[..k] + [v] + L[k..]) + [x] + R == s[..k] + [v] + s[k..]
  {
    var s := L + [x] + R;
    assert s[..k] == L[..k];
    assert s[k..] == L[k..] + [x] + R;
  }

  lemma SpliceRight(L: seq<int>, x: int, R: seq<int>, k: nat, v: int)
    requires k <= |R|
    ensures var s, k' := L + [x] + R, |L| + 1 + k;
            L + [x] + (R[..k] + [v] + R[k..]) == s[..k'] + [v] + s[k'..]
  {
    var s, k' := L + [x] + R, |L| + 1 + k;
    assert s[..k'] == L + [x] + R[..k];
    assert s[k'..] == R[k..];
  }

  /** A sorted L + [x] + R has L below x, R above it, and both parts sorted. */
  lemma SortedParts(L: seq<int>, x: int, R: seq<int>)
    requires SortedInts(L + [x] + R)
    ensures SortedInts(L) && SortedInts(R)
    ensures forall i :: 0 <= i < |L| ==> L[i] <= x
    ensures forall i :: 0 <= i < |R| ==> x <= R[i]
  {
    var s := L + [x] + R;
    forall i | 0 <= i < |L|
      ensures L[i] <= x
    {
      assert s[i] == L[i] && s[|L|] == x;
    }
    forall i | 0 <= i < |R|
      ensures x <= R[i]
    {
      assert s[|L| + 1 + i] == R[i] && s[|L|] == x;
    }
    forall i, j | 0 <= i < j < |R|
      ensures R[i] <= R[j]
    {
      assert s[|L| + 1 + i] == R[i] && s[|L| + 1 + j] == R[j];
    }
    forall i, j | 0 <= i < j < |L|
      ensures L[i] <= L[j]
    {
      assert s[i] == L[i] && s[j] == L[j];
    }
  }

  /** Putting v into a sorted sequence after every value at most v and before every larger
      one keeps it sorted. */
  lemma SortedSplice(s: seq<int>, k: nat, v: int)
    requires k <= |s| && SortedInts(s)
    requires forall i :: 0 <= i < k ==> s[i] <= v
    requires forall i :: k <= i < |s| ==> v < s[i]
    ensures SortedInts(s[..k] + [v] + s[k..])
  {
    var r := s[..k] + [v] + s[k..];
    forall i, j | 0 <= i < j < |r|
      ensures r[i] <= r[j]
    {
      if j < k {
        assert r[i] == s[i] && r[j] == s[j];
      } else if i > k {
        assert r[i] == s[i - 1] && r[j] == s[j - 1];
      } else if i == k {
        assert r[i] == v && r[j] == s[j - 1];
      } else if j == k {
        assert r[i] == s[i] && r[j] == v;
      } else {
        assert r[i] == s[i] && r[j] == s[j - 1];
      }
    }
  }

  /** Splicing v into a sequence adds one occurrence of v. */
  lemma SpliceMultiset(s: seq<int>, k: nat, v: int)
    requires k <= |s|
    ensures multiset(s[..k] + [v] + s[k..]) == multiset(s) + multiset{v}
  {
    assert multiset(s[..k] + [v] + s[k..]) == multiset(s[..k]) + multiset([v]) + multiset(s[k..]);
    assert s == s[..k] + s[k..];
  }

  /** insert keeps a tree ordered and adds exactly one occurrence of v. */
  lemma InsertKeepsOrder(t: Tree, v: int, test: DoubleRotationTest)
    requires t.Node? && InsertTree(t, v, test).Some?
    ensures multiset(InOrder(InsertTree(t, v, test).value)) == multiset(InOrder(t)) + multiset{v}
    ensures SortedInts(InOrder(t)) ==> SortedInts(InOrder(InsertTree(t, v, test).value))
  {
    var s, k := InOrder(t), InsertPos(t, v);
    InsertInOrder(t, v, test);
    var r := InOrder(InsertTree(t, v, test).value);
    SpliceMultiset(s, k, v);
    if SortedInts(s) {
      InsertPosSorted(t, v);
      SortedSplice(s, k, v);
    }
  }

  /** insert leaves every stored height right on a tree whose heights were right. */
  lemma {:induction false} InsertKeepsHeights(t: Tree, v: int, test: DoubleRotationTest)
    requires t.Node? && HeightsOk(t) && InsertTree(t, v, test).Some?
    ensures HeightsOk(InsertTree(t, v, test).value)
    decreases t
  {
    var below := if t.value > v then t.left else t.right;
    if below.Node? {
      InsertKeepsHeights(below, v, test);
    }
    var g := GrowTree(t, v, test).value;
    assert HeightsOk(g.left) && HeightsOk(g.right);
    RebalanceSpec(g, v, test);
  }

  /** Deciding the double rotation by the child's balance factor never dereferences an
      absent child: on a tree whose stored heights are right, insert always succeeds. */
  lemma {:induction false} InsertByChildBalanceTotal(t: Tree, v: int)
    requires t.Node? && HeightsOk(t)
    ensures InsertTree(t, v, ByChildBalance).Some?
    decreases t
  {
    var below := if t.value > v then t.left else t.right;
    if below.Node? {
      InsertByChildBalanceTotal(below, v);
      InsertKeepsHeights(below, v, ByChildBalance);
    }
    var g := GrowTree(t, v, ByChildBalance).value;
    assert HeightsOk(g.left) && HeightsOk(g.right);
    ChildBalanceRebalances(g, v);
  }

  /** On a node whose subtrees store right heights the rotations chosen by the child's
      balance factor only lift children that are there. */
  lemma ChildBalanceRebalances(g: Tree, v: int)
    requires g.Node? && HeightsOk(g.left) && HeightsOk(g.right)
    ensures RebalanceTree(g, v, ByChildBalance).Some?
  {
    HeightIsDepth(g.left);
    HeightIsDepth(g.right);
    if GetBalanceFactor(g) > 1 {
      assert g.left.Node?;
      HeightIsDepth(g.left.left);
      HeightIsDepth(g.left.right);
      RotateLeftSpec(g.left);
      var l := if LeftRightCase(ByChildBalance, g.left, v) then RotateLeftTree(g.left) else Some(g.left);
      RotateRightSpec(g.(left := l.value));
    } else if GetBalanceFactor(g) < -1 {
      assert g.right.Node?;
      HeightIsDepth(g.right.left);
      HeightIsDepth(g.right.right);
      RotateRightSpec(g.right);
      var r := if RightLeftCase(ByChildBalance, g.right, v) then RotateRightTree(g.right) else Some(g.right);
      RotateLeftSpec(g.(right := r.value));
    }
  }

  // ---------------------------------------------------------------------------
  // Building a tree by successive insertions

  /** The tree after inserting vs in order into t, the first value of an empty tree
      becoming a lone node; None once an insertion fails. */
  function InsertAll(t: Tree, vs: seq<int>, test: DoubleRotationTest): Option<Tree>
    decreases |vs|
  {
    if vs == [] then Some(t)
    else
      var next := if t.Nil? then Some(Leaf(vs[0])) else InsertTree(t, vs[0], test);
      if next.None? then None else InsertAll(next.value, vs[1..], test)
  }

  /** With the double rotation decided by the child's balance factor, building a tree by
      insertions never fails, and the tree is ordered, holds exactly the inserted values
      and stores right heights. */
  lemma {:induction false} InsertAllByChildBalance(t: Tree, vs: seq<int>)
    requires HeightsOk(t) && SortedInts(InOrder(t))
    ensures InsertAll(t, vs, ByChildBalance).Some?
    ensures var r := InsertAll(t, vs, ByChildBalance).value;
            HeightsOk(r) && SortedInts(InOrder(r))
            && multiset(InOrder(r)) == multiset(InOrder(t)) + multiset(vs)
    decreases |vs|
  {
    if vs != [] {
      var next: Tree;
      if t.Nil? {
        next := Leaf(vs[0]);
        assert InOrder(next) == [vs[0]];
      } else {
        InsertByChildBalanceTotal(t, vs[0]);
        InsertKeepsOrder(t, vs[0], ByChildBalance);
        InsertKeepsHeights(t, vs[0], ByChildBalance);
        next := InsertTree(t, vs[0], ByChildBalance).value;
      }
      assert HeightsOk(next) && SortedInts(InOrder(next));
      assert multiset(InOrder(next)) == multiset(InOrder(t)) + multiset{vs[0]};
      assert InsertAll(t, vs, ByChildBalance) == InsertAll(next, vs[1..], ByChildBalance);
      InsertAllByChildBalance(next, vs[1..]);
      MultisetHeadTail(vs);
    }
  }

  /** The values of a non-empty sequence are its head and the values of its tail. */
  lemma MultisetHeadTail(vs: seq<int>)
    requires vs != []
    ensures multiset(vs) == multiset{vs[0]} + multiset(vs[1..])
  {
    assert vs == [vs[0]] + vs[1..];
  }

  /** The insertions that make the source throw. */
  function CrashingInsertions(): seq<int> {
    [2, 6, 7, 9, 15, 12, 12, 12, 2, 9, 9, 7]
  }

  /** The tree after the first i of CrashingInsertions(), for i in [1, 11]. */
  function CrashTree(i: int): Tree {
    match i
    case 1 => Leaf(2)
    case 2 => Node(Nil, 2, 1, Leaf(6))
    case 3 => Node(Nil, 2, 2, Node(Nil, 6, 1, Leaf(7)))
    case 4 => Node(Leaf(2), 6, 2, Node(Nil, 7, 1, Leaf(9)))
    case 5 => Node(Node(Leaf(2), 6, 1, Nil), 7, 2, Node(Nil, 9, 1, Leaf(15)))
    case 6 => Node(Node(Leaf(2), 6, 1, Nil), 7, 3, Node(Nil, 9, 2, Node(Leaf(12), 15, 1, Nil)))
    case 7 => Node(Node(Leaf(2), 6, 1, Nil), 7, 3, Node(Leaf(9), 12, 2, Node(Leaf(12), 15, 1, Nil)))
    case 8 => Node(Node(Leaf(2), 6, 1, Nil), 7, 3, Node(Node(Leaf(9), 12, 1, Nil), 12, 2, Node(Leaf(12), 15, 1, Nil)))
    case 9 => Node(Node(Node(Nil, 2, 1, Leaf(2)), 6, 2, Nil), 7, 3, Node(Node(Leaf(9), 12, 1, Nil), 12, 2, Node(Leaf(12), 15, 1, Nil)))
    case 10 => Node(Node(Node(Nil, 2, 1, Leaf(2)), 6, 2, Nil), 7, 4, Node(Node(Node(Nil, 9, 1, Leaf(9)), 12, 2, Nil), 12, 3, Node(Leaf(12), 15, 1, Nil)))
    case 11 => Node(Node(Node(Node(Nil, 2, 1, Leaf(2)), 6, 2, Nil), 7, 3, Nil), 9, 4, Node(Node(Node(Nil, 9, 1, Leaf(9)), 12, 2, Nil), 12, 3, Node(Leaf(12), 15, 1, Nil)))
    case _ => Nil
  }

  lemma CrashingInsertionStep1()
    ensures InsertTree(CrashTree(1), 6, ByInsertedValue) == Some(CrashTree(2))
  {
    assert CrashTree(1) == Leaf(2);
    assert CrashTree(2) == Node(Nil, 2, 1, Leaf(6));
    assert GrowTree(Leaf(2), 6, ByInsertedValue) == Some(Node(Nil, 2, 1, Leaf(6)));
    assert RebalanceTree(Node(Nil, 2, 1, Leaf(6)), 6, ByInsertedValue) == Some(Node(Nil, 2, 1, Leaf(6)));
    assert InsertTree(Leaf(2), 6, ByInsertedValue) == Some(Node(Nil, 2, 1, Leaf(6)));
  }

  lemma CrashingInsertionStep2()
    ensures InsertTree(CrashTree(2), 7, ByInsertedValue) == Some(CrashTree(3))
  {
    assert CrashTree(2) == Node(Nil, 2, 1, Leaf(6));
    assert CrashTree(3) == Node(Nil, 2, 2, Node(Nil, 6, 1, Leaf(7)));
    assert GrowTree(Leaf(6), 7, ByInsertedValue) == Some(Node(Nil, 6, 1, Leaf(7)));
    assert RebalanceTree(Node(Nil, 6, 1, Leaf(7)), 7, ByInsertedValue) == Some(Node(Nil, 6, 1, Leaf(7)));
    assert InsertTree(Leaf(6), 7, ByInsertedValue) == Some(Node(Nil, 6, 1, Leaf(7)));
    assert GrowTree(Node(Nil, 2, 1, Leaf(6)), 7, ByInsertedValue) == Some(Node(Nil, 2, 2, Node(Nil, 6, 1, Leaf(7))));
    assert RebalanceTree(Node(Nil, 2, 2, Node(Nil, 6, 1, Leaf(7))), 7, ByInsertedValue) == Some(Node(Nil, 2, 2, Node(Nil, 6, 1, Leaf(7))));
    assert InsertTree(Node(Nil, 2, 1, Leaf(6)), 7, ByInsertedValue) == Some(Node(Nil, 2, 2, Node(Nil, 6, 1, Leaf(7))));
  }

  lemma CrashingInsertionStep3()
    ensures InsertTree(CrashTree(3), 9, ByInsertedValue) == Some(CrashTree(4))
  {
    assert CrashTree(3) == Node(Nil, 2, 2, Node(Nil, 6, 1, Leaf(7)));
    assert CrashTree(4) == Node(Leaf(2), 6, 2, Node(Nil, 7, 1, Leaf(9)));
    assert GrowTree(Leaf(7), 9, ByInsertedValue) == Some(Node(Nil, 7, 1, Leaf(9)));
    assert RebalanceTree(Node(Nil, 7, 1, Leaf(9)), 9, ByInsertedValue) == Some(Node(Nil, 7, 1, Leaf(9)));
    assert InsertTree(Leaf(7), 9, ByInsertedValue) == Some(Node(Nil, 7, 1, Leaf(9)));
    assert GrowTree(Node(Nil, 6, 1, Leaf(7)), 9, ByInsertedValue) == Some(Node(Nil, 6, 2, Node(Nil, 7, 1, Leaf(9))));
    assert RebalanceTree(Node(Nil, 6, 2, Node(Nil, 7, 1, Leaf(9))), 9, ByInsertedValue) == Some(Node(Nil, 6, 2, Node(Nil, 7, 1, Leaf(9))));
    assert InsertTree(Node(Nil, 6, 1, Leaf(7)), 9, ByInsertedValue) == Some(Node(Nil, 6, 2, Node(Nil, 7, 1, Leaf(9))));
    assert GrowTree(Node(Nil, 2, 2, Node(Nil, 6, 1, Leaf(7))), 9, ByInsertedValue) == Some(Node(Nil, 2, 3, Node(Nil, 6, 2, Node(Nil, 7, 1, Leaf(9)))));
    assert RotateLeftTree(Node(Nil, 2, 3, Node(Nil, 6, 2, Node(Nil, 7, 1, Leaf(9))))) == Some(Node(Leaf(2), 6, 2, Node(Nil, 7, 1, Leaf(9))));
    assert RebalanceTree(Node(Nil, 2, 3, Node(Nil, 6, 2, Node(Nil, 7, 1, Leaf(9)))), 9, ByInsertedValue) == Some(Node(Leaf(2), 6, 2, Node(Nil, 7, 1, Leaf(9))));
    assert InsertTree(Node(Nil, 2, 2, Node(Nil, 6, 1, Leaf(7))), 9, ByInsertedValue) == Some(Node(Leaf(2), 6, 2, Node(Nil, 7, 1, Leaf(9))));
  }

  lemma CrashingInsertionStep4()
    ensures InsertTree(CrashTree(4), 15, ByInsertedValue) == Some(CrashTree(5))
  {
    assert CrashTree(4) == Node(Leaf(2), 6, 2, Node(Nil, 7, 1, Leaf(9)));
    assert CrashTree(5) == Node(Node(Leaf(2), 6, 1, Nil), 7, 2, Node(Nil, 9, 1, Leaf(15)));
    assert GrowTree(Leaf(9), 15, ByInsertedValue) == Some(Node(Nil, 9, 1, Leaf(15)));
    assert RebalanceTree(Node(Nil, 9, 1, Leaf(15)), 15, ByInsertedValue) == Some(Node(Nil, 9, 1, Leaf(15)));
    assert InsertTree(Leaf(9), 15, ByInsertedValue) == Some(Node(Nil, 9, 1, Leaf(15)));
    assert GrowTree(Node(Nil, 7, 1, Leaf(9)), 15, ByInsertedValue) == Some(Node(Nil, 7, 2, Node(Nil, 9, 1, Leaf(15))));
    assert RebalanceTree(Node(Nil, 7, 2, Node(Nil, 9, 1, Leaf(15))), 15, ByInsertedValue) == Some(Node(Nil, 7, 2, Node(Nil, 9, 1, Leaf(15))));
    assert InsertTree(Node(Nil, 7, 1, Leaf(9)), 15, ByInsertedValue) == Some(Node(Nil, 7, 2, Node(Nil, 9, 1, Leaf(15))));
    assert GrowTree(Node(Leaf(2), 6, 2, Node(Nil, 7, 1, Leaf(9))), 15, ByInsertedValue) == Some(Node(Leaf(2), 6, 3, Node(Nil, 7, 2, Node(Nil, 9, 1, Leaf(15)))));
    assert RotateLeftTree(Node(Leaf(2), 6, 3, Node(Nil, 7, 2, Node(Nil, 9, 1, Leaf(15))))) == Some(Node(Node(Leaf(2), 6, 1, Nil), 7, 2, Node(Nil, 9, 1, Leaf(15))));
    assert RebalanceTree(Node(Leaf(2), 6, 3, Node(Nil, 7, 2, Node(Nil, 9, 1, Leaf(15)))), 15, ByInsertedValue) == Some(Node(Node(Leaf(2), 6, 1, Nil), 7, 2, Node(Nil, 9, 1, Leaf(15))));
    assert InsertTree(Node(Leaf(2), 6, 2, Node(Nil, 7, 1, Leaf(9))), 15, ByInsertedValue) == Some(Node(Node(Leaf(2), 6, 1, Nil), 7, 2, Node(Nil, 9, 1, Leaf(15))));
  }

  lemma CrashingInsertionStep5()
    ensures InsertTree(CrashTree(5), 12, ByInsertedValue) == Some(CrashTree(6))
  {
    assert CrashTree(5) == Node(Node(Leaf(2), 6, 1, Nil), 7, 2, Node(Nil, 9, 1, Leaf(15)));
    assert CrashTree(6) == Node(Node(Leaf(2), 6, 1, Nil), 7, 3, Node(Nil, 9, 2, Node(Leaf(12), 15, 1, Nil)));
    assert GrowTree(Leaf(15), 12, ByInsertedValue) == Some(Node(Leaf(12), 15, 1, Nil));
    assert RebalanceTree(Node(Leaf(12), 15, 1, Nil), 12, ByInsertedValue) == Some(Node(Leaf(12), 15, 1, Nil));
    assert InsertTree(Leaf(15), 12, ByInsertedValue) == Some(Node(Leaf(12), 15, 1, Nil));
    assert GrowTree(Node(Nil, 9, 1, Leaf(15)), 12, ByInsertedValue) == Some(Node(Nil, 9, 2, Node(Leaf(12), 15, 1, Nil)));
    assert RebalanceTree(Node(Nil, 9, 2, Node(Leaf(12), 15, 1, Nil)), 12, ByInsertedValue) == Some(Node(Nil, 9, 2, Node(Leaf(12), 15, 1, Nil)));
    assert InsertTree(Node(Nil, 9, 1, Leaf(15)), 12, ByInsertedValue) == Some(Node(Nil, 9, 2, Node(Leaf(12), 15, 1, Nil)));
    assert GrowTree(Node(Node(Leaf(2), 6, 1, Nil), 7, 2, Node(Nil, 9, 1, Leaf(15))), 12, ByInsertedValue) == Some(Node(Node(Leaf(2), 6, 1, Nil), 7, 3, Node(Nil, 9, 2, Node(Leaf(12), 15, 1, Nil))));
    assert RebalanceTree(Node(Node(Leaf(2), 6, 1, Nil), 7, 3, Node(Nil, 9, 2, Node(Leaf(12), 15, 1, Nil))), 12, ByInsertedValue) == Some(Node(Node(Leaf(2), 6, 1, Nil), 7, 3, Node(Nil, 9, 2, Node(Leaf(12), 15, 1, Nil))));
    assert InsertTree(Node(Node(Leaf(2), 6, 1, Nil), 7, 2, Node(Nil, 9, 1, Leaf(15))), 12, ByInsertedValue) == Some(Node(Node(Leaf(2), 6, 1, Nil), 7, 3, Node(Nil, 9, 2, Node(Leaf(12), 15, 1, Nil))));
  }

  lemma CrashingInsertionStep6()
    ensures InsertTree(CrashTree(6), 12, ByInsertedValue) == Some(CrashTree(7))
  {
    assert CrashTree(6) == Node(Node(Leaf(2), 6, 1, Nil), 7, 3, Node(Nil, 9, 2, Node(Leaf(12), 15, 1, Nil)));
    assert CrashTree(7) == Node(Node(Leaf(2), 6, 1, Nil), 7, 3, Node(Leaf(9), 12, 2, Node(Leaf(12), 15, 1, Nil)));
    assert GrowTree(Leaf(12), 12, ByInsertedValue) == Some(Node(Nil, 12, 1, Leaf(12)));
    assert RebalanceTree(Node(Nil, 12, 1, Leaf(12)), 12, ByInsertedValue) == Some(Node(Nil, 12, 1, Leaf(12)));
    assert InsertTree(Leaf(12), 12, ByInsertedValue) == Some(Node(Nil, 12, 1, Leaf(12)));
    assert GrowTree(Node(Leaf(12), 15, 1, Nil), 12, ByInsertedValue) == Some(Node(Node(Nil, 12, 1, Leaf(12)), 15, 2, Nil));
    assert RebalanceTree(Node(Node(Nil, 12, 1, Leaf(12)), 15, 2, Nil), 12, ByInsertedValue) == Some(Node(Node(Nil, 12, 1, Leaf(12)), 15, 2, Nil));
    assert InsertTree(Node(Leaf(12), 15, 1, Nil), 12, ByInsertedValue) == Some(Node(Node(Nil, 12, 1, Leaf(12)), 15, 2, Nil));
    assert GrowTree(Node(Nil, 9, 2, Node(Leaf(12), 15, 1, Nil)), 12, ByInsertedValue) == Some(Node(Nil, 9, 3, Node(Node(Nil, 12, 1, Leaf(12)), 15, 2, Nil)));
    assert RotateRightTree(Node(Node(Nil, 12, 1, Leaf(12)), 15, 2, Nil)) == Some(Node(Nil, 12, 2, Node(Leaf(12), 15, 1, Nil)));
    assert RotateLeftTree(Node(Nil, 9, 3, Node(Nil, 12, 2, Node(Leaf(12), 15, 1, Nil)))) == Some(Node(Leaf(9), 12, 2, Node(Leaf(12), 15, 1, Nil)));
    assert RebalanceTree(Node(Nil, 9, 3, Node(Node(Nil, 12, 1, Leaf(12)), 15, 2, Nil)), 12, ByInsertedValue) == Some(Node(Leaf(9), 12, 2, Node(Leaf(12), 15, 1, Nil)));
    assert InsertTree(Node(Nil, 9, 2, Node(Leaf(12), 15, 1, Nil)), 12, ByInsertedValue) == Some(Node(Leaf(9), 12, 2, Node(Leaf(12), 15, 1, Nil)));
    assert GrowTree(Node(Node(Leaf(2), 6, 1, Nil), 7, 3, Node(Nil, 9, 2, Node(Leaf(12), 15, 1, Nil))), 12, ByInsertedValue) == Some(Node(Node(Leaf(2), 6, 1, Nil), 7, 3, Node(Leaf(9), 12, 2, Node(Leaf(12), 15, 1, Nil))));
    assert RebalanceTree(Node(Node(Leaf(2), 6, 1, Nil), 7, 3, Node(Leaf(9), 12, 2, Node(Leaf(12), 15, 1, Nil))), 12, ByInsertedValue) == Some(Node(Node(Leaf(2), 6, 1, Nil), 7, 3, Node(Leaf(9), 12, 2, Node(Leaf(12), 15, 1, Nil))));
    assert InsertTree(Node(Node(Leaf(2), 6, 1, Nil), 7, 3, Node(Nil, 9, 2, Node(Leaf(12), 15, 1, Nil))), 12, ByInsertedValue) == Some(Node(Node(Leaf(2), 6, 1, Nil), 7, 3, Node(Leaf(9), 12, 2, Node(Leaf(12), 15, 1, Nil))));
  }

  lemma CrashingInsertionStep7()
    ensures InsertTree(CrashTree(7), 12, ByInsertedValue) == Some(CrashTree(8))
  {
    assert CrashTree(7) == Node(Node(Leaf(2), 6, 1, Nil), 7, 3, Node(Leaf(9), 12, 2, Node(Leaf(12), 15, 1, Nil)));
    assert CrashTree(8) == Node(Node(Leaf(2), 6, 1, Nil), 7, 3, Node(Node(Leaf(9), 12, 1, Nil), 12, 2, Node(Leaf(12), 15, 1, Nil)));
    assert GrowTree(Leaf(12), 12, ByInsertedValue) == Some(Node(Nil, 12, 1, Leaf(12)));
    assert RebalanceTree(Node(Nil, 12, 1, Leaf(12)), 12, ByInsertedValue) == Some(Node(Nil, 12, 1, Leaf(12)));
    assert InsertTree(Leaf(12), 12, ByInsertedValue) == Some(Node(Nil, 12, 1, Leaf(12)));
    assert GrowTree(Node(Leaf(12), 15, 1, Nil), 12, ByInsertedValue) == Some(Node(Node(Nil, 12, 1, Leaf(12)), 15, 2, Nil));
    assert RebalanceTree(Node(Node(Nil, 12, 1, Leaf(12)), 15, 2, Nil), 12, ByInsertedValue) == Some(Node(Node(Nil, 12, 1, Leaf(12)), 15, 2, Nil));
    assert InsertTree(Node(Leaf(12), 15, 1, Nil), 12, ByInsertedValue) == Some(Node(Node(Nil, 12, 1, Leaf(12)), 15, 2, Nil));
    assert GrowTree(Node(Leaf(9), 12, 2, Node(Leaf(12), 15, 1, Nil)), 12, ByInsertedValue) == Some(Node(Leaf(9), 12, 3, Node(Node(Nil, 12, 1, Leaf(12)), 15, 2, Nil)));
    assert RotateRightTree(Node(Node(Nil, 12, 1, Leaf(12)), 15, 2, Nil)) == Some(Node(Nil, 12, 2, Node(Leaf(12), 15, 1, Nil)));
    assert RotateLeftTree(Node(Leaf(9), 12, 3, Node(Nil, 12, 2, Node(Leaf(12), 15, 1, Nil)))) == Some(Node(Node(Leaf(9), 12, 1, Nil), 12, 2, Node(Leaf(12), 15, 1, Nil)));
    assert RebalanceTree(Node(Leaf(9), 12, 3, Node(Node(Nil, 12, 1, Leaf(12)), 15, 2, Nil)), 12, ByInsertedValue) == Some(Node(Node(Leaf(9), 12, 1, Nil), 12, 2, Node(Leaf(12), 15, 1, Nil)));
    assert InsertTree(Node(Leaf(9), 12, 2, Node(Leaf(12), 15, 1, Nil)), 12, ByInsertedValue) == Some(Node(Node(Leaf(9), 12, 1, Nil), 12, 2, Node(Leaf(12), 15, 1, Nil)));
    assert GrowTree(Node(Node(Leaf(2), 6, 1, Nil), 7, 3, Node(Leaf(9), 12, 2, Node(Leaf(12), 15, 1, Nil))), 12, ByInsertedValue) == Some(Node(Node(Leaf(2), 6, 1, Nil), 7, 3, Node(Node(Leaf(9), 12, 1, Nil), 12, 2, Node(Leaf(12), 15, 1, Nil))));
    assert RebalanceTree(Node(Node(Leaf(2), 6, 1, Nil), 7, 3, Node(Node(Leaf(9), 12, 1, Nil), 12, 2, Node(Leaf(12), 15, 1, Nil))), 12, ByInsertedValue) == Some(Node(Node(Leaf(2), 6, 1, Nil), 7, 3, Node(Node(Leaf(9), 12, 1, Nil), 12, 2, Node(Leaf(12), 15, 1, Nil))));
    assert InsertTree(Node(Node(Leaf(2), 6, 1, Nil), 7, 3, Node(Leaf(9), 12, 2, Node(Leaf(12), 15, 1, Nil))), 12, ByInsertedValue) == Some(Node(Node(Leaf(2), 6, 1, Nil), 7, 3, Node(Node(Leaf(9), 12, 1, Nil), 12, 2, Node(Leaf(12), 15, 1, Nil))));
  }

  lemma CrashingInsertionStep8()
    ensures InsertTree(CrashTree(8), 2, ByInsertedValue) == Some(CrashTree(9))
  {
    assert CrashTree(8) == Node(Node(Leaf(2), 6, 1, Nil), 7, 3, Node(Node(Leaf(9), 12, 1, Nil), 12, 2, Node(Leaf(12), 15, 1, Nil)));
    assert CrashTree(9) == Node(Node(Node(Nil, 2, 1, Leaf(2)), 6, 2, Nil), 7, 3, Node(Node(Leaf(9), 12, 1, Nil), 12, 2, Node(Leaf(12), 15, 1, Nil)));
    assert GrowTree(Leaf(2), 2, ByInsertedValue) == Some(Node(Nil, 2, 1, Leaf(2)));
    assert RebalanceTree(Node(Nil, 2, 1, Leaf(2)), 2, ByInsertedValue) == Some(Node(Nil, 2, 1, Leaf(2)));
    assert InsertTree(Leaf(2), 2, ByInsertedValue) == Some(Node(Nil, 2, 1, Leaf(2)));
    assert GrowTree(Node(Leaf(2), 6, 1, Nil), 2, ByInsertedValue) == Some(Node(Node(Nil, 2, 1, Leaf(2)), 6, 2, Nil));
    assert RebalanceTree(Node(Node(Nil, 2, 1, Leaf(2)), 6, 2, Nil), 2, ByInsertedValue) == Some(Node(Node(Nil, 2, 1, Leaf(2)), 6, 2, Nil));
    assert InsertTree(Node(Leaf(2), 6, 1, Nil), 2, ByInsertedValue) == Some(Node(Node(Nil, 2, 1, Leaf(2)), 6, 2, Nil));
    assert GrowTree(Node(Node(Leaf(2), 6, 1, Nil), 7, 3, Node(Node(Leaf(9), 12, 1, Nil), 12, 2, Node(Leaf(12), 15, 1, Nil))), 2, ByInsertedValue) == Some(Node(Node(Node(Nil, 2, 1, Leaf(2)), 6, 2, Nil), 7, 3, Node(Node(Leaf(9), 12, 1, Nil), 12, 2, Node(Leaf(12), 15, 1, Nil))));
    assert RebalanceTree(Node(Node(Node(Nil, 2, 1, Leaf(2)), 6, 2, Nil), 7, 3, Node(Node(Leaf(9), 12, 1, Nil), 12, 2, Node(Leaf(12), 15, 1, Nil))), 2, ByInsertedValue) == Some(Node(Node(Node(Nil, 2, 1, Leaf(2)), 6, 2, Nil), 7, 3, Node(Node(Leaf(9), 12, 1, Nil), 12, 2, Node(Leaf(12), 15, 1, Nil))));
    assert InsertTree(Node(Node(Leaf(2), 6, 1, Nil), 7, 3, Node(Node(Leaf(9), 12, 1, Nil), 12, 2, Node(Leaf(12), 15, 1, Nil))), 2, ByInsertedValue) == Some(Node(Node(Node(Nil, 2, 1, Leaf(2)), 6, 2, Nil), 7, 3, Node(Node(Leaf(9), 12, 1, Nil), 12, 2, Node(Leaf(12), 15, 1, Nil))));
  }

  lemma CrashingInsertionStep9()
    ensures InsertTree(CrashTree(9), 9, ByInsertedValue) == Some(CrashTree(10))
  {
    assert CrashTree(9) == Node(Node(Node(Nil, 2, 1, Leaf(2)), 6, 2, Nil), 7, 3, Node(Node(Leaf(9), 12, 1, Nil), 12, 2, Node(Leaf(12), 15, 1, Nil)));
    assert CrashTree(10) == Node(Node(Node(Nil, 2, 1, Leaf(2)), 6, 2, Nil), 7, 4, Node(Node(Node(Nil, 9, 1, Leaf(9)), 12, 2, Nil), 12, 3, Node(Leaf(12), 15, 1, Nil)));
    assert GrowTree(Leaf(9), 9, ByInsertedValue) == Some(Node(Nil, 9, 1, Leaf(9)));
    assert RebalanceTree(Node(Nil, 9, 1, Leaf(9)), 9, ByInsertedValue) == Some(Node(Nil, 9, 1, Leaf(9)));
    assert InsertTree(Leaf(9), 9, ByInsertedValue) == Some(Node(Nil, 9, 1, Leaf(9)));
    assert GrowTree(Node(Leaf(9), 12, 1, Nil), 9, ByInsertedValue) == Some(Node(Node(Nil, 9, 1, Leaf(9)), 12, 2, Nil));
    assert RebalanceTree(Node(Node(Nil, 9, 1, Leaf(9)), 12, 2, Nil), 9, ByInsertedValue) == Some(Node(Node(Nil, 9, 1, Leaf(9)), 12, 2, Nil));
    assert InsertTree(Node(Leaf(9), 12, 1, Nil), 9, ByInsertedValue) == Some(Node(Node(Nil, 9, 1, Leaf(9)), 12, 2, Nil));
    assert GrowTree(Node(Node(Leaf(9), 12, 1, Nil), 12, 2, Node(Leaf(12), 15, 1, Nil)), 9, ByInsertedValue) == Some(Node(Node(Node(Nil, 9, 1, Leaf(9)), 12, 2, Nil), 12, 3, Node(Leaf(12), 15, 1, Nil)));
    assert RebalanceTree(Node(Node(Node(Nil, 9, 1, Leaf(9)), 12, 2, Nil), 12, 3, Node(Leaf(12), 15, 1, Nil)), 9, ByInsertedValue) == Some(Node(Node(Node(Nil, 9, 1, Leaf(9)), 12, 2, Nil), 12, 3, Node(Leaf(12), 15, 1, Nil)));
    assert InsertTree(Node(Node(Leaf(9), 12, 1, Nil), 12, 2, Node(Leaf(12), 15, 1, Nil)), 9, ByInsertedValue) == Some(Node(Node(Node(Nil, 9, 1, Leaf(9)), 12, 2, Nil), 12, 3, Node(Leaf(12), 15, 1, Nil)));
    assert GrowTree(Node(Node(Node(Nil, 2, 1, Leaf(2)), 6, 2, Nil), 7, 3, Node(Node(Leaf(9), 12, 1, Nil), 12, 2, Node(Leaf(12), 15, 1, Nil))), 9, ByInsertedValue) == Some(Node(Node(Node(Nil, 2, 1, Leaf(2)), 6, 2, Nil), 7, 4, Node(Node(Node(Nil, 9, 1, Leaf(9)), 12, 2, Nil), 12, 3, Node(Leaf(12), 15, 1, Nil))));
    assert RebalanceTree(Node(Node(Node(Nil, 2, 1, Leaf(2)), 6, 2, Nil), 7, 4, Node(Node(Node(Nil, 9, 1, Leaf(9)), 12, 2, Nil), 12, 3, Node(Leaf(12), 15, 1, Nil))), 9, ByInsertedValue) == Some(Node(Node(Node(Nil, 2, 1, Leaf(2)), 6, 2, Nil), 7, 4, Node(Node(Node(Nil, 9, 1, Leaf(9)), 12, 2, Nil), 12, 3, Node(Leaf(12), 15, 1, Nil))));
    assert InsertTree(Node(Node(Node(Nil, 2, 1, Leaf(2)), 6, 2, Nil), 7, 3, Node(Node(Leaf(9), 12, 1, Nil), 12, 2, Node(Leaf(12), 15, 1, Nil))), 9, ByInsertedValue) == Some(Node(Node(Node(Nil, 2, 1, Leaf(2)), 6, 2, Nil), 7, 4, Node(Node(Node(Nil, 9, 1, Leaf(9)), 12, 2, Nil), 12, 3, Node(Leaf(12), 15, 1, Nil))));
  }

  lemma CrashingInsertionStep10()
    ensures InsertTree(CrashTree(10), 9, ByInsertedValue) == Some(CrashTree(11))
  {
    assert CrashTree(10) == Node(Node(Node(Nil, 2, 1, Leaf(2)), 6, 2, Nil), 7, 4, Node(Node(Node(Nil, 9, 1, Leaf(9)), 12, 2, Nil), 12, 3, Node(Leaf(12), 15, 1, Nil)));
    assert CrashTree(11) == Node(Node(Node(Node(Nil, 2, 1, Leaf(2)), 6, 2, Nil), 7, 3, Nil), 9, 4, Node(Node(Node(Nil, 9, 1, Leaf(9)), 12, 2, Nil), 12, 3, Node(Leaf(12), 15, 1, Nil)));
    assert GrowTree(Leaf(9), 9, ByInsertedValue) == Some(Node(Nil, 9, 1, Leaf(9)));
    assert RebalanceTree(Node(Nil, 9, 1, Leaf(9)), 9, ByInsertedValue) == Some(Node(Nil, 9, 1, Leaf(9)));
    assert InsertTree(Leaf(9), 9, ByInsertedValue) == Some(Node(Nil, 9, 1, Leaf(9)));
    assert GrowTree(Node(Nil, 9, 1, Leaf(9)), 9, ByInsertedValue) == Some(Node(Nil, 9, 2, Node(Nil, 9, 1, Leaf(9))));
    assert RebalanceTree(Node(Nil, 9, 2, Node(Nil, 9, 1, Leaf(9))), 9, ByInsertedValue) == Some(Node(Nil, 9, 2, Node(Nil, 9, 1, Leaf(9))));
    assert InsertTree(Node(Nil, 9, 1, Leaf(9)), 9, ByInsertedValue) == Some(Node(Nil, 9, 2, Node(Nil, 9, 1, Leaf(9))));
    assert GrowTree(Node(Node(Nil, 9, 1, Leaf(9)), 12, 2, Nil), 9, ByInsertedValue) == Some(Node(Node(Nil, 9, 2, Node(Nil, 9, 1, Leaf(9))), 12, 3, Nil));
    assert RotateRightTree(Node(Node(Nil, 9, 2, Node(Nil, 9, 1, Leaf(9))), 12, 3, Nil)) == Some(Node(Nil, 9, 3, Node(Node(Nil, 9, 1, Leaf(9)), 12, 2, Nil)));
    assert RebalanceTree(Node(Node(Nil, 9, 2, Node(Nil, 9, 1, Leaf(9))), 12, 3, Nil), 9, ByInsertedValue) == Some(Node(Nil, 9, 3, Node(Node(Nil, 9, 1, Leaf(9)), 12, 2, Nil)));
    assert InsertTree(Node(Node(Nil, 9, 1, Leaf(9)), 12, 2, Nil), 9, ByInsertedValue) == Some(Node(Nil, 9, 3, Node(Node(Nil, 9, 1, Leaf(9)), 12, 2, Nil)));
    assert GrowTree(Node(Node(Node(Nil, 9, 1, Leaf(9)), 12, 2, Nil), 12, 3, Node(Leaf(12), 15, 1, Nil)), 9, ByInsertedValue) == Some(Node(Node(Nil, 9, 3, Node(Node(Nil, 9, 1, Leaf(9)), 12, 2, Nil)), 12, 4, Node(Leaf(12), 15, 1, Nil)));
    assert RotateRightTree(Node(Node(Nil, 9, 3, Node(Node(Nil, 9, 1, Leaf(9)), 12, 2, Nil)), 12, 4, Node(Leaf(12), 15, 1, Nil))) == Some(Node(Nil, 9, 4, Node(Node(Node(Nil, 9, 1, Leaf(9)), 12, 2, Nil), 12, 3, Node(Leaf(12), 15, 1, Nil))));
    assert RebalanceTree(Node(Node(Nil, 9, 3, Node(Node(Nil, 9, 1, Leaf(9)), 12, 2, Nil)), 12, 4, Node(Leaf(12), 15, 1, Nil)), 9, ByInsertedValue) == Some(Node(Nil, 9, 4, Node(Node(Node(Nil, 9, 1, Leaf(9)), 12, 2, Nil), 12, 3, Node(Leaf(12), 15, 1, Nil))));
    assert InsertTree(Node(Node(Node(Nil, 9, 1, Leaf(9)), 12, 2, Nil), 12, 3, Node(Leaf(12), 15, 1, Nil)), 9, ByInsertedValue) == Some(Node(Nil, 9, 4, Node(Node(Node(Nil, 9, 1, Leaf(9)), 12, 2, Nil), 12, 3, Node(Leaf(12), 15, 1, Nil))));
    assert GrowTree(Node(Node(Node(Nil, 2, 1, Leaf(2)), 6, 2, Nil), 7, 4, Node(Node(Node(Nil, 9, 1, Leaf(9)), 12, 2, Nil), 12, 3, Node(Leaf(12), 15, 1, Nil))), 9, ByInsertedValue) == Some(Node(Node(Node(Nil, 2, 1, Leaf(2)), 6, 2, Nil), 7, 5, Node(Nil, 9, 4, Node(Node(Node(Nil, 9, 1, Leaf(9)), 12, 2, Nil), 12, 3, Node(Leaf(12), 15, 1, Nil)))));
    assert RotateLeftTree(Node(Node(Node(Nil, 2, 1, Leaf(2)), 6, 2, Nil), 7, 5, Node(Nil, 9, 4, Node(Node(Node(Nil, 9, 1, Leaf(9)), 12, 2, Nil), 12, 3, Node(Leaf(12), 15, 1, Nil))))) == Some(Node(Node(Node(Node(Nil, 2, 1, Leaf(2)), 6, 2, Nil), 7, 3, Nil), 9, 4, Node(Node(Node(Nil, 9, 1, Leaf(9)), 12, 2, Nil), 12, 3, Node(Leaf(12), 15, 1, Nil))));
    assert RebalanceTree(Node(Node(Node(Nil, 2, 1, Leaf(2)), 6, 2, Nil), 7, 5, Node(Nil, 9, 4, Node(Node(Node(Nil, 9, 1, Leaf(9)), 12, 2, Nil), 12, 3, Node(Leaf(12), 15, 1, Nil)))), 9, ByInsertedValue) == Some(Node(Node(Node(Node(Nil, 2, 1, Leaf(2)), 6, 2, Nil), 7, 3, Nil), 9, 4, Node(Node(Node(Nil, 9, 1, Leaf(9)), 12, 2, Nil), 12, 3, Node(Leaf(12), 15, 1, Nil))));
    assert InsertTree(Node(Node(Node(Nil, 2, 1, Leaf(2)), 6, 2, Nil), 7, 4, Node(Node(Node(Nil, 9, 1, Leaf(9)), 12, 2, Nil), 12, 3, Node(Leaf(12), 15, 1, Nil))), 9, ByInsertedValue) == Some(Node(Node(Node(Node(Nil, 2, 1, Leaf(2)), 6, 2, Nil), 7, 3, Nil), 9, 4, Node(Node(Node(Nil, 9, 1, Leaf(9)), 12, 2, Nil), 12, 3, Node(Leaf(12), 15, 1, Nil))));
  }

  lemma CrashingInsertionStep11()
    ensures InsertTree(CrashTree(11), 7, ByInsertedValue) == None
  {
    assert CrashTree(11) == Node(Node(Node(Node(Nil, 2, 1, Leaf(2)), 6, 2, Nil), 7, 3, Nil), 9, 4, Node(Node(Node(Nil, 9, 1, Leaf(9)), 12, 2, Nil), 12, 3, Node(Leaf(12), 15, 1, Nil)));
    assert GrowTree(Node(Node(Node(Nil, 2, 1, Leaf(2)), 6, 2, Nil), 7, 3, Nil), 7, ByInsertedValue) == Some(Node(Node(Node(Nil, 2, 1, Leaf(2)), 6, 2, Nil), 7, 3, Leaf(7)));
    assert RotateLeftTree(Node(Node(Nil, 2, 1, Leaf(2)), 6, 2, Nil)) == None;
    assert RebalanceTree(Node(Node(Node(Nil, 2, 1, Leaf(2)), 6, 2, Nil), 7, 3, Leaf(7)), 7, ByInsertedValue) == None;
    assert InsertTree(Node(Node(Node(Nil, 2, 1, Leaf(2)), 6, 2, Nil), 7, 3, Nil), 7, ByInsertedValue) == None;
    assert InsertTree(Node(Node(Node(Node(Nil, 2, 1, Leaf(2)), 6, 2, Nil), 7, 3, Nil), 9, 4, Node(Node(Node(Nil, 9, 1, Leaf(9)), 12, 2, Nil), 12, 3, Node(Leaf(12), 15, 1, Nil))), 7, ByInsertedValue) == None;
  }

  /** The first i + 1 insertions, for i in [0, 10], give CrashTree(i + 1). */
  lemma {:induction false} CrashingInsertionsBuild(i: nat)
    requires i <= 10
    ensures InsertAll(Nil, CrashingInsertions()[..i + 1], ByInsertedValue) == Some(CrashTree(i + 1))
  {
    var vs := CrashingInsertions();
    if i == 0 {
      assert vs[..1] == [2];
    } else {
      CrashingInsertionsBuild(i - 1);
      CrashingInsertionStep(i);
      InsertAllSnoc(vs, i, CrashTree(i), CrashTree(i + 1), ByInsertedValue);
    }
  }

  /** One more insertion after the first i. */
  lemma InsertAllSnoc(vs: seq<int>, i: nat, t: Tree, t': Tree, test: DoubleRotationTest)
    requires i < |vs| && t.Node?
    requires InsertAll(Nil, vs[..i], test) == Some(t) && InsertTree(t, vs[i], test) == Some(t')
    ensures InsertAll(Nil, vs[..i + 1], test) == Some(t')
  {
    InsertAllConcat(Nil, vs[..i], [vs[i]], test);
    assert vs[..i] + [vs[i]] == vs[..i + 1];
    InsertAllOne(t, vs[i], test);
  }

  lemma CrashingInsertionStep(i: nat)
    requires 1 <= i <= 10
    ensures CrashTree(i).Node?
    ensures InsertTree(CrashTree(i), CrashingInsertions()[i], ByInsertedValue) == Some(CrashTree(i + 1))
  {
    match i
    case 1 => CrashingInsertionStep1();
    case 2 => CrashingInsertionStep2();
    case 3 => CrashingInsertionStep3();
    case 4 => CrashingInsertionStep4();
    case 5 => CrashingInsertionStep5();
    case 6 => CrashingInsertionStep6();
    case 7 => CrashingInsertionStep7();
    case 8 => CrashingInsertionStep8();
    case 9 => CrashingInsertionStep9();
    case 10 => CrashingInsertionStep10();
  }

  /** Built by insertions of 2, 6, 7, 9, 15, 12, 12, 12, 2, 9, 9 in this order, the tree
      has a node 7 of height 3 whose left child 6 has no right child and whose right child is
      absent. Inserting 7 then sends it right of that node, makes the node's balance factor
      2, and, 7 being larger than 6, asks rotateLeft to lift the absent right child of 6:
      the source throws a NullPointerException. */
  lemma AsWrittenInsertCrashes(vs: seq<int>)
    requires vs == CrashingInsertions()
    ensures InsertAll(Nil, vs[..11], ByInsertedValue) == Some(CrashTree(11))
    ensures InsertTree(CrashTree(11), vs[11], ByInsertedValue) == None
    ensures InsertAll(Nil, vs, ByInsertedValue) == None
  {
    assert InsertAll(Nil, vs[..11], ByInsertedValue) == Some(CrashTree(11)) by {
      CrashingInsertionsBuild(10);
    }
    assert InsertTree(CrashTree(11), vs[11], ByInsertedValue) == None by {
      CrashingInsertionStep11();
    }
    assert vs[..11] + [vs[11]] == vs;
    InsertAllConcat(Nil, vs[..11], [vs[11]], ByInsertedValue);
    InsertAllOne(CrashTree(11), vs[11], ByInsertedValue);
  }

  lemma InsertAllOne(t: Tree, v: int, test: DoubleRotationTest)
    requires t.Node?
    ensures InsertAll(t, [v], test) == InsertTree(t, v, test)
  {
    var r := InsertTree(t, v, test);
    if r.Some? {
      assert InsertAll(t, [v], test) == InsertAll(r.value, [], test);
    }
  }

  /** Inserting a + b is inserting a, then b. */
  lemma {:induction false} InsertAllConcat(t: Tree, a: seq<int>, b: seq<int>, test: DoubleRotationTest)
    ensures InsertAll(t, a + b, test)
            == (if InsertAll(t, a, test).None? then None else InsertAll(InsertAll(t, a, test).value, b, test))
    decreases |a|
  {
    if a != [] {
      assert (a + b)[1..] == a[1..] + b;
      var next := if t.Nil? then Some(Leaf(a[0])) else InsertTree(t, a[0], test);
      if next.Some? {
        InsertAllConcat(next.value, a[1..], b, test);
      }
    } else {
      assert a + b == b;
    }
  }

  // ---------------------------------------------------------------------------
  // Layout

  /** Where positionSelf puts each node: a tree of (x, y) in the shape of the value tree. */
  datatype Layout = NoPlace | Place(left: Layout, x: int, y: int, right: Layout)

  /** positionSelf(x0, x1, y): the node is centred in [x0, x1] (Java's truncating division)
      at row y; a left child gets [x0, x] (or [x0, x1 - 2 MARGIN] when there is no right
      child), a right child [x, x1] (or [x0 + 2 MARGIN, x1] when there is no left child),
      both one row of SIZE + MARGIN lower. */
  function PlaceTree(t: Tree, x0: int, x1: int, y: int): Layout {
    if t.Nil? then NoPlace
    else
      var x := JavaDiv(x0 + x1, 2);
      var childY := y + SIZE + MARGIN;
      var l := if t.left.Nil? then NoPlace
               else PlaceTree(t.left, x0, if t.right.Nil? then x1 - 2 * MARGIN else x, childY);
      var r := if t.right.Nil? then NoPlace
               else PlaceTree(t.right, if t.left.Nil? then x0 + 2 * MARGIN else x, x1, childY);
      Place(l, x, y, r)
  }

  /** Layout and tree have the same shape. */
  predicate SameShape(p: Layout, t: Tree) {
    match p
    case NoPlace => t.Nil?
    case Place(pl, _, _, pr) => t.Node? && SameShape(pl, t.left) && SameShape(pr, t.right)
  }

  /** Every y of a layout lies on a row: y0 plus a whole number of rows of 80 pixels,
      the row being the node's distance from the root. */
  predicate OnRows(p: Layout, y0: int, depth: nat) {
    match p
    case NoPlace => true
    case Place(pl, _, y, pr) =>
      y == y0 + depth * (SIZE + MARGIN) && OnRows(pl, y0, depth + 1) && OnRows(pr, y0, depth + 1)
  }

  /** positionSelf places every node exactly once, the root centred between x0 and x1 at
      its row and each node one row of SIZE + MARGIN = 80 pixels below its parent. Stated
      for a subtree at `depth` rows below a root placed at row `top`. */
  lemma {:induction false} PlaceTreeSpec(t: Tree, x0: int, x1: int, top: int, depth: nat)
    ensures var p := PlaceTree(t, x0, x1, top + depth * (SIZE + MARGIN));
            && SameShape(p, t)
            && OnRows(p, top, depth)
            && (t.Node? ==> p.x == JavaDiv(x0 + x1, 2) && p.y == top + depth * (SIZE + MARGIN))
  {
    if t.Node? {
      var x := JavaDiv(x0 + x1, 2);
      var y := top + depth * (SIZE + MARGIN);
      assert y + SIZE + MARGIN == top + (depth + 1) * (SIZE + MARGIN);
      if t.left.Node? {
        PlaceTreeSpec(t.left, x0, if t.right.Nil? then x1 - 2 * MARGIN else x, top, depth + 1);
      }
      if t.right.Node? {
        PlaceTreeSpec(t.right, if t.left.Nil? then x0 + 2 * MARGIN else x, x1, top, depth + 1);
      }
    }
  }

  // ---------------------------------------------------------------------------
  // The nodes on the heap

  /** Which node sits where in a subtree of TreeNode objects. A method on the nodes takes
      the shape of the subtree it works on as a ghost parameter and returns the shape the
      subtree has afterwards; its frame is the set of nodes the shape mentions. */
  datatype Shape = Absent | At(node: TreeNode, left: Shape, right: Shape)

  /** The nodes a shape mentions. */
  ghost function NodesOf(g: Shape): set<TreeNode>
  {
    if g.Absent? then {} else {g.node} + NodesOf(g.left) + NodesOf(g.right)
  }

  /** Every node a shape mentions exists. */
  lemma NodesAllocated(g: Shape)
    ensures forall o :: o in NodesOf(g) ==> allocated(o)
  {
    if g.At? {
      NodesAllocated(g.left);
      NodesAllocated(g.right);
    }
  }

  /** The node at the top of a shape, null for the empty one. */
  function RootOf(g: Shape): TreeNode?
  {
    if g.Absent? then null else g.node
  }

  /** The left and right fields of the nodes link them as the shape says, and no node
      occurs twice, so the nodes form a tree. */
  ghost predicate Spells(g: Shape)
    reads NodesOf(g)
  {
    g.At? ==>
      && g.node.left == RootOf(g.left) && g.node.right == RootOf(g.right)
      && g.node !in NodesOf(g.left) && g.node !in NodesOf(g.right)
      && NodesOf(g.left) !! NodesOf(g.right)
      && Spells(g.left) && Spells(g.right)
  }

  /** The tree the nodes of a shape hold: their values and stored heights. */
  ghost function TreeOf(g: Shape): Tree
    reads NodesOf(g)
  {
    if g.Absent? then Nil else Node(TreeOf(g.left), g.node.value, g.node.height, TreeOf(g.right))
  }

  /** The positions the nodes of a shape hold. */
  ghost function PlacesOf(g: Shape): Layout
    reads NodesOf(g)
  {
    if g.Absent? then NoPlace else Place(PlacesOf(g.left), g.node.x, g.node.y, PlacesOf(g.right))
  }

  class TreeNode {
    var value: int
    var height: int
    var left: TreeNode?
    var right: TreeNode?
    var x: int
    var y: int

    /** A new node: the given value, height 0, no children. */
    constructor (value: int)
      ensures this.value == value && height == 0 && left == null && right == null
      ensures Spells(At(this, Absent, Absent)) && TreeOf(At(this, Absent, Absent)) == Leaf(value)
    {
      this.value := value;
      height := 0;
      left := null;
      right := null;
    }

    /** getHeight(node). */
    static function HeightOf(node: TreeNode?): int
      reads node
    {
      if node == null then 0 else node.height
    }

    /** calcNewHeight(node). */
    static function NewHeightOf(node: TreeNode): int
      reads node, node.left, node.right
    {
      if node.left == null && node.right == null then 0
      else Max(HeightOf(node.left), HeightOf(node.right)) + 1
    }

    /** getBalanceFactor(node). */
    static function BalanceFactorOf(node: TreeNode): int
      reads node, node.left, node.right
    {
      HeightOf(node.left) - HeightOf(node.right)
    }

    /** rotateRight: the left child l becomes the root of the same nodes, node becomes its
        right child and takes over l's right subtree, and both heights are recomputed. */
    static method RotateRight(node: TreeNode, ghost g: Shape) returns (l: TreeNode, ghost g': Shape)
      requires g.At? && g.node == node && Spells(g) && node.left != null
      modifies NodesOf(g)
      ensures l == old(node.left) && g'.At? && g'.node == l && Spells(g')
      ensures NodesOf(g') == NodesOf(g)
      ensures RotateRightTree(old(TreeOf(g))) == Some(TreeOf(g'))
    {
      l := node.left;
      var lr := l.right;
      ghost var gl := g.left;
      assert gl.At? && gl.node == l;
      ghost var tll, tlr, tr := TreeOf(gl.left), TreeOf(gl.right), TreeOf(g.right);
      assert TreeOf(gl) == Node(tll, l.value, l.height, tlr);
      l.right := node;
      node.left := lr;
      node.height := NewHeightOf(node);
      l.height := NewHeightOf(l);
      g' := At(l, gl.left, At(node, gl.right, g.right));
      assert TreeOf(gl.left) == tll && TreeOf(gl.right) == tlr && TreeOf(g.right) == tr;
    }

    /** rotateLeft, the mirror image of rotateRight. */
    static method RotateLeft(node: TreeNode, ghost g: Shape) returns (r: TreeNode, ghost g': Shape)
      requires g.At? && g.node == node && Spells(g) && node.right != null
      modifies NodesOf(g)
      ensures r == old(node.right) && g'.At? && g'.node == r && Spells(g')
      ensures NodesOf(g') == NodesOf(g)
      ensures RotateLeftTree(old(TreeOf(g))) == Some(TreeOf(g'))
    {
      r := node.right;
      var rl := r.left;
      ghost var gr := g.right;
      assert gr.At? && gr.node == r;
      ghost var trl, trr, tl := TreeOf(gr.left), TreeOf(gr.right), TreeOf(g.left);
      assert TreeOf(gr) == Node(trl, r.value, r.height, trr);
      node.right := rl;
      r.left := node;
      node.height := NewHeightOf(node);
      r.height := NewHeightOf(r);
      g' := At(r, At(node, g.left, gr.left), gr.right);
      assert TreeOf(gr.left) == trl && TreeOf(gr.right) == trr && TreeOf(g.left) == tl;
    }

    /** insert: returns the new root of this subtree, which holds what InsertTree computes
        on the old one; None where the source throws a NullPointerException. When no
        rotation is due the root is this node. New nodes are the only ones added. The
        source decides the double rotations ByInsertedValue; decided ByChildBalance, the
        insertion into a tree with correct heights always succeeds. */
    method Insert(v: int, test: DoubleRotationTest, ghost g: Shape) returns (res: Option<TreeNode>, ghost g': Shape)
      requires g.At? && g.node == this && Spells(g)
      modifies NodesOf(g)
      decreases g, 2
      ensures res.Some? <==> InsertTree(old(TreeOf(g)), v, test).Some?
      ensures res.Some? ==> g'.At? && g'.node == res.value && Spells(g')
      ensures res.Some? ==> NodesOf(g) <= NodesOf(g') && fresh(NodesOf(g') - NodesOf(g))
      ensures res.Some? ==> InsertTree(old(TreeOf(g)), v, test) == Some(TreeOf(g'))
      ensures var grown := GrowTree(old(TreeOf(g)), v, test);
        grown.Some? && grown.value.Node? && NoRotation(grown.value) ==> res == Some(this)
      ensures test == ByChildBalance && HeightsOk(old(TreeOf(g))) ==> res.Some?
    {
      if test == ByChildBalance && HeightsOk(TreeOf(g)) {
        InsertByChildBalanceTotal(TreeOf(g), v);
      }
      var ok, g1 := Grow(v, test, g);
      if !ok {
        return None, g;
      }
      res, g' := Rebalance(this, v, test, g1);
    }

    /** The first half of insert: v goes down the left subtree when this value is larger
        and down the right one otherwise, and the height is recomputed. */
    method Grow(v: int, test: DoubleRotationTest, ghost g: Shape) returns (ok: bool, ghost g': Shape)
      requires g.At? && g.node == this && Spells(g)
      modifies NodesOf(g)
      decreases g, 1
      ensures ok <==> GrowTree(old(TreeOf(g)), v, test).Some?
      ensures ok ==> g'.At? && g'.node == this && Spells(g')
      ensures ok ==> NodesOf(g) <= NodesOf(g') && fresh(NodesOf(g') - NodesOf(g))
      ensures ok ==> GrowTree(old(TreeOf(g)), v, test) == Some(TreeOf(g'))
    {
      if value > v {
        ok, g' := GrowLeft(v, test, g);
      } else {
        ok, g' := GrowRight(v, test, g);
      }
      if ok {
        UpdateHeight(g');
      }
    }

    /** `node.height = calcNewHeight(node)` at the end of insert's descent: only the stored
        height of this node changes. */
    method UpdateHeight(ghost g: Shape)
      requires g.At? && g.node == this && Spells(g)
      modifies this
      ensures Spells(g)
      ensures var t := old(TreeOf(g)); TreeOf(g) == t.(height := CalcNewHeight(t))
    {
      ghost var t := TreeOf(g);
      assert t.left == TreeOf(g.left) && t.right == TreeOf(g.right);
      height := NewHeightOf(this);
      assert TreeOf(g.left) == t.left && TreeOf(g.right) == t.right;
    }

    /** The left branch of insert's descent: a new leaf where there is no left child,
        otherwise the root the recursive insert returns. */
    method GrowLeft(v: int, test: DoubleRotationTest, ghost g: Shape) returns (ok: bool, ghost g': Shape)
      requires g.At? && g.node == this && Spells(g)
      modifies NodesOf(g)
      decreases g, 0
      ensures var t := old(TreeOf(g));
        ok <==> t.left.Nil? || InsertTree(t.left, v, test).Some?
      ensures ok ==> g'.At? && g'.node == this && Spells(g')
      ensures ok ==> NodesOf(g) <= NodesOf(g') && fresh(NodesOf(g') - NodesOf(g))
      ensures var t := old(TreeOf(g));
        ok ==> TreeOf(g') == t.(left := if t.left.Nil? then Leaf(v) else InsertTree(t.left, v, test).value)
    {
      ghost var tr := TreeOf(g.right);
      NodesAllocated(g);
      if left == null {
        var n := new TreeNode(v);
        left := n;
        g' := At(this, At(n, Absent, Absent), g.right);
      } else {
        var sub, gl := left.Insert(v, test, g.left);
        if sub.None? {
          return false, g;
        }
        left := sub.value;
        g' := At(this, gl, g.right);
      }
      ok := true;
      assert TreeOf(g.right) == tr;
    }

    /** The right branch of insert's descent, the mirror image of GrowLeft. */
    method GrowRight(v: int, test: DoubleRotationTest, ghost g: Shape) returns (ok: bool, ghost g': Shape)
      requires g.At? && g.node == this && Spells(g)
      modifies NodesOf(g)
      decreases g, 0
      ensures var t := old(TreeOf(g));
        ok <==> t.right.Nil? || InsertTree(t.right, v, test).Some?
      ensures ok ==> g'.At? && g'.node == this && Spells(g')
      ensures ok ==> NodesOf(g) <= NodesOf(g') && fresh(NodesOf(g') - NodesOf(g))
      ensures var t := old(TreeOf(g));
        ok ==> TreeOf(g') == t.(right := if t.right.Nil? then Leaf(v) else InsertTree(t.right, v, test).value)
    {
      ghost var tl := TreeOf(g.left);
      NodesAllocated(g);
      if right == null {
        var n := new TreeNode(v);
        right := n;
        g' := At(this, g.left, At(n, Absent, Absent));
      } else {
        var sub, gr := right.Insert(v, test, g.right);
        if sub.None? {
          return false, g;
        }
        right := sub.value;
        g' := At(this, g.left, gr);
      }
      ok := true;
      assert TreeOf(g.left) == tl;
    }

    /** The second half of insert: the rotations the balance factor calls for. */
    static method Rebalance(node: TreeNode, v: int, test: DoubleRotationTest, ghost g: Shape) returns (res: Option<TreeNode>, ghost g': Shape)
      requires g.At? && g.node == node && Spells(g)
      modifies NodesOf(g)
      ensures res.Some? <==> RebalanceTree(old(TreeOf(g)), v, test).Some?
      ensures res.Some? ==> g'.At? && g'.node == res.value && Spells(g') && NodesOf(g') == NodesOf(g)
      ensures res.Some? ==> RebalanceTree(old(TreeOf(g)), v, test) == Some(TreeOf(g'))
      ensures NoRotation(old(TreeOf(g))) ==> res == Some(node)
    {
      var bf := BalanceFactorOf(node);
      if bf > 1 {
        res, g' := RebalanceLeftHeavy(node, v, test, g);
      } else if bf < -1 {
        res, g' := RebalanceRightHeavy(node, v, test, g);
      } else {
        res, g' := Some(node), g;
      }
    }

    /** The rotations for a node whose balance factor exceeds 1: the left child is rotated
        left first in the left-right case, then the node is rotated right. */
    static method RebalanceLeftHeavy(node: TreeNode, v: int, test: DoubleRotationTest, ghost g: Shape) returns (res: Option<TreeNode>, ghost g': Shape)
      requires g.At? && g.node == node && Spells(g) && GetBalanceFactor(TreeOf(g)) > 1
      modifies NodesOf(g)
      ensures res.Some? <==> RebalanceTree(old(TreeOf(g)), v, test).Some?
      ensures res.Some? ==> g'.At? && g'.node == res.value && Spells(g') && NodesOf(g') == NodesOf(g)
      ensures res.Some? ==> RebalanceTree(old(TreeOf(g)), v, test) == Some(TreeOf(g'))
    {
      assert TreeOf(g) == Node(TreeOf(g.left), node.value, node.height, TreeOf(g.right));
      if node.left == null {
        return None, g;
      }
      g' := g;
      CaseOfAgrees(test, g.left, v);
      if LeftRightCaseOf(test, node.left, v) {
        assert TreeOf(g.left) == Node(TreeOf(g.left.left), node.left.value, node.left.height, TreeOf(g.left.right));
        if node.left.right == null {
          return None, g;
        }
        g' := RotateLeftChild(node, g);
      }
      var top, gt := RotateRight(node, g');
      return Some(top), gt;
    }

    /** The rotations for a node whose balance factor is below -1, the mirror image of
        RebalanceLeftHeavy. */
    static method RebalanceRightHeavy(node: TreeNode, v: int, test: DoubleRotationTest, ghost g: Shape) returns (res: Option<TreeNode>, ghost g': Shape)
      requires g.At? && g.node == node && Spells(g) && GetBalanceFactor(TreeOf(g)) < -1
      modifies NodesOf(g)
      ensures res.Some? <==> RebalanceTree(old(TreeOf(g)), v, test).Some?
      ensures res.Some? ==> g'.At? && g'.node == res.value && Spells(g') && NodesOf(g') == NodesOf(g)
      ensures res.Some? ==> RebalanceTree(old(TreeOf(g)), v, test) == Some(TreeOf(g'))
    {
      assert TreeOf(g) == Node(TreeOf(g.left), node.value, node.height, TreeOf(g.right));
      if node.right == null {
        return None, g;
      }
      g' := g;
      CaseOfAgrees(test, g.right, v);
      if RightLeftCaseOf(test, node.right, v) {
        assert TreeOf(g.right) == Node(TreeOf(g.right.left), node.right.value, node.right.height, TreeOf(g.right.right));
        if node.right.left == null {
          return None, g;
        }
        g' := RotateRightChild(node, g);
      }
      var top, gt := RotateLeft(node, g');
      return Some(top), gt;
    }

    /** Whether insert takes the left-right case at a node whose left child is l. */
    static function LeftRightCaseOf(test: DoubleRotationTest, l: TreeNode, v: int): bool
      reads l, l.left, l.right
    {
      if test == ByInsertedValue then v > l.value else BalanceFactorOf(l) < 0
    }

    /** Whether insert takes the right-left case at a node whose right child is r. */
    static function RightLeftCaseOf(test: DoubleRotationTest, r: TreeNode, v: int): bool
      reads r, r.left, r.right
    {
      if test == ByInsertedValue then v < r.value else BalanceFactorOf(r) > 0
    }

    /** The case tests on the nodes agree with those on the tree they hold. */
    static lemma CaseOfAgrees(test: DoubleRotationTest, gc: Shape, v: int)
      requires gc.At? && Spells(gc)
      ensures LeftRightCaseOf(test, gc.node, v) == LeftRightCase(test, TreeOf(gc), v)
      ensures RightLeftCaseOf(test, gc.node, v) == RightLeftCase(test, TreeOf(gc), v)
    {
      var c := gc.node;
      assert TreeOf(gc) == Node(TreeOf(gc.left), c.value, c.height, TreeOf(gc.right));
      assert GetHeight(TreeOf(gc.left)) == HeightOf(c.left) && GetHeight(TreeOf(gc.right)) == HeightOf(c.right);
    }

    /** `left = rotateLeft(left)` in insert's left-right case. */
    static method RotateLeftChild(node: TreeNode, ghost g: Shape) returns (ghost g': Shape)
      requires g.At? && g.node == node && Spells(g) && node.left != null && node.left.right != null
      modifies NodesOf(g)
      ensures g'.At? && g'.node == node && Spells(g') && NodesOf(g') == NodesOf(g)
      ensures var t := old(TreeOf(g));
        t.left.Node? && RotateLeftTree(t.left).Some? && TreeOf(g') == t.(left := RotateLeftTree(t.left).value)
    {
      ghost var tr := TreeOf(g.right);
      NodesAllocated(g.right);
      var nl, gl := RotateLeft(node.left, g.left);
      node.left := nl;
      g' := At(node, gl, g.right);
      assert TreeOf(g.right) == tr;
    }

    /** `right = rotateRight(right)` in insert's right-left case. */
    static method RotateRightChild(node: TreeNode, ghost g: Shape) returns (ghost g': Shape)
      requires g.At? && g.node == node && Spells(g) && node.right != null && node.right.left != null
      modifies NodesOf(g)
      ensures g'.At? && g'.node == node && Spells(g') && NodesOf(g') == NodesOf(g)
      ensures var t := old(TreeOf(g));
        t.right.Node? && RotateRightTree(t.right).Some? && TreeOf(g') == t.(right := RotateRightTree(t.right).value)
    {
      ghost var tl := TreeOf(g.left);
      NodesAllocated(g.left);
      var nr, gr := RotateRight(node.right, g.right);
      node.right := nr;
      g' := At(node, g.left, gr);
      assert TreeOf(g.left) == tl;
    }

    /** positionSelf: writes the coordinates PlaceTree computes into every node of this
        subtree and changes nothing else. */
    method PositionSelf(x0: int, x1: int, y: int, ghost g: Shape)
      requires g.At? && g.node == this && Spells(g)
      modifies NodesOf(g)
      decreases g
      ensures Spells(g) && TreeOf(g) == old(TreeOf(g))
      ensures PlacesOf(g) == PlaceTree(TreeOf(g), x0, x1, y)
    {
      ghost var t := TreeOf(g);
      assert t == Node(TreeOf(g.left), value, height, TreeOf(g.right));
      NodesAllocated(g);
      this.y := y;
      x := JavaDiv(x0 + x1, 2);
      var leftX1 := if right == null then x1 - 2 * MARGIN else x;
      var rightX0 := if left == null then x0 + 2 * MARGIN else x;
      if left != null {
        left.PositionSelf(x0, leftX1, y + SIZE + MARGIN, g.left);
      }
      ghost var leftPlaces := PlacesOf(g.left);
      if right != null {
        right.PositionSelf(rightX0, x1, y + SIZE + MARGIN, g.right);
      }
      assert Spells(g.left) && TreeOf(g.left) == t.left && PlacesOf(g.left) == leftPlaces;
      assert Spells(g.right) && TreeOf(g.right) == t.right;
      assert PlacesOf(g.right) == PlaceTree(t.right, rightX0, x1, y + SIZE + MARGIN);
    }
  }
}
