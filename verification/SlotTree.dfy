/** The nodes of the SlotFS radix tree (slotfs/btree.c) on a heap, told apart by the branches
    that lead to them, and what lookups see when nodes are added. */
module SlotTree {
  import opened SlotKeys

  /** A node; `parent` is 0 at the root. In a leaf, `kids` are the stored values. */
  datatype Node = Node(parent: nat, height: nat, branch: nat, kids: seq<nat>)

  type Heap = map<nat, Node>
  type Paths = map<nat, seq<nat>>

  ghost predicate NodeOK(t: Heap, path: Paths, x: nat, h: nat)
    requires x in t && x in path
  {
    && |t[x].kids| == BRANCH && |path[x]| + t[x].height == h && IsDigits(path[x])
    && (t[x].height > 0 ==> forall i | 0 <= i < BRANCH && t[x].kids[i] != 0 :: ChildOK(t, path, x, i, t[x].kids[i]))
  }

  ghost predicate ChildOK(t: Heap, path: Paths, x: nat, i: nat, y: nat)
    requires x in path
  {
    y in t && y in path && path[y] == path[x] + [i] && t[y].parent == x && t[y].branch == i
  }

  /** Every node but the root hangs in the slot its parent has for it. */
  ghost predicate HangsOK(t: Heap, path: Paths, y: nat)
    requires y in t && y in path
  {
    var n := t[y];
    && n.parent in t && n.parent in path && t[n.parent].height > 0 && n.branch < |t[n.parent].kids|
    && t[n.parent].kids[n.branch] == y && path[y] == path[n.parent] + [n.branch]
  }

  ghost predicate IsTree(t: Heap, path: Paths, root: nat, h: nat) {
    && 0 !in t && root in t && path.Keys == t.Keys && path[root] == [] && t[root].parent == 0 && t[root].branch == 0
    && (forall x | x in t :: NodeOK(t, path, x, h))
    && (forall y | y in t && y != root :: HangsOK(t, path, y))
  }

  // ---------------------------------------------------------------- lookups

  /** btree_get from node `x`, given the branches still to take and the slot. */
  ghost function Find(t: Heap, path: Paths, root: nat, h: nat, x: nat, ds: seq<nat>): nat
    requires IsTree(t, path, root, h) && x in t && |ds| == t[x].height + 1 && IsDigits(ds)
    decreases |ds|
  {
    assert NodeOK(t, path, x, h);
    if t[x].height == 0 then t[x].kids[ds[0]]
    else
      var y := t[x].kids[ds[0]];
      if y == 0 then 0
      else
        assert ChildOK(t, path, x, ds[0], y);
        assert NodeOK(t, path, y, h);
        Find(t, path, root, h, y, ds[1..])
  }

  lemma OnlyRoot(t: Heap, path: Paths, root: nat, h: nat, z: nat)
    requires IsTree(t, path, root, h) && z in t && path[z] == []
    ensures z == root
  {
    assert z == root || HangsOK(t, path, z);
  }

  lemma {:induction false} OneNode(t: Heap, path: Paths, root: nat, h: nat, x: nat, y: nat)
    requires IsTree(t, path, root, h) && x in t && y in t && path[x] == path[y]
    ensures x == y
    decreases |path[x]|
  {
    if x == root || y == root {
      OnlyRoot(t, path, root, h, if x == root then y else x);
    } else {
      assert HangsOK(t, path, x) && HangsOK(t, path, y);
      var p, q := t[x].parent, t[y].parent;
      assert path[x][..|path[x]| - 1] == path[p] && path[y][..|path[y]| - 1] == path[q];
      assert path[x][|path[x]| - 1] == t[x].branch && path[y][|path[y]| - 1] == t[y].branch;
      OneNode(t, path, root, h, p, q);
    }
  }

  /** The nodes on the way to a node exist. */
  lemma {:induction false} Above(t: Heap, path: Paths, root: nat, h: nat, y: nat, n: nat) returns (x: nat)
    requires IsTree(t, path, root, h) && y in t && n <= |path[y]|
    ensures x in t && path[x] == path[y][..n]
    decreases |path[y]|
  {
    if n == |path[y]| {
      x := y;
      assert path[y][..n] == path[y];
    } else {
      assert HangsOK(t, path, y);
      var p := t[y].parent;
      assert path[p] == path[y][..|path[y]| - 1];
      x := Above(t, path, root, h, p, n);
      assert path[p][..n] == path[y][..n];
    }
  }

  /** A leaf for these branches. */
  ghost predicate LeafFor(t: Heap, path: Paths, y: nat, front: seq<nat>) { y in t && y in path && path[y] == front }

  /** Node `x` is on the way of the branches `full`. */
  ghost predicate OnWay(t: Heap, path: Paths, root: nat, h: nat, x: nat, full: seq<nat>) {
    && IsTree(t, path, root, h) && x in t && |full| == h + 1 && IsDigits(full)
    && |path[x]| <= h && path[x] == full[..|path[x]|] && t[x].height == h - |path[x]|
  }

  ghost function FindRest(t: Heap, path: Paths, root: nat, h: nat, x: nat, full: seq<nat>): nat
    requires OnWay(t, path, root, h, x, full)
  {
    Find(t, path, root, h, x, full[|path[x]|..])
  }

  /** What the lookup sees is what the leaf for its branches holds, or nothing if none. */
  ghost predicate Finds(t: Heap, path: Paths, h: nat, full: seq<nat>, v: nat)
    requires |full| == h + 1
  {
    && (forall y | LeafFor(t, path, y, full[..h]) :: full[h] < |t[y].kids| && v == t[y].kids[full[h]])
    && ((forall y :: !LeafFor(t, path, y, full[..h])) ==> v == 0)
  }

  lemma FindAtLeaf(t: Heap, path: Paths, root: nat, h: nat, x: nat, full: seq<nat>)
    requires OnWay(t, path, root, h, x, full) && t[x].height == 0
    ensures Finds(t, path, h, full, FindRest(t, path, root, h, x, full))
  {
    assert NodeOK(t, path, x, h);
    assert full[h..][0] == full[h];
    assert LeafFor(t, path, x, full[..h]);
    forall y | LeafFor(t, path, y, full[..h]) ensures y == x { OneNode(t, path, root, h, x, y); }
  }

  lemma FindNoChild(t: Heap, path: Paths, root: nat, h: nat, x: nat, full: seq<nat>)
    requires OnWay(t, path, root, h, x, full) && t[x].height > 0 && |t[x].kids| == BRANCH
    requires t[x].kids[full[|path[x]|]] == 0
    ensures Finds(t, path, h, full, FindRest(t, path, root, h, x, full))
  {
    hide NodeOK, HangsOK;
    assert full[|path[x]|..][0] == full[|path[x]|];
    forall z | LeafFor(t, path, z, full[..h]) ensures false { NoWay(t, path, root, h, x, full, z); }
  }

  lemma ChildOnWay(t: Heap, path: Paths, root: nat, h: nat, x: nat, full: seq<nat>)
    requires OnWay(t, path, root, h, x, full) && t[x].height > 0 && |t[x].kids| == BRANCH
    requires t[x].kids[full[|path[x]|]] != 0
    ensures var y := t[x].kids[full[|path[x]|]];
            OnWay(t, path, root, h, y, full) && |path[y]| == |path[x]| + 1 && t[y].height < t[x].height
  {
    hide HangsOK;
    var n := |path[x]|;
    var y := t[x].kids[full[n]];
    assert NodeOK(t, path, x, h);
    assert ChildOK(t, path, x, full[n], y);
    assert NodeOK(t, path, y, h);
    assert full[..n + 1] == full[..n] + [full[n]];
  }

  lemma StepOnWay(t: Heap, path: Paths, root: nat, h: nat, x: nat, full: seq<nat>)
    requires OnWay(t, path, root, h, x, full) && t[x].height > 0 && |t[x].kids| == BRANCH
    requires t[x].kids[full[|path[x]|]] != 0
    ensures var y := t[x].kids[full[|path[x]|]];
            && OnWay(t, path, root, h, y, full) && |path[y]| == |path[x]| + 1 && t[y].height < t[x].height
            && FindRest(t, path, root, h, x, full) == FindRest(t, path, root, h, y, full)
  {
    hide HangsOK, NodeOK, ChildOK;
    ChildOnWay(t, path, root, h, x, full);
    var n := |path[x]|;
    assert full[n..][1..] == full[n + 1..] && full[n..][0] == full[n];
  }

  lemma {:induction false} FindLeaf(t: Heap, path: Paths, root: nat, h: nat, x: nat, full: seq<nat>)
    requires OnWay(t, path, root, h, x, full)
    ensures Finds(t, path, h, full, FindRest(t, path, root, h, x, full))
    decreases t[x].height
  {
    hide Finds, FindRest, HangsOK, ChildOK;
    assert NodeOK(t, path, x, h);
    if t[x].height == 0 {
      FindAtLeaf(t, path, root, h, x, full);
    } else if t[x].kids[full[|path[x]|]] == 0 {
      FindNoChild(t, path, root, h, x, full);
    } else {
      StepOnWay(t, path, root, h, x, full);
      FindLeaf(t, path, root, h, t[x].kids[full[|path[x]|]], full);
    }
  }

  lemma NoWay(t: Heap, path: Paths, root: nat, h: nat, x: nat, full: seq<nat>, z: nat)
    requires IsTree(t, path, root, h) && x in t && |full| == h + 1 && path[x] == full[..|path[x]|] && |path[x]| < h
    requires LeafFor(t, path, z, full[..h])
    ensures full[|path[x]|] < |t[x].kids| && t[x].kids[full[|path[x]|]] != 0
  {
    hide NodeOK, HangsOK, ChildOK, IsDigits;
    var n := |path[x]|;
    var y := Above(t, path, root, h, z, n + 1);
    assert path[y] == full[..n] + [full[n]];
    HangsUnder(t, path, root, h, y, full[..n], full[n]);
    OneNode(t, path, root, h, t[y].parent, x);
  }

  lemma HangsUnder(t: Heap, path: Paths, root: nat, h: nat, y: nat, front: seq<nat>, d: nat)
    requires IsTree(t, path, root, h) && y in t && path[y] == front + [d]
    ensures t[y].parent in t && path[t[y].parent] == front && d < |t[t[y].parent].kids| && t[t[y].parent].kids[d] == y
    ensures y != 0
  {
    assert HangsOK(t, path, y);
    var p := t[y].parent;
    assert path[y][..|front|] == front && path[y][|front|] == d;
    assert path[y][..|path[p]|] == path[p];
  }

  // --------------------------------------------------------- what the tree holds

  /** The value under some branches, 0 for none. */
  ghost function At(t: Heap, path: Paths, root: nat, h: nat, full: seq<nat>): nat
    requires IsTree(t, path, root, h) && |full| == h + 1 && IsDigits(full)
  {
    assert NodeOK(t, path, root, h);
    Find(t, path, root, h, root, full)
  }

  lemma AtFinds(t: Heap, path: Paths, root: nat, h: nat, full: seq<nat>)
    requires IsTree(t, path, root, h) && |full| == h + 1 && IsDigits(full)
    ensures Finds(t, path, h, full, At(t, path, root, h, full))
  {
    hide HangsOK, Finds;
    assert NodeOK(t, path, root, h);
    assert full[0..] == full;
    FindLeaf(t, path, root, h, root, full);
  }

  /** The same leaves, and perhaps new empty ones. */
  ghost predicate Grown(t: Heap, path: Paths, t': Heap, path': Paths) {
    && (forall x | x in t :: x in t' && x in path && x in path' && path'[x] == path[x] && t'[x].height == t[x].height)
    && (forall x | x in t && t[x].height == 0 :: t'[x] == t[x])
    && (forall x | x in t' && x !in t && t'[x].height == 0 :: forall i | 0 <= i < |t'[x].kids| :: t'[x].kids[i] == 0)
  }

  lemma GrownSame(t: Heap, path: Paths, t': Heap, path': Paths, root: nat, h: nat, full: seq<nat>)
    requires IsTree(t, path, root, h) && IsTree(t', path', root, h) && Grown(t, path, t', path')
    requires |full| == h + 1 && IsDigits(full)
    ensures At(t', path', root, h, full) == At(t, path, root, h, full)
  {
    hide HangsOK, At, ChildOK, IsDigits;
    AtFinds(t, path, root, h, full);
    AtFinds(t', path', root, h, full);
    if y :| LeafFor(t, path, y, full[..h]) {
      assert NodeOK(t, path, y, h);
      assert LeafFor(t', path', y, full[..h]);
    } else if y :| LeafFor(t', path', y, full[..h]) {
      assert NodeOK(t', path', y, h);
      assert y in t ==> LeafFor(t, path, y, full[..h]);
    }
  }

  // ------------------------------------------------------------- adding a node

  /** btree_node_create under slot `i` of node `x`. */
  function WithChild(t: Heap, x: nat, i: nat, y: nat): Heap
    requires x in t && i < |t[x].kids| && t[x].height > 0
  {
    t[x := t[x].(kids := t[x].kids[i := y])][y := Node(x, t[x].height - 1, i, Zeros(BRANCH))]
  }

  lemma AddChild(t: Heap, path: Paths, root: nat, h: nat, x: nat, i: nat, y: nat)
    requires IsTree(t, path, root, h) && x in t && t[x].height > 0 && i < BRANCH && |t[x].kids| == BRANCH
    requires t[x].kids[i] == 0
    requires y !in t && y != 0
    ensures IsTree(WithChild(t, x, i, y), path[y := path[x] + [i]], root, h)
    ensures Grown(t, path, WithChild(t, x, i, y), path[y := path[x] + [i]])
  {
    hide NodeOK, HangsOK, Grown;
    var t', path' := WithChild(t, x, i, y), path[y := path[x] + [i]];
    AddGrown(t, path, root, h, x, i, y);
    forall z | z in t' ensures NodeOK(t', path', z, h) { AddNodeOK(t, path, root, h, x, i, y, z); }
    forall z | z in t' && z != root ensures HangsOK(t', path', z) { AddHangsOK(t, path, root, h, x, i, y, z); }
  }

  lemma AddGrown(t: Heap, path: Paths, root: nat, h: nat, x: nat, i: nat, y: nat)
    requires IsTree(t, path, root, h) && x in t && t[x].height > 0 && i < |t[x].kids| && y !in t
    ensures Grown(t, path, WithChild(t, x, i, y), path[y := path[x] + [i]])
  {
    hide NodeOK, HangsOK;
  }

  lemma AddNodeOK(t: Heap, path: Paths, root: nat, h: nat, x: nat, i: nat, y: nat, z: nat)
    requires IsTree(t, path, root, h) && x in t && t[x].height > 0 && i < BRANCH && |t[x].kids| == BRANCH
    requires t[x].kids[i] == 0
    requires y !in t && y != 0 && (z in t || z == y)
    ensures NodeOK(WithChild(t, x, i, y), path[y := path[x] + [i]], z, h)
  {
    hide HangsOK;
    var t', path' := WithChild(t, x, i, y), path[y := path[x] + [i]];
    assert NodeOK(t, path, x, h);
    if z != y {
      assert NodeOK(t, path, z, h);
      if t[z].height > 0 {
        forall j | 0 <= j < BRANCH && t'[z].kids[j] != 0 ensures ChildOK(t', path', z, j, t'[z].kids[j]) {
          if z != x || j != i { assert ChildOK(t, path, z, j, t[z].kids[j]); }
        }
      }
    }
  }

  lemma AddHangsOK(t: Heap, path: Paths, root: nat, h: nat, x: nat, i: nat, y: nat, z: nat)
    requires IsTree(t, path, root, h) && x in t && t[x].height > 0 && i < BRANCH && |t[x].kids| == BRANCH
    requires t[x].kids[i] == 0
    requires y !in t && y != 0 && (z in t || z == y) && z != root
    ensures HangsOK(WithChild(t, x, i, y), path[y := path[x] + [i]], z)
  {
    hide NodeOK;
    if z != y {
      assert HangsOK(t, path, z);
      StillHangs(t, path, x, i, y, z);
    }
  }

  lemma StillHangs(t: Heap, path: Paths, x: nat, i: nat, y: nat, z: nat)
    requires x in t && x in path && t[x].height > 0 && i < |t[x].kids| && t[x].kids[i] == 0 && y !in t
    requires z in t && z in path && z != 0 && HangsOK(t, path, z)
    ensures HangsOK(WithChild(t, x, i, y), path[y := path[x] + [i]], z)
  {
    var t' := WithChild(t, x, i, y);
    var p := t[z].parent;
    assert p != y && z != y;
    assert t'[z].parent == p && t'[z].branch == t[z].branch && t'[p].height == t[p].height;
  }

  // ---------------------------------------------------------------- storing

  function Stored(t: Heap, y: nat, i: nat, v: nat): Heap
    requires y in t && i < |t[y].kids|
  {
    t[y := t[y].(kids := t[y].kids[i := v])]
  }

  lemma StoreTree(t: Heap, path: Paths, root: nat, h: nat, y: nat, i: nat, v: nat)
    requires IsTree(t, path, root, h) && y in t && t[y].height == 0 && i < |t[y].kids|
    ensures IsTree(Stored(t, y, i, v), path, root, h)
  {
    var t' := Stored(t, y, i, v);
    forall z | z in t' ensures NodeOK(t', path, z, h) {
      assert NodeOK(t, path, z, h);
      if t[z].height > 0 {
        forall j | 0 <= j < BRANCH && t'[z].kids[j] != 0 ensures ChildOK(t', path, z, j, t'[z].kids[j]) {
          assert ChildOK(t, path, z, j, t[z].kids[j]);
        }
      }
    }
    forall z | z in t' && z != root ensures HangsOK(t', path, z) { assert HangsOK(t, path, z); }
  }

  /** Storing in a leaf changes what one lookup sees. */
  lemma StoreAt(t: Heap, path: Paths, root: nat, h: nat, y: nat, i: nat, v: nat, full: seq<nat>)
    requires IsTree(t, path, root, h) && y in t && t[y].height == 0 && i < |t[y].kids|
    requires IsTree(Stored(t, y, i, v), path, root, h)
    requires |full| == h + 1 && IsDigits(full)
    ensures At(Stored(t, y, i, v), path, root, h, full)
              == if full == path[y] + [i] then v else At(t, path, root, h, full)
  {
    hide HangsOK, At, ChildOK, IsDigits;
    var t' := Stored(t, y, i, v);
    AtFinds(t, path, root, h, full);
    AtFinds(t', path, root, h, full);
    assert NodeOK(t, path, y, h);
    assert full == full[..h] + [full[h]];
    if z :| LeafFor(t, path, z, full[..h]) {
      assert LeafFor(t', path, z, full[..h]);
      if path[y] == full[..h] { OneNode(t, path, root, h, y, z); }
    } else {
      assert !LeafFor(t, path, y, full[..h]);
      forall w ensures !LeafFor(t', path, w, full[..h]) { assert !LeafFor(t, path, w, full[..h]); }
      assert (path[y] + [i])[..h] == path[y];
    }
  }

  // ------------------------------------------------------------- one more level

  /** btree_expand: a new root whose first child is the old one. */
  function Expanded(t: Heap, root: nat, h: nat, y: nat): Heap
    requires root in t
  {
    t[root := t[root].(parent := y)][y := Node(0, h + 1, 0, Zeros(BRANCH)[0 := root])]
  }

  function Deeper(path: Paths, y: nat): Paths {
    (map x | x in path :: [0] + path[x])[y := []]
  }

  lemma ExpandTree(t: Heap, path: Paths, root: nat, h: nat, y: nat)
    requires IsTree(t, path, root, h) && y !in t && y != 0
    ensures IsTree(Expanded(t, root, h, y), Deeper(path, y), y, h + 1)
  {
    hide NodeOK, HangsOK;
    var t', path' := Expanded(t, root, h, y), Deeper(path, y);
    forall z | z in t' ensures NodeOK(t', path', z, h + 1) { ExpandNodeOK(t, path, root, h, y, z); }
    forall z | z in t' && z != y ensures HangsOK(t', path', z) { ExpandHangsOK(t, path, root, h, y, z); }
  }

  lemma ExpandNodeOK(t: Heap, path: Paths, root: nat, h: nat, y: nat, z: nat)
    requires IsTree(t, path, root, h) && y !in t && y != 0 && (z in t || z == y)
    ensures NodeOK(Expanded(t, root, h, y), Deeper(path, y), z, h + 1)
  {
    hide HangsOK;
    var t', path' := Expanded(t, root, h, y), Deeper(path, y);
    if z == y {
      assert path'[root] == [0] + [];
      forall j | 0 <= j < BRANCH && t'[z].kids[j] != 0
        ensures ChildOK(t', path', z, j, t'[z].kids[j])
      {
        assert j == 0;
      }
    } else {
      assert NodeOK(t, path, z, h);
      if t[z].height > 0 {
        forall j | 0 <= j < BRANCH && t'[z].kids[j] != 0 ensures ChildOK(t', path', z, j, t'[z].kids[j]) {
          assert ChildOK(t, path, z, j, t[z].kids[j]);
          assert [0] + (path[z] + [j]) == ([0] + path[z]) + [j];
        }
      }
    }
  }

  lemma ExpandHangsOK(t: Heap, path: Paths, root: nat, h: nat, y: nat, z: nat)
    requires IsTree(t, path, root, h) && y !in t && y != 0 && z in t
    ensures HangsOK(Expanded(t, root, h, y), Deeper(path, y), z)
  {
    hide NodeOK;
    if z == root {
      assert [0] + [] == [] + [0];
    } else {
      assert HangsOK(t, path, z);
      var p := t[z].parent;
      assert [0] + (path[p] + [t[z].branch]) == ([0] + path[p]) + [t[z].branch];
    }
  }

  /** Expansion keeps every lookup and sees nothing under the new branches. */
  lemma ExpandAt(t: Heap, path: Paths, root: nat, h: nat, y: nat, full: seq<nat>)
    requires IsTree(t, path, root, h) && y !in t && y != 0 && IsTree(Expanded(t, root, h, y), Deeper(path, y), y, h + 1)
    requires |full| == h + 2 && IsDigits(full)
    ensures IsDigits(full[1..])
    ensures At(Expanded(t, root, h, y), Deeper(path, y), y, h + 1, full)
              == if full[0] == 0 then At(t, path, root, h, full[1..]) else 0
  {
    hide HangsOK, At, ChildOK, NodeOK;
    var t', path' := Expanded(t, root, h, y), Deeper(path, y);
    AtFinds(t', path', y, h + 1, full);
    AtFinds(t, path, root, h, full[1..]);
    var front := full[..h + 1];
    assert front[1..] == full[1..][..h] && full[1..][h] == full[h + 1] && front == [full[0]] + front[1..];
    if z :| LeafFor(t, path, z, full[1..][..h]) && full[0] == 0 {
      assert LeafFor(t', path', z, front);
      LeafKids(t, path, root, h, y, z);
    } else {
      forall z ensures !LeafFor(t', path', z, front) {
        if LeafFor(t', path', z, front) { DeeperLeaf(t, path, root, h, y, z, front); }
      }
    }
  }

  lemma LeafKids(t: Heap, path: Paths, root: nat, h: nat, y: nat, z: nat)
    requires IsTree(t, path, root, h) && y !in t && z in t
    ensures Expanded(t, root, h, y)[z].kids == t[z].kids
  {
  }

  lemma DeeperLeaf(t: Heap, path: Paths, root: nat, h: nat, y: nat, z: nat, front: seq<nat>)
    requires IsTree(t, path, root, h) && y !in t && |front| == h + 1
    requires LeafFor(Expanded(t, root, h, y), Deeper(path, y), z, front)
    ensures front[0] == 0 && LeafFor(t, path, z, front[1..])
  {
    assert z != y;
    assert ([0] + path[z])[1..] == path[z];
  }
}
