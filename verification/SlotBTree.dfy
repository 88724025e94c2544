/** The SlotFS radix tree (slotfs/btree.c): growing, stepping to the next slot, storing
    ranges, and the cursor hint. Node allocation is taken to succeed. */
module SlotBTree {
  import opened SlotKeys
  import opened SlotTree
  import opened FreshIds

  const MAX_LEVELS: nat := 10

  /** The tree as a map from keys to values, 0 for none. */
  ghost function Look(t: Heap, path: Paths, root: nat, h: nat, key: nat): nat
    requires IsTree(t, path, root, h)
  {
    if key < Cap(h) then At(t, path, root, h, Digits(key, h)) else 0
  }

  ghost predicate SameLook(t: Heap, path: Paths, root: nat, h: nat, t': Heap, path': Paths, root': nat, h': nat)
    requires IsTree(t, path, root, h) && IsTree(t', path', root', h')
  {
    forall k: nat :: Look(t', path', root', h', k) == Look(t, path, root, h, k)
  }

  lemma GrownLook(t: Heap, path: Paths, t': Heap, path': Paths, root: nat, h: nat)
    requires IsTree(t, path, root, h) && IsTree(t', path', root, h) && Grown(t, path, t', path')
    ensures SameLook(t, path, root, h, t', path', root, h)
  {
    hide IsTree, At, Grown;
    forall k: nat ensures Look(t', path', root, h, k) == Look(t, path, root, h, k) {
      if k < Cap(h) { GrownSame(t, path, t', path', root, h, Digits(k, h)); }
    }
  }

  lemma GrownTwice(t: Heap, path: Paths, t1: Heap, path1: Paths, t2: Heap, path2: Paths)
    requires Grown(t, path, t1, path1) && Grown(t1, path1, t2, path2)
    ensures Grown(t, path, t2, path2)
  {
  }

  lemma ExpandLook(t: Heap, path: Paths, root: nat, h: nat, y: nat)
    requires IsTree(t, path, root, h) && y !in t && y != 0
    ensures IsTree(Expanded(t, root, h, y), Deeper(path, y), y, h + 1)
    ensures SameLook(t, path, root, h, Expanded(t, root, h, y), Deeper(path, y), y, h + 1)
  {
    RootIn(t, path, root, h);
    hide IsTree, At;
    ExpandTree(t, path, root, h, y);
    forall k: nat ensures Look(Expanded(t, root, h, y), Deeper(path, y), y, h + 1, k) == Look(t, path, root, h, k) {
      if k < Cap(h + 1) {
        var full := Digits(k, h + 1);
        ExpandAt(t, path, root, h, y, full);
        if k < Cap(h) {
          DigitsGrow(k, h);
          assert full[1..] == Digits(k, h);
        } else {
          FirstDigit(k, h);
        }
      }
    }
  }

  /** Keys beyond the old tree do not start with digit 0. */
  lemma FirstDigit(k: nat, h: nat)
    requires Cap(h) <= k < Cap(h + 1)
    ensures Digits(k, h + 1)[0] != 0
  {
    hide Quot, Rem;
    QuotRem(k, Cap(h));
  }

  lemma StoreLook(t: Heap, path: Paths, root: nat, h: nat, y: nat, i: nat, v: nat, key: nat)
    requires IsTree(t, path, root, h) && y in t && t[y].height == 0 && i < |t[y].kids| && key < Cap(h)
    requires path[y] + [i] == Digits(key, h)
    ensures IsTree(Stored(t, y, i, v), path, root, h)
    ensures forall k: nat ::
              Look(Stored(t, y, i, v), path, root, h, k) == if k == key then v else Look(t, path, root, h, k)
  {
    hide At, NodeOK, HangsOK, Stored;
    StoreTree(t, path, root, h, y, i, v);
    forall k: nat
      ensures Look(Stored(t, y, i, v), path, root, h, k) == if k == key then v else Look(t, path, root, h, k)
    {
      if k < Cap(h) {
        StoreAt(t, path, root, h, y, i, v, Digits(k, h));
        DigitsDiffer(k, key, h);
      }
    }
  }

  /** Adding one past a run of digits 255. */
  lemma {:induction false} SuccMid(a: seq<nat>, d: nat, tail: seq<nat>)
    requires IsDigits(a) && d + 1 < BRANCH && Full(tail)
    ensures var ds := a + [d] + tail;
            IsDigits(ds) && !Full(ds) && Succ(ds) == a + [d + 1] + Zeros(|tail|)
    decreases |tail|
  {
    var ds := a + [d] + tail;
    assert ds[|a|] == d;
    if tail == [] {
      assert ds == a + [d] && ds[..|a|] == a;
      assert a + [d + 1] + Zeros(0) == a + [d + 1];
    } else {
      var n := |tail| - 1;
      SuccMid(a, d, tail[..n]);
      assert ds[..|ds| - 1] == a + [d] + tail[..n] && ds[|ds| - 1] == tail[n];
      assert Zeros(n) + [0] == Zeros(n + 1);
    }
  }

  /** A cursor: the slot of `key`, or none when `node` is 0. */
  datatype Hint = Hint(node: nat, index: nat, key: nat)

  class BTree {
    var nodes: Heap
    var root: nat
    var height: nat
    const maxKeys: seq<nat>
    ghost var path: Paths

    ghost predicate Valid()
      reads this
    {
      && |maxKeys| == MAX_LEVELS && (forall i | 0 <= i < 7 :: maxKeys[i] == Cap(i))
      && height <= 6 && IsTree(nodes, path, root, height)
    }

    ghost function Value(key: nat): nat
      requires Valid()
      reads this
    {
      Look(nodes, path, root, height, key)
    }

    /** Slot `index` of `node` is the slot of `key`. */
    ghost predicate SlotOf(node: nat, index: nat, key: nat)
      requires Valid()
      reads this
    {
      && node in nodes && node in path && nodes[node].height == 0 && index < |nodes[node].kids|
      && key < Cap(height) && path[node] + [index] == Digits(key, height)
    }

    ghost predicate Coherent(hint: Hint)
      requires Valid()
      reads this
    {
      hint.node == 0 || SlotOf(hint.node, hint.index, hint.key)
    }

    /** A slot holds the value of its key. */
    lemma SlotHolds(node: nat, index: nat, key: nat)
      requires Valid() && SlotOf(node, index, key)
      ensures node in nodes && index < |nodes[node].kids| && nodes[node].kids[index] == Value(key)
    {
      hide Look, IsTree;
      SlotValue(nodes, path, root, height, node, index, key);
    }

    /** The slot of `last` under the number `first`. */
    lemma HintCoherent(hint: Hint, last: nat, first: nat)
      requires Valid() && SlotOf(hint.node, hint.index, last) && hint.key == first && first < Cap(height)
      ensures Coherent(hint) <==> last == first
    {
      OneSlot(nodes, path, root, height, hint.node, hint.index, last, first);
    }

    /** init_max_keys: the table is exact up to height 6; the next entry wraps to 0 in 64 bits. */
    static method InitMaxKeys() returns (table: seq<nat>)
      ensures |table| == MAX_LEVELS && forall i | 0 <= i < MAX_LEVELS :: table[i] == if i < 7 then Cap(i) else 0
    {
      table := [];
      var maxKey := BRANCH;
      for i := 0 to MAX_LEVELS
        invariant |table| == i && forall j | 0 <= j < i :: table[j] == if j < 7 then Cap(j) else 0
        invariant maxKey == if i < 7 then Cap(i) else 0
      {
        table := table + [maxKey];
        CapValues();
        maxKey := (maxKey * BRANCH) % 0x1_0000_0000_0000_0000;
      }
    }

    /** btree_create. */
    constructor (table: seq<nat>)
      requires |table| == MAX_LEVELS && forall i | 0 <= i < 7 :: table[i] == Cap(i)
      ensures Valid() && height == 0 && forall k: nat :: Value(k) == 0
    {
      maxKeys := table;
      nodes := map[1 := Node(0, 0, 0, Zeros(BRANCH))];
      path := map[1 := []];
      root, height := 1, 0;
      new;
      assert NodeOK(nodes, path, 1, 0);
      forall k: nat ensures Value(k) == 0 {
        if k < Cap(0) { AtFinds(nodes, path, 1, 0, Digits(k, 0)); }
      }
    }

    /** btree_expand. */
    method Expand()
      requires Valid() && height < 6
      modifies this`nodes, this`root, this`height, this`path
      ensures Valid() && height == old(height) + 1
      ensures forall k: nat :: Value(k) == old(Value(k))
      ensures forall n: nat, i: nat, k: nat :: old(SlotOf(n, i, k)) ==> SlotOf(n, i, k)
    {
      hide IsTree, Look, Expanded, Deeper;
      FreshExists(nodes.Keys + {0});
      var y :| y !in nodes.Keys + {0};
      ghost var t, p, r, h := nodes, path, root, height;
      RootIn(nodes, path, root, height);
      ExpandLook(t, p, r, h, y);
      forall n: nat, i: nat, k: nat | SlotOf(n, i, k)
        ensures n in Expanded(t, r, h, y) && n in Deeper(p, y) && Expanded(t, r, h, y)[n].height == 0
                  && i < |Expanded(t, r, h, y)[n].kids|
                && k < Cap(h + 1) && Deeper(p, y)[n] + [i] == Digits(k, h + 1)
      {
        SlotDeeper(t, p, r, h, y, n, i, k);
      }
      nodes := nodes[root := nodes[root].(parent := y)][y := Node(0, height + 1, 0, Zeros(BRANCH)[0 := root])];
      assert nodes == Expanded(t, r, h, y) by { ExpandedIs(t, r, h, y); }
      path := Deeper(path, y);
      root, height := y, height + 1;
    }

    /** btree_node_create under an empty slot: no lookup changes. */
    method CreateNode(x: nat, branch: nat) returns (y: nat)
      requires Valid() && x in nodes && x in path && nodes[x].height > 0 && branch < |nodes[x].kids| == BRANCH
      requires nodes[x].kids[branch] == 0
      modifies this`nodes, this`path
      ensures Valid() && y in nodes && y in path && path[y] == old(path)[x] + [branch]
      ensures nodes[y].height == old(nodes)[x].height - 1 && Grown(old(nodes), old(path), nodes, path)
    {
      hide IsTree, Grown;
      FreshExists(nodes.Keys + {0});
      y :| y !in nodes.Keys + {0};
      RootIn(nodes, path, root, height);
      AddChild(nodes, path, root, height, x, branch, y);
      path := path[y := path[x] + [branch]];
      nodes := nodes[x := nodes[x].(kids := nodes[x].kids[branch := y])][y := Node(x, nodes[x].height - 1, branch,
          Zeros(BRANCH))];
    }

    /** btree_pos in create mode. */
    method Pos(key: nat) returns (node: nat, index: nat)
      requires Valid() && key < Cap(height)
      modifies this`nodes, this`path
      ensures Valid() && SlotOf(node, index, key) && Grown(old(nodes), old(path), nodes, path)
      ensures forall k: nat :: Value(k) == old(Value(k))
    {
      hide IsTree, Grown, Look, Quot, Rem, Digits;
      ghost var full, n := Digits(key, height), 0;
      ghost var t, p := nodes, path;
      RootIn(nodes, path, root, height);
      GrownSelf(nodes, path, root, height);
      node := root;
      var rest: nat := key;
      assert full[0..] == full && full[..0] == [];
      while nodes[node].height > 0
        invariant Valid() && root == old(root) && height == old(height)
        invariant node in nodes && node in path && nodes[node].height == height - n && n <= height
        invariant path[node] == full[..n]
        invariant rest < Cap(nodes[node].height) && Digits(rest, nodes[node].height) == full[n..]
        invariant Grown(t, p, nodes, path)
        decreases nodes[node].height
      {
        var hh := nodes[node].height;
        HeightOK(nodes, path, root, height, node);
        DigitsStep(rest, hh);
        var branch := Quot(rest, maxKeys[hh - 1]);
        rest := Rem(rest, maxKeys[hh - 1]);
        assert full[n] == branch && full[n + 1..] == full[n..][1..];
        assert full[..n + 1] == full[..n] + [branch];
        var next := nodes[node].kids[branch];
        if next == 0 {
          ghost var t1, p1 := nodes, path;
          next := CreateNode(node, branch);
          GrownTwice(t, p, t1, p1, nodes, path);
        } else {
          ChildHere(nodes, path, root, height, node, branch);
        }
        node := next;
        n := n + 1;
      }
      index := rest;
      DigitsLeaf(rest);
      HeightOK(nodes, path, root, height, node);
      assert full == full[..n] + full[n..];
      GrownLook(t, p, nodes, path, root, height);
      SameValues(t, p, root, height, nodes, path);
    }

    /** btree_get. The source does not check that the key is within the tree. */
    method Get(key: nat) returns (v: nat)
      requires Valid() && key < Cap(height)
      ensures v == Value(key)
    {
      hide IsTree, Quot, Rem, Digits, At;
      ghost var full, n := Digits(key, height), 0;
      RootIn(nodes, path, root, height);
      var node, rest: nat := root, key;
      assert full[0..] == full && full[..0] == [];
      AtIsFind(nodes, path, root, height, full);
      while nodes[node].height > 0
        invariant OnWay(nodes, path, root, height, node, full) && n == |path[node]|
        invariant rest < Cap(nodes[node].height) && Digits(rest, nodes[node].height) == full[n..]
        invariant FindRest(nodes, path, root, height, node, full) == Value(key)
        decreases nodes[node].height
      {
        var hh := nodes[node].height;
        HeightOK(nodes, path, root, height, node);
        DigitsStep(rest, hh);
        var branch := Quot(rest, maxKeys[hh - 1]);
        rest := Rem(rest, maxKeys[hh - 1]);
        assert full[n] == branch && full[n + 1..] == full[n..][1..];
        if nodes[node].kids[branch] == 0 {
          FindNull(nodes, path, root, height, node, full);
          return 0;
        }
        StepOnWay(nodes, path, root, height, node, full);
        node := nodes[node].kids[branch];
        n := n + 1;
      }
      HeightOK(nodes, path, root, height, node);
      DigitsLeaf(rest);
      FindHere(nodes, path, root, height, node, full);
      return nodes[node].kids[rest];
    }

    /** The climb of btree_next: up to the first ancestor with a branch to the right. */
    method Climb(leaf: nat) returns (top: nat, branch: nat, ghost tail: seq<nat>)
      requires Valid() && leaf in nodes && leaf in path && nodes[leaf].height == 0
      ensures top in nodes && top in path && Full(tail)
      ensures branch + 1 < BRANCH && height > 0 ==>
                nodes[top].height > 0 && |tail| + 1 == nodes[top].height && path[leaf] == path[top] + [branch] + tail
      ensures branch + 1 == BRANCH || height == 0 ==> top == root && Full(path[leaf])
      ensures branch < BRANCH && (height == 0 ==> branch == 0) && (branch + 1 < BRANCH || nodes[top].parent == 0)
    {
      hide IsTree, Full, Cap;
      RootIn(nodes, path, root, height);
      RootBranch(nodes, path, root, height);
      HeightOK(nodes, path, root, height, leaf);
      top, branch := leaf, nodes[leaf].branch;
      tail := [];
      FullNone();
      assert path[leaf] + [] == path[leaf];
      while nodes[top].parent != 0
        invariant top in nodes && top in path && Full(tail) && |tail| == nodes[top].height
        invariant path[leaf] == path[top] + tail
        invariant tail != [] ==> branch == BRANCH - 1
        invariant tail == [] ==> top == leaf && branch == nodes[leaf].branch
        decreases height - nodes[top].height
      {
        NotRoot(nodes, path, root, height, top);
        branch := nodes[top].branch;
        ghost var was := top;
        top := nodes[top].parent;
        assert path[was] + tail == path[top] + [branch] + tail;
        if branch + 1 < BRANCH { return; }
        FullMore(tail);
        assert path[top] + [branch] + tail == path[top] + ([branch] + tail);
        tail := [branch] + tail;
      }
      IsRoot(nodes, path, root, height, top);
      assert [] + tail == tail;
    }

    /** The descent of btree_next: the branch given, then the leftmost, creating nodes. */
    method DescendLeft(top: nat, first: nat) returns (leaf: nat)
      requires Valid() && top in nodes && top in path && nodes[top].height > 0 && first < BRANCH
      modifies this`nodes, this`path
      ensures Valid() && leaf in nodes && leaf in path && nodes[leaf].height == 0
      ensures Grown(old(nodes), old(path), nodes, path)
      ensures path[leaf] == old(path)[top] + [first] + Zeros(old(nodes)[top].height - 1)
    {
      hide IsTree, Grown;
      ghost var t, p, hh := nodes, path, nodes[top].height;
      GrownSelf(nodes, path, root, height);
      leaf := top;
      var branch := first;
      while nodes[leaf].height > 0
        invariant Valid() && root == old(root) && height == old(height) && Grown(t, p, nodes, path)
        invariant leaf in nodes && leaf in path && nodes[leaf].height <= hh && branch < BRANCH
        invariant if nodes[leaf].height == hh then path[leaf] == p[top] && branch == first
                  else path[leaf] == p[top] + [first] + Zeros(hh - 1 - nodes[leaf].height) && branch == 0
        decreases nodes[leaf].height
      {
        HeightOK(nodes, path, root, height, leaf);
        var next := nodes[leaf].kids[branch];
        assert branch == 0 && nodes[leaf].height < hh ==>
            path[leaf] + [branch] == p[top] + [first] + Zeros(hh - 1 - (nodes[leaf].height - 1));
        assert p[top] + [first] == p[top] + [first] + Zeros(0);
        if next == 0 {
          ghost var t1, p1 := nodes, path;
          next := CreateNode(leaf, branch);
          GrownTwice(t, p, t1, p1, nodes, path);
        } else {
          ChildHere(nodes, path, root, height, leaf, branch);
        }
        leaf, branch := next, 0;
      }
    }

    /** btree_next in create mode; 0 for none. From the last slot of a tree of height 0 it
        comes back to the first. */
    method NextSlot(node: nat, index: nat) returns (node': nat, index': nat)
      requires Valid() && node in nodes && node in path && nodes[node].height == 0 && index < BRANCH
      modifies this`nodes, this`path
      ensures Valid() && Grown(old(nodes), old(path), nodes, path)
      ensures Stepped(nodes, path, height, old(path)[node] + [index], node, node', index')
    {
      hide IsTree, Grown, Succ, Full;
      ghost var p, ds := path, path[node] + [index];
      HeightOK(nodes, path, root, height, node);
      GrownSelf(nodes, path, root, height);
      if index + 1 < BRANCH {
        SuccHere(path[node], index);
        return node, index + 1;
      }
      var top, branch;
      ghost var tail;
      top, branch, tail := Climb(node);
      FullSnoc(path[node], index);
      if nodes[top].parent == 0 && branch + 1 == BRANCH {
        return 0, index;
      }
      if height == 0 {
        OnlyLeaf(nodes, path, root, height, node);
        return top, 0;
      }
      HeightOK(nodes, path, root, height, top);
      SuccClimb(path[top], branch, tail, path[node], index);
      node' := DescendLeft(top, branch + 1);
      index' := 0;
      assert Zeros(|tail|) + [0] == Zeros(|tail| + 1);
      assert p[top] + [branch + 1] + Zeros(|tail|) + [0] == p[top] + [branch + 1] + Zeros(|tail| + 1);
    }

    /** The same for keys: to the slot of the next key; from the last one to none, or in a
        tree of one level back to the first. */
    method NextKey(node: nat, index: nat, ghost key: nat) returns (node': nat, index': nat)
      requires Valid() && SlotOf(node, index, key)
      modifies this`nodes, this`path
      ensures Valid() && Grown(old(nodes), old(path), nodes, path) && (forall k: nat :: Value(k) == old(Value(k)))
      ensures node' == 0 <==> key + 1 == Cap(height) && height > 0
      ensures node' != 0 ==> SlotOf(node', index', if key + 1 < Cap(height) then key + 1 else 0)
    {
      hide IsTree, Grown, Look, Succ, Full, Digits;
      ghost var t, p := nodes, path;
      HeightOK(nodes, path, root, height, node);
      DigitsFull(key, height);
      if key + 1 < Cap(height) { DigitsSucc(key, height); }
      node', index' := NextSlot(node, index);
      GrownSlots(t, p, nodes, path, root, height);
      NotNull(nodes, path, root, height);
      if key + 1 < Cap(height) {
        HeightOK(nodes, path, root, height, node');
        assert (path[node'] + [index'])[height] == Digits(key + 1, height)[height];
      } else if height == 0 {
        FirstSlot(nodes, path, root, node, node');
      }
      GrownLook(t, p, nodes, path, root, height);
      SameValues(t, p, root, height, nodes, path);
    }

    /** The loops that expand the tree until it reaches `key`. */
    method Reach(key: nat)
      requires Valid() && key < Cap(6)
      modifies this`nodes, this`root, this`height, this`path
      ensures Valid() && key < Cap(height)
      ensures forall k: nat :: Value(k) == old(Value(k))
      ensures forall n: nat, i: nat, k: nat :: old(SlotOf(n, i, k)) ==> SlotOf(n, i, k)
    {
      hide IsTree, Look, Cap, Digits;
      while key >= maxKeys[height]
        invariant Valid() && (forall k: nat :: Value(k) == old(Value(k)))
        invariant forall n: nat, i: nat, k: nat :: old(SlotOf(n, i, k)) ==> SlotOf(n, i, k)
        decreases 6 - height
      {
        Expand();
      }
    }

    method StoreSlot(node: nat, index: nat, v: nat, ghost key: nat)
      requires Valid() && SlotOf(node, index, key)
      modifies this`nodes
      ensures Valid() && forall k: nat :: Value(k) == if k == key then v else old(Value(k))
      ensures forall n: nat, i: nat, k: nat :: old(SlotOf(n, i, k)) ==> SlotOf(n, i, k)
    {
      hide IsTree, Look, Digits;
      StoreLook(nodes, path, root, height, node, index, v, key);
      nodes := nodes[node := nodes[node].(kids := nodes[node].kids[index := v])];
    }

    /** btree_set. */
    method Set(key: nat, v: nat)
      requires Valid() && key < Cap(6)
      modifies this`nodes, this`root, this`height, this`path
      ensures Valid() && forall k: nat :: Value(k) == if k == key then v else old(Value(k))
    {
      hide IsTree, Look, Cap, Digits, Grown;
      Reach(key);
      var node, index := Pos(key);
      StoreSlot(node, index, v, key);
    }

    /** The two actions of the range loops. */
    method StoreAndStep(node: nat, index: nat, v: nat, ghost key: nat) returns (node': nat, index': nat)
      requires Valid() && SlotOf(node, index, key) && key + 1 < Cap(height)
      modifies this`nodes, this`path
      ensures Valid() && SlotOf(node', index', key + 1) && SlotOf(node, index, key)
      ensures forall k: nat :: Value(k) == if k == key then v else old(Value(k))
    {
      hide IsTree, Look, Cap, Digits, Grown;
      StoreSlot(node, index, v, key);
      ghost var t, p := nodes, path;
      node', index' := NextKey(node, index, key);
      GrownSlots(t, p, nodes, path, root, height);
    }

    /** btree_set_range_callback: `stop` is the callback on the value found and its key; the
        keys before the first stop are stored. */
    method SetRange(start: nat, end: nat, v: nat, stop: (nat, nat) -> bool) returns (ok: bool, ghost done: nat)
      requires Valid() && end < Cap(6)
      modifies this`nodes, this`root, this`height, this`path
      ensures Valid() && forall k: nat :: Value(k) == if start <= k < done then v else old(Value(k))
      ensures ok <==> start < end && forall k: nat | start <= k < end :: !(old(Value(k)) != 0 && stop(old(Value(k)), k))
      ensures if ok then done == end
              else start >= end || (start <= done < end && old(Value(done)) != 0 && stop(old(Value(done)), done))
    {
      hide IsTree, Look, Cap, Digits, Grown, SlotOf;
      done := start;
      if start >= end { return false, start; }
      Reach(end);
      var node, index := Pos(start);
      var key := start;
      while key < end
        invariant start <= key <= end && end < Cap(height) && Valid() && SlotOf(node, index, key)
        invariant forall k: nat :: Value(k) == if start <= k < key then v else old(Value(k))
        invariant forall k: nat | start <= k < key :: !(old(Value(k)) != 0 && stop(old(Value(k)), k))
      {
        SlotHolds(node, index, key);
        var found := nodes[node].kids[index];
        assert found == old(Value(key));
        if found != 0 && stop(found, key) { return false, key; }
        node, index := StoreAndStep(node, index, v, key);
        key := key + 1;
      }
      return true, end;
    }

    /** btree_get_ptr_hint, with a hint that is on the slot of `last`, whatever its number: the slot
        that it lands on, and exactly when that is the slot of `key`. From the last slot of a tree
        of more than one level there is no next one. */
    method GetPtrHint(key: nat, hint: Hint, ghost last: nat) returns (found: bool, hint': Hint)
      requires Valid() && key < Cap(height) && (hint.node != 0 ==> SlotOf(hint.node, hint.index, last))
      modifies this`nodes, this`path
      ensures Valid() && (forall k: nat :: Value(k) == old(Value(k)))
      ensures forall n: nat, i: nat, k: nat :: old(SlotOf(n, i, k)) ==> SlotOf(n, i, k)
      ensures found <==> !(hint.node != 0 && key == hint.key + 1 && last + 1 == Cap(height) && height > 0)
      ensures if found then hint'.key == key && SlotOf(hint'.node, hint'.index, Lands(key, hint, last, Cap(height)))
              else hint' == hint
      ensures found && SlotOf(hint'.node, hint'.index, key) <==>
              hint.node == 0 || last == hint.key || (key != hint.key && key != hint.key + 1)
    {
      hide IsTree, Look, Cap, Digits, Grown;
      ghost var t, p := nodes, path;
      if hint.node != 0 && hint.key == key {
        HintCoherent(hint, last, key);
        return true, hint;
      }
      var node, index;
      if hint.node != 0 && key == hint.key + 1 {
        node, index := NextKey(hint.node, hint.index, last);
        GrownSlots(t, p, nodes, path, root, height);
        if node == 0 { return false, hint; }
      } else {
        node, index := Pos(key);
      }
      hint' := Hint(node, index, key);
      GrownSlots(t, p, nodes, path, root, height);
      HintCoherent(hint', Lands(key, hint, last, Cap(height)), key);
      found := true;
    }

    /** btree_set_range_hint_callbak, with a coherent hint. The cursor ends on the last key stored but keeps the
        first key's number: it is coherent exactly if the range is one key or the callback stops
        at its first or second. */
    method SetRangeHint(start: nat, end: nat, v: nat, hint: Hint, stop: nat -> bool)
      returns (ok: bool, hint': Hint, ghost done: nat)
      requires Valid() && end < Cap(6) && Coherent(hint)
      modifies this`nodes, this`root, this`height, this`path
      ensures Valid() && forall k: nat :: Value(k) == if start <= k < done then v else old(Value(k))
      ensures ok <==> start < end && forall k: nat | start <= k < end :: !(old(Value(k)) != 0 && stop(old(Value(k))))
      ensures if ok then done == end
              else start >= end || (start <= done < end && old(Value(done)) != 0 && stop(old(Value(done))))
      ensures start < end ==>
                hint'.key == start && SlotOf(hint'.node, hint'.index, if done > start then done - 1 else start)
      ensures start < end ==> (Coherent(hint') <==>
                end == start + 1
                    || exists k: nat :: start <= k <= start + 1 && old(Value(k)) != 0 && stop(old(Value(k))))
    {
      hide IsTree, Look, Cap, Digits, Grown, SlotOf;
      done := start;
      if start >= end { return false, hint, start; }
      Reach(end);
      var found;
      found, hint' := GetPtrHint(start, hint, hint.key);
      var node, index := hint'.node, hint'.index;
      var key := start;
      ghost var last: nat := start;
      while key < end
        invariant start <= key <= end && end < Cap(height) && Valid() && SlotOf(node, index, key)
        invariant forall k: nat :: Value(k) == if start <= k < key then v else old(Value(k))
        invariant forall k: nat | start <= k < key :: !(old(Value(k)) != 0 && stop(old(Value(k))))
        invariant hint'.key == start && SlotOf(hint'.node, hint'.index, last)
        invariant last == (if key == start then start else key - 1)
      {
        SlotHolds(node, index, key);
        var found := nodes[node].kids[index];
        assert found == old(Value(key));
        if found != 0 && stop(found) {
          HintCoherent(hint', last, start);
          return false, hint', key;
        }
        hint', last := Hint(node, index, hint'.key), key;
        node, index := StoreAndStep(node, index, v, key);
        key := key + 1;
      }
      HintCoherent(hint', last, start);
      return true, hint', end;
    }
  }

  /** The key whose slot a hint leads to, in a tree of `cap` keys. */
  function Lands(key: nat, hint: Hint, last: nat, cap: nat): nat {
    if hint.node == 0 then key
    else if hint.key == key then last
    else if key == hint.key + 1 then (if last + 1 < cap then last + 1 else 0)
    else key
  }

  lemma NotNull(t: Heap, path: Paths, root: nat, h: nat)
    requires IsTree(t, path, root, h)
    ensures 0 !in t
  {
  }

  lemma FirstSlot(t: Heap, path: Paths, root: nat, node: nat, node': nat)
    requires IsTree(t, path, root, 0) && node in t && node' == node
    ensures node in path && t[node].height == 0 && |t[node].kids| > 0 && path[node] + [0] == Digits(0, 0)
  {
    HeightOK(t, path, root, 0, node);
    OnlyLeaf(t, path, root, 0, node);
  }

  /** A range of two keys leaves a hint with which the slot for the first key is that of the second. */
  method TwoKeyRange(table: seq<nat>, v: nat) returns (t: BTree, hint: Hint)
    requires |table| == MAX_LEVELS && forall i | 0 <= i < 7 :: table[i] == Cap(i)
    ensures t.Valid() && hint.key == 0 && t.SlotOf(hint.node, hint.index, 1) && !t.SlotOf(hint.node, hint.index, 0)
  {
    hide Look, IsTree, Digits;
    t := new BTree(table);
    CapValues();
    var ok;
    ghost var done;
    ok, hint, done := t.SetRangeHint(0, 2, v, Hint(0, 0, 0), _ => false);
    var found;
    found, hint := t.GetPtrHint(0, hint, 1);
  }

  /** A slot holds the value of its key. */
  lemma SlotValue(t: Heap, path: Paths, root: nat, h: nat, node: nat, index: nat, key: nat)
    requires IsTree(t, path, root, h) && node in t && node in path && t[node].height == 0 && index < |t[node].kids|
    requires key < Cap(h) && path[node] + [index] == Digits(key, h)
    ensures Look(t, path, root, h, key) == t[node].kids[index]
  {
    hide NodeOK, HangsOK, At;
    var full := Digits(key, h);
    AtFinds(t, path, root, h, full);
    HeightOK(t, path, root, h, node);
    assert full[..h] == path[node] && full[h] == index;
    assert LeafFor(t, path, node, full[..h]);
  }

  lemma GrownSlots(t: Heap, p: Paths, t': Heap, p': Paths, root: nat, h: nat)
    requires Grown(t, p, t', p') && IsTree(t, p, root, h) && IsTree(t', p', root, h)
    ensures forall n | n in t && t[n].height == 0 :: n in t' && n in p && n in p' && t'[n] == t[n] && p'[n] == p[n]
  {
  }

  /** A slot belongs to one key. */
  lemma OneSlot(t: Heap, path: Paths, root: nat, h: nat, node: nat, index: nat, a: nat, b: nat)
    requires IsTree(t, path, root, h) && node in t && a < Cap(h) && b < Cap(h) && path[node] + [index] == Digits(a, h)
    ensures node != 0 && (path[node] + [index] == Digits(b, h) <==> a == b)
  {
    DigitsDiffer(a, b, h);
  }

  /** One step from the slot with digits `ds`. */
  ghost predicate Stepped(t: Heap, path: Paths, h: nat, ds: seq<nat>, node: nat, node': nat, index': nat) {
    if Full(ds) then (if h > 0 then node' == 0 else node' == node && index' == 0)
    else IsDigits(ds) && node' in t && node' in path && t[node'].height == 0 && path[node'] + [index'] == Succ(ds)
  }

  lemma RootBranch(t: Heap, path: Paths, root: nat, h: nat)
    requires IsTree(t, path, root, h)
    ensures root in t && t[root].branch == 0
  {
  }

  lemma FullNone()
    ensures Full([])
  {
  }

  lemma FullMore(tail: seq<nat>)
    requires Full(tail)
    ensures Full([BRANCH - 1] + tail)
  {
  }

  lemma FullSnoc(a: seq<nat>, d: nat)
    requires d == BRANCH - 1
    ensures Full(a + [d]) <==> Full(a)
  {
    if Full(a + [d]) { assert forall i | 0 <= i < |a| :: (a + [d])[i] == a[i]; }
  }

  lemma SuccHere(a: seq<nat>, d: nat)
    requires IsDigits(a) && d + 1 < BRANCH
    ensures IsDigits(a + [d]) && !Full(a + [d]) && Succ(a + [d]) == a + [d + 1]
  {
    SuccMid(a, d, []);
    assert a + [d] + [] == a + [d] && a + [d + 1] + Zeros(0) == a + [d + 1];
  }

  lemma SuccClimb(a: seq<nat>, d: nat, tail: seq<nat>, whole: seq<nat>, index: nat)
    requires IsDigits(a) && d + 1 < BRANCH && Full(tail) && whole == a + [d] + tail && index == BRANCH - 1
    ensures IsDigits(whole + [index]) && !Full(whole + [index])
    ensures Succ(whole + [index]) == a + [d + 1] + Zeros(|tail| + 1)
  {
    FullSnoc(tail, index);
    SuccMid(a, d, tail + [index]);
    assert a + [d] + (tail + [index]) == whole + [index];
  }

  lemma NotRoot(t: Heap, path: Paths, root: nat, h: nat, x: nat)
    requires IsTree(t, path, root, h) && x in t && t[x].parent != 0
    ensures var p := t[x].parent;
            && p in t && p in path && x in path && path[x] == path[p] + [t[x].branch] && t[x].branch < BRANCH
            && t[p].height == t[x].height + 1 && t[p].height <= h
  {
    assert HangsOK(t, path, x);
    assert NodeOK(t, path, t[x].parent, h) && NodeOK(t, path, x, h);
  }

  lemma IsRoot(t: Heap, path: Paths, root: nat, h: nat, x: nat)
    requires IsTree(t, path, root, h) && x in t && t[x].parent == 0
    ensures x == root && x in path && path[x] == [] && t[x].height == h
  {
    assert NodeOK(t, path, root, h);
    assert x == root || HangsOK(t, path, x);
  }

  lemma OnlyLeaf(t: Heap, path: Paths, root: nat, h: nat, x: nat)
    requires IsTree(t, path, root, h) && h == 0 && x in t
    ensures x == root
  {
    assert NodeOK(t, path, x, h);
    OnlyRoot(t, path, root, h, x);
  }

  lemma GrownSelf(t: Heap, path: Paths, root: nat, h: nat)
    requires IsTree(t, path, root, h)
    ensures Grown(t, path, t, path)
  {
  }

  lemma HeightOK(t: Heap, path: Paths, root: nat, h: nat, x: nat)
    requires IsTree(t, path, root, h) && x in t
    ensures x in path && |path[x]| + t[x].height == h && |t[x].kids| == BRANCH && IsDigits(path[x])
  {
    assert NodeOK(t, path, x, h);
  }

  lemma ChildHere(t: Heap, path: Paths, root: nat, h: nat, x: nat, i: nat)
    requires IsTree(t, path, root, h) && x in t && t[x].height > 0 && i < BRANCH && |t[x].kids| == BRANCH
    requires t[x].kids[i] != 0
    ensures var y := t[x].kids[i]; y in t && y in path && path[y] == path[x] + [i] && t[y].height == t[x].height - 1
  {
    assert NodeOK(t, path, x, h);
    var y := t[x].kids[i];
    assert ChildOK(t, path, x, i, y);
    assert NodeOK(t, path, y, h);
  }

  lemma DigitsStep(rest: nat, hh: nat)
    requires hh > 0 && rest < Cap(hh)
    ensures rest < BRANCH * Cap(hh - 1) && Digits(rest, hh)[0] == Quot(rest, Cap(hh - 1))
    ensures Digits(rest, hh)[1..] == Digits(Rem(rest, Cap(hh - 1)), hh - 1)
  {
  }

  lemma DigitsLeaf(rest: nat)
    requires rest < Cap(0)
    ensures Digits(rest, 0) == [rest] && rest < BRANCH
  {
  }

  lemma SameValues(t: Heap, path: Paths, root: nat, h: nat, t': Heap, path': Paths)
    requires IsTree(t, path, root, h) && IsTree(t', path', root, h) && SameLook(t, path, root, h, t', path', root, h)
    ensures forall k: nat :: Look(t', path', root, h, k) == Look(t, path, root, h, k)
  {
  }

  lemma AtIsFind(t: Heap, path: Paths, root: nat, h: nat, full: seq<nat>)
    requires IsTree(t, path, root, h) && |full| == h + 1 && IsDigits(full)
    ensures OnWay(t, path, root, h, root, full) && FindRest(t, path, root, h, root, full) == At(t, path, root, h, full)
  {
    assert NodeOK(t, path, root, h);
    assert full[0..] == full;
  }

  lemma FindNull(t: Heap, path: Paths, root: nat, h: nat, x: nat, full: seq<nat>)
    requires OnWay(t, path, root, h, x, full) && t[x].height > 0 && |t[x].kids| == BRANCH
    requires t[x].kids[full[|path[x]|]] == 0
    ensures FindRest(t, path, root, h, x, full) == 0
  {
    hide NodeOK, HangsOK;
    assert full[|path[x]|..][0] == full[|path[x]|];
  }

  lemma FindHere(t: Heap, path: Paths, root: nat, h: nat, x: nat, full: seq<nat>)
    requires OnWay(t, path, root, h, x, full) && t[x].height == 0 && |t[x].kids| == BRANCH
    ensures FindRest(t, path, root, h, x, full) == t[x].kids[full[|path[x]|..][0]]
  {
    hide NodeOK, HangsOK;
  }

  lemma CapValues()
    ensures Cap(0) == 0x100 && Cap(1) == 0x1_0000 && Cap(2) == 0x100_0000 && Cap(3) == 0x1_0000_0000
    ensures Cap(4) == 0x100_0000_0000 && Cap(5) == 0x1_0000_0000_0000 && Cap(6) == 0x100_0000_0000_0000
  {
    assert Cap(1) == BRANCH * Cap(0);
    assert Cap(2) == BRANCH * Cap(1);
    assert Cap(3) == BRANCH * Cap(2);
    assert Cap(4) == BRANCH * Cap(3);
    assert Cap(5) == BRANCH * Cap(4);
    assert Cap(6) == BRANCH * Cap(5);
  }

  /** From height `h` the loops that expand the tree come to a height whose table entry is
      past `key` exactly if the key is below 2^56; otherwise they leave the table. */
  lemma ReachEnds(table: seq<nat>, h: nat, key: nat)
    requires h <= 6 && |table| == MAX_LEVELS
    requires forall i | 0 <= i < MAX_LEVELS :: table[i] == if i < 7 then Cap(i) else 0
    ensures (exists i :: h <= i < MAX_LEVELS && key < table[i]) <==> key < Cap(6)
  {
    CapValues();
    assert table[6] == Cap(6);
  }

  lemma RootIn(t: Heap, path: Paths, root: nat, h: nat)
    requires IsTree(t, path, root, h)
    ensures root in t && path.Keys == t.Keys && path[root] == [] && t[root].height == h && 0 !in t
    ensures |t[root].kids| == BRANCH
  {
    assert NodeOK(t, path, root, h);
  }

  lemma ExpandedIs(t: Heap, root: nat, h: nat, y: nat)
    requires root in t
    ensures Expanded(t, root, h, y)
              == t[root := t[root].(parent := y)][y := Node(0, h + 1, 0, Zeros(BRANCH)[0 := root])]
  {
  }

  lemma SlotDeeper(t: Heap, p: Paths, r: nat, h: nat, y: nat, n: nat, i: nat, k: nat)
    requires r in t && p.Keys == t.Keys && y !in t && n in t && t[n].height == 0 && i < |t[n].kids| && k < Cap(h)
    requires p[n] + [i] == Digits(k, h)
    ensures n in Expanded(t, r, h, y) && n in Deeper(p, y) && Expanded(t, r, h, y)[n].height == 0
    ensures i < |Expanded(t, r, h, y)[n].kids|
    ensures k < Cap(h + 1) && Deeper(p, y)[n] + [i] == Digits(k, h + 1)
  {
    DigitsGrow(k, h);
    assert [0] + (p[n] + [i]) == ([0] + p[n]) + [i];
  }
}
