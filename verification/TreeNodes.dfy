/** The tree's steps on real nodes: the pages of a valid tree that fits its pages meet what BTreeNode's methods demand,
    and the nodes end as the pages of the next tree. */
module TreeNodes {
  import opened Bytes
  import opened Pages
  import opened Splits
  import opened PageSpace
  import opened Forests
  import opened ForestSteps
  import opened LeafSteps
  import opened SplitMeasure
  import opened Trees
  import opened NodeImage
  import opened NodeSearch
  import opened NodeUpdates
  import opened Nodes

  /** node is page p of the tree. */
  ghost predicate Stands(node: BTreeNode, f: Forest, p: PID)
    reads node, node.hint, node.slot, node.mem
  {
    node.Valid() && f.Live(p) && node.pid == p <= NO_NEIGHBOUR && node.View() == f.pages[p]
  }

  // ---------------------------------------------------------------------- storing

  lemma {:induction false} StoreMeets(f: Forest, contents: map<Key, seq<byte>>, p: PID, key: Key, payload: seq<byte>)
    requires f.Inv() && f.Holds(contents) && f.Live(p) && f.pages[p].isLeaf && f.pages[p].Covers(key)
    requires key != [] && key !in contents
    ensures CanInsert(f.pages[p], key, payload)
    ensures f.pages[p].Insert(key, ValueOf(true, payload)) == f.pages[p].Insert(key, Record(payload))
  {
    hide Forest.Inv, Page.Covers;
    assert Agrees(f.pages[p], contents) && AgreesOn(f.pages[p], contents, key);
    hide Agrees, Forest.Holds;
  }

  method StoreOnNode(node: BTreeNode, key: Key, payload: seq<byte>, ghost f: Forest, ghost contents: map<Key,
                     seq<byte>>)
    requires f.Inv() && f.Holds(contents) && Stands(node, f, node.pid) && node.isLeaf && f.pages[node.pid].Covers(key)
    requires key != [] && key !in contents && f.pages[node.pid].HasSpaceFor(|key|, |payload|)
    modifies node, node.hint, node.slot, node.mem
    ensures Stands(node, WithPage(f, node.pid, f.pages[node.pid].Insert(key, Record(payload))), node.pid)
  {
    hide Forest.Inv, Forest.Holds, Good, BTreeNode.HintsOk, CanInsert, Page.HasSpaceFor, Page.Insert, Page.Covers;
    node.SpaceIsViews();
    StoreMeets(f, contents, node.pid, key, payload);
    node.InsertInPage(key, payload);
  }

  // ---------------------------------------------------------------------- splitting

  /** The parent is ready to take the separator. */
  lemma {:induction false} ParentTakes(f: Forest, q: PID, i: nat, c: PID, slot: nat, sep: Key, n: PID)
    requires CanSplit(f, q, i, c, slot, sep, n) && f.pages[q].HasSpaceFor(|sep|, PID_SIZE)
    ensures TakesSeparator(f.pages[q], sep, c)
  {
    hide Less, Common, Page.Covers, Page.Ok, Page.HasSpaceFor, LowerBound;
    SeparatorInParent(f, q, i, c, slot, sep, n);
  }

  /** The left half of a leaf fits; all other halves always do. */
  predicate HalvesFit(p: Page, info: SeparatorInfo)
    requires p.Describes(info)
  {
    p.isLeaf ==> p.SplitLeft(info.slot, p.Sep(info), 0).Fits()
  }

  /** A separator found in a tree, if the left half of a leaf fits, is one that splitNode accepts. */
  lemma {:induction false} SplitMeets(f: Forest, contents: map<Key, seq<byte>>, q: PID, i: nat, c: PID,
                                      info: SeparatorInfo, n: PID, node: BTreeNode, parent: BTreeNode)
    requires SplitReady(f, contents, q, i, c, info, n) && n < NO_NEIGHBOUR && HalvesFit(f.pages[c], info)
    requires Stands(node, f, c) && Stands(parent, f, q)
    ensures node.MaySplit(parent, info.slot, f.pages[c].Sep(info), n)
  {
    var p, hasSpace := f.pages[c], f.pages[q].HasSpaceFor(info.len, PID_SIZE);
    node.PageFits();
    hide ValidForest, Good, BTreeNode.HintsOk, Page.HasSpaceFor, Page.Sep, Page.Ok, Page.Describes, TakesSeparator,
      BTreeNode.View, Page.Fits;
    ReadyToSplit(f, contents, q, i, c, info, n);
    AnyHalfFits(p, info, n);
    ParentTakes(f, q, i, c, info.slot, p.Sep(info), n);
  }

  lemma {:induction false} AnyHalfFits(p: Page, info: SeparatorInfo, n: PID)
    requires p.Ok() && p.Fits() && p.Describes(info) && HalvesFit(p, info) && (!p.isLeaf ==> p.InnerShape())
    ensures p.SplitLeft(info.slot, p.Sep(info), n).Fits() && p.SplitRight(info.slot, p.Sep(info)).Fits()
  {
    hide Common, Less, Page.Ok, Page.Describes, Stored;
    RightHalfFits(p, info);
    if !p.isLeaf { InnerLeftHalfFits(p, info, n); }
  }

  /** What the halves and the parent mean afterwards is what the next tree says of them. */
  lemma {:induction false} SplitArrives(f: Forest, contents: map<Key, seq<byte>>, q: PID, i: nat, c: PID,
                                        info: SeparatorInfo, n: PID, l: Page, r: Page, above: Page)
    requires SplitReady(f, contents, q, i, c, info, n)
    requires IsSplit(f.pages[c], info.slot, f.pages[c].Sep(info), n, l, r)
    requires Separated(f.pages[q], f.pages[c].Sep(info), c, n, above)
    ensures var g := SplitResult(f, contents, q, i, c, info, n);
      && g.Live(c) && g.Live(q) && g.Live(n) && g.pages[c] == l && g.pages[n] == r && g.pages[q] == above
  {
    ReadyToSplit(f, contents, q, i, c, info, n);
    SplitFrame(f, q, i, c, info.slot, f.pages[c].Sep(info), n);
    hide SplitReady, CanSplit, Page.Sep, Page.Ok, Page.AddSeparator, Page.SplitLeft, Page.SplitRight;
  }

  /** trySplit's step on nodes: find the separator, and split at it. */
  method SplitOnNodes(node: BTreeNode, parent: BTreeNode, splitOrdered: bool, newPid: nat,
                      ghost f: Forest, ghost contents: map<Key, seq<byte>>, ghost i: nat)
    returns (nodeRight: BTreeNode)
    requires Stands(node, f, node.pid) && Stands(parent, f, parent.pid) && node.Repr() !! parent.Repr()
    requires |f.pages[node.pid].entries| > (if node.isLeaf then 1 else 0) && node.isLeaf == f.pages[node.pid].isLeaf
    requires newPid < NO_NEIGHBOUR && HalvesFit(f.pages[node.pid], f.pages[node.pid].FindSeparator(splitOrdered))
    requires SplitReady(f, contents, parent.pid, i, node.pid, f.pages[node.pid].FindSeparator(splitOrdered), newPid)
    modifies node, node.hint, node.slot, node.mem, parent, parent.hint, parent.slot, parent.mem
    ensures var g := SplitResult(f, contents, parent.pid, i, node.pid, f.pages[node.pid].FindSeparator(splitOrdered),
        newPid);
      Stands(node, g, node.pid) && Stands(parent, g, parent.pid) && Stands(nodeRight, g, newPid)
    ensures fresh(nodeRight.Repr())
  {
    hide SplitReady, HalvesFit, Good, BTreeNode.HintsOk, BTreeNode.MaySplit, BTreeNode.View, Page.FindSeparator,
      Page.Sep, IsSplit, Separated, SplitResult;
    node.SpaceIsViews();
    var info := node.FindSeparator(splitOrdered);
    var sep := node.GetSep(info);
    SplitMeets(f, contents, parent.pid, i, node.pid, info, newPid, node, parent);
    nodeRight := node.SplitNode(parent, info.slot, sep, newPid);
    SplitArrives(f, contents, parent.pid, i, node.pid, info, newPid, node.View(), nodeRight.View(), parent.View());
  }

  // ---------------------------------------------------------------------- merging

  lemma {:induction false} MergeMeets(f: Forest, q: PID, slot: nat, c: PID, r: PID, node: BTreeNode, right: BTreeNode)
    requires CanMerge(f, q, slot, c, r) && AllSized(f) && Stands(node, f, c) && Stands(right, f, r)
    ensures node.CanMerge(right) && node.isLeaf && q in f.pages && !f.pages[q].isLeaf && slot + 1 < |f.pages[q].entries|
  {
    MergeFrame(f, q, slot, c, r);
    hide CanMerge, Page.Ok, Good, BTreeNode.HintsOk, MergeAt;
    assert Sized(f.pages[c]) && Sized(f.pages[r]);
    node.SpaceIsViews();
    right.SpaceIsViews();
  }

  lemma {:induction false} MergeArrives(f: Forest, q: PID, slot: nat, c: PID, r: PID, above: Page)
    requires CanMerge(f, q, slot, c, r) && Dropped(f.pages[q], slot, c, above)
    ensures q in f.pages && c in f.pages && r in f.pages
    ensures var g := MergeAt(f, q, slot, c, r);
      g.Live(c) && g.Live(q) && g.pages[c] == f.pages[c].Merge(f.pages[r]) && g.pages[q] == above
  {
    MergeFrame(f, q, slot, c, r);
    hide Page.Ok, Page.Merge, Page.DropSeparator;
  }

  method MergeOnNodes(slotId: nat, node: BTreeNode, parent: BTreeNode, right: BTreeNode, ghost f: Forest)
    returns (merged: bool)
    requires CanMerge(f, parent.pid, slotId, node.pid, right.pid) && AllSized(f)
    requires Stands(node, f, node.pid) && Stands(parent, f, parent.pid) && Stands(right, f, right.pid)
    requires node.Repr() !! parent.Repr() && right.Repr() !! parent.Repr() && node.Repr() !! right.Repr()
    modifies node, node.hint, node.slot, node.mem, parent, parent.hint, parent.slot, parent.mem
    ensures merged <==> f.pages[node.pid].MergeFits(f.pages[right.pid])
    ensures merged ==> var g := MergeAt(f, parent.pid, slotId, node.pid, right.pid);
              Stands(node, g, node.pid) && Stands(parent, g, parent.pid)
    ensures !merged ==> Stands(node, f, node.pid) && Stands(parent, f, parent.pid)
  {
    hide CanMerge, AllSized, Good, BTreeNode.HintsOk, BTreeNode.View, BTreeNode.CanMerge, Dropped, Page.MergeFits,
      Page.Merge, MergeAt;
    MergeMeets(f, parent.pid, slotId, node.pid, right.pid, node, right);
    parent.SpaceIsViews();
    merged := node.MergeNodes(slotId, parent, right);
    if merged { MergeArrives(f, parent.pid, slotId, node.pid, right.pid, parent.View()); }
  }

  // ---------------------------------------------------------------------- a node for every page

  /** Every live page of the tree has its node, and no two nodes share memory. */
  ghost predicate AllStand(nodes: map<PID, BTreeNode>, f: Forest)
    reads (set p | p in nodes :: nodes[p]), (set p | p in nodes :: nodes[p].hint)
    reads (set p | p in nodes :: nodes[p].slot), (set p | p in nodes :: nodes[p].mem)
  {
    && (forall p :: p in nodes <==> f.Live(p))
    && (forall p :: p in nodes ==> Stands(nodes[p], f, p))
    && Separate(nodes)
  }

  ghost predicate Separate(nodes: map<PID, BTreeNode>) {
    forall p, q :: p in nodes && q in nodes && p != q ==> nodes[p].Repr() !! nodes[q].Repr()
  }

  lemma {:induction false} Members(nodes: map<PID, BTreeNode>, f: Forest)
    requires AllStand(nodes, f)
    ensures Separate(nodes) && (forall p :: p in nodes <==> f.Live(p))
    ensures forall p :: p in nodes ==> Stands(nodes[p], f, p)
  {
    hide Stands, Separate;
  }

  lemma {:induction false} Assemble(nodes: map<PID, BTreeNode>, f: Forest)
    requires Separate(nodes) && (forall p :: p in nodes <==> f.Live(p))
    requires forall p :: p in nodes ==> Stands(nodes[p], f, p)
    ensures AllStand(nodes, f)
  {
    hide Stands, Separate;
  }

  lemma {:induction false} SeparateMore(nodes: map<PID, BTreeNode>, n: PID, node: BTreeNode)
    requires Separate(nodes) && forall p :: p in nodes ==> nodes[p].Repr() !! node.Repr()
    ensures Separate(nodes[n := node])
  {
  }

  lemma {:induction false} SeparateLess(nodes: map<PID, BTreeNode>, n: PID)
    requires Separate(nodes)
    ensures Separate(nodes - {n})
  {
  }

  lemma {:induction false} ApartFrom(nodes: map<PID, BTreeNode>, c: PID)
    requires Separate(nodes) && c in nodes
    ensures forall p :: p in nodes && p != c ==> nodes[p].Repr() !! nodes[c].Repr()
  {
  }

  /** A page that the next tree has not changed. */
  lemma {:induction false} SamePage(node: BTreeNode, f: Forest, g: Forest, p: PID)
    requires Stands(node, f, p) && g.Live(p) && g.pages[p] == f.pages[p]
    ensures Stands(node, g, p)
  {
    hide BTreeNode.Valid, BTreeNode.View;
  }

  method StoreInForest(ghost nodes: map<PID, BTreeNode>, p: PID, node: BTreeNode, key: Key, payload: seq<byte>,
                       ghost f: Forest, ghost contents: map<Key, seq<byte>>)
    requires AllStand(nodes, f) && p in nodes && nodes[p] == node
    requires f.Inv() && f.Holds(contents) && f.pages[p].isLeaf && f.pages[p].Covers(key)
    requires key != [] && key !in contents && f.pages[p].HasSpaceFor(|key|, |payload|)
    modifies node, node.hint, node.slot, node.mem
    ensures AllStand(nodes, WithPage(f, p, f.pages[p].Insert(key, Record(payload))))
  {
    hide Stands, Forest.Inv, Forest.Holds, Page.HasSpaceFor, Page.Insert, Page.Covers;
    ghost var g := WithPage(f, p, f.pages[p].Insert(key, Record(payload)));
    LeafNode(node, f, p);
    StoreOnNode(node, key, payload, f, contents);
    forall q | q in nodes && q != p
      ensures Stands(nodes[q], g, q)
    {
      assert Stands(nodes[q], f, q);
      SamePage(nodes[q], f, g, q);
    }
  }

  method RemoveInForest(ghost nodes: map<PID, BTreeNode>, p: PID, node: BTreeNode, slotId: nat, ghost f: Forest)
    requires AllStand(nodes, f) && p in nodes && nodes[p] == node && slotId < |f.pages[p].entries|
    modifies node`spaceUsed, node`count, node.hint, node.slot
    ensures AllStand(nodes, WithPage(f, p, f.pages[p].RemoveAt(slotId)))
  {
    hide Page.RemoveAt, Stands;
    ghost var g := WithPage(f, p, f.pages[p].RemoveAt(slotId));
    LeafNode(node, f, p);
    RemoveOnNode(node, slotId, f);
    forall q | q in nodes && q != p
      ensures Stands(nodes[q], g, q)
    {
      assert Stands(nodes[q], f, q);
      SamePage(nodes[q], f, g, q);
    }
  }

  method RemoveOnNode(node: BTreeNode, slotId: nat, ghost f: Forest)
    requires Stands(node, f, node.pid) && slotId < |f.pages[node.pid].entries|
    modifies node`spaceUsed, node`count, node.hint, node.slot
    ensures Stands(node, WithPage(f, node.pid, f.pages[node.pid].RemoveAt(slotId)), node.pid)
  {
    hide Good, BTreeNode.HintsOk, Page.RemoveAt;
    node.SpaceIsViews();
    node.RemoveSlot(slotId);
  }

  method SplitInForest(ghost nodes: map<PID, BTreeNode>, c: PID, node: BTreeNode, q: PID, parent: BTreeNode,
                       splitOrdered: bool,
                       newPid: nat, ghost f: Forest, ghost contents: map<Key, seq<byte>>, ghost i: nat)
    returns (nodeRight: BTreeNode)
    requires AllStand(nodes, f) && c in nodes && nodes[c] == node && q in nodes && nodes[q] == parent && c != q
    requires newPid < NO_NEIGHBOUR && |f.pages[c].entries| > if f.pages[c].isLeaf then 1 else 0
    requires var info := f.pages[c].FindSeparator(splitOrdered);
      SplitReady(f, contents, q, i, c, info, newPid) && HalvesFit(f.pages[c], info)
    modifies node, node.hint, node.slot, node.mem, parent, parent.hint, parent.slot, parent.mem
    ensures AllStand(nodes[newPid := nodeRight],
        SplitResult(f, contents, q, i, c, f.pages[c].FindSeparator(splitOrdered), newPid))
  {
    hide AllStand, Stands, Separate, SplitReady, SplitResult, HalvesFit, Page.FindSeparator, Page.Describes,
      BTreeNode.Valid;
    Members(nodes, f);
    ApartFrom(nodes, c);
    ApartFrom(nodes, q);
    ghost var info := f.pages[c].FindSeparator(splitOrdered);
    LeafNode(node, f, c);
    LeafNode(parent, f, q);
    nodeRight := SplitOnNodes(node, parent, splitOrdered, newPid, f, contents, i);
    ghost var g := SplitResult(f, contents, q, i, c, info, newPid);
    SplitChanges(f, contents, q, i, c, info, newPid);
    SeparateMore(nodes, newPid, nodeRight);
    forall p | p in nodes && p != c && p != q
      ensures Stands(nodes[p], g, p)
    {
      assert Stands(nodes[p], f, p);
      SamePage(nodes[p], f, g, p);
    }
    Assemble(nodes[newPid := nodeRight], g);
  }

  lemma {:induction false} SplitChanges(f: Forest, contents: map<Key, seq<byte>>, q: PID, i: nat, c: PID,
                                        info: SeparatorInfo, n: PID)
    requires SplitReady(f, contents, q, i, c, info, n)
    ensures var g := SplitResult(f, contents, q, i, c, info, n);
      && !f.Live(n) && (forall p :: g.Live(p) <==> f.Live(p) || p == n)
      && forall p :: f.Live(p) && p != c && p != q ==> g.Live(p) && g.pages[p] == f.pages[p]
  {
    hide SplitReady, CanSplit, SplitAt, Page.Sep;
    ReadyToSplit(f, contents, q, i, c, info, n);
    SplitFrame(f, q, i, c, info.slot, f.pages[c].Sep(info), n);
  }

  method MergeInForest(ghost nodes: map<PID, BTreeNode>, slotId: nat, c: PID, node: BTreeNode, q: PID,
                       parent: BTreeNode,
                       r: PID, right: BTreeNode, ghost f: Forest)
    returns (merged: bool)
    requires AllStand(nodes, f) && CanMerge(f, q, slotId, c, r) && AllSized(f)
    requires c in nodes && nodes[c] == node && q in nodes && nodes[q] == parent && r in nodes && nodes[r] == right
    modifies node, node.hint, node.slot, node.mem, parent, parent.hint, parent.slot, parent.mem
    ensures q in f.pages && c in f.pages && r in f.pages && (merged <==> f.pages[c].MergeFits(f.pages[r]))
    ensures if merged then AllStand(nodes - {r}, MergeAt(f, q, slotId, c, r)) else AllStand(nodes, f)
  {
    hide AllStand, Stands, Separate, CanMerge, AllSized, MergeAt, Page.MergeFits, BTreeNode.Valid;
    Members(nodes, f);
    ApartFrom(nodes, c);
    ApartFrom(nodes, q);
    SeparateLess(nodes, r);
    MergeChanges(f, q, slotId, c, r);
    LeafNode(node, f, c);
    LeafNode(parent, f, q);
    LeafNode(right, f, r);
    merged := MergeOnNodes(slotId, node, parent, right, f);
    ghost var g := if merged then MergeAt(f, q, slotId, c, r) else f;
    forall p | p in nodes && p != c && p != q && p != r
      ensures Stands(nodes[p], g, p) && Stands(nodes[p], f, p)
    {
      assert Stands(nodes[p], f, p);
      SamePage(nodes[p], f, g, p);
    }
    assert Stands(right, f, r);
    if merged { Assemble(nodes - {r}, g); } else { Assemble(nodes, f); }
  }

  lemma {:induction false} MergeChanges(f: Forest, q: PID, slot: nat, c: PID, r: PID)
    requires CanMerge(f, q, slot, c, r)
    ensures q in f.pages && c in f.pages && r in f.pages && q != c && q != r && c != r
    ensures f.pages[q].InnerShape() && slot < |f.pages[q].entries|
    ensures var g := MergeAt(f, q, slot, c, r);
      && (forall p :: g.Live(p) <==> f.Live(p) && p != r)
      && forall p :: g.Live(p) && p != c && p != q ==> g.pages[p] == f.pages[p]
  {
    MergeFrame(f, q, slot, c, r);
    hide MergeAt, Forest.Inv;
  }

  /** An empty inner page above the root. */
  method GrowForest(ghost nodes: map<PID, BTreeNode>, newPid: nat, root: PID, ghost f: Forest)
    returns (newRoot: BTreeNode)
    requires AllStand(nodes, f) && f.root in f.level && root == f.root <= NO_NEIGHBOUR && newPid !in f.pages
    requires newPid <= NO_NEIGHBOUR
    ensures fresh(newRoot.Repr()) && AllStand(nodes[newPid := newRoot], NewRoot(f, newPid))
  {
    hide Stands, Separate;
    newRoot := RootNode(newPid, root, f);
    ghost var g := NewRoot(f, newPid);
    SeparateMore(nodes, newPid, newRoot);
    forall p | p in nodes
      ensures Stands(nodes[p], g, p)
    {
      assert Stands(nodes[p], f, p);
      SamePage(nodes[p], f, g, p);
    }
  }

  method RootNode(newPid: nat, root: PID, ghost f: Forest) returns (newRoot: BTreeNode)
    requires root == f.root <= NO_NEIGHBOUR && newPid <= NO_NEIGHBOUR
    ensures fresh(newRoot.Repr()) && Stands(newRoot, NewRoot(f, newPid), newPid)
  {
    ghost var p := Page(false, [], [], [], To(root));
    EmptyRootOk(root);
    hide Emptied, Good, BTreeNode.HintsOk, BTreeNode.View, Page.Ok, Page.Fits, BTreeNode.Valid;
    newRoot := BTreeNode.NewPage(newPid, p, [], [], false);
    newRoot.BecomeEmpty(p, root);
  }

  lemma {:induction false} LeafNode(node: BTreeNode, f: Forest, p: PID)
    requires Stands(node, f, p)
    ensures node.pid == p && node.Valid() && node.isLeaf == f.pages[p].isLeaf
  {
    hide Good, BTreeNode.HintsOk;
    node.SpaceIsViews();
  }
}
