/** The dominator tree of a loop, built from linked nodes. */
module DomTree {
  import opened Cfg

  /** The block of a tree node; the node above the header stands for no block. */
  datatype BlockRef = Null | Block(b: nat)

  class DomTreeNode {
    var children: seq<DomTreeNode>
    var parent: DomTreeNode?
    const block: BlockRef

    constructor (block: BlockRef)
      ensures this.block == block && children == [] && parent == null
    {
      this.block := block;
      children := [];
      parent := null;
    }
  }

  class DomTree {
    var nodes: seq<DomTreeNode>
    var root: DomTreeNode

    constructor (nodes: seq<DomTreeNode>, root: DomTreeNode)
      ensures this.nodes == nodes && this.root == root
    {
      this.nodes := nodes;
      this.root := root;
    }
  }

  type Lookup = map<BlockRef, DomTreeNode>

  /** The parent recorded for the k-th block: none for the header, which comes first. */
  function ParentOf(idom: map<nat, nat>, blocks: seq<nat>, k: nat): BlockRef
    requires k < |blocks|
  {
    if k > 0 && blocks[k] in idom then Block(idom[blocks[k]]) else Null
  }

  /** The blocks among the first `n` whose parent is `r`, in order. */
  function Kids(idom: map<nat, nat>, blocks: seq<nat>, n: nat, r: BlockRef): seq<nat>
    requires n <= |blocks|
  {
    if n == 0 then []
    else Kids(idom, blocks, n - 1, r) + if ParentOf(idom, blocks, n - 1) == r then [blocks[n - 1]] else []
  }

  /** The first `n` blocks and their parents. */
  ghost function Mentioned(idom: map<nat, nat>, blocks: seq<nat>, n: nat): set<BlockRef>
    requires n <= |blocks|
  {
    if n == 0 then {} else Mentioned(idom, blocks, n - 1) + {Block(blocks[n - 1]), ParentOf(idom, blocks, n - 1)}
  }

  lemma {:induction false} MentionedMember(idom: map<nat, nat>, blocks: seq<nat>, n: nat, r: BlockRef)
    requires n <= |blocks|
    ensures r in Mentioned(idom, blocks, n) <==>
            exists k :: 0 <= k < n && (Block(blocks[k]) == r || ParentOf(idom, blocks, k) == r)
  {
    if n > 0 {
      MentionedMember(idom, blocks, n - 1, r);
    }
  }

  ghost predicate NodeOk(lookup: Lookup, idom: map<nat, nat>, blocks: seq<nat>, n: nat, r: BlockRef)
    requires n <= |blocks| && r in lookup
    reads lookup.Values
  {
    var kids := Kids(idom, blocks, n, r);
    && lookup[r].block == r && |lookup[r].children| == |kids|
    && forall x :: 0 <= x < |kids| ==> Block(kids[x]) in lookup && lookup[r].children[x] == lookup[Block(kids[x])]
  }

  ghost predicate ParentOk(lookup: Lookup, idom: map<nat, nat>, blocks: seq<nat>, k: nat)
    requires k < |blocks|
    reads lookup.Values
  {
    && Block(blocks[k]) in lookup && ParentOf(idom, blocks, k) in lookup
    && lookup[Block(blocks[k])].parent == lookup[ParentOf(idom, blocks, k)]
  }

  /** The nodes reflect the parents of the first `n` blocks. */
  ghost predicate TreeOk(lookup: Lookup, idom: map<nat, nat>, blocks: seq<nat>, n: nat)
    requires n <= |blocks|
    reads lookup.Values
  {
    && (forall k :: 0 <= k < n ==> ParentOk(lookup, idom, blocks, k))
    && (forall r :: r in lookup ==> NodeOk(lookup, idom, blocks, n, r))
  }

  lemma {:induction false} KidsMember(idom: map<nat, nat>, blocks: seq<nat>, n: nat, r: BlockRef, c: nat)
    requires n <= |blocks|
    ensures c in Kids(idom, blocks, n, r) <==>
            exists k :: 0 <= k < n && blocks[k] == c && ParentOf(idom, blocks, k) == r
  {
    if n > 0 {
      KidsMember(idom, blocks, n - 1, r, c);
    }
  }

  lemma NoKidsYet(lookup: Lookup, idom: map<nat, nat>, blocks: seq<nat>, n: nat, r: BlockRef)
    requires n <= |blocks| && r !in lookup
    requires forall k :: 0 <= k < n ==> ParentOf(idom, blocks, k) in lookup
    ensures Kids(idom, blocks, n, r) == []
  {
    var kids := Kids(idom, blocks, n, r);
    if kids != [] {
      assert kids[0] in kids;
      KidsMember(idom, blocks, n, r, kids[0]);
    }
  }

  /** The node of `r`, created if there is none yet. */
  method FindOrCreate(lookup: Lookup, idom: map<nat, nat>, blocks: seq<nat>, n: nat, r: BlockRef) returns (more: Lookup)
    requires n <= |blocks| && TreeOk(lookup, idom, blocks, n)
    ensures TreeOk(more, idom, blocks, n)
    ensures more.Keys == lookup.Keys + {r} && forall x :: x in lookup ==> more[x] == lookup[x]
    ensures fresh(more.Values - lookup.Values)
  {
    if r in lookup {
      return lookup;
    }
    forall k | 0 <= k < n
      ensures ParentOf(idom, blocks, k) in lookup
    {
      assert ParentOk(lookup, idom, blocks, k);
    }
    NoKidsYet(lookup, idom, blocks, n, r);
    var node := new DomTreeNode(r);
    more := lookup[r := node];
    forall k | 0 <= k < n
      ensures ParentOk(more, idom, blocks, k)
    {
      assert ParentOk(lookup, idom, blocks, k);
    }
    forall x | x in more
      ensures NodeOk(more, idom, blocks, n, x)
    {
      if x != r {
        assert NodeOk(lookup, idom, blocks, n, x);
      }
    }
  }

  /** Link the node of the n-th block under the node of its parent. */
  method Link(lookup: Lookup, idom: map<nat, nat>, blocks: seq<nat>, n: nat)
    requires n < |blocks| && Distinct(blocks) && TreeOk(lookup, idom, blocks, n)
    requires Block(blocks[n]) in lookup && ParentOf(idom, blocks, n) in lookup
    modifies lookup.Values
    ensures TreeOk(lookup, idom, blocks, n + 1)
  {
    var node, above := lookup[Block(blocks[n])], lookup[ParentOf(idom, blocks, n)];
    assert NodeOk(lookup, idom, blocks, n, Block(blocks[n])) &&
        NodeOk(lookup, idom, blocks, n, ParentOf(idom, blocks, n));
    label before:
    node.parent := above;
    above.children := above.children + [node];
    forall k | 0 <= k < n + 1
      ensures ParentOk(lookup, idom, blocks, k)
    {
      assert k < n ==> old@before(ParentOk(lookup, idom, blocks, k));
      assert k < n ==> old@before(NodeOk(lookup, idom, blocks, n, Block(blocks[k])));
    }
    forall r | r in lookup
      ensures NodeOk(lookup, idom, blocks, n + 1, r)
    {
      assert old@before(NodeOk(lookup, idom, blocks, n, r));
    }
  }

  /** One round of the construction: both nodes exist and are linked. */
  method AddBlock(lookup: Lookup, idom: map<nat, nat>, blocks: seq<nat>, n: nat) returns (more: Lookup)
    requires n < |blocks| && Distinct(blocks) && TreeOk(lookup, idom, blocks, n)
    modifies lookup.Values
    ensures TreeOk(more, idom, blocks, n + 1)
    ensures forall x :: x in lookup ==> x in more && more[x] == lookup[x]
    ensures more.Keys == lookup.Keys + {Block(blocks[n]), ParentOf(idom, blocks, n)}
    ensures fresh(more.Values - lookup.Values)
  {
    more := FindBoth(lookup, idom, blocks, n);
    Link(more, idom, blocks, n);
  }

  /** The nodes of the n-th block and of its parent. */
  method FindBoth(lookup: Lookup, idom: map<nat, nat>, blocks: seq<nat>, n: nat) returns (more: Lookup)
    requires n < |blocks| && TreeOk(lookup, idom, blocks, n)
    ensures TreeOk(more, idom, blocks, n)
    ensures forall x :: x in lookup ==> x in more && more[x] == lookup[x]
    ensures more.Keys == lookup.Keys + {Block(blocks[n]), ParentOf(idom, blocks, n)}
    ensures fresh(more.Values - lookup.Values)
  {
    var one := FindOrCreate(lookup, idom, blocks, n, Block(blocks[n]));
    more := FindOrCreate(one, idom, blocks, n, ParentOf(idom, blocks, n));
    assert more.Keys == lookup.Keys + {Block(blocks[n])} + {ParentOf(idom, blocks, n)};
  }

  /** The nodes of the listed blocks, in order. */
  ghost predicate NodesOf(nodes: seq<DomTreeNode>, lookup: Lookup, blocks: seq<nat>, n: nat)
    requires n <= |blocks|
  {
    |nodes| == n && forall k :: 0 <= k < n ==> Block(blocks[k]) in lookup && nodes[k] == lookup[Block(blocks[k])]
  }

  method BuildNodes(idom: map<nat, nat>, blocks: seq<nat>) returns (nodes: seq<DomTreeNode>, table: Lookup)
    requires Distinct(blocks)
    ensures TreeOk(table, idom, blocks, |blocks|)
    ensures table.Keys == Mentioned(idom, blocks, |blocks|)
    ensures NodesOf(nodes, table, blocks, |blocks|)
    ensures fresh(table.Values)
  {
    table := map[];
    nodes := [];
    for i := 0 to |blocks|
      invariant TreeOk(table, idom, blocks, i)
      invariant table.Keys == Mentioned(idom, blocks, i)
      invariant fresh(table.Values)
      invariant NodesOf(nodes, table, blocks, i)
    {
      table := AddBlock(table, idom, blocks, i);
      assert Block(blocks[i]) in table;
      nodes := nodes + [table[Block(blocks[i])]];
    }
  }

  /** The tree of the loop whose blocks are listed header first. */
  method GetDominanceTree(idom: map<nat, nat>, blocks: seq<nat>) returns (tree: DomTree, ghost lookup: Lookup)
    requires blocks != [] && Distinct(blocks)
    ensures TreeOk(lookup, idom, blocks, |blocks|)
    ensures lookup.Keys == Mentioned(idom, blocks, |blocks|)
    ensures Block(blocks[0]) in lookup && tree.root == lookup[Block(blocks[0])]
    ensures NodesOf(tree.nodes, lookup, blocks, |blocks|)
    ensures fresh(tree) && fresh(lookup.Values)
  {
    var nodes, table := BuildNodes(idom, blocks);
    assert Block(blocks[0]) in table && nodes[0] == table[Block(blocks[0])];
    tree := new DomTree(nodes, nodes[0]);
    lookup := table;
  }
}
