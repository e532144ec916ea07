/** The node storage of the tree parser: child arrays cut from a pool or from pages. Nodes are named
    by addresses in one flat space in which every page that malloc returns is new. */
module NodePages {
  import opened Errors

  /** MPACK_NODES_PER_PAGE for the 4096-byte page, an 8-byte page header and 16-byte nodes. */
  const NODES_PER_PAGE := 255

  /** `size` consecutive nodes. */
  datatype Block = Block(base: nat, size: nat)

  predicate Covers(b: Block, a: nat) { b.base <= a < b.base + b.size }

  ghost function Slots(b: Block): set<nat> {
    set a: nat | a < b.base + b.size && Covers(b, a)
  }

  predicate Inside(inner: Block, outer: Block) {
    outer.base <= inner.base && inner.base + inner.size <= outer.base + outer.size
  }

  lemma SlotCount(b: Block)
    ensures |Slots(b)| == b.size
    decreases b.size
  {
    if b.size > 0 {
      var last := b.base + b.size - 1;
      SlotCount(Block(b.base, b.size - 1));
      assert Slots(b) == Slots(Block(b.base, b.size - 1)) + {last};
    }
  }

  /** The slots of all blocks. */
  function Total(blocks: seq<Block>): nat {
    if blocks == [] then 0 else Total(blocks[..|blocks| - 1]) + blocks[|blocks| - 1].size
  }

  lemma TotalMore(blocks: seq<Block>, b: Block)
    ensures Total(blocks + [b]) == Total(blocks) + b.size
  {
    assert (blocks + [b])[..|blocks|] == blocks;
  }

  class NodeArena {
    /** There is a page to start with, so that more pages may follow; false for a fixed pool. */
    const paged: bool
    /** Nodes in the first page or in the pool. */
    const size: nat
    /** The first address that no page has. */
    var top: nat
    /** The rest of the current page or pool. */
    var nodes: nat
    var nodesLeft: nat
    /** The addresses handed out, the child arrays they were handed out in, the pages, for each
        child array the page it is in, and the page that nodes are cut from now. */
    ghost var handed: set<nat>
    ghost var arrays: seq<Block>
    ghost var pages: seq<Block>
    ghost var home: seq<nat>
    ghost var here: nat
    /** What was left of the shared pages when they were abandoned, and the pages it was left in. */
    ghost var lost: seq<Block>
    ghost var abandoned: seq<nat>

    /** What the parser relies on. */
    ghost predicate Valid()
      reads this
    {
      && nodes + nodesLeft <= top
      && forall a | a in handed :: a < top && !(nodes <= a < nodes + nodesLeft)
    }

    /** Child arrays are disjoint and each is inside one page; pages are disjoint. */
    ghost predicate Tidy()
      reads this
    {
      && |home| == |arrays|
      && (forall i, j | 0 <= i < j < |arrays| :: Slots(arrays[i]) !! Slots(arrays[j]))
      && (forall i | 0 <= i < |arrays| :: Slots(arrays[i]) <= handed)
      && (forall i | 0 <= i < |arrays| :: home[i] < |pages| && Inside(arrays[i], pages[home[i]]))
      && (forall i, j | 0 <= i < j < |pages| :: pages[i].base + pages[i].size <= pages[j].base)
      && (forall i | 0 <= i < |pages| :: pages[i].base + pages[i].size <= top)
      && here < |pages| && Inside(Block(nodes, nodesLeft), pages[here])
    }

    /** What is lost was never handed out. It is in shared pages abandoned one after the other, at most
        an eighth of each. */
    ghost predicate Left()
      reads this
    {
      && |abandoned| == |lost|
      && (forall i | 0 <= i < |lost| :: abandoned[i] < here && abandoned[i] < |pages|)
      && (forall i, j | 0 <= i < j < |lost| :: abandoned[i] < abandoned[j])
      && (forall i | 0 <= i < |lost| :: pages[abandoned[i]].size == NODES_PER_PAGE)
      && (forall i | 0 <= i < |lost| :: Inside(lost[i], pages[abandoned[i]]) && lost[i].size <= NODES_PER_PAGE / 8)
      && (forall i | 0 <= i < |lost| :: Slots(lost[i]) !! handed)
    }

    /** Every slot of every page is handed out, lost or still free, and of the slots of the abandoned
        pages at most one in eight is lost. */
    ghost predicate Thrifty()
      reads this
    {
      && Left()
      && Total(pages) == |handed| + Total(lost) + nodesLeft
      && 8 * Total(lost) <= NODES_PER_PAGE * |lost|
      && (paged ==> nodesLeft <= NODES_PER_PAGE && here < |pages| && pages[here].size == NODES_PER_PAGE)
      && (!paged ==> pages == [Block(0, size)] && lost == [] && |handed| + nodesLeft == size)
    }

    /** The storage at the start of a parse: a first page, or the pool of the caller, with its first
        node given to the root. */
    constructor (paged: bool, count: nat)
      requires count > 0 && (paged ==> count == NODES_PER_PAGE)
      ensures Valid() && Tidy() && Thrifty() && this.paged == paged && this.size == count
      ensures handed == {0} && nodes == 1 && nodesLeft == count - 1
      ensures arrays == [Block(0, 1)] && pages == [Block(0, count)] && lost == []
    {
      this.paged, size := paged, count;
      top, nodes, nodesLeft := count, 1, count - 1;
      handed, arrays, pages, home, here := {0}, [Block(0, 1)], [Block(0, count)], [0], 0;
      lost, abandoned := [], [];
      new;
      TotalMore([], Block(0, count));
      assert [] + [Block(0, count)] == pages;
    }

    /** A block in a page that has not been abandoned has no lost slot. */
    lemma NothingLost(b: Block, page: nat)
      requires Tidy() && Left() && here <= page < |pages| && Inside(b, pages[page])
      ensures forall i | 0 <= i < |lost| :: Slots(lost[i]) !! Slots(b)
    {
      forall i | 0 <= i < |lost| ensures Slots(lost[i]) !! Slots(b) {
        assert pages[abandoned[i]].base + pages[abandoned[i]].size <= pages[page].base;
      }
    }

    /** Notes that the nodes of `b` now belong to a parent. */
    ghost method HandOut(b: Block, page: nat)
      requires Tidy() && Left() && here <= page < |pages| && Inside(b, pages[page]) && Slots(b) !! handed
      modifies this`handed, this`arrays, this`home
      ensures Tidy() && Left() && handed == old(handed) + Slots(b) && |handed| == |old(handed)| + b.size
      ensures arrays == old(arrays) + [b]
    {
      SlotCount(b);
      NothingLost(b, page);
      hide Slots;
      handed, arrays, home := handed + Slots(b), arrays + [b], home + [page];
    }

    /** What every successful allocation does. */
    twostate predicate Gave(base: nat, total: nat)
      reads this
    {
      && Valid() && Tidy() && Thrifty()
      && Slots(Block(base, total)) !! old(handed) && handed == old(handed) + Slots(Block(base, total))
      && arrays == old(arrays) + [Block(base, total)] && old(pages) <= pages && old(lost) <= lost
    }

    method TakeHere(total: nat) returns (base: nat)
      requires Valid() && Tidy() && Thrifty() && total <= nodesLeft
      modifies this
      ensures Gave(base, total) && base == old(nodes) && pages == old(pages) && lost == old(lost)
    {
      hide Total;
      base := nodes;
      HandOut(Block(base, total), here);
      nodes, nodesLeft := nodes + total, nodesLeft - total;
    }

    /** One more page at the top, of `count` nodes. */
    method AddPage(count: nat) returns (base: nat)
      requires Valid() && Tidy() && Thrifty() && paged
      modifies this`top, this`pages
      ensures Valid() && Tidy() && Left() && base == old(top)
      ensures top == base + count && pages == old(pages) + [Block(base, count)]
      ensures Total(pages) == Total(old(pages)) + count
    {
      TotalMore(pages, Block(top, count));
      hide Total, Slots;
      base := top;
      top, pages := top + count, pages + [Block(top, count)];
    }

    /** The children get a page of their own; the current page stays in use. */
    method TakeOwnPage(total: nat) returns (base: nat)
      requires Valid() && Tidy() && Thrifty() && paged
      modifies this
      ensures Gave(base, total) && pages == old(pages) + [Block(base, total)] && lost == old(lost)
    {
      hide Total;
      base := AddPage(total);
      HandOut(Block(base, total), |pages| - 1);
    }

    /** What is left of the current page is lost, and the last page is the one in use. */
    method Abandon(base: nat)
      requires Valid() && Tidy() && Left() && here + 1 < |pages| && pages[here].size == NODES_PER_PAGE
      requires pages[|pages| - 1] == Block(base, NODES_PER_PAGE)
      requires nodesLeft <= NODES_PER_PAGE / 8 && 8 * Total(lost) <= NODES_PER_PAGE * |lost|
      requires forall a | a in handed :: a < base
      modifies this`lost, this`abandoned, this`here, this`nodes, this`nodesLeft
      ensures Valid() && Tidy() && Left() && here == |pages| - 1 && nodes == base && nodesLeft == NODES_PER_PAGE
      ensures lost == old(lost) + [Block(old(nodes), old(nodesLeft))]
      ensures Total(lost) == Total(old(lost)) + old(nodesLeft) && 8 * Total(lost) <= NODES_PER_PAGE * |lost|
    {
      TotalMore(lost, Block(nodes, nodesLeft));
      hide Total;
      lost, abandoned, here := lost + [Block(nodes, nodesLeft)], abandoned + [here], |pages| - 1;
      nodes, nodesLeft := base, NODES_PER_PAGE;
    }

    /** A new shared page; what is left of the current one is lost. */
    method TakeNewPage(total: nat) returns (base: nat)
      requires Valid() && Tidy() && Thrifty() && paged && total <= NODES_PER_PAGE && nodesLeft <= NODES_PER_PAGE / 8
      modifies this
      ensures Gave(base, total) && pages == old(pages) + [Block(base, NODES_PER_PAGE)]
      ensures lost == old(lost) + [Block(old(nodes), old(nodesLeft))]
    {
      hide Total, Slots;
      base := AddPage(NODES_PER_PAGE);
      Abandon(base);
      base := TakeHere(total);
    }

    /** The allocation in mpack_tree_parse_children: `total` consecutive nodes for the children of one
        node. `mallocOk` is the result of the call to malloc, if there is one. */
    method Take(total: nat, mallocOk: bool) returns (error: Error, base: nat)
      requires Valid() && Tidy() && Thrifty()
      modifies this
      ensures Valid() && Tidy() && Thrifty()
      ensures error == NoError ==>
        Slots(Block(base, total)) !! old(handed) && handed == old(handed) + Slots(Block(base, total))
      ensures error == NoError ==> arrays == old(arrays) + [Block(base, total)]
      ensures error == NoError ==> old(pages) <= pages && old(lost) <= lost
      ensures error == NoError ==> |pages| == |old(pages)| + if total <= old(nodesLeft) then 0 else 1
      ensures error != NoError ==> handed == old(handed) && nodesLeft == old(nodesLeft) && arrays == old(arrays)
      ensures error != NoError ==> pages == old(pages) && lost == old(lost)
      ensures error == if total <= old(nodesLeft) then NoError else if !paged then TooBig
                       else if !mallocOk then Memory else NoError
    {
      base := 0;
      if total <= nodesLeft {
        base := TakeHere(total);
      } else {
        if !paged { return TooBig, 0; }
        if !mallocOk { return Memory, 0; }
        if total > NODES_PER_PAGE || nodesLeft > NODES_PER_PAGE / 8 {
          base := TakeOwnPage(total);
        } else {
          base := TakeNewPage(total);
        }
      }
      error := NoError;
    }
  }
}
