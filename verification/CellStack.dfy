/** The generator's stack: linked nodes, newest on top. */
module CellStack {
  import opened Grids
  import opened MazeCells

  class StackNode {
    const cell: Cell
    const next: StackNode?

    constructor (cell: Cell, next: StackNode?)
      ensures this.cell == cell && this.next == next
    {
      this.cell, this.next := cell, next;
    }
  }

  class Stack {
    var top: StackNode?
    var size: nat
    ghost var Contents: seq<Cell>     // the cells on the stack, bottom first
    ghost var nodes: seq<StackNode>   // the nodes that hold them

    ghost predicate Valid()
      reads this
    {
      && size == |nodes| == |Contents|
      && top == ElementOr(nodes, |nodes| - 1, null)
      && (forall i :: 0 <= i < |nodes| ==> nodes[i].cell == Contents[i])
      && (forall i :: 0 <= i < |nodes| ==> nodes[i].next == ElementOr(nodes, i - 1, null))
    }

    constructor ()
      ensures Valid() && Contents == []
    {
      top, size, nodes, Contents := null, 0, [], [];
    }

    method Push(cell: Cell)
      requires Valid()
      modifies this
      ensures Valid() && Contents == old(Contents) + [cell]
    {
      var node := new StackNode(cell, top);
      ghost var below := nodes;
      top, size := node, size + 1;
      nodes, Contents := below + [node], Contents + [cell];
      assert nodes[..|below|] == below;
      assert forall i :: i < |below| ==> ElementOr(nodes, i, null) == ElementOr(below, i, null);
    }

    method Pop() returns (cell: Cell?)
      requires Valid()
      modifies this
      ensures Valid()
      ensures old(Contents) == [] ==> cell == null && Contents == []
      ensures old(Contents) != [] ==> cell != null && old(Contents) == Contents + [cell]
    {
      if size == 0 { return null; }
      cell := top.cell;
      top := top.next;
      size := size - 1;
      nodes, Contents := nodes[..|nodes| - 1], Contents[..|Contents| - 1];
    }
  }
}
