/** The singly linked list of cells that the solver uses as its open list and to return its answer. */
module CellList {
  import opened Grids
  import opened MazeCells
  import opened ShortestPaths

  class ListNode {
    const cell: Cell
    var next: ListNode?

    constructor (cell: Cell)
      ensures this.cell == cell && next == null
    {
      this.cell, next := cell, null;
    }
  }

  ghost function Cut<T>(s: seq<T>, i: nat): (r: seq<T>)
    requires i < |s|
    ensures |r| == |s| - 1
    ensures forall j :: 0 <= j < |r| ==> r[j] == s[if j < i then j else j + 1]
  {
    s[..i] + s[i + 1..]
  }

  /** `cell` is one of the cells, none is nearer, and those before its first place are farther. */
  ghost predicate FirstLeast(cells: seq<Cell>, cell: Cell)
    reads cells
  {
    exists k :: 0 <= k < |cells| && cells[k] == cell && LeastAt(cells, k, |cells|)
  }

  /** Among the first n cells the one at k is the first of the nearest. */
  ghost predicate LeastAt(cells: seq<Cell>, k: int, n: int)
    requires 0 <= k < n <= |cells|
    reads cells
  {
    && (forall j :: 0 <= j < k ==> cells[j].dist > cells[k].dist)
    && (forall j :: 0 <= j < n ==> cells[j].dist >= cells[k].dist)
  }

  lemma {:induction false} CutNodeAt(nodes: seq<ListNode>, i: nat)
    requires i < |nodes|
    ensures forall j :: ElementOr(Cut(nodes, i), j, null) == ElementOr(nodes, if j < i then j else j + 1, null)
  {}

  lemma {:induction false} LeastNext(cells: seq<Cell>, k: nat, i: nat)
    requires k < |cells| && i < |cells| && if i == 0 then k == 0 else k < i && LeastAt(cells, k, i)
    ensures LeastAt(cells, if cells[i].dist < cells[k].dist then i else k, i + 1)
  {}

  class LinkedList {
    var head: ListNode?
    var last: ListNode?
    var size: nat
    ghost var nodes: seq<ListNode>
    ghost var Contents: seq<Cell>
    ghost var Repr: set<ListNode>

    /** The chain from head is well formed. Nothing is said about `last`. */
    ghost predicate Valid()
      reads this, Repr
    {
      && size == |nodes| == |Contents|
      && (forall i :: 0 <= i < |nodes| ==> nodes[i] in Repr)
      && head == ElementOr(nodes, 0, null)
      && (forall i :: 0 <= i < |nodes| ==> nodes[i].cell == Contents[i])
      && (forall i :: 0 <= i < |nodes| ==> nodes[i].next == ElementOr(nodes, i + 1, null))
    }

    /** The chain ends, so no node comes up twice. */
    lemma {:induction false} NodesDiffer(i: nat, j: nat)
      requires Valid() && i < j < size
      ensures nodes[i] != nodes[j]
      decreases size - j
    {
      assert nodes[i].next == ElementOr(nodes, i + 1, null) && nodes[j].next == ElementOr(nodes, j + 1, null);
      if j + 1 < size { NodesDiffer(i + 1, j + 1); }
    }

    /** `last` is the end of the chain, as Push needs it to be (it does not look at `last` when the list is empty). */
    ghost predicate LastCurrent()
      requires Valid()
      reads this, Repr
    {
      size > 0 ==> last == ElementOr(nodes, size - 1, null)
    }

    constructor ()
      ensures Valid() && LastCurrent() && Contents == [] && Repr == {}
    {
      head, last, size := null, null, 0;
      nodes, Contents, Repr := [], [], {};
    }

    method First() returns (cell: Cell?)
      requires Valid()
      ensures cell == if Contents == [] then null else Contents[0]
    {
      if size == 0 { return null; }
      cell := head.cell;
    }

    method Push(cell: Cell)
      requires Valid() && LastCurrent()
      modifies this, Repr
      ensures Valid() && LastCurrent() && Contents == old(Contents) + [cell]
      ensures fresh(Repr - old(Repr))
    {
      var node := new ListNode(cell);
      if size == 0 {
        head := node;
        last := node;
      } else {
        last.next := node;
        last := node;
      }
      size := size + 1;
      nodes, Contents, Repr := nodes + [node], Contents + [cell], Repr + {node};
    }

    /** The first of the cells with the least dist; null for the empty list. */
    method GetMinimumDistance() returns (cell: Cell?)
      requires Valid()
      ensures size == 0 ==> cell == null
      ensures size > 0 ==> cell != null && FirstLeast(Contents, cell)
    {
      hide LeastAt;
      if size == 0 { return null; }
      var current := head;
      cell := current.cell;
      var least := cell.dist;
      ghost var i, k := 0, 0;
      while current != null
        invariant 0 <= i <= size && current == ElementOr(nodes, i, null)
        invariant 0 <= k < size && (k < i || k == i == 0) && cell == Contents[k] && least == cell.dist
        invariant i > 0 ==> LeastAt(Contents, k, i)
        decreases size - i
      {
        LeastNext(Contents, k, i);
        if current.cell.dist < least {
          cell := current.cell;
          least := cell.dist;
          k := i;
        }
        current := current.next;
        i := i + 1;
      }
    }

    method Contains(cell: Cell) returns (b: bool)
      requires Valid()
      ensures b <==> cell in Contents
    {
      var current := head;
      ghost var i := 0;
      while current != null
        invariant 0 <= i <= size && current == ElementOr(nodes, i, null)
        invariant cell !in Contents[..i]
        decreases size - i
      {
        if current.cell == cell { return true; }
        current := current.next;
        i := i + 1;
      }
      return false;
    }

    lemma NodeIsOnce(i: nat)
      requires Valid() && i < size
      ensures forall j :: 0 <= j < size && j != i ==> nodes[j] != nodes[i]
    {
      forall j | 0 <= j < size && j != i ensures nodes[j] != nodes[i] {
        if j < i { NodesDiffer(j, i); } else { NodesDiffer(i, j); }
      }
    }

    /** Takes the node `current` at index i out of the chain. */
    method Unlink(previous: ListNode?, current: ListNode, ghost i: nat)
      requires Valid() && i < size && current == ElementOr(nodes, i, null) && previous == ElementOr(nodes, i - 1, null)
      modifies this, Repr
      ensures Valid() && last == old(last) && Repr == old(Repr)
      ensures Contents == Cut(old(Contents), i)
      ensures nodes == Cut(old(nodes), i)
    {
      if i > 0 { NodeIsOnce(i - 1); }
      ghost var before, left := nodes, Cut(nodes, i);
      if previous == null {
        head := current.next;
      } else {
        previous.next := current.next;
      }
      size := size - 1;
      nodes, Contents := left, Cut(Contents, i);
      CutNodeAt(before, i);
      forall j | 0 <= j < |left| ensures left[j].next == ElementOr(left, j + 1, null) {
        assert left[j] == ElementOr(left, j, null);
      }
    }

    /** The end of the chain stays the end, unless it is what is cut out. */
    lemma EndAfterCut(i: nat)
      requires Valid() && i < size
      ensures ElementOr(Cut(nodes, i), size - 2, null) ==
              ElementOr(nodes, if i == size - 1 then size - 2 else size - 1, null)
      ensures size > 1 ==> ElementOr(nodes, size - 2, null) != ElementOr(nodes, size - 1, null)
    {
      CutNodeAt(nodes, i);
      if size > 1 { NodesDiffer(size - 2, size - 1); }
    }

    /** Removing the cell takes the end of the chain away, and leaves some of it. */
    ghost predicate TakesEnd(cell: Cell)
      reads this
    {
      size == |Contents| > 1 && Contents[size - 1] == cell && cell !in Contents[..size - 1]
    }

    lemma TakesEndAt(cell: Cell, i: nat)
      requires Valid() && i < size && Contents[i] == cell && cell !in Contents[..i]
      ensures TakesEnd(cell) <==> size > 1 && i == size - 1
    {
      if i < size - 1 { assert Contents[..size - 1][i] == cell; }
    }

    /** The first node that holds the cell, and the node before it; null when there is none. */
    method Find(cell: Cell) returns (previous: ListNode?, current: ListNode?, ghost i: nat)
      requires Valid()
      ensures i <= size && current == ElementOr(nodes, i, null) && previous == ElementOr(nodes, i - 1, null)
      ensures cell !in Contents[..i]
      ensures if i < size then current != null && Contents[i] == cell else current == null && cell !in Contents
    {
      previous, current, i := null, head, 0;
      while current != null
        invariant 0 <= i <= size && current == ElementOr(nodes, i, null) && previous == ElementOr(nodes, i - 1, null)
        invariant cell !in Contents[..i]
        decreases size - i
      {
        if current.cell == cell { return; }
        previous := current;
        current := current.next;
        i := i + 1;
      }
    }

    /** Unlinking leaves `last` alone, so it stays current unless it was the end of several. */
    method UnlinkAt(previous: ListNode?, current: ListNode, ghost i: nat)
      requires Valid() && i < size && current == ElementOr(nodes, i, null) && previous == ElementOr(nodes, i - 1, null)
      modifies this, Repr
      ensures Valid() && last == old(last) && Repr == old(Repr)
      ensures Contents == Cut(old(Contents), i)
      ensures old(LastCurrent()) ==> (LastCurrent() <==> !(old(size) > 1 && i == old(size) - 1))
    {
      EndAfterCut(i);
      hide Cut;
      Unlink(previous, current, i);
    }

    /** Unlinks the first node that holds the cell, if there is one. `last` goes stale exactly if that takes the end. */
    method Remove(cell: Cell)
      requires Valid()
      modifies this, Repr
      ensures Valid() && Contents == Without(old(Contents), cell)
      ensures last == old(last) && Repr == old(Repr)
      ensures old(LastCurrent()) ==> (LastCurrent() <==> !old(TakesEnd(cell)))
    {
      hide Without, LastCurrent, TakesEnd;
      var previous, current;
      ghost var i;
      previous, current, i := Find(cell);
      if current == null {
        WithoutAbsent(Contents, cell);
        AbsentTakesNoEnd(cell);
      } else {
        WithoutIsCut(Contents, i);
        TakesEndAt(cell, i);
        UnlinkAt(previous, current, i);
      }
    }

    lemma AbsentTakesNoEnd(cell: Cell)
      requires cell !in Contents
      ensures !TakesEnd(cell)
    {}
  }

  /** So `last` can go stale: by removing the last of two cells. */
  method RemoveLastOfTwo(a: Cell, b: Cell) returns (list: LinkedList)
    requires a != b
    ensures fresh(list) && list.Valid() && list.Contents == [a] && !list.LastCurrent()
  {
    list := new LinkedList();
    list.Push(a);
    list.Push(b);
    assert list.Contents == [a, b] && list.Contents[..1] == [a];
    list.Remove(b);
  }
}
