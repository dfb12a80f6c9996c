/** Trees that share the null node do not disturb one another, and leave the null node alone. */
module RbShared {
  import opened RbShape
  import opened RbOrder
  import opened RbTrees

  ghost predicate Apart(a: RbTree, b: RbTree)
    reads a, b
  {
    a != b && a.nil == b.nil && a.cells.Keys !! b.cells.Keys
  }

  method InsertBeside(a: RbTree, b: RbTree, data: Node) returns (result: Node?)
    requires a.Valid() && b.Valid() && Apart(a, b)
    requires data != a.nil && data !in b.cells
    modifies a, a.cells.Keys, data
    ensures a.Valid() && b.Valid() && Apart(a, b)
    ensures b.tree == old(b.tree) && unchanged(b) && unchanged(a.nil)
    ensures forall w :: w in b.cells ==> unchanged(w)
    ensures result != null <==> data.key !in Keys(old(InOrder(a.tree)))
  {
    ghost var pos;
    result, pos := a.Insert(data);
  }

  method DeleteBeside(a: RbTree, b: RbTree, node: Node)
    requires a.Valid() && b.Valid() && Apart(a, b) && node in a.cells
    modifies a, a.cells.Keys
    ensures a.Valid() && b.Valid() && Apart(a, b)
    ensures b.tree == old(b.tree) && unchanged(b) && unchanged(a.nil)
    ensures forall w :: w in b.cells ==> unchanged(w)
    ensures node !in InOrder(a.tree)
  {
    ghost var pos;
    var removed;
    removed, pos := a.DeleteNode(node);
    a.InOrderInCells();
  }
}
