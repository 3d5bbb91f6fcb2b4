/** The selection rule of `MyEntry` in src/App.tsx: one shared optional
    node id, set by a click on a leaf row and shown as a marker. */
module Selection {
  import opened Model

  /** What `MyEntry` renders for a node: the `[-]`/`[+]` toggle of a
      directory, the node's text, the selection marker, and whether a click
      on the row selects the node. */
  datatype Row = Row(toggle: Option<string>, text: string, marker: string, selectsOnClick: bool)

  /** The shared `selected` state that the context hands to every row. */
  class SelectionState {
    var selected: Option<string>

    constructor ()
      ensures selected == None
    {
      selected := None;
    }

    /** The row for `node`: the marker is shown iff `selected === node.id`,
        the row's click handler exists iff the node is not droppable, and
        only droppable nodes get the expansion toggle. */
    function Render(node: Node, isOpen: bool): (r: Row)
      reads this
      ensures r.marker != "" <==> selected == Some(node.id)
      ensures r.selectsOnClick <==> !node.droppable
      ensures r.toggle.Some? <==> node.droppable
      ensures r.toggle.Some? ==> r.toggle.value == if isOpen then "[-]" else "[+]"
      ensures r.marker != "" ==> r.marker == " ←"
      ensures r.text == node.text
    {
      Row(if node.droppable then Some(if isOpen then "[-]" else "[+]") else None,
          node.text,
          if selected == Some(node.id) then " ←" else "",
          !node.droppable)
    }

    /** A click on the row: a leaf replaces the selection with its id; a
        directory's row has no click handler. */
    method ClickRow(node: Node)
      modifies this
      ensures selected == if node.droppable then old(selected) else Some(node.id)
    {
      if !node.droppable {
        selected := Some(node.id);
      }
    }

    /** A click on a directory's `[+]`/`[-]` toggle: the widget flips the
        node's expansion, and the click then reaches the row, which has no
        handler for a directory. */
    method ClickToggle(node: Node, isOpen: bool) returns (nowOpen: bool)
      requires node.droppable
      modifies this
      ensures nowOpen == !isOpen
      ensures selected == old(selected)
    {
      nowOpen := !isOpen;
      ClickRow(node);
    }
  }

  /** Selecting one leaf and then another: only the second is marked. */
  method SelectTwoLeaves(first: Node, second: Node) returns (firstMarked: bool, secondMarked: bool)
    requires !first.droppable && !second.droppable && first.id != second.id
    ensures !firstMarked && secondMarked
  {
    var state := new SelectionState();
    state.ClickRow(first);
    state.ClickRow(second);
    firstMarked := state.Render(first, false).marker != "";
    secondMarked := state.Render(second, false).marker != "";
  }

  /** Expanding or collapsing a directory after selecting a leaf leaves the
      leaf marked and the directory unmarked. */
  method SelectThenToggle(leaf: Node, dir: Node) returns (leafMarked: bool, dirMarked: bool)
    requires !leaf.droppable && dir.droppable && leaf.id != dir.id
    ensures leafMarked && !dirMarked
  {
    var state := new SelectionState();
    state.ClickRow(leaf);
    var open := state.ClickToggle(dir, false);
    open := state.ClickToggle(dir, open);
    state.ClickRow(dir);
    leafMarked := state.Render(leaf, false).marker != "";
    dirMarked := state.Render(dir, open).marker != "";
  }
}
