/** Cells, moves and search-tree nodes. */
module Nodes {
  import opened Wrappers

  /** A grid position (row, column); candidate moves may leave the grid, so both are `int`. */
  type Cell = (int, int)

  /** The four move labels, in the order the program tries them. */
  datatype Action = Up | Down | Left | Right

  /**
   * A search-tree node. The program links a node to its parent by reference; here the
   * parent is an index into the arena of expanded nodes (see module Search). The root
   * has neither parent nor action.
   */
  datatype Node = Node(state: Cell, parent: Option<nat>, action: Option<Action>)
}
