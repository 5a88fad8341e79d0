/** Option and Result types, and the failures the maze program signals. */
module Wrappers {

  datatype Option<+T> = None | Some(value: T)

  /** The exceptions the program raises, one variant per distinct cause. */
  datatype Error =
    | BadStartCount   // the text does not hold exactly one `A`
    | BadGoalCount    // the text does not hold exactly one `B`
    | EmptyFrontier   // `remove` on a frontier with no nodes
    | NoSolution      // the search ran out of nodes before reaching the goal

  datatype Result<+T> = Ok(value: T) | Err(error: Error)
}
