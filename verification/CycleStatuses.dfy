/** How far a depth-first check for cycles has come with a preset or a variable. */
module CycleStatuses {
  datatype CycleStatus = Unvisited | InProgress | Verified
}
