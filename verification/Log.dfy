/** Logs of events or steps: everything but the latest entry, and the latest entry. */
module Logs {
  function Earlier<T>(log: seq<T>): seq<T>
    requires log != []
  {
    log[..|log| - 1]
  }

  function Latest<T>(log: seq<T>): T
    requires log != []
  {
    log[|log| - 1]
  }
}
