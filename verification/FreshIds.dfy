/** Identifiers a server hands out: never empty, never one in use. */
module FreshIds {
  method FreshId(taken: set<string>) returns (id: string)
    ensures id != "" && id !in taken
  {
    id := "p";
    var left := taken;
    while id in left
      invariant id != "" && left <= taken
      invariant forall t :: t in taken && t !in left ==> |t| < |id|
      decreases left
    {
      left := left - {id};
      id := id + "p";
    }
  }
}
