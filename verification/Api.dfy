/** The API server and the pods behind it, as a controller meets them: calls that may fail. */
module Api {
  import opened Cluster

  /** `budget` is the number of calls that still succeed; the first call beyond it fails, and so
      does every later one. A failing call that did take effect looks, to the state, like a
      successful one after which the next call failed. */
  class ApiServer {
    var state: State
    var budget: nat

    constructor (state: State, budget: nat)
      ensures this.state == state && this.budget == budget
    {
      this.state, this.budget := state, budget;
    }

    /** A call without effect on the modelled state: a read, or a remote command. */
    method Call() returns (ok: bool)
      modifies this`budget
      ensures ok <==> old(budget) > 0
      ensures budget == if ok then old(budget) - 1 else 0
    {
      ok := budget > 0;
      budget := if ok then budget - 1 else 0;
    }

    method Write(w: Write) returns (ok: bool)
      modifies this
      ensures ok <==> old(budget) > 0
      ensures budget == if ok then old(budget) - 1 else 0
      ensures state == if ok then Perform(old(state), w) else old(state)
    {
      ok := Call();
      if ok {
        state := Perform(state, w);
      }
    }
  }
}
