/** The router: the configured backends, the strategy, and the round-robin
    cursor, the only state that changes. Each invocation selects a backend,
    calls it, and on failure runs the failover walk. */
module Router {
  import opened RouterTypes
  import opened Selection
  import opened FailoverWalk

  class LLMRouter {
    const configs: seq<ModelConfig>
    const strategy: RoutingStrategy
    /** Next cursor value of the round-robin strategy; starts at 0. */
    var cursor: nat

    constructor (configs: seq<ModelConfig>, strategy: RoutingStrategy)
      requires |configs| >= 1
      ensures this.configs == configs && this.strategy == strategy && cursor == 0
    {
      this.configs := configs;
      this.strategy := strategy;
      cursor := 0;
    }

    /** Read the cursor, advance it by one, and pick the configuration at the
        old cursor value modulo the number of configurations. */
    method SelectRoundRobin() returns (i: nat)
      requires |configs| >= 1
      modifies this`cursor
      ensures i == RoundRobinIndex(old(cursor), |configs|) && i < |configs|
      ensures cursor == old(cursor) + 1
    {
      i := cursor % |configs|;
      cursor := cursor + 1;
    }

    /** Walk the configurations accumulating weights; pick the first whose
        running total exceeds the draw, or the first configuration when
        none does. */
    method SelectWeighted(draw: int) returns (i: nat)
      requires |configs| >= 1
      ensures i < |configs| && i == WeightedChoice(configs, draw)
    {
      var cumulative := 0;
      var k := 0;
      while k < |configs|
        invariant k <= |configs|
        invariant cumulative == PrefixWeight(configs, k)
        invariant WeightedChoice(configs, draw) == FirstAbove(configs, draw, k)
      {
        cumulative := cumulative + configs[k].weight;
        if draw < cumulative {
          return k;
        }
        k := k + 1;
      }
      return 0;
    }

    /** k successive round-robin selections, as k invocations in a row make
        them: the picks are the round-robin trace from the current cursor. */
    method SelectRoundRobinRepeatedly(k: nat) returns (picks: seq<nat>)
      requires |configs| >= 1
      modifies this`cursor
      ensures picks == RoundRobinTrace(old(cursor), k, |configs|)
      ensures cursor == old(cursor) + k
    {
      picks := [];
      var j := 0;
      while j < k
        invariant j <= k
        invariant cursor == old(cursor) + j
        invariant picks == RoundRobinTrace(old(cursor), j, |configs|)
      {
        var i := SelectRoundRobin();
        RoundRobinTraceSplit(old(cursor), j, 1, |configs|);
        picks := picks + [i];
        j := j + 1;
      }
    }

    /** The failover strategy always picks the primary, the first
        configuration. */
    function SelectFailover(): (i: nat)
      requires |configs| >= 1
      ensures i == 0 && i < |configs|
    {
      0
    }

    /** Select a configuration by the router's strategy. Only round robin
        changes the cursor; `draw` is the random draw of weighted selection,
        a value `(int)(Math.random() * W)` can take for the total weight W. */
    method SelectModel(draw: int) returns (i: nat)
      requires |configs| >= 1
      requires strategy == Weighted ==> IsDraw(draw, TotalWeight(configs))
      modifies this`cursor
      ensures i < |configs|
      ensures strategy == RoundRobin ==>
                i == RoundRobinIndex(old(cursor), |configs|) && cursor == old(cursor) + 1
      ensures strategy == Weighted ==> i == WeightedChoice(configs, draw) && cursor == old(cursor)
      ensures strategy == Failover ==> i == 0 && cursor == old(cursor)
    {
      match strategy
      case RoundRobin => i := SelectRoundRobin();
      case Weighted => i := SelectWeighted(draw);
      case Failover => i := SelectFailover();
    }

    /** After the client `failed` threw: call every configuration whose client
        is not that very object, in configured order, and return the first
        text produced; when every one of them throws, fail with the
        all-models-failed error. `calls` lists the positions called. */
    method FailoverInvoke(failed: ModelId, outcomes: seq<Option<string>>)
      returns (res: Result<string>, calls: seq<nat>)
      requires |outcomes| == |configs|
      ensures (res, calls) == Walk(configs, failed, outcomes, 0)
    {
      calls := [];
      var k := 0;
      while k < |configs|
        invariant k <= |configs|
        invariant Walk(configs, failed, outcomes, 0).0 == Walk(configs, failed, outcomes, k).0
        invariant Walk(configs, failed, outcomes, 0).1 == calls + Walk(configs, failed, outcomes, k).1
      {
        if configs[k].model != failed {
          assert calls + ([k] + Walk(configs, failed, outcomes, k + 1).1)
              == (calls + [k]) + Walk(configs, failed, outcomes, k + 1).1;
          calls := calls + [k];
          match outcomes[k]
          case Some(text) =>
            return Ok(text), calls;
          case None =>
        }
        k := k + 1;
      }
      assert Walk(configs, failed, outcomes, k) == (Err(AllModelsFailed), []);
      assert calls + [] == calls;
      return Err(AllModelsFailed), calls;
    }

    /** One synchronous invocation: select, call the selected backend, and on
        failure run the failover walk skipping the selected client.
        `outcomes[j]` is what the client at position j gives for this prompt. */
    method Invoke(draw: int, outcomes: seq<Option<string>>) returns (res: Result<string>, calls: seq<nat>)
      requires |configs| >= 1 && |outcomes| == |configs|
      requires strategy == Weighted ==> IsDraw(draw, TotalWeight(configs))
      modifies this`cursor
      ensures |calls| >= 1 && calls[0] < |configs|
      ensures (res, calls) == Dispatch(configs, calls[0], outcomes)
      ensures strategy == RoundRobin ==>
                calls[0] == RoundRobinIndex(old(cursor), |configs|) && cursor == old(cursor) + 1
      ensures strategy == Weighted ==> calls[0] == WeightedChoice(configs, draw) && cursor == old(cursor)
      ensures strategy == Failover ==> calls[0] == 0 && cursor == old(cursor)
    {
      var i := SelectModel(draw);
      match outcomes[i]
      case Some(text) =>
        res, calls := Ok(text), [i];
      case None =>
        var walked;
        res, walked := FailoverInvoke(configs[i].model, outcomes);
        calls := [i] + walked;
    }
  }
}
