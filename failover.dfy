/** The failover walk and the dispatch of one invocation, as functions of the
    configuration list and of the outcomes the backends give for this
    invocation, with the facts the router's promise rests on. The outcome of
    the client at position j is `outcomes[j]`: `Some(text)` when its
    `generate` returns text, `None` when it throws. */
module FailoverWalk {
  import opened RouterTypes

  /** The failover walk from position k: skip every position whose client is
      the failed one, call the others in order, stop at the first success.
      Gives the result and the positions called, in call order. */
  function Walk(cs: seq<ModelConfig>, failed: ModelId, outcomes: seq<Option<string>>, k: nat)
    : (Result<string>, seq<nat>)
    requires |outcomes| == |cs| && k <= |cs|
    decreases |cs| - k
  {
    if k == |cs| then (Err(AllModelsFailed), [])
    else if cs[k].model == failed then Walk(cs, failed, outcomes, k + 1)
    else match outcomes[k]
      case Some(text) => (Ok(text), [k])
      case None =>
        var rest := Walk(cs, failed, outcomes, k + 1);
        (rest.0, [k] + rest.1)
  }

  /** The positions from k on whose client is not the failed one, in order:
      the positions the walk may call. */
  function Candidates(cs: seq<ModelConfig>, failed: ModelId, k: nat): seq<nat>
    requires k <= |cs|
    decreases |cs| - k
  {
    if k == |cs| then []
    else if cs[k].model == failed then Candidates(cs, failed, k + 1)
    else [k] + Candidates(cs, failed, k + 1)
  }

  /** A candidate of the walk from k is a position in [k, n) holding a client
      other than the failed one, and the candidates are in strictly
      increasing (configured) order. */
  lemma {:induction false} CandidatesAre(cs: seq<ModelConfig>, failed: ModelId, k: nat)
    requires k <= |cs|
    ensures forall c :: c in Candidates(cs, failed, k) <==> k <= c < |cs| && cs[c].model != failed
    ensures forall a, b :: 0 <= a < b < |Candidates(cs, failed, k)| ==>
              Candidates(cs, failed, k)[a] < Candidates(cs, failed, k)[b]
    decreases |cs| - k
  {
    if k < |cs| {
      CandidatesAre(cs, failed, k + 1);
      var rest := Candidates(cs, failed, k + 1);
      if cs[k].model != failed {
        var all := [k] + rest;
        forall a, b | 0 <= a < b < |all|
          ensures all[a] < all[b]
        {
          assert all[b] == rest[b - 1] && rest[b - 1] in rest;
          if a > 0 {
            assert all[a] == rest[a - 1];
          }
        }
      }
    }
  }

  /** The walk calls a prefix of the candidates: never a position holding the
      failed client, and the others in configured order. */
  lemma {:induction false} WalkCallsCandidatePrefix(cs: seq<ModelConfig>, failed: ModelId,
                                                    outcomes: seq<Option<string>>, k: nat)
    requires |outcomes| == |cs| && k <= |cs|
    ensures Walk(cs, failed, outcomes, k).1 <= Candidates(cs, failed, k)
    decreases |cs| - k
  {
    if k < |cs| {
      WalkCallsCandidatePrefix(cs, failed, outcomes, k + 1);
    }
  }

  /** The walk never calls a client identical to the failed one, calls the
      others in configured order, and calls each position at most once. */
  lemma WalkSkipsFailedInOrder(cs: seq<ModelConfig>, failed: ModelId, outcomes: seq<Option<string>>)
    requires |outcomes| == |cs|
    ensures var calls := Walk(cs, failed, outcomes, 0).1;
            (forall a :: 0 <= a < |calls| ==> calls[a] < |cs| && cs[calls[a]].model != failed) &&
            (forall a, b :: 0 <= a < b < |calls| ==> calls[a] < calls[b])
  {
    var calls := Walk(cs, failed, outcomes, 0).1;
    var cands := Candidates(cs, failed, 0);
    WalkCallsCandidatePrefix(cs, failed, outcomes, 0);
    CandidatesAre(cs, failed, 0);
    forall a | 0 <= a < |calls|
      ensures calls[a] == cands[a] && cands[a] in cands
    {
    }
  }

  /** A position the walk could succeed at: a candidate whose call succeeds. */
  predicate Succeeds(cs: seq<ModelConfig>, failed: ModelId, outcomes: seq<Option<string>>, j: nat)
    requires |outcomes| == |cs|
  {
    j < |cs| && cs[j].model != failed && outcomes[j].Some?
  }

  /** The walk from k succeeds exactly when some candidate from k succeeds;
      then the last position called is the first such candidate, its text is
      the result, and every position called before it failed. */
  lemma {:induction false} WalkReturnsFirstSuccess(cs: seq<ModelConfig>, failed: ModelId,
                                                   outcomes: seq<Option<string>>, k: nat)
    requires |outcomes| == |cs| && k <= |cs|
    ensures var (res, calls) := Walk(cs, failed, outcomes, k);
            (res.Ok? <==> exists j :: k <= j && Succeeds(cs, failed, outcomes, j)) &&
            (res.Ok? ==>
               |calls| >= 1 &&
               Succeeds(cs, failed, outcomes, calls[|calls| - 1]) &&
               outcomes[calls[|calls| - 1]] == Some(res.value) &&
               (forall j :: k <= j < calls[|calls| - 1] ==> !Succeeds(cs, failed, outcomes, j)) &&
               (forall a :: 0 <= a < |calls| - 1 ==> calls[a] < |cs| && outcomes[calls[a]].None?))
    decreases |cs| - k
  {
    if k < |cs| {
      WalkReturnsFirstSuccess(cs, failed, outcomes, k + 1);
      if !Succeeds(cs, failed, outcomes, k) && exists j :: k <= j && Succeeds(cs, failed, outcomes, j) {
        var j :| k <= j && Succeeds(cs, failed, outcomes, j);
        assert k + 1 <= j;
      }
      var (res, calls) := Walk(cs, failed, outcomes, k);
      var rest := Walk(cs, failed, outcomes, k + 1);
      if cs[k].model != failed && outcomes[k].None? {
        assert calls == [k] + rest.1;
        if res.Ok? {
          assert calls[|calls| - 1] == rest.1[|rest.1| - 1];
          forall a | 0 <= a < |calls| - 1
            ensures calls[a] < |cs| && outcomes[calls[a]].None?
          {
            if a > 0 {
              assert calls[a] == rest.1[a - 1];
            }
          }
        }
      }
    }
  }

  /** The walk fails only after calling every candidate, each of which
      failed; its error is the single all-models-failed message. */
  lemma {:induction false} WalkExhausted(cs: seq<ModelConfig>, failed: ModelId,
                                         outcomes: seq<Option<string>>, k: nat)
    requires |outcomes| == |cs| && k <= |cs|
    ensures var (res, calls) := Walk(cs, failed, outcomes, k);
            res.Err? ==>
              res.message == AllModelsFailed &&
              calls == Candidates(cs, failed, k) &&
              forall a :: 0 <= a < |calls| ==> calls[a] < |cs| && outcomes[calls[a]].None?
    decreases |cs| - k
  {
    if k < |cs| {
      WalkExhausted(cs, failed, outcomes, k + 1);
      var rest := Walk(cs, failed, outcomes, k + 1);
      if cs[k].model != failed && outcomes[k].None? {
        var calls := [k] + rest.1;
        forall a | 0 <= a < |calls|
          ensures rest.0.Err? ==> calls[a] < |cs| && outcomes[calls[a]].None?
        {
          if a > 0 {
            assert calls[a] == rest.1[a - 1];
          }
        }
      }
    }
  }

  /** No two positions hold the same client. */
  predicate DistinctIdentities(cs: seq<ModelConfig>)
  {
    forall a, b :: 0 <= a < b < |cs| ==> cs[a].model != cs[b].model
  }

  /** Counting the candidates from k: all positions from k, less those that
      hold the failed client. */
  lemma {:induction false} CandidateCount(cs: seq<ModelConfig>, failed: ModelId, k: nat, p: nat)
    requires k <= |cs| && p < |cs| && cs[p].model == failed
    ensures |Candidates(cs, failed, k)| <= |cs| - k - (if k <= p then 1 else 0)
    ensures DistinctIdentities(cs) ==>
              |Candidates(cs, failed, k)| == |cs| - k - (if k <= p then 1 else 0)
    decreases |cs| - k
  {
    if k < |cs| {
      CandidateCount(cs, failed, k + 1, p);
    }
  }

  /** The candidates from k are all positions from k but p exactly when no
      position from k other than p holds the failed client. */
  lemma {:induction false} CandidateCountExact(cs: seq<ModelConfig>, failed: ModelId, k: nat, p: nat)
    requires k <= |cs| && p < |cs| && cs[p].model == failed
    ensures |Candidates(cs, failed, k)| == |cs| - k - (if k <= p then 1 else 0)
            <==> forall j :: k <= j < |cs| && j != p ==> cs[j].model != failed
    decreases |cs| - k
  {
    if k < |cs| {
      CandidateCountExact(cs, failed, k + 1, p);
      CandidateCount(cs, failed, k + 1, p);
    }
  }

  /** The walk after a failure of the client at position p makes at most
      n - 1 calls. A walk that fails makes exactly n - 1 calls exactly when
      no other position holds that client, as when identities are distinct. */
  lemma WalkCallBound(cs: seq<ModelConfig>, outcomes: seq<Option<string>>, p: nat)
    requires |outcomes| == |cs| && p < |cs|
    ensures var (res, calls) := Walk(cs, cs[p].model, outcomes, 0);
            |calls| <= |cs| - 1 &&
            (res.Err? ==>
               (|calls| == |cs| - 1 <==> forall j :: 0 <= j < |cs| && j != p ==> cs[j].model != cs[p].model)) &&
            (DistinctIdentities(cs) && res.Err? ==> |calls| == |cs| - 1)
  {
    WalkCallsCandidatePrefix(cs, cs[p].model, outcomes, 0);
    CandidateCount(cs, cs[p].model, 0, p);
    CandidateCountExact(cs, cs[p].model, 0, p);
    WalkExhausted(cs, cs[p].model, outcomes, 0);
  }

  /** One invocation after selection: call the selected position; if that
      fails, run the failover walk that skips the selected client. Gives the
      result and every position attempted, in call order; the first is the
      primary's submission, which counts even when it was rejected. */
  function Dispatch(cs: seq<ModelConfig>, selected: nat, outcomes: seq<Option<string>>)
    : (Result<string>, seq<nat>)
    requires selected < |cs| && |outcomes| == |cs|
  {
    match outcomes[selected]
    case Some(text) => (Ok(text), [selected])
    case None =>
      var walk := Walk(cs, cs[selected].model, outcomes, 0);
      (walk.0, [selected] + walk.1)
  }

  /** What an invocation promises: the selected backend is called first;
      when it succeeds its text is returned with no other call; otherwise it
      is never called again, nor any backend sharing its client, and the
      later calls are a prefix of the candidates, each at most once and in
      configured order; the result is the text of the last call, before which
      no candidate succeeds, or the all-models-failed error after every
      candidate was called and failed. */
  lemma DispatchProperties(cs: seq<ModelConfig>, selected: nat, outcomes: seq<Option<string>>)
    requires selected < |cs| && |outcomes| == |cs|
    ensures var (res, calls) := Dispatch(cs, selected, outcomes);
            1 <= |calls| <= |cs| && calls[0] == selected &&
            (outcomes[selected].Some? ==> res == Ok(outcomes[selected].value) && calls == [selected]) &&
            (forall a :: 1 <= a < |calls| ==> calls[a] < |cs| && cs[calls[a]].model != cs[selected].model) &&
            (forall a, b :: 1 <= a < b < |calls| ==> calls[a] < calls[b]) &&
            (res.Ok? <==> outcomes[selected].Some? ||
                          exists j :: Succeeds(cs, cs[selected].model, outcomes, j)) &&
            (res.Ok? ==> outcomes[calls[|calls| - 1]] == Some(res.value)) &&
            (forall a :: 0 <= a < |calls| - 1 ==> calls[a] < |cs| && outcomes[calls[a]].None?) &&
            (res.Err? ==> res.message == AllModelsFailed) &&
            (outcomes[selected].None? ==> calls[1..] <= Candidates(cs, cs[selected].model, 0)) &&
            (res.Err? ==> calls[1..] == Candidates(cs, cs[selected].model, 0)) &&
            (res.Ok? && |calls| > 1 ==>
               forall j :: j < calls[|calls| - 1] ==> !Succeeds(cs, cs[selected].model, outcomes, j))
  {
    var failed := cs[selected].model;
    if outcomes[selected].None? {
      var walk := Walk(cs, failed, outcomes, 0);
      var calls := [selected] + walk.1;
      assert Dispatch(cs, selected, outcomes) == (walk.0, calls);
      assert calls[1..] == walk.1;
      forall a | 1 <= a < |calls|
        ensures calls[a] == walk.1[a - 1]
      {
      }
      WalkSkipsFailedInOrder(cs, failed, outcomes);
      WalkCallsCandidatePrefix(cs, failed, outcomes, 0);
      WalkCallBound(cs, outcomes, selected);
      WalkExhausted(cs, failed, outcomes, 0);
      WalkReturnsFirstSuccess(cs, failed, outcomes, 0);
      if walk.0.Ok? {
        assert calls[|calls| - 1] == walk.1[|walk.1| - 1];
      }
    }
  }

  /** The first position holding `model`. */
  predicate IsFirstHolder(cs: seq<ModelConfig>, model: ModelId, i: nat)
  {
    i < |cs| && cs[i].model == model && forall j :: 0 <= j < i ==> cs[j].model != model
  }

  /** Display name logged for a client: the name of the first configuration
      holding that very client, or the unknown-model label when none does. */
  function ModelName(cs: seq<ModelConfig>, model: ModelId): (name: string)
    ensures forall i: nat :: IsFirstHolder(cs, model, i) ==> name == cs[i].name
    ensures (forall i :: 0 <= i < |cs| ==> cs[i].model != model) ==> name == UnknownModel
  {
    if |cs| == 0 then UnknownModel
    else if cs[0].model == model then cs[0].name
    else
      var name := ModelName(cs[1..], model);
      assert forall i: nat :: 1 <= i && IsFirstHolder(cs, model, i) ==> IsFirstHolder(cs[1..], model, i - 1);
      name
  }
}
