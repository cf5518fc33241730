# LLMRouter routing core in Dafny

This project models the routing logic of `LLMRouter`. The router is a Java
class that spreads text-generation calls over a fixed, ordered list of
backend language-model clients (`ModelConfig`: client, weight, name). It
picks one backend by one of three strategies:

- round robin: a shared cursor, taken modulo the list size;
- weighted: a prefix-sum walk over the weights against a random draw;
- failover: always the first configuration.

When the selected backend fails, the router tries every configuration whose
client is not that very object, in configured order, and returns the first
text. If all of them fail, it throws one "all models failed" error.

Modules:

- `RouterTypes` (`types.dfy`): `ModelConfig`, whose client identity
  `ModelId` is separate from its display name; `RoutingStrategy`;
  `Option`/`Result`; and the two constant strings of the source.
- `Selection` (`selection.dfy`): the selection policy as functions
  (`RoundRobinIndex`, `RoundRobinTrace`, `PrefixWeight`, `WeightedChoice`) and
  the facts about them: cyclic order, each window of n selections is a
  permutation, balance, the first-index characterisation, fallback to index 0,
  and that exactly `w[i]` of the `W` draws select `i`.
- `FailoverWalk` (`failover.dfy`): the failover walk (`Walk`), the dispatch of
  one invocation (`Dispatch`) and `ModelName`, each with its lemmas.
- `Router` (`router.dfy`): class `LLMRouter`. It holds the configurations and
  the strategy as constants and the round-robin cursor as its only mutable
  field. Its methods carry the source's loops (`SelectWeighted`,
  `FailoverInvoke`) and are proved equal to the functions above.
- `CursorOverflow` (`cursor_overflow.dfy`): the 32-bit cursor as the source
  stores it. See "Findings".

Backend calls are an oracle. For one invocation, `outcomes[j]` is what the
client at position `j` does for the prompt: `Some(text)` when `generate`
returns text, `None` when it throws. A rejected or interrupted primary
submission is also `None`, because `invoke` catches every exception of the
primary call. So `calls` lists the positions attempted: its first entry is
the primary's submission, which may have been rejected before `generate`
ran. No position is called twice in one invocation (proved in
`DispatchProperties`), so one outcome per position is enough. The prompt
itself appears only through the oracle. The weighted random draw is the
parameter `draw`. `IsDraw` lists the values `(int)(Math.random() * W)` can
take: `[0, W)` for `W > 0`, `0` for `W = 0`, and `(W, 0]` for `W < 0`.

The model follows the code in these points, where a router of this kind is often
designed otherwise:

- The constructor does not reject an empty list or non-positive weights.
  The model accepts any weights; it requires a non-empty list, because every
  selection fails on an empty one (`% 0`, `get(0)`).
- The terminal error is one fixed message, `AllModelsFailed`. It does not
  list the attempts.
- There is no fail-fast after shutdown. `invoke` treats a rejected submission
  as a primary failure and runs the failover walk.
- The failover walk skips every configuration that holds the failed client,
  not only the selected position. So a failing invocation calls
  `1 + |Candidates|` backends. That is `n` when identities are distinct, and
  exactly when no other configuration holds the selected client.

## Model

| member | source | states |
|---|---|---|
| Router.LLMRouter.constructor | src/main/java/com/example/llmrouter/LLMRouter.java:36-46 | the router keeps the given configurations and strategy, and the cursor starts at 0 |
| Router.LLMRouter.SelectRoundRobin | src/main/java/com/example/llmrouter/LLMRouter.java:86-89 | returns the index of the old cursor value modulo n, which is in [0, n), and advances the cursor by exactly one |
| Router.LLMRouter.SelectWeighted | src/main/java/com/example/llmrouter/LLMRouter.java:91-102 | the loop accumulating `cumulative` returns exactly the prefix-sum choice `WeightedChoice(configs, draw)`, an index in [0, n) |
| Router.LLMRouter.SelectRoundRobinRepeatedly | src/main/java/com/example/llmrouter/LLMRouter.java:86-88 | k successive round-robin selections, as k invocations in a row make them, pick exactly `RoundRobinTrace(cursor, k, n)` and advance the cursor by k, so the cyclic-order, window and balance lemmas apply to the class |
| Router.LLMRouter.SelectFailover | src/main/java/com/example/llmrouter/LLMRouter.java:104-106 | always the primary, position 0 |
| Router.LLMRouter.SelectModel | src/main/java/com/example/llmrouter/LLMRouter.java:78-84 | dispatches on the strategy; only round robin moves the cursor (by one), weighted and failover leave it unchanged, and no strategy can change the configuration list (a constant) |
| Router.LLMRouter.FailoverInvoke | src/main/java/com/example/llmrouter/LLMRouter.java:108-117 | the loop with early return gives exactly the result and call sequence of the walk `Walk(configs, failed, outcomes, 0)` |
| Router.LLMRouter.Invoke | src/main/java/com/example/llmrouter/LLMRouter.java:51-58 | calls the selected backend first, chosen per the strategy; the result and the calls equal `Dispatch` of that selection: the primary's text when it succeeds, otherwise the failover walk after it |
| Selection.RoundRobinIndex | src/main/java/com/example/llmrouter/LLMRouter.java:87 | the index for any cursor value lies in [0, n) |
| Selection.RoundRobinStep | src/main/java/com/example/llmrouter/LLMRouter.java:86-88 | the next selection picks the configuration after the previous one, wrapping from the last to the first |
| Selection.RoundRobinTraceLength | src/main/java/com/example/llmrouter/LLMRouter.java:86-88 | k successive selections yield k indices |
| Selection.RoundRobinTraceAt | src/main/java/com/example/llmrouter/LLMRouter.java:86-88 | the j-th of k successive selections from cursor c picks (c + j) mod n |
| Selection.RoundRobinFromZeroIsCyclic | src/main/java/com/example/llmrouter/LLMRouter.java:38 | from the initial cursor 0, selections pick 0, 1, ..., n-1, 0, ... |
| Selection.DistinctWithinWindow | src/main/java/com/example/llmrouter/LLMRouter.java:87 | cursor values fewer than n apart pick different indices |
| Selection.WindowReaches | src/main/java/com/example/llmrouter/LLMRouter.java:87 | every index is picked by one of any n consecutive cursor values |
| Selection.RoundRobinWindowIsPermutation | src/main/java/com/example/llmrouter/LLMRouter.java:87 | any n consecutive selections, from any cursor, pick every index exactly once (distinct and covering) |
| Selection.RoundRobinTraceSplit | src/main/java/com/example/llmrouter/LLMRouter.java:86-88 | k1 + k2 selections are k1 selections followed by k2 selections from the advanced cursor |
| Selection.RoundRobinTraceShift | src/main/java/com/example/llmrouter/LLMRouter.java:87 | advancing the cursor by n does not change the selections |
| Selection.WindowCountsOnce | src/main/java/com/example/llmrouter/LLMRouter.java:87 | in n consecutive selections each index occurs exactly once |
| Selection.PartialWindowCountsAtMostOnce | src/main/java/com/example/llmrouter/LLMRouter.java:87 | in fewer than n consecutive selections no index occurs twice |
| Selection.RoundRobinIsBalanced | src/main/java/com/example/llmrouter/LLMRouter.java:87 | over k selections each index is chosen floor(k/n) times, or ceil(k/n) times when n does not divide k |
| Selection.FirstAbove | src/main/java/com/example/llmrouter/LLMRouter.java:95-101 | the walk from any position always yields a valid index |
| Selection.FirstAboveIsFirst | src/main/java/com/example/llmrouter/LLMRouter.java:95-101 | the walk from k, when no earlier running total exceeds r, returns the first position whose running total exceeds r, or 0 when none does |
| Selection.WeightedChoiceIsFirst | src/main/java/com/example/llmrouter/LLMRouter.java:91-101 | weighted selection returns the first i with r < w[0] + ... + w[i], and 0 when no running total exceeds r |
| Selection.WeightedFallsBackToFirst | src/main/java/com/example/llmrouter/LLMRouter.java:101 | when every weight is 0, the total is 0, the draw is 0 and the choice is the first configuration |
| Selection.PrefixWeightMonotone | src/main/java/com/example/llmrouter/LLMRouter.java:96 | with non-negative weights the running total never decreases |
| Selection.WeightedChoiceInterval | src/main/java/com/example/llmrouter/LLMRouter.java:91-100 | with non-negative weights, a draw in [0, W) selects i exactly when it lies in [w[0]+...+w[i-1], w[0]+...+w[i]) (both directions) |
| Selection.WeightedChoiceCoverage | src/main/java/com/example/llmrouter/LLMRouter.java:91-100 | with non-negative weights, exactly w[i] of the W draws 0..W-1 select configuration i: selection is proportional to weight |
| Selection.WeightedChoicePositive | src/main/java/com/example/llmrouter/LLMRouter.java:91-100 | with non-negative weights and W > 0, a configuration of weight 0 is never selected |
| FailoverWalk.CandidatesAre | src/main/java/com/example/llmrouter/LLMRouter.java:109-110 | the walk's candidates are exactly the positions whose client is not the failed object, in strictly increasing order |
| FailoverWalk.WalkCallsCandidatePrefix | src/main/java/com/example/llmrouter/LLMRouter.java:109-114 | the positions the walk calls are a prefix of the candidates |
| FailoverWalk.WalkSkipsFailedInOrder | src/main/java/com/example/llmrouter/LLMRouter.java:108-114 | the walk never calls a configuration holding the failed client, and calls the others at most once each, in configured order |
| FailoverWalk.WalkReturnsFirstSuccess | src/main/java/com/example/llmrouter/LLMRouter.java:109-113 | the walk succeeds iff some candidate succeeds; then its result is the text of the first successful candidate, it is the last call (later ones are not tried), and every earlier call failed |
| FailoverWalk.WalkExhausted | src/main/java/com/example/llmrouter/LLMRouter.java:109-116 | the walk fails only after calling every candidate, each of which failed, and its error is the single all-models-failed message |
| FailoverWalk.CandidateCount | src/main/java/com/example/llmrouter/LLMRouter.java:109-110 | the candidates number at most n - 1 after a client held at some position failed, and exactly n - 1 when identities are distinct |
| FailoverWalk.CandidateCountExact | src/main/java/com/example/llmrouter/LLMRouter.java:109-110 | the candidates are all positions but the failed one exactly when no other position holds the failed client (both directions) |
| FailoverWalk.WalkCallBound | src/main/java/com/example/llmrouter/LLMRouter.java:109-116 | the walk makes at most n - 1 calls; a walk that fails makes exactly n - 1 calls exactly when no other configuration holds the failed client, in particular when identities are distinct |
| FailoverWalk.DispatchProperties | src/main/java/com/example/llmrouter/LLMRouter.java:51-58 | an invocation calls the selected backend first; if it succeeds, its text is returned after that one call; otherwise the selected client is never called again and the later calls are a prefix of the candidates, each at most once and in order; the result is the text of the last call, and no candidate before it succeeds, so it is the first success; it fails with the all-models-failed error exactly when no candidate succeeds, and then every candidate was called |
| FailoverWalk.ModelName | src/main/java/com/example/llmrouter/LLMRouter.java:119-125 | the name of the first configuration holding that very client, or the label "未知模型" when no configuration holds it |
| CursorOverflow.Int32Increment | src/main/java/com/example/llmrouter/LLMRouter.java:87 | getAndIncrement stores x + 1 modulo 2^32, in the 32-bit range |
| CursorOverflow.JavaRemainder | src/main/java/com/example/llmrouter/LLMRouter.java:87 | Java's `%`: congruent to the dividend modulo n, strictly between -n and n, and with the dividend's sign |
| CursorOverflow.CursorAfterBeforeWrap | src/main/java/com/example/llmrouter/LLMRouter.java:38 | after k <= 2^31 - 1 selections the stored cursor is k |
| CursorOverflow.AsWrittenAgreesBeforeWrap | src/main/java/com/example/llmrouter/LLMRouter.java:87 | until the cursor wraps, the source's index equals the model's `RoundRobinIndex` |
| CursorOverflow.CursorOverflowGivesNegativeIndex | src/main/java/com/example/llmrouter/LLMRouter.java:87-88 | after 2^31 selections the cursor is -2^31, and with three configurations the index is -2 |

## Left out

- The worker pool: `ExecutorService`, `submit(...).get()`, `Future` and `invokeAsync`. The model is sequential; concurrent callers, thread interleavings and atomicity are not modelled. `invokeAsync` would run the same dispatch on a worker. One difference is not modelled: when the pool is shut down, `invokeAsync`'s own `submit` throws to the caller with no failover.
- `shutdown()`: it only shuts the pool down. Its only effect on the routing logic is that later primary submissions are rejected, and the oracle covers that as a primary failure.
- `Math.random()` and the floating-point product and cast: the draw is the parameter `draw`, restricted by `IsDraw`. Floating-point rounding of `Math.random() * W` to `W` is not modelled.
- `ChatLanguageModel.generate`: it is a foreign client, so it is replaced by the per-invocation oracle `outcomes`.
- The `System.err` logging in `invoke` and `invokeAsync`. `ModelName`, which computes the logged name, is modelled on its own.
- Aliasing of the configuration list: the constructor keeps the caller's `List` by reference, so a caller that later mutates it changes what selections and failover walks see. The model treats the list as fixed (`const configs`).
- `RouterDemo.java`: it is example wiring with network clients and keys, and it holds no routing logic.
- Selection.TotalWeight: the sum of weights is an unbounded integer. The source's 32-bit `int` sum can overflow for very large weights, and that is not modelled.
- Router.LLMRouter.constructor: requires a non-empty list. With an empty list, the source constructs a router whose first selection throws. That exception is not modelled.
- Router.LLMRouter.SelectRoundRobin: the cursor is an unbounded natural number, not the source's wrapping 32-bit counter. The as-written behaviour is in `CursorOverflow` (see Findings).

## Findings

| source | as written | input that shows it | evidently intended | confidence | as-written member | corrected member |
|---|---|---|---|---|---|---|
| src/main/java/com/example/llmrouter/LLMRouter.java:87 | the cursor is a 32-bit `AtomicInteger`. `getAndIncrement` wraps from 2^31 - 1 to -2^31, and Java's `%` keeps the dividend's sign, so the index goes negative | three configurations, round robin, 2^31 + 1 invocations. The last reads cursor -2^31, computes index -2, and `models.get(-2)` throws `IndexOutOfBoundsException` from `selectModel`, outside `invoke`'s try, so no failover runs | the index is always in [0, n), and selection keeps cycling | not executed; the arithmetic is proved, the exception follows from `List.get` | CursorOverflow.CursorOverflowGivesNegativeIndex | Selection.RoundRobinIndex |
