/** Values the router works with: backend configurations, the routing
    strategy, and the outcome of one generation call. */
module RouterTypes {

  /** Identity of a backend client object. Two configurations may hold the
      same client, and then they have the same ModelId; names play no part
      in identity. */
  type ModelId = nat

  /** One configured backend: the client it calls, its weight for weighted
      routing and its display name. The weight is the source's plain int:
      nothing rejects zero or negative weights. */
  datatype ModelConfig = ModelConfig(model: ModelId, weight: int, name: string)

  /** The three routing strategies, fixed when the router is built. */
  datatype RoutingStrategy = RoundRobin | Weighted | Failover

  datatype Option<T> = None | Some(value: T)

  /** Either the generated text or the router's terminal error message. */
  datatype Result<T> = Ok(value: T) | Err(message: string)

  /** Message of the exception thrown when every tried backend failed. */
  const AllModelsFailed: string := "所有模型均调用失败"

  /** Label logged for a client that no configuration holds. */
  const UnknownModel: string := "未知模型"
}
