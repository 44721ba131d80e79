/** The `Transaction` record: a transfer of value stamped with its creation time. */
module Transactions {
  import opened Outcomes
  import opened Digests

  /** `amount` is an `f64` in the source; here it is an exact real. */
  datatype Transaction = Transaction(sender: string, recipient: string, amount: real, timestamp: string)

  /** `serde_json::to_string` of a list of transactions: `None` when serialisation fails. */
  type TxJson = seq<Transaction> -> Option<string>

  /**
   * `Transaction::new`: keeps the three arguments as given and stamps the
   * clock reading `now`. It validates nothing and cannot fail.
   */
  function NewTransaction(sender: string, recipient: string, amount: real, now: Timestamp): (t: Transaction)
    ensures t.sender == sender && t.recipient == recipient && t.amount == amount
    ensures t.timestamp == now && t.timestamp != []
  {
    Transaction(sender, recipient, amount, now)
  }

  /**
   * `serde_json::to_string(..).unwrap_or_else(|_| fallback)`: the JSON text
   * of the list, or the fallback text when serialisation fails.
   */
  function JsonOr(json: TxJson, txs: seq<Transaction>, fallback: string): (s: string)
    ensures json(txs).None? ==> s == fallback
    ensures json(txs).Some? ==> s == json(txs).value
  {
    match json(txs)
    case Some(text) => text
    case None => fallback
  }
}
