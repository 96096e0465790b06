/** Gold items and the terminal states their cases reach. */
module Cases {
  import opened Contracts

  datatype Item = Item(id: string, question: string, referenceAnswer: string)

  /** A terminal graph state: plain JSON values by column. */
  type State = Record

  const STATUS := "status"

  /** The columns a completed case carries forward. */
  predicate IsJournaled(key: string) {
    key in {
      "retrieved", "prompt_chunks", "answer", "status", "error", "usage", "retrieve_latency_s",
      "rerank_latency_s", "query_processed", "query_corrections", "query_dense",
      "query_hypothetical_answer", "query_decomposition", "query_subqueries",
      "table_headers_restored", "table_header_chars", "envelope", "envelope_status",
      "envelope_error", "envelope_repaired", "validation_checked_triples", "validation_violations",
      "validation_classes", "validation_axioms", "validation_repaired", "validation_error"
    }
  }

  /** The journaled projection of a state. */
  function Trim(s: State): State {
    map key | key in s && IsJournaled(key) :: s[key]
  }

  lemma TrimIsIdempotent(s: State)
    ensures Trim(Trim(s)) == Trim(s)
  {}
}
