// Governance events (crates/loom-core/src/event_sourcing.rs).

module Events {
  import opened Options
  import opened Words

  /** The payload's `amount_cents` where it is a u64; the rest of the JSON is kept as text. */
  datatype Payload = Payload(amountCents: Option<U64>, text: string)

  datatype GovernanceEvent = GovernanceEvent(
    eventId: string,
    eventType: string,
    agentId: string,
    payload: Payload,
    timestampMs: U64,
    sequence: U64)
}
