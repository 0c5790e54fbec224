/** A remediation row and its statuses, shared by the queue and the dedupe decision. */
module Remediation {
  import opened Wrappers

  datatype Status =
    | Queued | Claimed | Executing | PrOpen | Verifying
    | Resolved | Failed | NeedsHuman | Rejected | Filed

  /** Statuses that end a row: its key stops matching and a fold cannot land on it. */
  predicate Terminal(status: Status) {
    status.Resolved? || status.Rejected?
  }

  predicate InFlight(status: Status) {
    status.Claimed? || status.Executing?
  }

  /** One FIX target as the model wrote it. */
  datatype Target = Target(kind: string, repo: string, id: string)

  /** The part of a row's payload that the queue and the dedupe tiers read; an empty string or
      list stands for an absent field. */
  datatype Payload = Payload(dedupeKey: string, aliases: seq<string>, recommendation: string,
                             targets: seq<Target>, foldTargets: seq<Target>, source: string)
}
