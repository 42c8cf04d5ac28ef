/** The append-only ledger that compliance writes detections to, remediation writes
  * approvals to, and reporting reads. */
module Ledger {
  import opened Common

  datatype Kind = Detected | Approved | OtherKind

  /** The run and control an event or finding is about. */
  datatype Pair = Pair(run: string, control: string)

  datatype Event = Event(about: Pair, kind: Kind, severity: Option<string>, at: int)

  const When: Event -> int := (e: Event) => e.at

  const IsDetection: Event -> bool := (e: Event) => e.kind == Detected

  /** No pair is ever detected twice. */
  ghost predicate DetectedOnce(events: seq<Event>) {
    forall i, j :: 0 <= i < j < |events| && events[i].kind == Detected && events[j].kind == Detected ==>
      events[i].about != events[j].about
  }

  function DetectedPairs(events: seq<Event>): set<Pair> {
    set e | e in events && e.kind == Detected :: e.about
  }
}
