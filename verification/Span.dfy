/** Span descriptors (span.h): runs of pages, and the order used for best-fit search. */
module Spans {

  /** Which free list a span is on, if any. */
  datatype Location = InUse | Normal | Returned

  /** The address of a span descriptor. Descriptors live in a table keyed by their address, so a
      lookup of an address whose descriptor was deleted is not well formed. */
  type SpanPtr = nat

  datatype Span = Span(start: nat, length: nat, location: Location, sizeclass: nat) {
    function End(): nat { start + length }
    predicate Has(p: int) { start <= p < End() }
  }

  /** SpanBestFitLess: shorter first, lower address as tie-breaker. */
  predicate BestFitLess(a: Span, b: Span) {
    a.length < b.length || (a.length == b.length && a.start < b.start)
  }
}
