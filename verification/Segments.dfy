/** A logical section of a document, as the readers produce and the extractor consumes it. */
module Segments {
  import opened Options

  datatype TextSegment = TextSegment(title: Option<string>, text: string, pageStart: nat, pageEnd: nat, index: nat)
}
