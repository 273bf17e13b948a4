/** The `aggregator_stream` record with the hash handle it embeds (src/types.h, aggregator-common.h). */
module StreamRecord {
  import opened Bits

  datatype StreamType = Counter | Timer | Gauge

  /** One recorded sample: `double` values are taken as reals. */
  datatype Sample = Sample(time: real, val: real, sampleId: nat)

  /** `STREAM_BUFFER_SIZE` */
  const STREAM_BUFFER_SIZE: nat := 160000000

  const ZERO_SAMPLE := Sample(0.0, 0.0, 0)

  /** An element and its `UT_hash_handle` merged into one object, as the handle offset is constant. */
  class Stream {
    const id: Word
    const ty: StreamType
    const buffer: array<Sample>
    var bufferIndex: nat

    // the hash handle
    var hashv: Word
    var prev: Stream?
    var next: Stream?
    var hhPrev: Stream?
    var hhNext: Stream?

    constructor (id: Word, ty: StreamType, buffer: array<Sample>)
      ensures this.id == id && this.ty == ty && this.buffer == buffer && bufferIndex == 0
    {
      this.id := id;
      this.ty := ty;
      this.buffer := buffer;
      bufferIndex := 0;
      hashv := 0;
      prev, next, hhPrev, hhNext := null, null, null, null;
    }
  }
}
