/**
 * The slice of FreeBSD's CAM transport-layer interface that the umass
 * matcher consumes: the tagged results of an XPT_DEV_MATCH query, the
 * status words of a reply, and the 32-bit integer widths involved.
 */
module Cam {

  /** C `int` on the target platform. */
  type int32 = x: int | -0x8000_0000 <= x < 0x8000_0000

  /** C `u_int32_t`, the type of the `unit_number` fields of CAM match results. */
  type uint32 = x: int | 0 <= x < 0x1_0000_0000

  /**
   * C's conversion of an `int` to `u_int32_t` (as in `bus->unit_number == unit_num`,
   * where the usual arithmetic conversions turn `unit_num` unsigned):
   * the value modulo 2^32.
   */
  function ToUnsigned(x: int32): (r: uint32)
    ensures r == x % 0x1_0000_0000
  {
    if x < 0 then x + 0x1_0000_0000 else x
  }

  /**
   * The two's-complement conversion of a `u_int32_t` to `int`
   * (as in `periph_unit_num = periph->unit_number`).
   */
  function ToSigned(u: uint32): (r: int32)
    ensures r % 0x1_0000_0000 == u
  {
    if u < 0x8000_0000 then u else u - 0x1_0000_0000
  }

  /** Both conversions lose nothing: they are inverse to each other. */
  lemma ConversionsRoundTrip(x: int32, u: uint32)
    ensures ToSigned(ToUnsigned(x)) == x
    ensures ToUnsigned(ToSigned(u)) == u
  {
  }

  /** `CAM_REQ_CMP`, the CCB status of a request that completed without error. */
  const CamReqCmp: int := 0x01

  /** `cdm.status` after an XPT_DEV_MATCH request (enum `ccb_dev_match_status`). */
  datatype DevMatchStatus =
    | MatchLast         // CAM_DEV_MATCH_LAST: the whole tree has been reported
    | MatchMore         // CAM_DEV_MATCH_MORE: the buffer filled up, ask again
    | MatchListChanged  // CAM_DEV_MATCH_LIST_CHANGED
    | MatchSizeError    // CAM_DEV_MATCH_SIZE_ERROR
    | MatchError        // CAM_DEV_MATCH_ERROR

  /**
   * One `dev_match_result`. Only bus and peripheral results are looked at;
   * device results (`DEV_MATCH_DEVICE`) and anything else are `Other`.
   * Path ids are never consulted and are not represented.
   */
  datatype MatchRecord =
    | Bus(name: string, unit: uint32)     // bus_match_result: dev_name, unit_number
    | Periph(name: string, unit: uint32)  // periph_match_result: periph_name, unit_number
    | Other

  /** Number of `dev_match_result` slots in the buffer handed to the kernel. */
  const MatchCapacity: nat := 100

  /**
   * What one CAMIOCOMMAND ioctl leaves behind: either the ioctl itself failed,
   * or the CCB status, the CDM status and the `num_matches` results it wrote.
   */
  datatype Reply =
    | IoctlFailed
    | Answer(ccbStatus: int, cdmStatus: DevMatchStatus, records: seq<MatchRecord>)

  /** The kernel never writes more results than the buffer holds. */
  predicate FitsBuffer(reply: Reply) {
    reply.Answer? ==> |reply.records| <= MatchCapacity
  }

  /** A reply whose status words the matcher accepts and scans. */
  predicate Accepted(reply: Reply) {
    reply.Answer? && reply.ccbStatus == CamReqCmp &&
    (reply.cdmStatus == MatchLast || reply.cdmStatus == MatchMore)
  }

  /** A reply after which the matcher issues the query again. */
  predicate Continues(reply: Reply) {
    Accepted(reply) && reply.cdmStatus == MatchMore
  }
}
