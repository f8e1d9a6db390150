/**
 * Reference definition of what map_umass_device_to_peripheral computes,
 * as pure functions over the abstract environment (did the transport device
 * open, did the match buffer allocate, what did each CAMIOCOMMAND ioctl
 * return). The method in Matcher is proved against these functions, and
 * MatcherProperties proves what they guarantee.
 */
module MatcherSpec {
  import opened Cam

  /** The driver names the matcher looks for. */
  datatype Names = Names(busName: string, periphName: string)

  /** The names the program hard-codes: UMASS_DEV_NAME and SCSI_HDD_PERIPH. */
  const DefaultNames := Names("umass-sim", "da")

  /** The two locals the scan updates: `bus_matched` and `periph_unit_num`. */
  datatype ScanState = ScanState(busMatched: bool, periphUnit: int32)

  /** Their values before the first ioctl. */
  const Initial := ScanState(false, -1)

  /** The bus result that identifies the requested mass-storage controller. */
  function TargetBus(names: Names, unitNum: int32): MatchRecord {
    Bus(names.busName, ToUnsigned(unitNum))
  }

  /**
   * The inner `for` loop, from index `i` of one page's results: a bus result
   * after the target bus has been seen ends the page; otherwise a bus result
   * equal to the target sets the flag; a peripheral result with the
   * peripheral name, once the flag is set, is captured and ends the page;
   * everything else is skipped.
   */
  function ScanFrom(records: seq<MatchRecord>, i: nat, names: Names, unitNum: int32, st: ScanState): ScanState
    requires i <= |records|
    decreases |records| - i
  {
    if i == |records| then st
    else match records[i]
      case Bus(name, unit) =>
        if st.busMatched then st
        else if name == names.busName && unit == ToUnsigned(unitNum) then
          ScanFrom(records, i + 1, names, unitNum, st.(busMatched := true))
        else ScanFrom(records, i + 1, names, unitNum, st)
      case Periph(name, unit) =>
        if st.busMatched && name == names.periphName then st.(periphUnit := ToSigned(unit))
        else ScanFrom(records, i + 1, names, unitNum, st)
      case Other => ScanFrom(records, i + 1, names, unitNum, st)
  }

  /**
   * The outer `do/while` loop over successive ioctl replies: a failed ioctl
   * or a rejected status ends the loop before the page is scanned; an
   * accepted page is scanned, and the query is issued again only when it
   * said MORE.
   */
  function ScanReplies(replies: seq<Reply>, names: Names, unitNum: int32, st: ScanState): ScanState
    decreases |replies|
  {
    if replies == [] || !Accepted(replies[0]) then st
    else
      var next := ScanFrom(replies[0].records, 0, names, unitNum, st);
      if replies[0].cdmStatus == MatchMore then ScanReplies(replies[1..], names, unitNum, next)
      else next
  }

  /** The kernel eventually answers with a reply after which the loop stops. */
  predicate HasStop(replies: seq<Reply>) {
    exists k :: 0 <= k < |replies| && !Continues(replies[k])
  }

  /** The index of the last reply the loop asks for. */
  function FirstStop(replies: seq<Reply>): (k: nat)
    requires HasStop(replies)
    ensures k < |replies| && !Continues(replies[k])
    ensures forall j :: 0 <= j < k ==> Continues(replies[j])
  {
    if !Continues(replies[0]) then 0
    else
      var k :| 0 <= k < |replies| && !Continues(replies[k]);
      assert !Continues(replies[1..][k - 1]);
      1 + FirstStop(replies[1..])
  }

  /** The system calls the function makes on the transport device. */
  datatype Syscall = OpenCall | IoctlCall | CloseCall

  function Ioctls(n: nat): seq<Syscall> {
    if n == 0 then [] else Ioctls(n - 1) + [IoctlCall]
  }

  /** The value map_umass_device_to_peripheral returns. */
  function MapUnit(openOk: bool, allocOk: bool, replies: seq<Reply>, names: Names, unitNum: int32): int32 {
    if openOk && allocOk then ScanReplies(replies, names, unitNum, Initial).periphUnit else -1
  }

  /** The sequence of system calls map_umass_device_to_peripheral makes. */
  function Calls(openOk: bool, allocOk: bool, replies: seq<Reply>): seq<Syscall>
    requires openOk && allocOk ==> HasStop(replies)
  {
    if !openOk then [OpenCall]
    else if !allocOk then [OpenCall, CloseCall]
    else [OpenCall] + Ioctls(FirstStop(replies) + 1) + [CloseCall]
  }

  /**
   * The results of the pages the loop accepts, in the order the kernel
   * reported them: the only results the scan can look at.
   */
  function ScannedRecords(replies: seq<Reply>): seq<MatchRecord>
    decreases |replies|
  {
    if replies == [] || !Accepted(replies[0]) then []
    else if replies[0].cdmStatus == MatchMore then replies[0].records + ScannedRecords(replies[1..])
    else replies[0].records
  }
}
