/**
 * map_umass_device_to_peripheral: given the unit number of a USB mass-storage
 * SIM, walk the CAM device tree page by page and return the unit number of
 * the `da` peripheral found under it, or -1.
 *
 * The environment is abstract: whether opening the transport device
 * succeeded, whether the match buffer could be allocated, and the replies
 * successive CAMIOCOMMAND ioctls produce. The system calls made are
 * returned as a trace.
 */
module Matcher {
  import opened Cam
  import opened MatcherSpec

  method MapUmassDeviceToPeripheral(unitNum: int32, openOk: bool, allocOk: bool, replies: seq<Reply>,
                                    names: Names := DefaultNames)
    returns (periphUnitNum: int32, calls: seq<Syscall>)
    requires forall k :: 0 <= k < |replies| ==> FitsBuffer(replies[k])
    requires openOk && allocOk ==> HasStop(replies)
    ensures periphUnitNum == MapUnit(openOk, allocOk, replies, names, unitNum)
    ensures calls == Calls(openOk, allocOk, replies)
  {
    var busMatched := false;
    periphUnitNum := -1;

    calls := [OpenCall];
    if !openOk {
      return;
    }

    if !allocOk {
      calls := calls + [CloseCall];
      return;
    }
    var matches := new MatchRecord[MatchCapacity];
    var numMatches := 0;
    var ccbStatus := 0;
    var cdmStatus := MatchLast;

    var p := 0;  // replies consumed so far
    var more := true;
    while more
      invariant p <= |replies|
      invariant calls == [OpenCall] + Ioctls(p)
      invariant more ==> p <= FirstStop(replies)
      invariant more ==> ScanReplies(replies, names, unitNum, Initial)
                         == ScanReplies(replies[p..], names, unitNum, ScanState(busMatched, periphUnitNum))
      invariant !more ==> p == FirstStop(replies) + 1
      invariant !more ==> ScanState(busMatched, periphUnitNum) == ScanReplies(replies, names, unitNum, Initial)
      decreases |replies| - p
    {
      calls := calls + [IoctlCall];
      var reply := replies[p];
      assert replies[p..][1..] == replies[p + 1..];
      p := p + 1;
      if reply.IoctlFailed? {
        break;
      }
      // The kernel fills the first num_matches slots of the buffer; the rest
      // keep whatever an earlier reply left there.
      ccbStatus, cdmStatus := reply.ccbStatus, reply.cdmStatus;
      forall k | 0 <= k < |reply.records| {
        matches[k] := reply.records[k];
      }
      numMatches := |reply.records|;
      assert matches[..numMatches] == reply.records;

      if ccbStatus != CamReqCmp || (cdmStatus != MatchLast && cdmStatus != MatchMore) {
        break;
      }

      ghost var start := ScanState(busMatched, periphUnitNum);
      for i := 0 to numMatches
        invariant matches[..numMatches] == reply.records
        invariant ScanFrom(reply.records, 0, names, unitNum, start)
                  == ScanFrom(reply.records, i, names, unitNum, ScanState(busMatched, periphUnitNum))
      {
        if matches[i].Bus? {
          if busMatched {
            break;
          }
          var bus := matches[i];
          if bus.name == names.busName && bus.unit == ToUnsigned(unitNum) {
            busMatched := true;
          }
        } else if busMatched && matches[i].Periph? {
          var periph := matches[i];
          if periph.name == names.periphName {
            periphUnitNum := ToSigned(periph.unit);
            break;
          }
        }
      }

      more := ccbStatus == CamReqCmp && cdmStatus == MatchMore;
    }

    calls := calls + [CloseCall];
  }
}
