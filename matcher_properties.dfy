/**
 * What map_umass_device_to_peripheral guarantees, proved about the
 * reference definition in MatcherSpec.
 */
module MatcherProperties {
  import opened Cam
  import opened MatcherSpec

  // ---------------------------------------------------------------------
  // The transport descriptor
  // ---------------------------------------------------------------------

  /**
   * A failed open issues no query and closes nothing; once the open has
   * succeeded, the descriptor is closed exactly once, as the last call, and
   * queries are issued only when the match buffer was allocated.
   */
  lemma DescriptorDiscipline(openOk: bool, allocOk: bool, replies: seq<Reply>, names: Names, unitNum: int32)
    requires openOk && allocOk ==> HasStop(replies)
    ensures var calls := Calls(openOk, allocOk, replies);
      && calls[0] == OpenCall
      && (!openOk ==> calls == [OpenCall] && MapUnit(openOk, allocOk, replies, names, unitNum) == -1)
      && (openOk && !allocOk ==> calls == [OpenCall, CloseCall] && MapUnit(openOk, allocOk, replies, names, unitNum) == -1)
      && (openOk ==> multiset(calls)[CloseCall] == 1 && calls[|calls| - 1] == CloseCall)
      && (IoctlCall in calls <==> openOk && allocOk)
  {
    if openOk && allocOk {
      var n := FirstStop(replies) + 1;
      IoctlsOnly(n);
      var calls := [OpenCall] + Ioctls(n) + [CloseCall];
      assert multiset(calls) == multiset([OpenCall]) + multiset(Ioctls(n)) + multiset([CloseCall]);
      assert IoctlCall in Ioctls(n) && CloseCall !in Ioctls(n);
      assert CloseCall !in multiset(Ioctls(n));
    }
  }

  /** `Ioctls(n)` is `n` queries and nothing else. */
  lemma {:induction false} IoctlsOnly(n: nat)
    ensures |Ioctls(n)| == n
    ensures forall c :: c in Ioctls(n) <==> c == IoctlCall && n > 0
  {
    if n > 0 {
      IoctlsOnly(n - 1);
    }
  }

  /** The number of queries is the position of the first reply that stops the loop, plus one. */
  lemma QueriesUntilStop(replies: seq<Reply>)
    requires HasStop(replies)
    ensures multiset(Calls(true, true, replies))[IoctlCall] == FirstStop(replies) + 1
  {
    IoctlsCounted(FirstStop(replies) + 1);
  }

  lemma {:induction false} IoctlsCounted(n: nat)
    ensures multiset(Ioctls(n))[IoctlCall] == n
  {
    if n > 0 {
      IoctlsCounted(n - 1);
    }
  }

  // ---------------------------------------------------------------------
  // Soundness: where any answer other than -1 comes from
  // ---------------------------------------------------------------------

  /**
   * Position `j` of `seen` holds a peripheral result with the peripheral
   * name whose unit, converted to `int`, is `unit`, and the target bus
   * result comes before it.
   */
  predicate CapturedAt(seen: seq<MatchRecord>, j: nat, names: Names, unitNum: int32, unit: int32)
    requires j < |seen|
  {
    seen[j].Periph? && seen[j].name == names.periphName && ToSigned(seen[j].unit) == unit &&
    TargetBus(names, unitNum) in seen[..j]
  }

  /** A scan state that the results read so far account for. */
  ghost predicate Explained(st: ScanState, seen: seq<MatchRecord>, names: Names, unitNum: int32) {
    (st.busMatched ==> TargetBus(names, unitNum) in seen) &&
    (st.periphUnit == -1 || exists j :: 0 <= j < |seen| && CapturedAt(seen, j, names, unitNum, st.periphUnit))
  }

  /** More results do not take an explanation away. */
  lemma ExplainedExtends(st: ScanState, seen: seq<MatchRecord>, more: seq<MatchRecord>, names: Names, unitNum: int32)
    requires Explained(st, seen, names, unitNum)
    ensures Explained(st, seen + more, names, unitNum)
  {
    if st.periphUnit != -1 {
      var j :| 0 <= j < |seen| && CapturedAt(seen, j, names, unitNum, st.periphUnit);
      assert (seen + more)[..j] == seen[..j];
      assert CapturedAt(seen + more, j, names, unitNum, st.periphUnit);
    }
  }

  lemma {:induction false} ScanFromExplained(records: seq<MatchRecord>, i: nat, names: Names, unitNum: int32,
                                             st: ScanState, seen: seq<MatchRecord>)
    requires i <= |records|
    requires Explained(st, seen + records[..i], names, unitNum)
    ensures Explained(ScanFrom(records, i, names, unitNum, st), seen + records, names, unitNum)
    decreases |records| - i
  {
    var prefix := seen + records[..i];
    if i == |records| {
      assert records[..i] == records;
      return;
    }
    assert seen + records == prefix + records[i..];
    assert seen + records[..i + 1] == prefix + [records[i]];
    match records[i]
    case Bus(name, unit) =>
      if st.busMatched {
        ExplainedExtends(st, prefix, records[i..], names, unitNum);
      } else {
        var next := if name == names.busName && unit == ToUnsigned(unitNum) then st.(busMatched := true) else st;
        ExplainedExtends(st, prefix, [records[i]], names, unitNum);
        assert Explained(next, prefix + [records[i]], names, unitNum);
        ScanFromExplained(records, i + 1, names, unitNum, next, seen);
      }
    case Periph(name, unit) =>
      if st.busMatched && name == names.periphName {
        var j := |prefix|;
        assert (seen + records)[j] == records[i];
        assert (seen + records)[..j] == prefix;
        assert CapturedAt(seen + records, j, names, unitNum, ToSigned(unit));
      } else {
        ExplainedExtends(st, prefix, [records[i]], names, unitNum);
        ScanFromExplained(records, i + 1, names, unitNum, st, seen);
      }
    case Other =>
      ExplainedExtends(st, prefix, [records[i]], names, unitNum);
      ScanFromExplained(records, i + 1, names, unitNum, st, seen);
  }

  lemma {:induction false} ScanRepliesExplained(replies: seq<Reply>, names: Names, unitNum: int32,
                                                st: ScanState, seen: seq<MatchRecord>)
    requires Explained(st, seen, names, unitNum)
    ensures Explained(ScanReplies(replies, names, unitNum, st), seen + ScannedRecords(replies), names, unitNum)
  {
    if replies == [] || !Accepted(replies[0]) {
      assert seen + ScannedRecords(replies) == seen;
    } else {
      var records := replies[0].records;
      assert seen + records[..0] == seen;
      ScanFromExplained(records, 0, names, unitNum, st, seen);
      var next := ScanFrom(records, 0, names, unitNum, st);
      if replies[0].cdmStatus == MatchMore {
        assert seen + ScannedRecords(replies) == (seen + records) + ScannedRecords(replies[1..]);
        ScanRepliesExplained(replies[1..], names, unitNum, next, seen + records);
      }
    }
  }

  /**
   * The answer is -1, or the converted unit number of a peripheral result
   * with the peripheral name that was read after a bus result with the bus
   * name and the requested unit number.
   */
  lemma ResultFollowsTargetBus(openOk: bool, allocOk: bool, replies: seq<Reply>, names: Names, unitNum: int32)
    ensures var r := MapUnit(openOk, allocOk, replies, names, unitNum);
      var read := ScannedRecords(replies);
      r == -1 || exists j :: 0 <= j < |read| && CapturedAt(read, j, names, unitNum, r)
  {
    if openOk && allocOk {
      ScanRepliesExplained(replies, names, unitNum, Initial, []);
      assert [] + ScannedRecords(replies) == ScannedRecords(replies);
    }
  }

  /** Without a bus result for the requested controller on the pages read, the answer is -1. */
  lemma NotFoundWithoutTargetBus(openOk: bool, allocOk: bool, replies: seq<Reply>, names: Names, unitNum: int32)
    requires TargetBus(names, unitNum) !in ScannedRecords(replies)
    ensures MapUnit(openOk, allocOk, replies, names, unitNum) == -1
  {
    ResultFollowsTargetBus(openOk, allocOk, replies, names, unitNum);
  }

  // ---------------------------------------------------------------------
  // The flag and the page scan
  // ---------------------------------------------------------------------

  /** A result the page scan steps over without changing anything. */
  predicate Skipped(r: MatchRecord, st: ScanState, names: Names, unitNum: int32) {
    match r
    case Bus(_, _) => !st.busMatched && r != TargetBus(names, unitNum)
    case Periph(name, _) => !(st.busMatched && name == names.periphName)
    case Other => true
  }

  lemma {:induction false} SkipAll(records: seq<MatchRecord>, i: nat, k: nat, names: Names, unitNum: int32, st: ScanState)
    requires i <= k <= |records|
    requires forall j :: i <= j < k ==> Skipped(records[j], st, names, unitNum)
    ensures ScanFrom(records, i, names, unitNum, st) == ScanFrom(records, k, names, unitNum, st)
    decreases k - i
  {
    if i < k {
      SkipAll(records, i + 1, k, names, unitNum, st);
    }
  }

  /**
   * Until the target bus result has been seen, peripheral results are not
   * looked at: a page without the target bus leaves an unmatched state as it was.
   */
  lemma NothingReadBeforeTargetBus(records: seq<MatchRecord>, names: Names, unitNum: int32, st: ScanState)
    requires !st.busMatched
    requires TargetBus(names, unitNum) !in records
    ensures ScanFrom(records, 0, names, unitNum, st) == st
  {
    SkipAll(records, 0, |records|, names, unitNum, st);
  }

  /** `bus_matched` is never cleared, neither within a page ... */
  lemma {:induction false} FlagStaysSetInPage(records: seq<MatchRecord>, i: nat, names: Names, unitNum: int32, st: ScanState)
    requires i <= |records|
    ensures st.busMatched ==> ScanFrom(records, i, names, unitNum, st).busMatched
    decreases |records| - i
  {
    if i < |records| {
      match records[i]
      case Bus(_, _) =>
      case Periph(_, _) => FlagStaysSetInPage(records, i + 1, names, unitNum, st);
      case Other => FlagStaysSetInPage(records, i + 1, names, unitNum, st);
    }
  }

  /** ... nor across pages. */
  lemma {:induction false} FlagStaysSet(replies: seq<Reply>, names: Names, unitNum: int32, st: ScanState)
    requires st.busMatched
    ensures ScanReplies(replies, names, unitNum, st).busMatched
  {
    if replies != [] && Accepted(replies[0]) {
      FlagStaysSetInPage(replies[0].records, 0, names, unitNum, st);
      if replies[0].cdmStatus == MatchMore {
        FlagStaysSet(replies[1..], names, unitNum, ScanFrom(replies[0].records, 0, names, unitNum, st));
      }
    }
  }

  /**
   * Once the flag is set, any bus result (the target bus again included)
   * ends the scan of the page unless a peripheral with the peripheral name
   * comes first: the state is then left as it was.
   */
  lemma {:induction false} LaterBusEndsPage(records: seq<MatchRecord>, i: nat, k: nat, names: Names, unitNum: int32, st: ScanState)
    requires st.busMatched
    requires i <= k < |records| && records[k].Bus?
    requires forall j :: i <= j < k ==> !(records[j].Periph? && records[j].name == names.periphName)
    ensures ScanFrom(records, i, names, unitNum, st) == st
    decreases k - i
  {
    if !records[i].Bus? {
      LaterBusEndsPage(records, i + 1, k, names, unitNum, st);
    }
  }

  /**
   * The first peripheral with the peripheral name that follows the target
   * bus result on a page, with no bus result in between, is captured; the
   * results before the target bus are not looked at, and the flag is left set.
   * On a LAST page that is the answer, whatever replies would follow.
   */
  lemma FirstPeriphAfterTargetBusIsCaptured(pre: seq<MatchRecord>, mid: seq<MatchRecord>, post: seq<MatchRecord>,
                                            v: uint32, names: Names, unitNum: int32, st: ScanState)
    requires !st.busMatched
    requires TargetBus(names, unitNum) !in pre
    requires forall r :: r in mid ==> !r.Bus? && !(r.Periph? && r.name == names.periphName)
    ensures var records := pre + [TargetBus(names, unitNum)] + mid + [Periph(names.periphName, v)] + post;
      ScanFrom(records, 0, names, unitNum, st) == ScanState(true, ToSigned(v))
    ensures var records := pre + [TargetBus(names, unitNum)] + mid + [Periph(names.periphName, v)] + post;
      forall rest :: ScanReplies([Answer(CamReqCmp, MatchLast, records)] + rest, names, unitNum, st)
                     == ScanState(true, ToSigned(v))
  {
    var records := pre + [TargetBus(names, unitNum)] + mid + [Periph(names.periphName, v)] + post;
    var a := |pre|;
    var b := a + 1 + |mid|;
    assert records[a] == TargetBus(names, unitNum) && records[b] == Periph(names.periphName, v);
    forall j | 0 <= j < a ensures Skipped(records[j], st, names, unitNum) {
      assert records[j] == pre[j];
    }
    SkipAll(records, 0, a, names, unitNum, st);
    var matched := st.(busMatched := true);
    forall j | a + 1 <= j < b ensures Skipped(records[j], matched, names, unitNum) {
      assert records[j] == mid[j - a - 1];
    }
    SkipAll(records, a + 1, b, names, unitNum, matched);
  }

  /**
   * A bus match followed directly by a second bus result, on the only page,
   * yields -1.
   */
  lemma BusWithoutPeriphNotFound(pre: seq<MatchRecord>, other: MatchRecord, post: seq<MatchRecord>,
                                 names: Names, unitNum: int32)
    requires TargetBus(names, unitNum) !in pre && other.Bus?
    ensures var records := pre + [TargetBus(names, unitNum), other] + post;
      MapUnit(true, true, [Answer(CamReqCmp, MatchLast, records)], names, unitNum) == -1
  {
    var records := pre + [TargetBus(names, unitNum), other] + post;
    var a := |pre|;
    forall j | 0 <= j < a ensures Skipped(records[j], Initial, names, unitNum) {
      assert records[j] == pre[j];
    }
    SkipAll(records, 0, a, names, unitNum, Initial);
    LaterBusEndsPage(records, a + 1, a + 1, names, unitNum, ScanState(true, -1));
  }

  /**
   * While the flag is set, the first peripheral with the peripheral name on
   * a page replaces whatever was captured before, provided no bus result
   * comes first; device results and other peripherals before it are skipped.
   */
  lemma FirstPeriphReplacesCapture(records: seq<MatchRecord>, k: nat, v: uint32, names: Names, unitNum: int32,
                                   st: ScanState)
    requires st.busMatched
    requires k < |records| && records[k] == Periph(names.periphName, v)
    requires forall j :: 0 <= j < k ==> !records[j].Bus? && !(records[j].Periph? && records[j].name == names.periphName)
    ensures ScanFrom(records, 0, names, unitNum, st) == st.(periphUnit := ToSigned(v))
  {
    SkipAll(records, 0, k, names, unitNum, st);
  }

  /**
   * The same for a whole reply: an accepted page, LAST or MORE, whose first
   * peripheral with the peripheral name precedes every bus result replaces
   * the captured value; after a LAST page that is the answer, after a MORE
   * page the scan goes on from the replaced value.
   */
  lemma AcceptedPageReplacesCapture(replies: seq<Reply>, k: nat, v: uint32, names: Names, unitNum: int32,
                                    st: ScanState)
    requires st.busMatched
    requires replies != [] && Accepted(replies[0])
    requires k < |replies[0].records| && replies[0].records[k] == Periph(names.periphName, v)
    requires forall j :: 0 <= j < k ==>
               !replies[0].records[j].Bus? &&
               !(replies[0].records[j].Periph? && replies[0].records[j].name == names.periphName)
    ensures replies[0].cdmStatus == MatchLast ==>
              ScanReplies(replies, names, unitNum, st) == st.(periphUnit := ToSigned(v))
    ensures replies[0].cdmStatus == MatchMore ==>
              ScanReplies(replies, names, unitNum, st)
              == ScanReplies(replies[1..], names, unitNum, st.(periphUnit := ToSigned(v)))
  {
    FirstPeriphReplacesCapture(replies[0].records, k, v, names, unitNum, st);
  }

  // ---------------------------------------------------------------------
  // Paging
  // ---------------------------------------------------------------------

  /**
   * Replies after the one that stops the loop are never read; when that
   * reply is a failure or carries a rejected status, the answer is what
   * the accepted pages before it produced, which need not be -1.
   */
  lemma {:induction false} StopReplyEndsScan(replies: seq<Reply>, names: Names, unitNum: int32, st: ScanState)
    requires HasStop(replies)
    ensures var k := FirstStop(replies);
      ScanReplies(replies, names, unitNum, st) == ScanReplies(replies[..k + 1], names, unitNum, st)
    ensures var k := FirstStop(replies);
      !Accepted(replies[k]) ==> ScanReplies(replies, names, unitNum, st) == ScanReplies(replies[..k], names, unitNum, st)
  {
    var k := FirstStop(replies);
    if k > 0 {
      var next := ScanFrom(replies[0].records, 0, names, unitNum, st);
      assert HasStop(replies[1..]) by {
        assert !Continues(replies[1..][k - 1]);
      }
      assert FirstStop(replies[1..]) == k - 1;
      StopReplyEndsScan(replies[1..], names, unitNum, next);
      assert replies[..k + 1][1..] == replies[1..][..k];
      assert replies[..k][1..] == replies[1..][..k - 1];
    }
  }

  // ---------------------------------------------------------------------
  // Worked examples
  // ---------------------------------------------------------------------

  /**
   * A tree reported on one page: the first umass-sim controller's disk is
   * da7, the second's da8, and there is no fifth controller.
   */
  lemma OnePageTree()
    ensures var page := Answer(CamReqCmp, MatchLast,
                               [Bus("umass-sim", 3), Periph("da", 7), Bus("umass-sim", 4), Periph("da", 8)]);
      && MapUnit(true, true, [page], DefaultNames, 3) == 7
      && MapUnit(true, true, [page], DefaultNames, 4) == 8
      && MapUnit(true, true, [page], DefaultNames, 5) == -1
  {
  }

  /**
   * After da7 is captured the rest of the first page (da8) is skipped, but
   * the kernel said MORE, so the second page is read and its leading da9,
   * which sits under another bus, replaces the answer.
   */
  lemma CaptureReplacedOnNextPage()
    ensures MapUnit(true, true,
                    [Answer(CamReqCmp, MatchMore, [Bus("umass-sim", 3), Periph("da", 7), Periph("da", 8)]),
                     Answer(CamReqCmp, MatchLast, [Periph("da", 9), Bus("usbus", 0)])],
                    DefaultNames, 3) == 9
  {
    var first := Answer(CamReqCmp, MatchMore, [Bus("umass-sim", 3), Periph("da", 7), Periph("da", 8)]);
    var second := Answer(CamReqCmp, MatchLast, [Periph("da", 9), Bus("usbus", 0)]);
    assert ScanFrom(first.records, 0, DefaultNames, 3, Initial) == ScanState(true, 7);
    assert [first, second][1..] == [second];
    assert ScanReplies([first, second], DefaultNames, 3, Initial) == ScanReplies([second], DefaultNames, 3, ScanState(true, 7));
    assert ScanFrom(second.records, 0, DefaultNames, 3, ScanState(true, 7)) == ScanState(true, 9);
  }

  /**
   * A controller without a disk, reported at the end of a page: the next
   * page's first disk belongs to a different bus but is still returned.
   */
  lemma DiskFromAnotherBusAcrossPages()
    ensures MapUnit(true, true,
                    [Answer(CamReqCmp, MatchMore, [Bus("umass-sim", 3), Bus("ahc", 0)]),
                     Answer(CamReqCmp, MatchLast, [Other, Periph("da", 0)])],
                    DefaultNames, 3) == 0
  {
    var first := Answer(CamReqCmp, MatchMore, [Bus("umass-sim", 3), Bus("ahc", 0)]);
    var second := Answer(CamReqCmp, MatchLast, [Other, Periph("da", 0)]);
    assert ScanFrom(first.records, 0, DefaultNames, 3, Initial) == ScanState(true, -1);
    assert [first, second][1..] == [second];
    assert ScanReplies([first, second], DefaultNames, 3, Initial) == ScanReplies([second], DefaultNames, 3, ScanState(true, -1));
    assert ScanFrom(second.records, 0, DefaultNames, 3, ScanState(true, -1)) == ScanState(true, 0);
  }

  /** A failing second ioctl keeps the value captured on the first page. */
  lemma IoctlFailureKeepsCapture()
    ensures MapUnit(true, true,
                    [Answer(CamReqCmp, MatchMore, [Bus("umass-sim", 3), Periph("da", 7)]), IoctlFailed],
                    DefaultNames, 3) == 7
  {
    var first := Answer(CamReqCmp, MatchMore, [Bus("umass-sim", 3), Periph("da", 7)]);
    assert ScanFrom(first.records, 0, DefaultNames, 3, Initial) == ScanState(true, 7);
    assert [first, IoctlFailed][1..] == [IoctlFailed];
    assert ScanReplies([first, IoctlFailed], DefaultNames, 3, Initial) == ScanReplies([IoctlFailed], DefaultNames, 3, ScanState(true, 7));
  }

  /**
   * A disk with unit number 0xFFFFFFFF is stored in the `int` result as -1,
   * indistinguishable from "not found".
   */
  lemma AllOnesUnitLooksNotFound()
    ensures MapUnit(true, true,
                    [Answer(CamReqCmp, MatchLast, [Bus("umass-sim", 3), Periph("da", 0xFFFF_FFFF)])],
                    DefaultNames, 3) == -1
  {
    var page := Answer(CamReqCmp, MatchLast, [Bus("umass-sim", 3), Periph("da", 0xFFFF_FFFF)]);
    assert ScanFrom(page.records, 0, DefaultNames, 3, Initial) == ScanState(true, -1);
  }
}
