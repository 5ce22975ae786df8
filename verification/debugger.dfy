/**
 * The collision debugger's recording protocol (debug builds). A trace is bracketed by
 * DebugStart_Trace / DebugFinish_Trace; inside it, broad-phase leaf hits are bracketed by
 * DebugStart_BroadPhaseLeafHit / DebugFinish_BroadPhaseLeafHit; inside a hit, displacement
 * leaf hits by DebugStart_DispCollLeafHit / DebugFinish_DispCollLeafHit. Any call out of
 * order records a usage error; only the first error is kept and from then on every call is
 * ignored. Finished traces go to a history of at most 50 entries.
 *
 * The global state of the program is one immutable `State` value here; each entry point is
 * a function from the state before the call to the state after it. Trace parameters and
 * results, and the AABBs the debugger stores for drawing, are opaque payload.
 */
module Debugger {
  import opened Wrappers
  import Bvh

  const MAX_TRACE_HISTORY_LEN: nat := 50

  /** A finished displacement (dispcoll) leaf hit. */
  datatype DispLeafHit = DispLeafHit(dispLeafIdx: int)

  /** The type-specific part of a broad-phase hit; only displacements collect inner hits. */
  datatype HitData =
    | BrushData(brushIdx: nat)
    | DisplacementData(dispCollIdx: nat, dispHits: seq<DispLeafHit>)
    | FuncBrushData(funcBrushIdx: nat)
    | StaticPropData(spropIdx: nat)
    | DynamicPropData(dpropIdx: nat)

  datatype BroadHit = BroadHit(bvhLeafIdx: int, kind: Bvh.LeafType, data: HitData)

  /** A trace that was started and not yet finished. */
  datatype Unfinished = Unfinished(
    info: int,
    openHit: Option<BroadHit>,
    openDisp: Option<DispLeafHit>,
    finished: seq<BroadHit>)

  datatype HistoryEntry = HistoryEntry(info: int, results: int, hits: seq<BroadHit>)

  datatype DrawState = DrawState(selectedHit: int, showDispHits: bool)
  const DEFAULT_DRAW_STATE := DrawState(-1, true)

  /** Which entry point detected the misuse, and what it found wrong. */
  datatype Entry = StartTrace | StartBroadHit | StartDispHit | FinishDispHit | FinishBroadHit | FinishTrace
  datatype Problem =
    | TraceStillOpen | NoOpenTrace | HitStillOpen | NoOpenHit | NotDisplacement | DispStillOpen | NoOpenDisp
  datatype UsageError = UsageError(entry: Entry, problem: Problem)

  datatype State = State(
    history: seq<HistoryEntry>,
    unfinished: Option<Unfinished>,
    error: Option<UsageError>,
    draw: DrawState)

  const INITIAL := State([], None, None, DEFAULT_DRAW_STATE)

  /** DidUsageErrorOccur: an error message has been recorded. */
  predicate DidUsageErrorOccur(s: State)
  {
    s.error.Some?
  }

  /** GenerateUsageErrorMsg: the first error sticks, later ones are dropped. */
  function Fail(s: State, e: UsageError): (r: State)
    ensures r.error.Some? && (s.error.Some? ==> r.error == s.error)
    ensures r.history == s.history && r.unfinished == s.unfinished && r.draw == s.draw
  {
    if DidUsageErrorOccur(s) then s else s.(error := Some(e))
  }

  /** Reset: empty history, no open trace, no error, default draw state. */
  function Reset(s: State): (r: State)
    ensures r.history == [] && r.unfinished.None? && !DidUsageErrorOccur(r)
    ensures r.draw == DEFAULT_DRAW_STATE
  {
    INITIAL
  }

  /** DebugStart_Trace: opens a trace; fails while one is still open. */
  function DebugStartTrace(s: State, info: int): (r: State)
    ensures DidUsageErrorOccur(s) ==> r == s
    ensures !DidUsageErrorOccur(s) ==> (DidUsageErrorOccur(r) <==> s.unfinished.Some?)
    ensures !DidUsageErrorOccur(r) ==> r.unfinished == Some(Unfinished(info, None, None, [])) && r.history == s.history
  {
    if DidUsageErrorOccur(s) then s
    else if s.unfinished.Some? then Fail(s, UsageError(StartTrace, TraceStillOpen))
    else s.(unfinished := Some(Unfinished(info, None, None, [])))
  }

  /** The type-specific record a new broad-phase hit starts with. */
  function NewHitData(kind: Bvh.LeafType, objIdx: nat): (d: HitData)
    ensures d.DisplacementData? <==> kind == Bvh.Displacement
    ensures d.DisplacementData? ==> d.dispHits == []
  {
    match kind
    case Brush => BrushData(objIdx)
    case Displacement => DisplacementData(objIdx, [])
    case StaticProp => StaticPropData(objIdx)
    case DynamicProp => DynamicPropData(objIdx)
    case FuncBrush => FuncBrushData(objIdx)
  }

  /** DebugStart_BroadPhaseLeafHit: opens a hit of the given type inside the open trace. */
  function DebugStartBroadPhaseLeafHit(s: State, kind: Bvh.LeafType, objIdx: nat, leafIdx: int): (r: State)
    ensures DidUsageErrorOccur(s) ==> r == s
    ensures !DidUsageErrorOccur(s) ==>
      (!DidUsageErrorOccur(r) <==> s.unfinished.Some? && s.unfinished.value.openHit.None?)
    ensures !DidUsageErrorOccur(r) ==>
      && r.unfinished.Some? && s.unfinished.Some?
      && r.unfinished.value == s.unfinished.value.(openHit := Some(BroadHit(leafIdx, kind, NewHitData(kind, objIdx))))
  {
    if DidUsageErrorOccur(s) then s
    else if s.unfinished.None? then Fail(s, UsageError(StartBroadHit, NoOpenTrace))
    else if s.unfinished.value.openHit.Some? then Fail(s, UsageError(StartBroadHit, HitStillOpen))
    else
      var hit := BroadHit(leafIdx, kind, NewHitData(kind, objIdx));
      s.(unfinished := Some(s.unfinished.value.(openHit := Some(hit))))
  }

  /** Note that the type of the open broad-phase hit is not checked here. */
  function DebugStartDispCollLeafHit(s: State, dispLeafIdx: int): (r: State)
    ensures DidUsageErrorOccur(s) ==> r == s
    ensures !DidUsageErrorOccur(s) ==>
      (!DidUsageErrorOccur(r) <==>
        s.unfinished.Some? && s.unfinished.value.openHit.Some? && s.unfinished.value.openDisp.None?)
    ensures !DidUsageErrorOccur(r) ==>
      && r.unfinished.Some? && s.unfinished.Some?
      && r.unfinished.value == s.unfinished.value.(openDisp := Some(DispLeafHit(dispLeafIdx)))
  {
    if DidUsageErrorOccur(s) then s
    else if s.unfinished.None? then Fail(s, UsageError(StartDispHit, NoOpenTrace))
    else if s.unfinished.value.openHit.None? then Fail(s, UsageError(StartDispHit, NoOpenHit))
    else if s.unfinished.value.openDisp.Some? then Fail(s, UsageError(StartDispHit, DispStillOpen))
    else s.(unfinished := Some(s.unfinished.value.(openDisp := Some(DispLeafHit(dispLeafIdx)))))
  }

  /**
   * The C++ Debugger reads the displacement record of the open hit with std::get, so a hit of
   * type Displacement whose record is not a displacement record would throw; `WellFormed`
   * below rules that out, and this function leaves the state unchanged in that case.
   */
  function DebugFinishDispCollLeafHit(s: State): (r: State)
    ensures DidUsageErrorOccur(s) ==> r == s
    ensures !DidUsageErrorOccur(s) ==>
      (!DidUsageErrorOccur(r) <==>
        && s.unfinished.Some? && s.unfinished.value.openHit.Some?
        && s.unfinished.value.openHit.value.kind == Bvh.Displacement
        && s.unfinished.value.openDisp.Some?)
    ensures !DidUsageErrorOccur(r) && WellFormed(s) && s.unfinished.Some? && s.unfinished.value.openHit.Some? ==>
      && r.unfinished.Some? && r.unfinished.value.openDisp.None? && r.unfinished.value.openHit.Some?
      && r.unfinished.value.openHit.value.data.DisplacementData?
      && r.unfinished.value.openHit.value.data.dispHits
         == s.unfinished.value.openHit.value.data.dispHits + [s.unfinished.value.openDisp.value]
  {
    if DidUsageErrorOccur(s) then s
    else if s.unfinished.None? then Fail(s, UsageError(FinishDispHit, NoOpenTrace))
    else
      var u := s.unfinished.value;
      if u.openHit.None? then Fail(s, UsageError(FinishDispHit, NoOpenHit))
      else if u.openHit.value.kind != Bvh.Displacement then Fail(s, UsageError(FinishDispHit, NotDisplacement))
      else if u.openDisp.None? then Fail(s, UsageError(FinishDispHit, NoOpenDisp))
      else
        var hit := u.openHit.value;
        if !hit.data.DisplacementData? then s
        else
          var data := hit.data.(dispHits := hit.data.dispHits + [u.openDisp.value]);
          s.(unfinished := Some(u.(openHit := Some(hit.(data := data)), openDisp := None)))
  }

  /** DebugFinish_BroadPhaseLeafHit: closes the open hit and appends it to the trace's hits. */
  function DebugFinishBroadPhaseLeafHit(s: State): (r: State)
    ensures DidUsageErrorOccur(s) ==> r == s
    ensures !DidUsageErrorOccur(s) ==>
      (!DidUsageErrorOccur(r) <==>
        s.unfinished.Some? && s.unfinished.value.openHit.Some? && s.unfinished.value.openDisp.None?)
    ensures !DidUsageErrorOccur(r) ==>
      && r.unfinished.Some? && r.unfinished.value.openHit.None? && s.unfinished.Some?
      && s.unfinished.value.openHit.Some?
      && r.unfinished.value.finished == s.unfinished.value.finished + [s.unfinished.value.openHit.value]
  {
    if DidUsageErrorOccur(s) then s
    else if s.unfinished.None? then Fail(s, UsageError(FinishBroadHit, NoOpenTrace))
    else
      var u := s.unfinished.value;
      if u.openHit.None? then Fail(s, UsageError(FinishBroadHit, NoOpenHit))
      else if u.openDisp.Some? then Fail(s, UsageError(FinishBroadHit, DispStillOpen))
      else s.(unfinished := Some(u.(openHit := None, finished := u.finished + [u.openHit.value])))
  }

  /** The history after appending one entry: the oldest is dropped when it is full. */
  function PushHistory(h: seq<HistoryEntry>, e: HistoryEntry): (r: seq<HistoryEntry>)
    ensures |h| <= MAX_TRACE_HISTORY_LEN ==> 0 < |r| <= MAX_TRACE_HISTORY_LEN
    ensures r != [] && r[|r| - 1] == e
  {
    (if |h| >= MAX_TRACE_HISTORY_LEN then h[1..] else h) + [e]
  }

  /** DebugFinish_Trace: stores the finished trace in the history and closes it. */
  function DebugFinishTrace(s: State, results: int): (r: State)
    ensures DidUsageErrorOccur(s) ==> r == s
    ensures !DidUsageErrorOccur(s) ==>
      (!DidUsageErrorOccur(r) <==>
        s.unfinished.Some? && s.unfinished.value.openHit.None? && s.unfinished.value.openDisp.None?)
    ensures !DidUsageErrorOccur(r) && s.unfinished.Some? ==>
      && r.unfinished.None? && r.draw == DEFAULT_DRAW_STATE && r.history != []
      && r.history[|r.history| - 1] == HistoryEntry(s.unfinished.value.info, results, s.unfinished.value.finished)
  {
    if DidUsageErrorOccur(s) then s
    else if s.unfinished.None? then Fail(s, UsageError(FinishTrace, NoOpenTrace))
    else
      var u := s.unfinished.value;
      if u.openHit.Some? then Fail(s, UsageError(FinishTrace, HitStillOpen))
      else if u.openDisp.Some? then Fail(s, UsageError(FinishTrace, DispStillOpen))
      else
        var entry := HistoryEntry(u.info, results, u.finished);
        State(PushHistory(s.history, entry), None, None, DEFAULT_DRAW_STATE)
  }

  // ---------------------------------------------------------------------------------------
  // Calls as data, so that whole call sequences can be stated
  // ---------------------------------------------------------------------------------------

  datatype Call =
    | CStartTrace(info: int)
    | CStartBroadHit(kind: Bvh.LeafType, objIdx: nat, leafIdx: int)
    | CStartDispHit(dispLeafIdx: int)
    | CFinishDispHit
    | CFinishBroadHit
    | CFinishTrace(results: int)
    | CReset

  function Apply(s: State, c: Call): State
  {
    match c
    case CStartTrace(info) => DebugStartTrace(s, info)
    case CStartBroadHit(kind, objIdx, leafIdx) => DebugStartBroadPhaseLeafHit(s, kind, objIdx, leafIdx)
    case CStartDispHit(idx) => DebugStartDispCollLeafHit(s, idx)
    case CFinishDispHit => DebugFinishDispCollLeafHit(s)
    case CFinishBroadHit => DebugFinishBroadPhaseLeafHit(s)
    case CFinishTrace(results) => DebugFinishTrace(s, results)
    case CReset => Reset(s)
  }

  /** The state after a sequence of calls, made in order. */
  function Run(s: State, calls: seq<Call>): State
    decreases |calls|
  {
    if calls == [] then s else Run(Apply(s, calls[0]), calls[1..])
  }

  // ---------------------------------------------------------------------------------------
  // Invariant
  // ---------------------------------------------------------------------------------------

  /** A hit's type-specific record matches its type, so the std::get above cannot throw. */
  predicate HitOk(h: BroadHit)
  {
    h.data.DisplacementData? <==> h.kind == Bvh.Displacement
  }

  predicate WellFormed(s: State)
  {
    && |s.history| <= MAX_TRACE_HISTORY_LEN
    && (forall i :: 0 <= i < |s.history| ==> forall j :: 0 <= j < |s.history[i].hits| ==> HitOk(s.history[i].hits[j]))
    && (s.unfinished.Some? ==>
         && (s.unfinished.value.openDisp.Some? ==> s.unfinished.value.openHit.Some?)
         && (s.unfinished.value.openHit.Some? ==> HitOk(s.unfinished.value.openHit.value))
         && (forall j :: 0 <= j < |s.unfinished.value.finished| ==> HitOk(s.unfinished.value.finished[j])))
  }

  /** Every entry point keeps the state well formed: in particular the history never exceeds 50. */
  lemma ApplyKeepsWellFormed(s: State, c: Call)
    requires WellFormed(s)
    ensures WellFormed(Apply(s, c))
  {
    if c.CFinishTrace? && !DidUsageErrorOccur(s) && s.unfinished.Some? {
      var h := s.history;
      var u := s.unfinished.value;
      var entry := HistoryEntry(u.info, c.results, u.finished);
      var h1 := if |h| >= MAX_TRACE_HISTORY_LEN then h[1..] else h;
      assert forall i :: 0 <= i < |h1| ==> h1[i] in h;
    }
  }

  lemma {:induction false} RunKeepsWellFormed(s: State, calls: seq<Call>)
    requires WellFormed(s)
    ensures WellFormed(Run(s, calls))
    decreases |calls|
  {
    if calls != [] {
      ApplyKeepsWellFormed(s, calls[0]);
      RunKeepsWellFormed(Apply(s, calls[0]), calls[1..]);
    }
  }

  // ---------------------------------------------------------------------------------------
  // Properties of single calls
  // ---------------------------------------------------------------------------------------

  /** After a usage error every entry point except Reset is a no-op, and the first error stays. */
  lemma ErrorLatches(s: State, c: Call)
    requires DidUsageErrorOccur(s) && !c.CReset?
    ensures Apply(s, c) == s
  {
  }

  /** Once an error occurred, only Reset can change anything. */
  lemma {:induction false} ErrorLatchesRun(s: State, calls: seq<Call>)
    requires DidUsageErrorOccur(s) && forall k :: 0 <= k < |calls| ==> !calls[k].CReset?
    ensures Run(s, calls) == s
    decreases |calls|
  {
    if calls != [] {
      ErrorLatches(s, calls[0]);
      ErrorLatchesRun(s, calls[1..]);
    }
  }

  /** A full history keeps its length; otherwise it grows by one. */
  lemma PushHistoryLength(h: seq<HistoryEntry>, e: HistoryEntry)
    requires |h| <= MAX_TRACE_HISTORY_LEN
    ensures |PushHistory(h, e)| == if |h| == MAX_TRACE_HISTORY_LEN then MAX_TRACE_HISTORY_LEN else |h| + 1
    ensures PushHistory(h, e)[|PushHistory(h, e)| - 1] == e
  {
  }

  // ---------------------------------------------------------------------------------------
  // Whole traces: a correctly nested call sequence records exactly what it bracketed
  // ---------------------------------------------------------------------------------------

  /** What the caller reports about one broad-phase hit: its object and its inner hits. */
  datatype HitSpec = HitSpec(kind: Bvh.LeafType, objIdx: nat, leafIdx: int, dispLeaves: seq<int>)

  /** The bracketed calls for the inner displacement hits of one broad-phase hit. */
  function DispCalls(dispLeaves: seq<int>): (calls: seq<Call>)
    ensures |calls| == 2 * |dispLeaves|
    decreases |dispLeaves|
  {
    if dispLeaves == [] then []
    else DispCalls(dispLeaves[..|dispLeaves| - 1]) + [CStartDispHit(dispLeaves[|dispLeaves| - 1]), CFinishDispHit]
  }

  function HitCalls(h: HitSpec): seq<Call>
  {
    [CStartBroadHit(h.kind, h.objIdx, h.leafIdx)] + DispCalls(h.dispLeaves) + [CFinishBroadHit]
  }

  function HitsCalls(hits: seq<HitSpec>): seq<Call>
    decreases |hits|
  {
    if hits == [] then [] else HitsCalls(hits[..|hits| - 1]) + HitCalls(hits[|hits| - 1])
  }

  /** The whole call sequence of one debugged trace. */
  function TraceCalls(info: int, hits: seq<HitSpec>, results: int): seq<Call>
  {
    OpeningCalls(info, hits) + [CFinishTrace(results)]
  }

  /** A trace's calls up to, not including, its DebugFinish_Trace. */
  function OpeningCalls(info: int, hits: seq<HitSpec>): seq<Call>
  {
    [CStartTrace(info)] + HitsCalls(hits)
  }

  /** A hit is reported with inner displacement hits only when it is a displacement. */
  predicate ProperHit(h: HitSpec)
  {
    h.dispLeaves != [] ==> h.kind == Bvh.Displacement
  }

  /** The broad-phase hit record a correctly bracketed hit produces. */
  function RecordOf(h: HitSpec): (b: BroadHit)
    ensures HitOk(b)
  {
    var d := NewHitData(h.kind, h.objIdx);
    BroadHit(h.leafIdx, h.kind,
      if d.DisplacementData? then d.(dispHits := seq(|h.dispLeaves|, k requires 0 <= k < |h.dispLeaves| => DispLeafHit(h.dispLeaves[k]))) else d)
  }

  function RecordsOf(hits: seq<HitSpec>): (r: seq<BroadHit>)
    ensures |r| == |hits| && forall k :: 0 <= k < |hits| ==> r[k] == RecordOf(hits[k])
    decreases |hits|
  {
    if hits == [] then [] else RecordsOf(hits[..|hits| - 1]) + [RecordOf(hits[|hits| - 1])]
  }

  lemma {:induction false} RunAppend(s: State, a: seq<Call>, b: seq<Call>)
    ensures Run(s, a + b) == Run(Run(s, a), b)
    decreases |a|
  {
    if a == [] {
      assert a + b == b;
    } else {
      assert (a + b)[0] == a[0] && (a + b)[1..] == a[1..] + b;
      RunAppend(Apply(s, a[0]), a[1..], b);
      assert Run(s, a + b) == Run(Apply(s, a[0]), a[1..] + b);
      assert Run(s, a) == Run(Apply(s, a[0]), a[1..]);
    }
  }

  lemma RunCons(s: State, c: Call, rest: seq<Call>)
    ensures Run(s, [c] + rest) == Run(Apply(s, c), rest)
  {
    assert ([c] + rest)[0] == c && ([c] + rest)[1..] == rest;
  }

  /** Running two calls is applying one after the other. */
  lemma RunTwo(s: State, x: Call, y: Call)
    ensures Run(s, [x, y]) == Apply(Apply(s, x), y)
  {
    assert [x, y][1..] == [y];
    RunOne(Apply(s, x), y);
  }

  lemma RunOne(s: State, x: Call)
    ensures Run(s, [x]) == Apply(s, x)
  {
    assert [x][1..] == [];
  }

  /** The open-trace state in which an open displacement-type hit has recorded the given inner hits. */
  function InsideHit(s: State, u: Unfinished, b: BroadHit): State
  {
    s.(unfinished := Some(u.(openHit := Some(b), openDisp := None)))
  }

  lemma {:induction false} RunDispCalls(s: State, u: Unfinished, leafIdx: int, objIdx: nat, dispLeaves: seq<int>)
    requires !DidUsageErrorOccur(s)
    ensures Run(InsideHit(s, u, BroadHit(leafIdx, Bvh.Displacement, DisplacementData(objIdx, []))), DispCalls(dispLeaves))
         == InsideHit(s, u, RecordOf(HitSpec(Bvh.Displacement, objIdx, leafIdx, dispLeaves)))
    decreases |dispLeaves|
  {
    var start := InsideHit(s, u, BroadHit(leafIdx, Bvh.Displacement, DisplacementData(objIdx, [])));
    if dispLeaves == [] {
      assert RecordOf(HitSpec(Bvh.Displacement, objIdx, leafIdx, [])) == BroadHit(leafIdx, Bvh.Displacement, DisplacementData(objIdx, []));
    } else {
      var init := dispLeaves[..|dispLeaves| - 1];
      var last := dispLeaves[|dispLeaves| - 1];
      RunAppend(start, DispCalls(init), [CStartDispHit(last), CFinishDispHit]);
      RunDispCalls(s, u, leafIdx, objIdx, init);
      var mid := InsideHit(s, u, RecordOf(HitSpec(Bvh.Displacement, objIdx, leafIdx, init)));
      var after := Apply(Apply(mid, CStartDispHit(last)), CFinishDispHit);
      RunTwo(mid, CStartDispHit(last), CFinishDispHit);
      var hits := seq(|dispLeaves|, k requires 0 <= k < |dispLeaves| => DispLeafHit(dispLeaves[k]));
      var initHits := seq(|init|, k requires 0 <= k < |init| => DispLeafHit(init[k]));
      assert hits == initHits + [DispLeafHit(last)];
      assert RecordOf(HitSpec(Bvh.Displacement, objIdx, leafIdx, init)) == BroadHit(leafIdx, Bvh.Displacement, DisplacementData(objIdx, initHits));
      assert RecordOf(HitSpec(Bvh.Displacement, objIdx, leafIdx, dispLeaves)) == BroadHit(leafIdx, Bvh.Displacement, DisplacementData(objIdx, hits));
      assert after == InsideHit(s, u, BroadHit(leafIdx, Bvh.Displacement, DisplacementData(objIdx, hits)));
    }
  }

  /** One correctly bracketed broad-phase hit appends its record to the finished hits. */
  lemma RunHitCalls(s: State, u: Unfinished, h: HitSpec)
    requires !DidUsageErrorOccur(s) && ProperHit(h)
    requires u.openHit.None? && u.openDisp.None?
    ensures Run(s.(unfinished := Some(u)), HitCalls(h))
         == s.(unfinished := Some(u.(finished := u.finished + [RecordOf(h)])))
  {
    var s0 := s.(unfinished := Some(u));
    var d := NewHitData(h.kind, h.objIdx);
    var b0 := BroadHit(h.leafIdx, h.kind, d);
    var s1 := Apply(s0, CStartBroadHit(h.kind, h.objIdx, h.leafIdx));
    assert s1 == InsideHit(s, u, b0);
    var calls := [CStartBroadHit(h.kind, h.objIdx, h.leafIdx)] + DispCalls(h.dispLeaves) + [CFinishBroadHit];
    assert calls[1..] == DispCalls(h.dispLeaves) + [CFinishBroadHit];
    RunAppend(s1, DispCalls(h.dispLeaves), [CFinishBroadHit]);
    var s2 := Run(s1, DispCalls(h.dispLeaves));
    if h.kind == Bvh.Displacement {
      RunDispCalls(s, u, h.leafIdx, h.objIdx, h.dispLeaves);
      assert s2 == InsideHit(s, u, RecordOf(h));
    } else {
      assert h.dispLeaves == [];
      assert s2 == InsideHit(s, u, RecordOf(h));
    }
    RunOne(s2, CFinishBroadHit);
  }

  lemma {:induction false} RunHitsCalls(s: State, u: Unfinished, hits: seq<HitSpec>)
    requires !DidUsageErrorOccur(s) && u.openHit.None? && u.openDisp.None?
    requires forall k :: 0 <= k < |hits| ==> ProperHit(hits[k])
    ensures Run(s.(unfinished := Some(u)), HitsCalls(hits))
         == s.(unfinished := Some(u.(finished := u.finished + RecordsOf(hits))))
    decreases |hits|
  {
    if hits == [] {
      assert u.finished + RecordsOf(hits) == u.finished;
    } else {
      var init := hits[..|hits| - 1];
      var last := hits[|hits| - 1];
      RunAppend(s.(unfinished := Some(u)), HitsCalls(init), HitCalls(last));
      RunHitsCalls(s, u, init);
      var u1 := u.(finished := u.finished + RecordsOf(init));
      RunHitCalls(s, u1, last);
      assert u.finished + RecordsOf(init) + [RecordOf(last)] == u.finished + RecordsOf(hits);
    }
  }

  /** Starting a trace and bracketing its hits leaves the trace open with their records. */
  lemma RunOpenTrace(s: State, info: int, hits: seq<HitSpec>)
    requires !DidUsageErrorOccur(s) && s.unfinished.None?
    requires forall k :: 0 <= k < |hits| ==> ProperHit(hits[k])
    ensures Run(s, OpeningCalls(info, hits))
         == s.(unfinished := Some(Unfinished(info, None, None, RecordsOf(hits))))
  {
    var u := Unfinished(info, None, None, []);
    RunCons(s, CStartTrace(info), HitsCalls(hits));
    RunHitsCalls(s, u, hits);
    assert [] + RecordsOf(hits) == RecordsOf(hits);
  }

  /**
   * A correctly nested call sequence on a state with no open trace and no error records no
   * error and appends exactly one history entry holding the bracketed hits in call order.
   */
  lemma TraceRecorded(s: State, info: int, hits: seq<HitSpec>, results: int)
    requires !DidUsageErrorOccur(s) && s.unfinished.None?
    requires forall k :: 0 <= k < |hits| ==> ProperHit(hits[k])
    ensures Run(s, TraceCalls(info, hits, results))
         == State(PushHistory(s.history, HistoryEntry(info, results, RecordsOf(hits))), None, None, DEFAULT_DRAW_STATE)
  {
    var opening := OpeningCalls(info, hits);
    RunAppend(s, opening, [CFinishTrace(results)]);
    RunOpenTrace(s, info, hits);
    RunOne(Run(s, opening), CFinishTrace(results));
  }
}
