/** The loop of `analyze_rtp_packets` exactly as offline_rtp_analyzer.py writes
    it: `current_frame_start` is a float that defaults to 0, and its truth
    value decides whether a frame is in progress, so 0.0 doubles as "unset". A packet captured at
    time 0.0 therefore does not set the start time. The model is related to the
    corrected reassembler: the two always agree on which SSRCs have records, on
    how many records each has and on every record's size, and they agree
    entirely when no accepted packet has capture time 0.0. */
module AsWritten {
  import opened Options
  import Rtp
  import Frames
  import Reassembler

  /** An accumulator as the Python code keeps it: start 0.0 means unset. */
  datatype LitAcc = LitAcc(start: real, size: nat)

  /** `current_frame_start`/`current_frame_size` per SSRC and `frame_data`. */
  datatype LitState = LitState(accs: map<nat, LitAcc>, frames: map<nat, seq<Frames.Frame>>)

  const LitInit := LitState(map[], map[])

  /** The accumulator of `ssrc`, defaulting to `(0, 0)` like the `defaultdict`s. */
  function AccAt(st: LitState, ssrc: nat): LitAcc {
    if ssrc in st.accs then st.accs[ssrc] else LitAcc(0.0, 0)
  }

  function FramesAt(st: LitState, ssrc: nat): seq<Frames.Frame> {
    if ssrc in st.frames then st.frames[ssrc] else []
  }

  /** One iteration of the Python loop. A packet that is not accepted
      changes nothing; an accepted packet touches only its own SSRC's entries.
      Its start is set only when it holds 0.0 (which Python reads as false),
      its size grows by the payload length, and a marker packet appends the
      record `(start, size)` and stores 0 in both. */
  function StepAsWritten(st: LitState, p: Rtp.Packet): (r: LitState)
    ensures !Rtp.IsRtpPacket(p) ==> r == st
    ensures Rtp.IsRtpPacket(p) ==>
      var c := Rtp.Classify(p).value;
      var a := AccAt(st, c.ssrc);
      var start := if a.start == 0.0 then c.time else a.start;
      && (forall s :: s != c.ssrc ==> AccAt(r, s) == AccAt(st, s) && FramesAt(r, s) == FramesAt(st, s))
      && (c.marker ==> && AccAt(r, c.ssrc) == LitAcc(0.0, 0)
                       && FramesAt(r, c.ssrc) == FramesAt(st, c.ssrc) + [Frames.Frame(start, a.size + c.size)])
      && (!c.marker ==> && AccAt(r, c.ssrc) == LitAcc(start, a.size + c.size)
                        && FramesAt(r, c.ssrc) == FramesAt(st, c.ssrc))
      && r.frames.Keys == st.frames.Keys + (if c.marker then {c.ssrc} else {})
  {
    match Rtp.Classify(p)
    case None => st
    case Some(c) =>
      var a := AccAt(st, c.ssrc);
      var start := if a.start == 0.0 then c.time else a.start;
      var size := a.size + c.size;
      if c.marker then
        LitState(st.accs[c.ssrc := LitAcc(0.0, 0)],
                 st.frames[c.ssrc := FramesAt(st, c.ssrc) + [Frames.Frame(start, size)]])
      else
        LitState(st.accs[c.ssrc := LitAcc(start, size)], st.frames)
  }

  function RunAsWritten(st: LitState, ps: seq<Rtp.Packet>): LitState
    decreases |ps|
  {
    if ps == [] then st else RunAsWritten(StepAsWritten(st, ps[0]), ps[1..])
  }

  /** `analyze_rtp_packets` as written, on an already read capture. */
  function AnalyzeAsWritten(ps: seq<Rtp.Packet>): map<nat, seq<Frames.Frame>> {
    RunAsWritten(LitInit, ps).frames
  }

  // ---------------------------------------------------------------------
  // Sizes, counts and keys never depend on the sentinel.
  // ---------------------------------------------------------------------

  predicate SameSizes(a: seq<Frames.Frame>, b: seq<Frames.Frame>) {
    |a| == |b| && forall j :: 0 <= j < |a| ==> a[j].size == b[j].size
  }

  /** The two states have the same record keys, record counts, record sizes
      and running byte totals; only start times may differ. */
  ghost predicate SameShape(l: LitState, c: Reassembler.State) {
    && l.frames.Keys == c.frames.Keys
    && (forall s :: s in l.frames ==> SameSizes(l.frames[s], c.frames[s]))
    && (forall s :: AccAt(l, s).size == Reassembler.StreamOf(c, s).acc.size)
  }

  lemma StepSameShape(l: LitState, c: Reassembler.State, p: Rtp.Packet)
    requires SameShape(l, c)
    ensures SameShape(StepAsWritten(l, p), Reassembler.Step(c, p))
  {
    if Rtp.IsRtpPacket(p) {
      var k := Rtp.Classify(p).value;
      var l', c' := StepAsWritten(l, p), Reassembler.Step(c, p);
      assert Reassembler.StreamOf(c', k.ssrc)
          == Frames.Feed(Reassembler.StreamOf(c, k.ssrc), Reassembler.ItemOf(k));
      assert SameSizes(FramesAt(l, k.ssrc), Reassembler.StreamOf(c, k.ssrc).frames);
      forall s | s in l'.frames
        ensures SameSizes(l'.frames[s], c'.frames[s])
      {
        if s == k.ssrc && k.marker {
          var a, b := FramesAt(l, s), Reassembler.StreamOf(c, s).frames;
          assert l'.frames[s][..|a|] == a;
          assert c'.frames[s] == Reassembler.StreamOf(c', s).frames;
          assert c'.frames[s][..|b|] == b;
        } else {
          assert FramesAt(l', s) == FramesAt(l, s);
          assert Reassembler.StreamOf(c', s).frames == Reassembler.StreamOf(c, s).frames;
        }
      }
    }
  }

  lemma {:induction false} RunSameShape(l: LitState, c: Reassembler.State, ps: seq<Rtp.Packet>)
    requires SameShape(l, c)
    ensures SameShape(RunAsWritten(l, ps), Reassembler.Run(c, ps))
    decreases |ps|
  {
    if ps != [] {
      StepSameShape(l, c, ps[0]);
      RunSameShape(StepAsWritten(l, ps[0]), Reassembler.Step(c, ps[0]), ps[1..]);
    }
  }

  /** What the Python code computes, whatever the capture times: the keys are the
      SSRCs with a marker packet, one record per marker packet, and record `j`
      of an SSRC has the byte total of exactly run `j` of its packets. */
  lemma AsWrittenFrameSizes(ps: seq<Rtp.Packet>, s: nat)
    ensures s in AnalyzeAsWritten(ps) <==> Frames.CountMarkers(Reassembler.Items(ps, s)) > 0
    ensures s in AnalyzeAsWritten(ps) ==>
      var frames, runs := AnalyzeAsWritten(ps)[s], Frames.Runs(Reassembler.Items(ps, s));
      && |frames| == |runs| == Frames.CountMarkers(Reassembler.Items(ps, s))
      && forall j :: 0 <= j < |frames| ==> frames[j].size == Frames.SumSizes(runs[j])
  {
    RunSameShape(LitInit, Reassembler.Init, ps);
    Reassembler.AnalyzeFrames(ps, s);
  }

  // ---------------------------------------------------------------------
  // Without a zero capture time the sentinel is harmless.
  // ---------------------------------------------------------------------

  /** The Python code's accumulator for a corrected one: unset becomes 0.0. */
  function Erase(a: Frames.Acc): LitAcc {
    LitAcc(a.start.ValueOr(0.0), a.size)
  }

  /** No accepted packet of `ps` was captured at time 0.0. */
  predicate NoZeroTime(ps: seq<Rtp.Packet>) {
    forall i :: 0 <= i < |ps| && Rtp.IsRtpPacket(ps[i]) ==> ps[i].time != 0.0
  }

  ghost predicate Agree(l: LitState, c: Reassembler.State) {
    && l.frames == c.frames
    && forall s :: AccAt(l, s) == Erase(Reassembler.StreamOf(c, s).acc)
                   && Reassembler.StreamOf(c, s).acc.start != Some(0.0)
  }

  lemma StepAgrees(l: LitState, c: Reassembler.State, p: Rtp.Packet)
    requires Agree(l, c)
    requires Rtp.IsRtpPacket(p) ==> p.time != 0.0
    ensures Agree(StepAsWritten(l, p), Reassembler.Step(c, p))
  {
    if Rtp.IsRtpPacket(p) {
      var k := Rtp.Classify(p).value;
      var c' := Reassembler.Step(c, p);
      assert Reassembler.StreamOf(c', k.ssrc)
          == Frames.Feed(Reassembler.StreamOf(c, k.ssrc), Reassembler.ItemOf(k));
      assert FramesAt(l, k.ssrc) == Reassembler.StreamOf(c, k.ssrc).frames;
    }
  }

  lemma {:induction false} RunAgrees(l: LitState, c: Reassembler.State, ps: seq<Rtp.Packet>)
    requires Agree(l, c)
    requires NoZeroTime(ps)
    ensures Agree(RunAsWritten(l, ps), Reassembler.Run(c, ps))
    decreases |ps|
  {
    if ps != [] {
      StepAgrees(l, c, ps[0]);
      assert forall i :: 0 <= i < |ps[1..]| ==> ps[1..][i] == ps[i + 1];
      RunAgrees(StepAsWritten(l, ps[0]), Reassembler.Step(c, ps[0]), ps[1..]);
    }
  }

  /** When no accepted packet has capture time 0.0, the Python code's output is the
      corrected reassembler's output, start times included. */
  lemma AgreeWithoutZeroTime(ps: seq<Rtp.Packet>)
    requires NoZeroTime(ps)
    ensures AnalyzeAsWritten(ps) == Reassembler.Analyze(ps)
  {
    RunAgrees(LitInit, Reassembler.Init, ps);
  }

  // ---------------------------------------------------------------------
  // Whatever the capture times: the start the sentinel leaves.
  // ---------------------------------------------------------------------

  /** One stream as the Python code keeps it: its accumulator and its records. */
  datatype LitStream = LitStream(acc: LitAcc, frames: seq<Frames.Frame>)

  const LitStart := LitStream(LitAcc(0.0, 0), [])

  function LitStreamOf(st: LitState, ssrc: nat): LitStream {
    LitStream(AccAt(st, ssrc), FramesAt(st, ssrc))
  }

  /** Lines 41-49 for one stream: the packet's time becomes the start only
      when the start holds 0.0; a marker packet emits the record and stores 0. */
  function LitFeed(s: LitStream, x: Frames.Item): (r: LitStream)
    ensures s.frames <= r.frames
    ensures x.marker ==> r.acc == LitAcc(0.0, 0) && |r.frames| == |s.frames| + 1
    ensures !x.marker ==> r.frames == s.frames && (r.acc.start == 0.0 <==> s.acc.start == 0.0 && x.time == 0.0)
  {
    var start := if s.acc.start == 0.0 then x.time else s.acc.start;
    var size := s.acc.size + x.size;
    if x.marker then
      LitStream(LitAcc(0.0, 0), s.frames + [Frames.Frame(start, size)])
    else
      LitStream(LitAcc(start, size), s.frames)
  }

  function LitRun(s: LitStream, xs: seq<Frames.Item>): (r: LitStream)
    ensures s.frames <= r.frames
    decreases |xs|
  {
    if xs == [] then s else LitRun(LitFeed(s, xs[0]), xs[1..])
  }

  /** The start the Python code holds after the packets `xs` of one frame:
      the first capture time that is not 0.0, or 0.0 when every one is. */
  function FirstNonZeroTime(xs: seq<Frames.Item>): (t: real)
    ensures t == 0.0 <==> forall i :: 0 <= i < |xs| ==> xs[i].time == 0.0
    ensures forall k :: 0 <= k < |xs| && xs[k].time != 0.0 && (forall i :: 0 <= i < k ==> xs[i].time == 0.0)
                        ==> t == xs[k].time
    decreases |xs|
  {
    if xs == [] then 0.0
    else if xs[0].time != 0.0 then xs[0].time
    else
      var t := FirstNonZeroTime(xs[1..]);
      assert forall i :: 1 <= i < |xs| ==> xs[1..][i - 1] == xs[i];
      t
  }

  lemma {:induction false} FirstNonZeroTimeSnoc(pre: seq<Frames.Item>, x: Frames.Item)
    ensures FirstNonZeroTime(pre + [x])
         == if FirstNonZeroTime(pre) == 0.0 then x.time else FirstNonZeroTime(pre)
    decreases |pre|
  {
    if pre == [] {
      assert pre + [x] == [x];
      assert [x][1..] == [];
    } else {
      assert (pre + [x])[0] == pre[0];
      assert (pre + [x])[1..] == pre[1..] + [x];
      FirstNonZeroTimeSnoc(pre[1..], x);
    }
  }

  /** The accumulator after the packets `pending` of an unterminated frame. */
  function LitAccOf(pending: seq<Frames.Item>): LitAcc {
    LitAcc(FirstNonZeroTime(pending), Frames.SumSizes(pending))
  }

  /** The record the Python code emits for one run. */
  function LitFrameOf(run: seq<Frames.Item>): Frames.Frame {
    Frames.Frame(FirstNonZeroTime(run), Frames.SumSizes(run))
  }

  function LitFramesOf(rs: seq<seq<Frames.Item>>): (fs: seq<Frames.Frame>)
    ensures |fs| == |rs|
    ensures forall j :: 0 <= j < |rs| ==> fs[j] == LitFrameOf(rs[j])
  {
    if rs == [] then [] else [LitFrameOf(rs[0])] + LitFramesOf(rs[1..])
  }

  lemma LitFeedPending(pre: seq<Frames.Item>, out: seq<Frames.Frame>, x: Frames.Item)
    ensures !x.marker ==> LitFeed(LitStream(LitAccOf(pre), out), x) == LitStream(LitAccOf(pre + [x]), out)
    ensures x.marker ==> LitFeed(LitStream(LitAccOf(pre), out), x) == LitStream(LitAccOf([]), out + [LitFrameOf(pre + [x])])
  {
    Frames.SumSizesAppend(pre, [x]);
    assert Frames.SumSizes([x]) == x.size;
    FirstNonZeroTimeSnoc(pre, x);
  }

  lemma LitFramesOfCons(run: seq<Frames.Item>, rs: seq<seq<Frames.Item>>)
    ensures LitFramesOf([run] + rs) == [LitFrameOf(run)] + LitFramesOf(rs)
  {
    assert ([run] + rs)[1..] == rs;
  }

  /** Feeding `xs` to an accumulator that holds the marker-free packets `pre`
      emits one record per run of `pre + xs`, each starting at the run's first
      non-zero time, and keeps the tail pending. */
  lemma {:induction false} LitRunFromPending(pre: seq<Frames.Item>, out: seq<Frames.Frame>, xs: seq<Frames.Item>)
    requires Frames.NoMarker(pre)
    ensures LitRun(LitStream(LitAccOf(pre), out), xs)
         == LitStream(LitAccOf(Frames.Tail(pre + xs)), out + LitFramesOf(Frames.Runs(pre + xs)))
    decreases |xs|
  {
    if xs == [] {
      assert pre + xs == pre;
    } else {
      var x, rest := xs[0], xs[1..];
      var pre' := pre + [x];
      var s := LitStream(LitAccOf(pre), out);
      assert LitRun(s, xs) == LitRun(LitFeed(s, x), rest);
      assert pre + xs == pre' + rest;
      LitFeedPending(pre, out, x);
      if x.marker {
        var f := LitFrameOf(pre');
        var fs := LitFramesOf(Frames.Runs(rest));
        assert LitFeed(s, x) == LitStream(LitAccOf([]), out + [f]);
        LitRunFromPending([], out + [f], rest);
        assert [] + rest == rest;
        assert LitRun(s, xs) == LitStream(LitAccOf(Frames.Tail(rest)), (out + [f]) + fs);
        Frames.RunsAfterPending(pre, x, rest);
        assert Frames.Runs(pre + xs) == [pre'] + Frames.Runs(rest);
        assert Frames.Tail(pre + xs) == Frames.Tail(rest);
        LitFramesOfCons(pre', Frames.Runs(rest));
        assert LitFramesOf(Frames.Runs(pre + xs)) == [f] + fs;
        Frames.AppendAssoc<Frames.Frame>(out, [f], fs);
      } else {
        Frames.NoMarkerSnoc(pre, x);
        LitRunFromPending(pre', out, rest);
      }
    }
  }

  /** One stream as written: record `j` is the record of run `j`. */
  lemma LitStreamFrames(xs: seq<Frames.Item>)
    ensures LitRun(LitStart, xs) == LitStream(LitAccOf(Frames.Tail(xs)), LitFramesOf(Frames.Runs(xs)))
  {
    LitRunFromPending([], [], xs);
    assert [] + xs == xs;
    assert LitAccOf([]) == LitAcc(0.0, 0);
  }

  /** Other SSRCs' packets never touch the stream of `s`. */
  lemma {:induction false} LitIsolation(st: LitState, ps: seq<Rtp.Packet>, s: nat)
    ensures LitStreamOf(RunAsWritten(st, ps), s) == LitRun(LitStreamOf(st, s), Reassembler.Items(ps, s))
    decreases |ps|
  {
    if ps != [] {
      var p := ps[0];
      LitIsolation(StepAsWritten(st, p), ps[1..], s);
      var c := Rtp.Classify(p);
      if c.Some? && c.value.ssrc == s {
        var x := Reassembler.ItemOf(c.value);
        assert LitStreamOf(StepAsWritten(st, p), s) == LitFeed(LitStreamOf(st, s), x);
        assert Reassembler.Items(ps, s) == [x] + Reassembler.Items(ps[1..], s);
        assert ([x] + Reassembler.Items(ps[1..], s))[1..] == Reassembler.Items(ps[1..], s);
      } else {
        assert LitStreamOf(StepAsWritten(st, p), s) == LitStreamOf(st, s);
        assert Reassembler.Items(ps, s) == Reassembler.Items(ps[1..], s);
      }
    }
  }

  /** What the Python code outputs for every capture: record `j` of SSRC `s`
      covers run `j` of its packets, has their byte total, and starts at the
      first capture time in the run that is not 0.0 (0.0 when there is none). */
  lemma AsWrittenFrameRecords(ps: seq<Rtp.Packet>, s: nat)
    ensures s in AnalyzeAsWritten(ps) ==>
      var frames, runs := AnalyzeAsWritten(ps)[s], Frames.Runs(Reassembler.Items(ps, s));
      && |frames| == |runs|
      && forall j :: 0 <= j < |frames| ==>
           frames[j] == Frames.Frame(FirstNonZeroTime(runs[j]), Frames.SumSizes(runs[j]))
  {
    LitIsolation(LitInit, ps, s);
    assert LitStreamOf(LitInit, s) == LitStart;
    LitStreamFrames(Reassembler.Items(ps, s));
  }

  /** A record whose run does not begin at capture time 0.0 starts at the
      run's first packet. A record equals the corrected reassembler's exactly
      when its run does not begin at 0.0 or lies entirely at 0.0; it differs
      exactly when the run begins at 0.0 and has a later packet not at 0.0. */
  lemma AsWrittenFrameStarts(ps: seq<Rtp.Packet>, s: nat)
    ensures s in AnalyzeAsWritten(ps) <==> s in Reassembler.Analyze(ps)
    ensures s in AnalyzeAsWritten(ps) ==>
      var frames, runs := AnalyzeAsWritten(ps)[s], Frames.Runs(Reassembler.Items(ps, s));
      && |frames| == |runs| == |Reassembler.Analyze(ps)[s]|
      && (forall j :: 0 <= j < |frames| && runs[j][0].time != 0.0 ==> frames[j].start == runs[j][0].time)
      && forall j :: 0 <= j < |frames| ==>
           (frames[j] == Reassembler.Analyze(ps)[s][j]
            <==> runs[j][0].time != 0.0 || forall i :: 0 <= i < |runs[j]| ==> runs[j][i].time == 0.0)
  {
    AsWrittenFrameRecords(ps, s);
    AsWrittenFrameSizes(ps, s);
    Reassembler.AnalyzeFrames(ps, s);
  }

  // ---------------------------------------------------------------------
  // The loop over the three dictionaries, statement by statement.
  // ---------------------------------------------------------------------

  /** The three dictionaries as one state; a key missing from either
      accumulator map reads as its `defaultdict` default. */
  function Pack(starts: map<nat, real>, sizes: map<nat, nat>, frameData: map<nat, seq<Frames.Frame>>): (st: LitState)
    ensures forall s :: AccAt(st, s) == LitAcc(if s in starts then starts[s] else 0.0, if s in sizes then sizes[s] else 0)
    ensures st.frames == frameData
  {
    LitState(map s | s in starts.Keys + sizes.Keys ::
               LitAcc(if s in starts then starts[s] else 0.0, if s in sizes then sizes[s] else 0),
             frameData)
  }

  /** Two states whose accumulators read the same everywhere step alike. */
  lemma StepReadsOnlyDefaults(a: LitState, b: LitState, p: Rtp.Packet)
    requires a.frames == b.frames
    requires forall s :: AccAt(a, s) == AccAt(b, s)
    ensures StepAsWritten(a, p).frames == StepAsWritten(b, p).frames
    ensures forall s :: AccAt(StepAsWritten(a, p), s) == AccAt(StepAsWritten(b, p), s)
  {
  }

  lemma {:induction false} RunReadsOnlyDefaults(a: LitState, b: LitState, ps: seq<Rtp.Packet>)
    requires a.frames == b.frames
    requires forall s :: AccAt(a, s) == AccAt(b, s)
    ensures RunAsWritten(a, ps).frames == RunAsWritten(b, ps).frames
    decreases |ps|
  {
    if ps != [] {
      StepReadsOnlyDefaults(a, b, ps[0]);
      RunReadsOnlyDefaults(StepAsWritten(a, ps[0]), StepAsWritten(b, ps[0]), ps[1..]);
    }
  }

  /** The body of the loop (lines 33-49) for one packet, on the three
      dictionaries: read the fields, set the start if it is 0.0, add the
      length, and on the marker bit append the record and store 0 in both.
      The dictionaries then read as one step of the fold. */
  method ProcessPacket(starts: map<nat, real>, sizes: map<nat, nat>, frameData: map<nat, seq<Frames.Frame>>,
                       packet: Rtp.Packet)
    returns (starts': map<nat, real>, sizes': map<nat, nat>, frameData': map<nat, seq<Frames.Frame>>)
    ensures var r := StepAsWritten(Pack(starts, sizes, frameData), packet);
      && frameData' == r.frames
      && forall s :: AccAt(Pack(starts', sizes', frameData'), s) == AccAt(r, s)
  {
    starts', sizes', frameData' := starts, sizes, frameData;
    if Rtp.IsRtpPacket(packet) {
      var payload := packet.udp.value;
      var timestamp := packet.time;
      var ssrc := Rtp.UnpackU32(Rtp.Slice(payload, 8, 12)).value;
      var marker := Rtp.MarkerField(payload[1]);
      var packetSize := |payload|;
      assert Rtp.Classify(packet) == Some(Rtp.Classified(ssrc, marker == 1, packetSize, timestamp));

      var start := if ssrc in starts' then starts'[ssrc] else 0.0;
      if start == 0.0 {
        starts' := starts'[ssrc := timestamp];
      } else {
        starts' := starts'[ssrc := start];
      }
      var size := if ssrc in sizes' then sizes'[ssrc] else 0;
      sizes' := sizes'[ssrc := size + packetSize];

      if marker == 1 {
        var list := if ssrc in frameData' then frameData'[ssrc] else [];
        frameData' := frameData'[ssrc := list + [Frames.Frame(starts'[ssrc], sizes'[ssrc])]];
        starts' := starts'[ssrc := 0.0];
        sizes' := sizes'[ssrc := 0];
      }
      AfterPacket(starts, sizes, frameData, packet, starts', sizes', frameData');
    }
  }

  /** What the loop body leaves in the dictionaries, stated per key. */
  lemma AfterPacket(starts: map<nat, real>, sizes: map<nat, nat>, frameData: map<nat, seq<Frames.Frame>>,
                    packet: Rtp.Packet,
                    starts': map<nat, real>, sizes': map<nat, nat>, frameData': map<nat, seq<Frames.Frame>>)
    requires Rtp.IsRtpPacket(packet)
    requires var c, st := Rtp.Classify(packet).value, Pack(starts, sizes, frameData);
      var a := AccAt(st, c.ssrc);
      var start := if a.start == 0.0 then c.time else a.start;
      && (forall s :: s != c.ssrc ==> (s in starts' <==> s in starts) && (s in sizes' <==> s in sizes))
      && (forall s :: s != c.ssrc && s in starts ==> starts'[s] == starts[s])
      && (forall s :: s != c.ssrc && s in sizes ==> sizes'[s] == sizes[s])
      && c.ssrc in starts' && c.ssrc in sizes'
      && starts'[c.ssrc] == (if c.marker then 0.0 else start)
      && sizes'[c.ssrc] == (if c.marker then 0 else a.size + c.size)
      && frameData' == (if c.marker then frameData[c.ssrc := FramesAt(st, c.ssrc) + [Frames.Frame(start, a.size + c.size)]]
                        else frameData)
    ensures var r := StepAsWritten(Pack(starts, sizes, frameData), packet);
      && frameData' == r.frames
      && forall s :: AccAt(Pack(starts', sizes', frameData'), s) == AccAt(r, s)
  {
    var c, st := Rtp.Classify(packet).value, Pack(starts, sizes, frameData);
    var r := StepAsWritten(st, packet);
    assert st.frames == frameData;
    forall s ensures AccAt(Pack(starts', sizes', frameData'), s) == AccAt(r, s) {
      if s != c.ssrc {
        assert AccAt(r, s) == AccAt(st, s);
      }
    }
  }

  /** `analyze_rtp_packets` as offline_rtp_analyzer.py writes its loop:
      `current_frame_start`, `current_frame_size` and `frame_data` updated in
      place, one packet per iteration. It returns what the fold returns. */
  method AnalyzeLoopAsWritten(ps: seq<Rtp.Packet>) returns (frameData: map<nat, seq<Frames.Frame>>)
    ensures frameData == AnalyzeAsWritten(ps)
  {
    frameData := map[];
    var currentFrameStart: map<nat, real> := map[];
    var currentFrameSize: map<nat, nat> := map[];
    RunReadsOnlyDefaults(Pack(currentFrameStart, currentFrameSize, frameData), LitInit, ps);
    var i := 0;
    assert ps[i..] == ps;
    while i < |ps|
      invariant 0 <= i <= |ps|
      invariant RunAsWritten(Pack(currentFrameStart, currentFrameSize, frameData), ps[i..]).frames
             == AnalyzeAsWritten(ps)
    {
      var before := Pack(currentFrameStart, currentFrameSize, frameData);
      currentFrameStart, currentFrameSize, frameData :=
        ProcessPacket(currentFrameStart, currentFrameSize, frameData, ps[i]);
      assert ps[i..][1..] == ps[i + 1..];
      RunReadsOnlyDefaults(Pack(currentFrameStart, currentFrameSize, frameData), StepAsWritten(before, ps[i]), ps[i + 1..]);
      i := i + 1;
    }
    assert ps[i..] == [];
  }
}
