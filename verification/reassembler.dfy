/** The loop of `analyze_rtp_packets` in offline_rtp_analyzer.py: a left fold
    over the captured packets that keeps one frame accumulator per SSRC and
    appends a frame record to that SSRC's list whenever a marker packet closes
    a frame. This is the corrected reassembler: a frame's start time is an
    explicit `Option`, so a capture time of 0.0 is a time like any other (the
    Python code's zero sentinel is modelled in AsWritten). */
module Reassembler {
  import opened Options
  import Rtp
  import Frames

  /** The per-SSRC accumulators (`current_frame_start` and
      `current_frame_size`) and the per-SSRC records (`frame_data`). */
  datatype State = State(accs: map<nat, Frames.Acc>, frames: map<nat, seq<Frames.Frame>>)

  /** Before the first packet: no SSRC has been seen. */
  const Init := State(map[], map[])

  /** The stream of `ssrc` in `st`, with the defaults the Python code's
      `defaultdict`s supply for an SSRC not seen yet. */
  function StreamOf(st: State, ssrc: nat): Frames.Stream {
    Frames.Stream(if ssrc in st.accs then st.accs[ssrc] else Frames.Empty,
                  if ssrc in st.frames then st.frames[ssrc] else [])
  }

  function ItemOf(c: Rtp.Classified): Frames.Item {
    Frames.Item(c.time, c.size, c.marker)
  }

  /** One iteration of the loop. A packet that is not accepted (or whose field
      extraction would raise) changes nothing; an accepted packet is fed to
      the stream of its own SSRC and to no other, and `frame_data` gains a key
      only when a marker packet appends a record to it. */
  function Step(st: State, p: Rtp.Packet): (r: State)
    ensures !Rtp.IsRtpPacket(p) ==> r == st
    ensures Rtp.IsRtpPacket(p) ==>
      var c := Rtp.Classify(p).value;
      && StreamOf(r, c.ssrc) == Frames.Feed(StreamOf(st, c.ssrc), ItemOf(c))
      && (forall s :: s != c.ssrc ==> StreamOf(r, s) == StreamOf(st, s))
      && r.frames.Keys == st.frames.Keys + (if c.marker then {c.ssrc} else {})
  {
    match Rtp.Classify(p)
    case None => st
    case Some(c) =>
      var s := Frames.Feed(StreamOf(st, c.ssrc), ItemOf(c));
      State(st.accs[c.ssrc := s.acc], if c.marker then st.frames[c.ssrc := s.frames] else st.frames)
  }

  /** The loop over the packets `ps`, in capture order. */
  function Run(st: State, ps: seq<Rtp.Packet>): State
    decreases |ps|
  {
    if ps == [] then st else Run(Step(st, ps[0]), ps[1..])
  }

  /** `analyze_rtp_packets` on an already read capture: the records per SSRC. */
  function Analyze(ps: seq<Rtp.Packet>): map<nat, seq<Frames.Frame>> {
    Run(Init, ps).frames
  }

  /** The accepted packets of SSRC `s` among `ps`, in capture order. */
  function Items(ps: seq<Rtp.Packet>, s: nat): seq<Frames.Item>
    decreases |ps|
  {
    if ps == [] then []
    else
      var c := Rtp.Classify(ps[0]);
      (if c.Some? && c.value.ssrc == s then [ItemOf(c.value)] else []) + Items(ps[1..], s)
  }

  // ---------------------------------------------------------------------
  // Streams are independent.
  // ---------------------------------------------------------------------

  /** The stream of SSRC `s` after the loop is the single-stream fold over
      exactly the packets of `s`: other SSRCs' packets never touch it. */
  lemma {:induction false} StreamIsolation(st: State, ps: seq<Rtp.Packet>, s: nat)
    ensures StreamOf(Run(st, ps), s) == Frames.Run(StreamOf(st, s), Items(ps, s))
    decreases |ps|
  {
    if ps != [] {
      var p := ps[0];
      StreamIsolation(Step(st, p), ps[1..], s);
      var c := Rtp.Classify(p);
      if c.Some? && c.value.ssrc == s {
        assert Items(ps, s) == [ItemOf(c.value)] + Items(ps[1..], s);
        assert ([ItemOf(c.value)] + Items(ps[1..], s))[1..] == Items(ps[1..], s);
      } else {
        assert Items(ps, s) == Items(ps[1..], s);
      }
    }
  }

  /** SSRC `s` has a record list exactly when it had one before or one of its
      packets carries the marker bit. */
  lemma {:induction false} FrameKeys(st: State, ps: seq<Rtp.Packet>, s: nat)
    ensures s in Run(st, ps).frames <==> s in st.frames || Frames.CountMarkers(Items(ps, s)) > 0
    decreases |ps|
  {
    if ps != [] {
      var p := ps[0];
      FrameKeys(Step(st, p), ps[1..], s);
      var c := Rtp.Classify(p);
      var head: seq<Frames.Item> := if c.Some? && c.value.ssrc == s then [ItemOf(c.value)] else [];
      assert Items(ps, s) == head + Items(ps[1..], s);
      Frames.CountMarkersAppend(head, Items(ps[1..], s));
      if head != [] {
        assert head[1..] == [];
      }
    }
  }

  /** Only an accepted packet contributes to a stream, so every SSRC with a
      packet is a 32-bit value. */
  lemma {:induction false} ItemsSsrcBound(ps: seq<Rtp.Packet>, s: nat)
    requires Items(ps, s) != []
    ensures s < Rtp.SsrcBound
    decreases |ps|
  {
    var c := Rtp.Classify(ps[0]);
    if !(c.Some? && c.value.ssrc == s) {
      ItemsSsrcBound(ps[1..], s);
    }
  }

  /** The output of `analyze_rtp_packets`. Its keys are exactly the 32-bit
      SSRCs that had at least one marker packet. For such an SSRC there is one
      record per marker packet, and record `j` covers run `j` of the SSRC's
      packets: the ones after the previous marker packet up to and including
      the `j`-th. Its size is the sum of their UDP payload lengths and its start
      is the time of the first of them. */
  lemma AnalyzeFrames(ps: seq<Rtp.Packet>, s: nat)
    ensures s in Analyze(ps) <==> Frames.CountMarkers(Items(ps, s)) > 0
    ensures s in Analyze(ps) ==> s < Rtp.SsrcBound
    ensures s in Analyze(ps) ==>
      var frames, runs := Analyze(ps)[s], Frames.Runs(Items(ps, s));
      && |frames| == |runs| == Frames.CountMarkers(Items(ps, s))
      && forall j :: 0 <= j < |frames| ==>
           frames[j].start == runs[j][0].time && frames[j].size == Frames.SumSizes(runs[j])
  {
    FrameKeys(Init, ps, s);
    StreamIsolation(Init, ps, s);
    assert StreamOf(Init, s) == Frames.Start;
    Frames.FrameRecords(Items(ps, s));
    if s in Analyze(ps) {
      ItemsSsrcBound(ps, s);
    }
  }

  lemma {:induction false} ItemsAppend(ps: seq<Rtp.Packet>, qs: seq<Rtp.Packet>, s: nat)
    ensures Items(ps + qs, s) == Items(ps, s) + Items(qs, s)
    decreases |ps|
  {
    if ps == [] {
      assert ps + qs == qs;
    } else {
      assert (ps + qs)[0] == ps[0];
      assert (ps + qs)[1..] == ps[1..] + qs;
      ItemsAppend(ps[1..], qs, s);
    }
  }

  /** Packets with no accepted packet of SSRC `s` among them contribute nothing to `s`. */
  lemma {:induction false} ItemsOfOtherStreams(other: seq<Rtp.Packet>, s: nat)
    requires forall i :: 0 <= i < |other| ==> Rtp.Classify(other[i]).None? || Rtp.Classify(other[i]).value.ssrc != s
    ensures Items(other, s) == []
    decreases |other|
  {
    if other != [] {
      assert forall i :: 0 <= i < |other[1..]| ==> other[1..][i] == other[i + 1];
      ItemsOfOtherStreams(other[1..], s);
    }
  }

  /** Interleaving packets of other SSRCs, or packets that are not accepted,
      anywhere in the capture does not change the records of SSRC `s`. */
  lemma InterleavingIrrelevant(before: seq<Rtp.Packet>, other: seq<Rtp.Packet>, after: seq<Rtp.Packet>, s: nat)
    requires forall i :: 0 <= i < |other| ==> Rtp.Classify(other[i]).None? || Rtp.Classify(other[i]).value.ssrc != s
    ensures s in Analyze(before + other + after) <==> s in Analyze(before + after)
    ensures s in Analyze(before + after) ==> Analyze(before + other + after)[s] == Analyze(before + after)[s]
  {
    ItemsOfOtherStreams(other, s);
    ItemsAppend(before + other, after, s);
    ItemsAppend(before, other, s);
    ItemsAppend(before, after, s);
    assert Items(before + other + after, s) == Items(before + after, s);
    FrameKeys(Init, before + other + after, s);
    FrameKeys(Init, before + after, s);
    StreamIsolation(Init, before + other + after, s);
    StreamIsolation(Init, before + after, s);
  }

  /** A packet that is not accepted leaves every accumulator and every record
      list as it was, wherever it appears in the capture. */
  lemma NonMatchingSkipped(before: seq<Rtp.Packet>, p: Rtp.Packet, after: seq<Rtp.Packet>)
    requires !Rtp.IsRtpPacket(p)
    ensures Run(Init, before + [p] + after) == Run(Init, before + after)
  {
    RunAppend(Init, before, [p] + after);
    RunAppend(Init, before, after);
    assert before + [p] + after == before + ([p] + after);
    assert ([p] + after)[1..] == after;
  }

  lemma {:induction false} RunAppend(st: State, ps: seq<Rtp.Packet>, qs: seq<Rtp.Packet>)
    ensures Run(st, ps + qs) == Run(Run(st, ps), qs)
    decreases |ps|
  {
    if ps == [] {
      assert ps + qs == qs;
    } else {
      assert (ps + qs)[0] == ps[0];
      assert (ps + qs)[1..] == ps[1..] + qs;
      RunAppend(Step(st, ps[0]), ps[1..], qs);
    }
  }

  // ---------------------------------------------------------------------
  // The fold as an iteration.
  // ---------------------------------------------------------------------

  /** The corrected reassembler as a loop that applies `Step` to one packet
      per iteration; it computes the fold. (The loop over the three
      dictionaries, statement by statement, is `AsWritten.AnalyzeLoopAsWritten`.) */
  method AnalyzeLoop(ps: seq<Rtp.Packet>) returns (frames: map<nat, seq<Frames.Frame>>)
    ensures frames == Analyze(ps)
    ensures forall s :: s in frames ==> s < Rtp.SsrcBound && |frames[s]| == Frames.CountMarkers(Items(ps, s))
  {
    var st := Init;
    var i := 0;
    while i < |ps|
      invariant 0 <= i <= |ps|
      invariant Run(st, ps[i..]) == Run(Init, ps)
    {
      assert ps[i..][1..] == ps[i + 1..];
      st := Step(st, ps[i]);
      i := i + 1;
    }
    assert ps[i..] == [];
    frames := st.frames;
    forall s | s in frames
      ensures s < Rtp.SsrcBound && |frames[s]| == Frames.CountMarkers(Items(ps, s))
    {
      AnalyzeFrames(ps, s);
    }
  }
}
