/** Small captures worked through the model: the two-stream example with a
    malformed packet in between, and the capture that shows the Python code's zero
    sentinel losing a frame's start time. */
module Captures {
  import opened Options
  import Rtp
  import Frames
  import Reassembler
  import AsWritten

  /** An accepted packet of `size` bytes (header included) for `ssrc`. */
  function VideoPacket(time: real, marker: bool, ssrc: nat, size: nat): Rtp.Packet
    requires ssrc < Rtp.SsrcBound && size >= Rtp.MinHeaderLen
  {
    Rtp.Packet(time, Some(Rtp.EncodeHeader(marker, ssrc, 0, [0, 0, 0, 0, 0, 0]) + seq(size - Rtp.MinHeaderLen, _ => 0)))
  }

  lemma ClassifyVideoPacket(time: real, marker: bool, ssrc: nat, size: nat)
    requires ssrc < Rtp.SsrcBound && size >= Rtp.MinHeaderLen
    ensures Rtp.Classify(VideoPacket(time, marker, ssrc, size)) == Some(Rtp.Classified(ssrc, marker, size, time))
  {
    Rtp.ClassifyEncodeHeader(time, marker, ssrc, 0, [0, 0, 0, 0, 0, 0], seq(size - Rtp.MinHeaderLen, _ => 0));
  }

  /** Stream 1 sends 50 and 60 bytes at 1.0 and 1.2 with the marker on the
      second packet; stream 2 sends one 40-byte marker packet at 1.1; a packet
      that is not accepted arrives in between. Each stream gets its one frame. */
  lemma TwoStreamsRun(p0: Rtp.Packet, p1: Rtp.Packet, p2: Rtp.Packet, p3: Rtp.Packet)
    requires Rtp.Classify(p0) == Some(Rtp.Classified(1, false, 50, 1.0))
    requires Rtp.Classify(p1) == Some(Rtp.Classified(2, true, 40, 1.1))
    requires Rtp.Classify(p2) == None
    requires Rtp.Classify(p3) == Some(Rtp.Classified(1, true, 60, 1.2))
    ensures Reassembler.Analyze([p0, p1, p2, p3])
         == map[1 := [Frames.Frame(1.0, 110)], 2 := [Frames.Frame(1.1, 40)]]
  {
    var ps := [p0, p1, p2, p3];
    assert ps[1..] == [p1, p2, p3] && ps[1..][1..] == [p2, p3] && ps[1..][1..][1..] == [p3];
    var s1 := Reassembler.Step(Reassembler.Init, p0);
    assert s1 == Reassembler.State(map[1 := Frames.Acc(Some(1.0), 50)], map[]);
    var s2 := Reassembler.Step(s1, p1);
    assert [] + [Frames.Frame(1.1, 40)] == [Frames.Frame(1.1, 40)];
    assert s2 == Reassembler.State(map[1 := Frames.Acc(Some(1.0), 50), 2 := Frames.Empty],
                                   map[2 := [Frames.Frame(1.1, 40)]]);
    var s3 := Reassembler.Step(s2, p2);
    assert s3 == s2;
    var s4 := Reassembler.Step(s3, p3);
    assert [] + [Frames.Frame(1.0, 110)] == [Frames.Frame(1.0, 110)];
    assert s4.frames == map[1 := [Frames.Frame(1.0, 110)], 2 := [Frames.Frame(1.1, 40)]];
    assert Reassembler.Run(s4, []) == s4;
    assert Reassembler.Run(s3, [p3]) == s4;
    assert Reassembler.Run(s2, [p2, p3]) == s4;
    assert Reassembler.Run(s1, [p1, p2, p3]) == s4;
  }

  /** The same with real RTP packets and a 5-byte UDP payload in between. */
  lemma TwoInterleavedStreams()
    ensures Reassembler.Analyze([
        VideoPacket(1.0, false, 1, 50),
        VideoPacket(1.1, true, 2, 40),
        Rtp.Packet(1.15, Some([0x80, 0x65, 0, 0, 0])),
        VideoPacket(1.2, true, 1, 60)])
      == map[1 := [Frames.Frame(1.0, 110)], 2 := [Frames.Frame(1.1, 40)]]
  {
    ClassifyVideoPacket(1.0, false, 1, 50);
    ClassifyVideoPacket(1.1, true, 2, 40);
    ClassifyVideoPacket(1.2, true, 1, 60);
    TwoStreamsRun(VideoPacket(1.0, false, 1, 50), VideoPacket(1.1, true, 2, 40),
                  Rtp.Packet(1.15, Some([0x80, 0x65, 0, 0, 0])), VideoPacket(1.2, true, 1, 60));
  }

  /** Two packets of one frame, the first captured at time 0.0. The Python code
      leaves the start unset and reports the second packet's time; the
      corrected reassembler reports 0.0. */
  lemma ZeroTimeRun(p0: Rtp.Packet, p1: Rtp.Packet)
    requires Rtp.Classify(p0) == Some(Rtp.Classified(7, false, 12, 0.0))
    requires Rtp.Classify(p1) == Some(Rtp.Classified(7, true, 12, 1.0))
    ensures AsWritten.AnalyzeAsWritten([p0, p1]) == map[7 := [Frames.Frame(1.0, 24)]]
    ensures Reassembler.Analyze([p0, p1]) == map[7 := [Frames.Frame(0.0, 24)]]
  {
    var ps := [p0, p1];
    assert ps[1..] == [p1] && ps[1..][1..] == [];
    var l1 := AsWritten.StepAsWritten(AsWritten.LitInit, p0);
    assert l1 == AsWritten.LitState(map[7 := AsWritten.LitAcc(0.0, 12)], map[]);
    var l2 := AsWritten.StepAsWritten(l1, p1);
    assert [] + [Frames.Frame(1.0, 24)] == [Frames.Frame(1.0, 24)];
    assert l2.frames == map[7 := [Frames.Frame(1.0, 24)]];
    assert AsWritten.RunAsWritten(l1, [p1]) == l2;
    var c1 := Reassembler.Step(Reassembler.Init, p0);
    assert c1 == Reassembler.State(map[7 := Frames.Acc(Some(0.0), 12)], map[]);
    var c2 := Reassembler.Step(c1, p1);
    assert [] + [Frames.Frame(0.0, 24)] == [Frames.Frame(0.0, 24)];
    assert c2.frames == map[7 := [Frames.Frame(0.0, 24)]];
    assert Reassembler.Run(c1, [p1]) == c2;
  }

  /** The same with real RTP packets: the Python code loses the start time 0.0. */
  lemma ZeroTimeStartLost()
    ensures AsWritten.AnalyzeAsWritten([VideoPacket(0.0, false, 7, 12), VideoPacket(1.0, true, 7, 12)])
         == map[7 := [Frames.Frame(1.0, 24)]]
    ensures Reassembler.Analyze([VideoPacket(0.0, false, 7, 12), VideoPacket(1.0, true, 7, 12)])
         == map[7 := [Frames.Frame(0.0, 24)]]
  {
    ClassifyVideoPacket(0.0, false, 7, 12);
    ClassifyVideoPacket(1.0, true, 7, 12);
    ZeroTimeRun(VideoPacket(0.0, false, 7, 12), VideoPacket(1.0, true, 7, 12));
  }
}
