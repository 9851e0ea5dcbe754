/** The frame accumulator of one RTP stream (one SSRC) in offline_rtp_analyzer.py:
    a start time and a running byte total, fed packet by packet; a packet with
    the marker bit set closes the frame, emits a record and resets the
    accumulator. The reference definition cuts the stream into marker-terminated
    runs: every record is the frame of exactly one run. */
module Frames {
  import opened Options

  /** One accepted packet of the stream: capture time, UDP payload length and
      marker bit. */
  datatype Item = Item(time: real, size: nat, marker: bool)

  /** An emitted frame record: the time of its first packet and its byte total. */
  datatype Frame = Frame(start: real, size: nat)

  /** The in-progress frame. `start` is `None` while no packet of the frame has
      been seen; this is the explicit presence flag that replaces the Python code's
      zero sentinel (the as-written sentinel is modelled in AsWritten). */
  datatype Acc = Acc(start: Option<real>, size: nat)

  /** The accumulator between frames: unset start, zero bytes. */
  const Empty := Acc(None, 0)

  /** One stream's accumulator together with the records emitted so far. */
  datatype Stream = Stream(acc: Acc, frames: seq<Frame>)

  /** The state of a stream before its first packet. */
  const Start := Stream(Empty, [])

  /** Feeds one packet of the stream: set the start time if unset, add the
      packet's length, and on the marker bit emit the record and reset. */
  function Feed(s: Stream, x: Item): (r: Stream)
    ensures s.frames <= r.frames
    ensures x.marker ==> r.acc == Empty && |r.frames| == |s.frames| + 1
    ensures !x.marker ==> r.frames == s.frames && r.acc.start.Some?
  {
    var start := if s.acc.start.None? then x.time else s.acc.start.value;
    var size := s.acc.size + x.size;
    if x.marker then
      Stream(Empty, s.frames + [Frame(start, size)])
    else
      Stream(Acc(Some(start), size), s.frames)
  }

  /** Feeds the packets `xs` in order; records once emitted are never changed. */
  function Run(s: Stream, xs: seq<Item>): (r: Stream)
    ensures s.frames <= r.frames
    decreases |xs|
  {
    if xs == [] then s else Run(Feed(s, xs[0]), xs[1..])
  }

  // ---------------------------------------------------------------------
  // Reference definition: marker-terminated runs.
  // ---------------------------------------------------------------------

  predicate NoMarker(xs: seq<Item>) {
    forall i :: 0 <= i < |xs| ==> !xs[i].marker
  }

  function SumSizes(xs: seq<Item>): nat {
    if xs == [] then 0 else xs[0].size + SumSizes(xs[1..])
  }

  function CountMarkers(xs: seq<Item>): nat {
    if xs == [] then 0 else (if xs[0].marker then 1 else 0) + CountMarkers(xs[1..])
  }

  /** The index of the first marker packet of `xs`. */
  function FirstMarker(xs: seq<Item>): (k: nat)
    requires !NoMarker(xs)
    ensures k < |xs| && xs[k].marker && NoMarker(xs[..k])
  {
    if xs[0].marker then 0
    else
      var k := 1 + FirstMarker(xs[1..]);
      assert forall i :: 1 <= i < k ==> xs[..k][i] == xs[1..][..k - 1][i - 1];
      k
  }

  /** A run: packets after one frame boundary up to and including the next
      marker packet, with no marker before its last packet. */
  predicate IsRun(run: seq<Item>) {
    |run| > 0 && run[|run| - 1].marker && NoMarker(run[..|run| - 1])
  }

  /** `xs` cut after every marker packet; the unterminated tail is not a run. */
  function Runs(xs: seq<Item>): (rs: seq<seq<Item>>)
    ensures forall j :: 0 <= j < |rs| ==> IsRun(rs[j])
    decreases |xs|
  {
    if NoMarker(xs) then []
    else
      var k := FirstMarker(xs);
      assert xs[..k + 1][..k] == xs[..k];
      [xs[..k + 1]] + Runs(xs[k + 1..])
  }

  /** The packets after the last marker packet: the unterminated frame. */
  function Tail(xs: seq<Item>): (t: seq<Item>)
    ensures NoMarker(t)
    decreases |xs|
  {
    if NoMarker(xs) then xs else Tail(xs[FirstMarker(xs) + 1..])
  }

  function Concat(rs: seq<seq<Item>>): seq<Item> {
    if rs == [] then [] else rs[0] + Concat(rs[1..])
  }

  /** The record of one run: its first packet's time and its byte total. */
  function FrameOf(run: seq<Item>): Frame
    requires |run| > 0
  {
    Frame(run[0].time, SumSizes(run))
  }

  function FramesOf(rs: seq<seq<Item>>): (fs: seq<Frame>)
    requires forall j :: 0 <= j < |rs| ==> |rs[j]| > 0
    ensures |fs| == |rs|
    ensures forall j :: 0 <= j < |rs| ==> fs[j] == FrameOf(rs[j])
  {
    if rs == [] then [] else [FrameOf(rs[0])] + FramesOf(rs[1..])
  }

  /** The accumulator after the packets `pending` of an unterminated frame. */
  function AccOf(pending: seq<Item>): Acc {
    Acc(if pending == [] then None else Some(pending[0].time), SumSizes(pending))
  }

  // ---------------------------------------------------------------------
  // Lemmas about the reference definition.
  // ---------------------------------------------------------------------

  lemma {:induction false} SumSizesAppend(a: seq<Item>, b: seq<Item>)
    ensures SumSizes(a + b) == SumSizes(a) + SumSizes(b)
  {
    if a != [] {
      assert (a + b)[1..] == a[1..] + b;
      SumSizesAppend(a[1..], b);
    } else {
      assert a + b == b;
    }
  }

  lemma {:induction false} CountMarkersAppend(a: seq<Item>, b: seq<Item>)
    ensures CountMarkers(a + b) == CountMarkers(a) + CountMarkers(b)
  {
    if a != [] {
      assert (a + b)[1..] == a[1..] + b;
      CountMarkersAppend(a[1..], b);
    } else {
      assert a + b == b;
    }
  }

  lemma {:induction false} NoMarkerCountsZero(xs: seq<Item>)
    requires NoMarker(xs)
    ensures CountMarkers(xs) == 0
  {
    if xs != [] {
      NoMarkerCountsZero(xs[1..]);
    }
  }

  /** The first marker is the only marker with no marker before it. */
  lemma FirstMarkerUnique(xs: seq<Item>, k: nat)
    requires k < |xs| && xs[k].marker && NoMarker(xs[..k])
    ensures FirstMarker(xs) == k
  {
  }

  lemma ConcatCons(run: seq<Item>, rs: seq<seq<Item>>)
    ensures Concat([run] + rs) == run + Concat(rs)
  {
    assert ([run] + rs)[1..] == rs;
  }

  lemma SplitAt(xs: seq<Item>, i: nat)
    requires i <= |xs|
    ensures xs[..i] + xs[i..] == xs
  {
  }

  /** The runs and the tail partition the stream, in order. */
  lemma {:induction false} RunsPartition(xs: seq<Item>)
    ensures Concat(Runs(xs)) + Tail(xs) == xs
    decreases |xs|
  {
    if !NoMarker(xs) {
      var k := FirstMarker(xs);
      var rest := xs[k + 1..];
      var run := xs[..k + 1];
      RunsPartition(rest);
      assert Runs(xs) == [run] + Runs(rest);
      assert Tail(xs) == Tail(rest);
      ConcatCons(run, Runs(rest));
      SplitAt(xs, k + 1);
      AppendAssoc(run, Concat(Runs(rest)), Tail(rest));
    }
  }

  /** The partition into runs and a marker-free tail is unique: Runs and Tail
      are the only way to cut a stream into frames. */
  lemma {:induction false} RunsUnique(rs: seq<seq<Item>>, t: seq<Item>, xs: seq<Item>)
    requires forall j :: 0 <= j < |rs| ==> IsRun(rs[j])
    requires NoMarker(t)
    requires Concat(rs) + t == xs
    ensures Runs(xs) == rs && Tail(xs) == t
    decreases |rs|
  {
    if rs == [] {
      assert xs == t;
    } else {
      var r := rs[0];
      var more := Concat(rs[1..]) + t;
      assert xs == r + more;
      var k := |r| - 1;
      assert xs[k] == r[k];
      assert xs[..k] == r[..k];
      FirstMarkerUnique(xs, k);
      assert xs[..k + 1] == r;
      assert xs[k + 1..] == more;
      RunsUnique(rs[1..], t, more);
    }
  }

  /** One run per marker packet. */
  lemma {:induction false} RunsCountMarkers(xs: seq<Item>)
    ensures |Runs(xs)| == CountMarkers(xs)
    decreases |xs|
  {
    if NoMarker(xs) {
      NoMarkerCountsZero(xs);
    } else {
      var k := FirstMarker(xs);
      assert xs == xs[..k] + [xs[k]] + xs[k + 1..];
      CountMarkersAppend(xs[..k] + [xs[k]], xs[k + 1..]);
      CountMarkersAppend(xs[..k], [xs[k]]);
      NoMarkerCountsZero(xs[..k]);
      RunsCountMarkers(xs[k + 1..]);
    }
  }

  /** Packets without a marker appended to a stream start no new run. */
  lemma {:induction false} RunsIgnoreUnterminatedTail(xs: seq<Item>, tail: seq<Item>)
    requires NoMarker(tail)
    ensures Runs(xs + tail) == Runs(xs)
    decreases |xs|
  {
    var ys := xs + tail;
    if NoMarker(xs) {
      assert forall i :: 0 <= i < |ys| ==> !ys[i].marker by {
        forall i | 0 <= i < |ys| ensures !ys[i].marker {
          if i < |xs| { assert ys[i] == xs[i]; } else { assert ys[i] == tail[i - |xs|]; }
        }
      }
    } else {
      var k := FirstMarker(xs);
      assert ys[..k] == xs[..k];
      FirstMarkerUnique(ys, k);
      assert ys[..k + 1] == xs[..k + 1];
      assert ys[k + 1..] == xs[k + 1..] + tail;
      RunsIgnoreUnterminatedTail(xs[k + 1..], tail);
    }
  }

  // ---------------------------------------------------------------------
  // The accumulator computes the reference definition.
  // ---------------------------------------------------------------------

  /** Appending a packet without a marker keeps a packet sequence marker-free. */
  lemma NoMarkerSnoc(pre: seq<Item>, x: Item)
    requires NoMarker(pre) && !x.marker
    ensures NoMarker(pre + [x])
  {
    assert forall i :: 0 <= i < |pre| ==> (pre + [x])[i] == pre[i];
  }

  /** Feeding one more packet to an accumulator holding `pre`. */
  lemma FeedPending(pre: seq<Item>, out: seq<Frame>, x: Item)
    ensures !x.marker ==> Feed(Stream(AccOf(pre), out), x) == Stream(AccOf(pre + [x]), out)
    ensures x.marker ==> Feed(Stream(AccOf(pre), out), x) == Stream(AccOf([]), out + [FrameOf(pre + [x])])
  {
    SumSizesAppend(pre, [x]);
    assert SumSizes([x]) == x.size;
    assert (pre + [x])[0].time == (if pre == [] then x.time else pre[0].time);
  }

  /** A marker packet after the marker-free packets `pre` closes the first run. */
  lemma RunsAfterPending(pre: seq<Item>, x: Item, rest: seq<Item>)
    requires NoMarker(pre) && x.marker
    ensures Runs(pre + [x] + rest) == [pre + [x]] + Runs(rest)
    ensures Tail(pre + [x] + rest) == Tail(rest)
  {
    var all := pre + [x] + rest;
    var k := |pre|;
    assert all[k] == x;
    assert all[..k] == pre;
    FirstMarkerUnique(all, k);
    assert all[..k + 1] == pre + [x];
    assert all[k + 1..] == rest;
  }

  lemma AppendAssoc<T>(a: seq<T>, b: seq<T>, c: seq<T>)
    ensures (a + b) + c == a + (b + c)
  {
  }

  lemma FramesOfCons(run: seq<Item>, rs: seq<seq<Item>>)
    requires |run| > 0 && forall j :: 0 <= j < |rs| ==> |rs[j]| > 0
    ensures FramesOf([run] + rs) == [FrameOf(run)] + FramesOf(rs)
  {
    assert ([run] + rs)[1..] == rs;
  }

  /** Feeding `xs` to an accumulator that holds the marker-free packets `pre`
      emits one record per run of `pre + xs` and keeps the tail pending. */
  lemma {:induction false} RunFromPending(pre: seq<Item>, out: seq<Frame>, xs: seq<Item>)
    requires NoMarker(pre)
    ensures Run(Stream(AccOf(pre), out), xs)
         == Stream(AccOf(Tail(pre + xs)), out + FramesOf(Runs(pre + xs)))
    decreases |xs|
  {
    if xs == [] {
      assert pre + xs == pre;
    } else {
      var x, rest := xs[0], xs[1..];
      var pre' := pre + [x];
      var s := Stream(AccOf(pre), out);
      assert Run(s, xs) == Run(Feed(s, x), rest);
      assert pre + xs == pre' + rest;
      FeedPending(pre, out, x);
      if x.marker {
        var f := FrameOf(pre');
        var fs := FramesOf(Runs(rest));
        assert Feed(s, x) == Stream(AccOf([]), out + [f]);
        RunFromPending([], out + [f], rest);
        assert [] + rest == rest;
        assert Run(s, xs) == Stream(AccOf(Tail(rest)), (out + [f]) + fs);
        RunsAfterPending(pre, x, rest);
        assert Runs(pre + xs) == [pre'] + Runs(rest);
        assert Tail(pre + xs) == Tail(rest);
        FramesOfCons(pre', Runs(rest));
        var all := FramesOf(Runs(pre + xs));
        assert all == [f] + fs;
        AppendAssoc(out, [f], fs);
      } else {
        NoMarkerSnoc(pre, x);
        RunFromPending(pre', out, rest);
      }
    }
  }

  /** The accumulator's records are exactly the frames of the runs, and what
      it still holds is the unterminated tail. */
  lemma StreamFrames(xs: seq<Item>)
    ensures Run(Start, xs) == Stream(AccOf(Tail(xs)), FramesOf(Runs(xs)))
  {
    RunFromPending([], [], xs);
    assert [] + xs == xs;
  }

  /** Record `j` of a stream has the time of the first packet of run `j` and
      the sum of the payload lengths of exactly the packets of run `j`; there
      is one record per marker packet. */
  lemma FrameRecords(xs: seq<Item>)
    ensures var frames := Run(Start, xs).frames;
      && |frames| == |Runs(xs)| == CountMarkers(xs)
      && forall j :: 0 <= j < |frames| ==>
           frames[j].start == Runs(xs)[j][0].time && frames[j].size == SumSizes(Runs(xs)[j])
  {
    StreamFrames(xs);
    RunsCountMarkers(xs);
  }

  /** A trailing frame that no marker closes yields no record. */
  lemma UnterminatedFrameDropped(xs: seq<Item>, tail: seq<Item>)
    requires NoMarker(tail)
    ensures Run(Start, xs + tail).frames == Run(Start, xs).frames
  {
    StreamFrames(xs);
    StreamFrames(xs + tail);
    RunsIgnoreUnterminatedTail(xs, tail);
  }

  /** A marker packet that is the first of its stream is a frame by itself. */
  lemma SingleMarkerFrame(x: Item, rest: seq<Item>)
    requires x.marker
    ensures Run(Start, [x] + rest).frames[0] == Frame(x.time, x.size)
  {
    var xs := [x] + rest;
    StreamFrames(xs);
    FirstMarkerUnique(xs, 0);
    assert xs[..1] == [x];
    assert SumSizes([x]) == x.size;
  }
}
