/** The packet classifier of offline_rtp_analyzer.py: it decides whether a UDP
    payload is an RTP packet of the monitored video stream and reads the fields
    of the RTP fixed header (section 5.1 of RFC 3550) that the reassembler needs. */
module Rtp {
  import opened Options

  /** A byte of a UDP payload, as Python's `bytes` indexing yields it. */
  newtype byte = x: int | 0 <= x < 256

  /** Length of the RTP fixed header; shorter payloads are never RTP. */
  const MinHeaderLen: nat := 12
  /** The RTP version the classifier accepts. */
  const RtpVersion: nat := 2
  /** The dynamic payload type of the monitored video stream. */
  const MonitoredPayloadType: nat := 101
  /** SSRC identifiers are 32-bit unsigned integers. */
  const SsrcBound: nat := 0x1_0000_0000

  /** A captured packet: its capture time and, when it has a UDP layer, the
      UDP payload bytes. The time is opaque: it is compared and copied only. */
  datatype Packet = Packet(time: real, udp: Option<seq<byte>>)

  /** What the reassembler reads from an accepted packet. `size` is the length
      of the whole UDP payload, RTP header included. */
  datatype Classified = Classified(ssrc: nat, marker: bool, size: nat, time: real)

  /** 256 to the power `k`: the number of values `k` big-endian bytes hold. */
  function Pow256(k: nat): (r: nat)
    ensures r > 0
  {
    if k == 0 then 1 else 256 * Pow256(k - 1)
  }

  /** The unsigned big-endian integer the bytes `s` spell. */
  function BigEndian(s: seq<byte>): (n: nat)
    ensures n < Pow256(|s|)
  {
    if |s| == 0 then 0 else BigEndian(s[..|s| - 1]) * 256 + s[|s| - 1] as nat
  }

  /** The `len` big-endian bytes of `n`; the inverse of BigEndian. */
  function EncodeBigEndian(n: nat, len: nat): (s: seq<byte>)
    requires n < Pow256(len)
    ensures |s| == len
  {
    if len == 0 then [] else EncodeBigEndian(n / 256, len - 1) + [(n % 256) as byte]
  }

  /** Decoding one more low-order byte. */
  lemma BigEndianSnoc(init: seq<byte>, b: byte)
    ensures BigEndian(init + [b]) == BigEndian(init) * 256 + b as nat
  {
    assert (init + [b])[..|init|] == init;
  }

  /** Decoding an encoding gives back the number. */
  lemma {:induction false} DecodeEncode(n: nat, len: nat)
    requires n < Pow256(len)
    ensures BigEndian(EncodeBigEndian(n, len)) == n
  {
    if len > 0 {
      var q, m := n / 256, n % 256;
      assert q < Pow256(len - 1);
      DecodeEncode(q, len - 1);
      BigEndianSnoc(EncodeBigEndian(q, len - 1), m as byte);
      assert n == q * 256 + m;
    }
  }

  /** Encoding a decoded sequence gives back the bytes. */
  lemma {:induction false} EncodeDecode(s: seq<byte>)
    ensures EncodeBigEndian(BigEndian(s), |s|) == s
  {
    if |s| > 0 {
      var init := s[..|s| - 1];
      var n := BigEndian(s);
      assert n / 256 == BigEndian(init);
      assert (n % 256) as byte == s[|s| - 1];
      EncodeDecode(init);
      assert s == init + [s[|s| - 1]];
    }
  }

  /** The RTP version: bits 6-7 of byte 0, `(b0 >> 6) & 0x03`. */
  function VersionField(b0: byte): (v: nat)
    ensures v < 4
  {
    (b0 as nat / 64) % 4
  }

  /** The payload type: bits 0-6 of byte 1, `b1 & 0x7F`. */
  function PayloadTypeField(b1: byte): (pt: nat)
    ensures pt < 128
  {
    b1 as nat % 128
  }

  /** The marker bit: bit 7 of byte 1, `(b1 >> 7) & 0x01`. */
  function MarkerField(b1: byte): (m: nat)
    ensures m == 0 || m == 1
  {
    (b1 as nat / 128) % 2
  }

  /** Byte 1 of the header holds exactly the marker bit and the payload type. */
  lemma SecondByteSplits(b1: byte)
    ensures b1 as nat == 128 * MarkerField(b1) + PayloadTypeField(b1)
  {
  }

  /** Python's `s[lo:hi]` for non-negative bounds: indices past the end are
      clamped and an empty range gives the empty sequence. */
  function Slice(s: seq<byte>, lo: nat, hi: nat): (r: seq<byte>)
    ensures |r| == if lo < hi && lo < |s| then (if hi <= |s| then hi else |s|) - lo else 0
    ensures forall i :: 0 <= i < |r| ==> r[i] == s[lo + i]
  {
    if lo < hi && lo < |s| then s[lo..if hi <= |s| then hi else |s|] else []
  }

  /** Four big-endian bytes weigh 2^24, 2^16, 2^8 and 1. */
  lemma BigEndianFour(s: seq<byte>)
    requires |s| == 4
    ensures BigEndian(s) == s[0] as nat * 0x100_0000 + s[1] as nat * 0x1_0000 + s[2] as nat * 0x100 + s[3] as nat
  {
    assert s[..1][..0] == [];
    var b1 := BigEndian(s[..1]);
    assert b1 == s[0] as nat;
    assert s[..2][..1] == s[..1];
    var b2 := BigEndian(s[..2]);
    assert b2 == b1 * 256 + s[1] as nat;
    assert s[..3][..2] == s[..2];
    var b3 := BigEndian(s[..3]);
    assert b3 == b2 * 256 + s[2] as nat;
    assert s[..3] == s[..|s| - 1];
    assert BigEndian(s) == b3 * 256 + s[3] as nat;
  }

  /** `struct.unpack('!I', s)`: a 32-bit unsigned big-endian integer, or
      `None` where Python raises `struct.error` because `s` is not 4 bytes. */
  function UnpackU32(s: seq<byte>): (r: Option<nat>)
    ensures r.Some? <==> |s| == 4
    ensures r.Some? ==> r.value < SsrcBound
    ensures r.Some? ==> r.value == s[0] as nat * 0x100_0000 + s[1] as nat * 0x1_0000 + s[2] as nat * 0x100 + s[3] as nat
  {
    if |s| != 4 then None else
      BigEndianFour(s);
      Some(BigEndian(s))
  }

  /** `is_rtp_packet`: the packet has a UDP layer whose payload is at least a
      fixed RTP header long, says version 2 and carries the monitored payload type. */
  function IsRtpPacket(p: Packet): (b: bool)
    ensures p.udp.None? ==> !b
    ensures p.udp.Some? && |p.udp.value| < MinHeaderLen ==> !b
    ensures b <==> p.udp.Some? && |p.udp.value| >= 12
                   && p.udp.value[0] as nat / 64 == 2 && p.udp.value[1] as nat % 128 == 101
    ensures b <==> p.udp.Some? && |p.udp.value| >= 12
                   && 0x80 <= p.udp.value[0] as nat < 0xC0
                   && (p.udp.value[1] as nat == 101 || p.udp.value[1] as nat == 229)
  {
    if p.udp.Some? && |p.udp.value| >= MinHeaderLen then
      var payload := p.udp.value;
      VersionField(payload[0]) == RtpVersion && PayloadTypeField(payload[1]) == MonitoredPayloadType
    else
      false
  }

  /** The field extraction applied to an accepted packet's payload. `None`
      stands for an extraction that raises (a payload too short to index or to
      unpack); the caller then skips the packet, as the exception handler does. */
  function ExtractFields(payload: seq<byte>, time: real): (r: Option<Classified>)
    ensures r.Some? <==> |payload| >= MinHeaderLen
  {
    if |payload| < 2 then None else
      match UnpackU32(Slice(payload, 8, 12))
      case None => None
      case Some(ssrc) =>
        Some(Classified(ssrc, MarkerField(payload[1]) == 1, |payload|, time))
  }

  /** Classifies one packet: `Some` exactly for the packets `is_rtp_packet`
      accepts (no accepted packet reaches the exception handler), with the
      SSRC, the marker bit and the payload length read from its bytes. */
  function Classify(p: Packet): (r: Option<Classified>)
    ensures r.Some? <==> IsRtpPacket(p)
    ensures r.Some? ==>
      var b := p.udp.value;
      && r.value.ssrc == b[8] as nat * 0x100_0000 + b[9] as nat * 0x1_0000 + b[10] as nat * 0x100 + b[11] as nat
      && r.value.ssrc < SsrcBound
      && (r.value.marker <==> b[1] as nat >= 128)
      && r.value.size == |b|
      && r.value.time == p.time
  {
    if IsRtpPacket(p) then ExtractFields(p.udp.value, p.time) else None
  }

  /** A fixed RTP header as a sender writes it: version 2 in the top two bits
      of byte 0 and `low0` (padding, extension and CSRC count) in its low six
      bits, the monitored payload type, the given marker bit and SSRC;
      `seqAndTimestamp` fills bytes 2-7 (sequence number and RTP timestamp),
      which the classifier does not read. */
  function EncodeHeader(marker: bool, ssrc: nat, low0: nat, seqAndTimestamp: seq<byte>): (h: seq<byte>)
    requires ssrc < SsrcBound
    requires low0 < 64
    requires |seqAndTimestamp| == 6
    ensures |h| == MinHeaderLen
  {
    assert Pow256(4) == SsrcBound;
    [(0x80 + low0) as byte, if marker then 0xE5 else 0x65] + seqAndTimestamp + EncodeBigEndian(ssrc, 4)
  }

  /** Classifying a packet whose payload starts with an encoded header gives
      back the marker bit and SSRC that were encoded, whatever follows. */
  lemma ClassifyEncodeHeader(time: real, marker: bool, ssrc: nat, low0: nat, seqAndTimestamp: seq<byte>, body: seq<byte>)
    requires ssrc < SsrcBound
    requires low0 < 64
    requires |seqAndTimestamp| == 6
    ensures Classify(Packet(time, Some(EncodeHeader(marker, ssrc, low0, seqAndTimestamp) + body)))
         == Some(Classified(ssrc, marker, MinHeaderLen + |body|, time))
  {
    var h := EncodeHeader(marker, ssrc, low0, seqAndTimestamp);
    var b := h + body;
    assert Pow256(4) == SsrcBound;
    var ssrcBytes := EncodeBigEndian(ssrc, 4);
    DecodeEncode(ssrc, 4);
    BigEndianFour(ssrcBytes);
    assert b[8..12] == ssrcBytes;
    assert b[8] == ssrcBytes[0] && b[9] == ssrcBytes[1] && b[10] == ssrcBytes[2] && b[11] == ssrcBytes[3];
    assert b[0] as nat == 0x80 + low0;
    assert b[1] == if marker then 0xE5 else 0x65;
  }

  /** The converse: every payload the classifier accepts is an encoded header
      (with the classified marker bit and SSRC, and its own byte-0 low bits
      and bytes 2-7) followed by the rest of the payload. */
  lemma AcceptedIsEncoded(p: Packet)
    requires IsRtpPacket(p)
    ensures var b := p.udp.value;
            var c := Classify(p).value;
            b == EncodeHeader(c.marker, c.ssrc, b[0] as nat % 64, b[2..8]) + b[12..]
  {
    var b := p.udp.value;
    var c := Classify(p).value;
    var ssrcBytes := b[8..12];
    EncodeDecode(ssrcBytes);
    BigEndianFour(ssrcBytes);
    assert BigEndian(ssrcBytes) == c.ssrc;
    assert Pow256(4) == SsrcBound;
    assert EncodeBigEndian(c.ssrc, 4) == ssrcBytes;
    var h := EncodeHeader(c.marker, c.ssrc, b[0] as nat % 64, b[2..8]);
    assert h[0] == b[0];
    assert h[1] == b[1];
    assert h[2..8] == b[2..8];
    assert h[8..12] == b[8..12];
    assert h + b[12..] == b;
  }
}
