# RTP frame reassembly, modelled in Dafny

This project models the core of `offline_rtp_analyzer.py`. That core reads a captured packet trace, keeps the RTP packets of the monitored video stream, and rebuilds video frames per SSRC (the RTP synchronization source). The output is one `(start time, total size)` record per frame. Two pieces are modelled, both as pure functions over an already read capture.

- **Packet classifier** (`Rtp`). `is_rtp_packet` accepts a UDP payload that is at least as long as the RTP fixed header (12 bytes, section 5.1 of RFC 3550). The payload must also have version 2 and payload type 101. The field extraction then reads three things: the marker bit (bit 7 of byte 1), the 32-bit big-endian SSRC in bytes 8-11 (the `struct.unpack('!I', …)` call) and the UDP payload length. Bytes are integers 0..255, as Python's `bytes` indexing yields them. The shifts and masks of the Python code are written as the equivalent division and remainder.
- **Frame reassembler** (`Frames`, `Reassembler`, `AsWritten`). This is the loop of `analyze_rtp_packets`: a left fold over the packets with a map from SSRC to accumulator (frame start time, running byte total). Each accepted packet sets the start if it is unset and adds its payload length. A packet with the marker bit appends `(start, size)` to its SSRC's record list and resets the accumulator.
  - `Frames` is the accumulator of one stream. It also gives an independent reference definition: the stream is cut after every marker packet into *runs*, each record is the frame of one run, and the unterminated tail yields nothing.
  - `Reassembler` is the per-SSRC fold, plus a loop method proved equal to it. Its start time is an explicit `Option`.
  - `AsWritten` is the fold exactly as the Python code writes it. There, a start time of `0` means "unset" (`if not current_frame_start[ssrc]`). It is proved equal to `Reassembler` whenever no accepted packet has capture time 0.0. Record keys, counts and sizes agree unconditionally, and for every capture record `j` starts at the first time in run `j` that is not 0.0, or at 0.0 if the whole run is at 0.0. So a start differs from the corrected one only when a run begins at 0.0 and has a later packet not at 0.0; a run entirely at 0.0 starts at 0.0 in both versions. A loop over the three dictionaries, updated statement by statement as lines 33-49 do, is proved to compute this fold.
- `Captures` works through two small captures: two interleaved streams with a malformed packet between them, and the capture that shows the zero sentinel (see Findings).

Capture times are opaque `real`s: the Python code only compares them with zero and copies them.

## Model

| member | source | states |
|---|---|---|
| `Rtp.IsRtpPacket` | offline_rtp_analyzer.py:12-18 | A packet is accepted iff it has a UDP layer, its payload is at least 12 bytes, byte 0 divided by 64 is 2 (version 2) and byte 1 modulo 128 is 101. Equivalently, byte 0 is in 0x80..0xBF and byte 1 is 101 or 229. A packet with no UDP layer or a shorter payload is never accepted. |
| `Rtp.VersionField` | offline_rtp_analyzer.py:15 | The version field `(b0 >> 6) & 3` is below 4. |
| `Rtp.PayloadTypeField` | offline_rtp_analyzer.py:16 | The payload type `b1 & 0x7F` is below 128. |
| `Rtp.MarkerField` | offline_rtp_analyzer.py:38 | The marker `(b1 >> 7) & 1` is 0 or 1. |
| `Rtp.SecondByteSplits` | offline_rtp_analyzer.py:16 | Byte 1 is exactly 128 times the marker bit plus the payload type. |
| `Rtp.Slice` | offline_rtp_analyzer.py:37 | Python slicing `payload[8:12]` clamps to the payload: its length is given by the clamped bounds and its elements are the payload's from index 8. |
| `Rtp.BigEndian` | offline_rtp_analyzer.py:37 | A big-endian number of `k` bytes is below 256^k. |
| `Rtp.EncodeBigEndian` | offline_rtp_analyzer.py:37 | The encoding of a number in `len` big-endian bytes has length `len`. |
| `Rtp.DecodeEncode` | offline_rtp_analyzer.py:37 | Decoding the big-endian encoding of `n` gives back `n`. |
| `Rtp.EncodeDecode` | offline_rtp_analyzer.py:37 | Encoding the decoded value of a byte sequence gives back the same bytes. |
| `Rtp.BigEndianFour` | offline_rtp_analyzer.py:37 | Four big-endian bytes weigh 2^24, 2^16, 2^8 and 1. |
| `Rtp.UnpackU32` | offline_rtp_analyzer.py:37 | `struct.unpack('!I', s)` succeeds iff `s` has exactly 4 bytes; the value is `s0·2^24 + s1·2^16 + s2·2^8 + s3`, below 2^32. |
| `Rtp.ExtractFields` | offline_rtp_analyzer.py:34-39 | Field extraction fails (the `except` path) iff the payload is shorter than 12 bytes. |
| `Rtp.Classify` | offline_rtp_analyzer.py:33-39 | A packet yields fields iff `is_rtp_packet` accepts it, so no accepted packet reaches the exception handler. The SSRC is `b8·2^24 + b9·2^16 + b10·2^8 + b11` and below 2^32. The marker is set iff byte 1 is at least 128. The size is the whole UDP payload length and the time is the capture time. |
| `Rtp.EncodeHeader` | offline_rtp_analyzer.py:34-39 | An encoded RTP fixed header is 12 bytes long. Byte 0 carries version 2 and any low six bits (padding, extension, CSRC count); byte 1 carries the marker and payload type 101. |
| `Rtp.ClassifyEncodeHeader` | offline_rtp_analyzer.py:34-39 | A payload that starts with a header encoding marker `m` and SSRC `x` classifies as SSRC `x`, marker `m` and size 12 plus the body length, whatever the low bits of byte 0, bytes 2-7 and the body hold. |
| `Rtp.AcceptedIsEncoded` | offline_rtp_analyzer.py:13-39 | The converse: every accepted payload is the header encoding its classified marker and SSRC, with its own byte-0 low bits and bytes 2-7, followed by the rest of the payload. |
| `Frames.Feed` | offline_rtp_analyzer.py:41-49 | Feeding one packet keeps every earlier record. A marker packet adds exactly one record and leaves the accumulator empty. Any other packet adds no record and leaves a start time set. |
| `Frames.Run` | offline_rtp_analyzer.py:31-49 | Records already emitted are never changed by later packets. |
| `Frames.FirstMarker` | offline_rtp_analyzer.py:46 | The first marker packet of a stream is a marker packet with no marker packet before it. |
| `Frames.Runs` | offline_rtp_analyzer.py:44-49 | Every run is non-empty, ends with a marker packet and has no other marker packet. |
| `Frames.Tail` | offline_rtp_analyzer.py:44-49 | The packets after the last marker packet contain no marker packet. |
| `Frames.FramesOf` | offline_rtp_analyzer.py:47 | One record per run, record `j` being the first time and byte total of run `j`. |
| `Frames.RunsPartition` | offline_rtp_analyzer.py:44-49 | The runs followed by the tail are exactly the stream, in order. |
| `Frames.RunsUnique` | offline_rtp_analyzer.py:44-49 | Any cut of the stream into runs followed by a marker-free tail is the one `Runs`/`Tail` give. |
| `Frames.RunsCountMarkers` | offline_rtp_analyzer.py:46-49 | There are as many runs as marker packets. |
| `Frames.RunsIgnoreUnterminatedTail` | offline_rtp_analyzer.py:44-49 | Appending packets without a marker adds no run. |
| `Frames.RunFromPending` | offline_rtp_analyzer.py:41-49 | From an accumulator holding marker-free packets `pre`, feeding `xs` appends the frames of the runs of `pre + xs`, and what is left pending is the tail. |
| `Frames.StreamFrames` | offline_rtp_analyzer.py:41-49 | A stream's records are exactly the frames of its runs; its accumulator holds the tail's first time and byte total. |
| `Frames.FrameRecords` | offline_rtp_analyzer.py:41-49 | One record per marker packet. Record `j` has the time of the first packet of run `j` and the sum of the payload lengths of exactly the packets of run `j`. |
| `Frames.UnterminatedFrameDropped` | offline_rtp_analyzer.py:46-49 | Packets after the last marker packet yield no record. |
| `Frames.SingleMarkerFrame` | offline_rtp_analyzer.py:41-47 | A marker packet first in its stream yields the record `(its time, its length)`. |
| `Reassembler.Step` | offline_rtp_analyzer.py:32-49 | A packet that is not accepted changes nothing. An accepted packet feeds its own SSRC's stream and leaves every other SSRC's stream as it was. `frame_data` gains the packet's SSRC as a key only on a marker packet. |
| `Reassembler.StreamIsolation` | offline_rtp_analyzer.py:28-49 | After the loop, SSRC `s`'s accumulator and records are those of the single-stream fold over exactly the accepted packets of `s`. |
| `Reassembler.FrameKeys` | offline_rtp_analyzer.py:46-47 | An SSRC is a key of the output iff it was one before or one of its packets carries the marker bit. |
| `Reassembler.ItemsSsrcBound` | offline_rtp_analyzer.py:37 | An SSRC with an accepted packet is below 2^32. |
| `Reassembler.AnalyzeFrames` | offline_rtp_analyzer.py:27-55 | The output keys are exactly the SSRCs with at least one marker packet, all below 2^32. Each has one record per marker packet, and record `j` has the first time and the payload-length sum of exactly run `j` of that SSRC's packets. |
| `Reassembler.InterleavingIrrelevant` | offline_rtp_analyzer.py:28-49 | Inserting packets of other SSRCs, or rejected packets, anywhere in the capture changes neither whether SSRC `s` has records nor what they are. |
| `Reassembler.NonMatchingSkipped` | offline_rtp_analyzer.py:33 | A rejected packet anywhere in the capture leaves the whole final state as it would be without it. |
| `Reassembler.AnalyzeLoop` | offline_rtp_analyzer.py:27-55 | A loop that applies the corrected step once per packet computes the fold; every key is below 2^32 and holds one record per marker packet of that SSRC. |
| `AsWritten.StepAsWritten` | offline_rtp_analyzer.py:33-49 | With the zero sentinel: a rejected packet changes nothing and an accepted one touches only its own SSRC. The start becomes the packet's time only if it held 0.0. A marker packet appends the record `(start, running total + length)` and resets that SSRC's accumulator to `(0, 0)`; any other packet keeps `(start, running total + length)`. A key appears in `frame_data` only on a marker packet. |
| `AsWritten.AsWrittenFrameSizes` | offline_rtp_analyzer.py:39-49 | Whatever the capture times, the Python code's output has exactly the SSRCs with a marker packet as keys, one record per marker packet, and record `j` has the byte total of exactly run `j`. |
| `AsWritten.AgreeWithoutZeroTime` | offline_rtp_analyzer.py:41-48 | When no accepted packet has time 0.0, the Python code's output equals the corrected reassembler's, start times included. |
| `AsWritten.FirstNonZeroTime` | offline_rtp_analyzer.py:41-42 | The start the sentinel leaves after a frame's packets: 0.0 exactly when every packet is at 0.0, and otherwise the time of the first packet not at 0.0. |
| `AsWritten.LitFeed` | offline_rtp_analyzer.py:41-49 | One stream as written: records are only appended; a marker packet resets the accumulator to `(0, 0)` and adds one record; otherwise the start is still 0.0 exactly when it was 0.0 and the packet is at 0.0. |
| `AsWritten.LitStreamFrames` | offline_rtp_analyzer.py:41-49 | Feeding a stream's packets gives one record per run, each with the run's first non-zero time and byte total, and leaves the unterminated tail pending. |
| `AsWritten.LitIsolation` | offline_rtp_analyzer.py:33-49 | With the zero sentinel too, SSRC `s`'s final stream is the single-stream fold over exactly `s`'s accepted packets. |
| `AsWritten.AsWrittenFrameRecords` | offline_rtp_analyzer.py:41-49 | For every capture, record `j` of SSRC `s` is `(first time in run j that is not 0.0, or 0.0 if none, byte total of run j)`. |
| `AsWritten.AsWrittenFrameStarts` | offline_rtp_analyzer.py:41-42 | Both versions have the same SSRC keys and record counts. A record whose run does not begin at 0.0 starts at the run's first packet. A record equals the corrected one exactly when its run does not begin at 0.0 or lies entirely at 0.0. |
| `AsWritten.ProcessPacket` | offline_rtp_analyzer.py:33-49 | The loop body on the three dictionaries (`current_frame_start`, `current_frame_size`, `frame_data`) leaves them reading exactly as one step of the fold. |
| `AsWritten.AnalyzeLoopAsWritten` | offline_rtp_analyzer.py:27-55 | The loop over the three dictionaries, updated in place, returns the fold's output. |
| `Captures.ClassifyVideoPacket` | offline_rtp_analyzer.py:12-18 | A built video packet classifies with the SSRC, marker, size and time it was built with. |
| `Captures.TwoStreamsRun` | offline_rtp_analyzer.py:27-55 | Stream 1 sends 50 and 60 bytes at 1.0 and 1.2, marker on the second; stream 2 sends one 40-byte marker packet at 1.1; a rejected packet comes between. The output is `{1: [(1.0, 110)], 2: [(1.1, 40)]}`. |
| `Captures.TwoInterleavedStreams` | offline_rtp_analyzer.py:27-55 | The same with real RTP payloads and a 5-byte UDP payload between them, which is skipped. |
| `Captures.ZeroTimeRun` | offline_rtp_analyzer.py:41-48 | Two packets of one frame at 0.0 and 1.0: the Python code reports start 1.0, the corrected reassembler 0.0. |
| `Captures.ZeroTimeStartLost` | offline_rtp_analyzer.py:41-48 | The same with real RTP payloads. |

## Left out

- Reading the capture (`rdpcap`, scapy's layer decoding) and the unreadable-file branch that returns `{}` (lines 21-25): these are I/O in a foreign library. The model starts from a materialised sequence of packets. Each packet is a time and an optional UDP payload, `None` when there is no UDP layer.
- The `try/except` around each packet (lines 32, 51-53) is kept only as "skip the packet". `Rtp.ExtractFields` returns `None` when extraction would raise, and `Rtp.Classify` proves this never happens for an accepted packet. The warning log is not modelled.
- `logging`, the `tqdm` progress bar and the `__main__` driver (lines 5-10, 31, 93-102): these are user interface and plumbing.
- `plot_frame_capture_times` (lines 57-91): this is matplotlib rendering and a GUI callback.
- Floating-point semantics of `packet.time` and of `float(...)`: times are `real`s that are only compared with 0.0 and copied. NaN is not modelled (Python treats it as truthy, like any non-zero time).
- scapy's `len(packet[UDP].payload)` and `bytes(packet[UDP].payload)` are taken to be the length and contents of one byte sequence.
- The payload type is the constant 101, as in the code. A configurable payload type would be a generalisation that the code does not have.
- Rtp.VersionField: states only that the version is below 4. The exact test `b0 / 64 == 2` is stated by `Rtp.IsRtpPacket`.
- Rtp.PayloadTypeField: states only that the payload type is below 128. The exact test `b1 % 128 == 101` is stated by `Rtp.IsRtpPacket`, and `Rtp.SecondByteSplits` relates it to the marker.
- Rtp.MarkerField: states only that the marker is 0 or 1. Its value, set iff byte 1 is at least 128, is stated by `Rtp.Classify`.
- AsWritten.AsWrittenFrameStarts: gives the first packet's time only for runs that do not begin at 0.0 or lie entirely at 0.0. A run that begins at 0.0 and has a later packet not at 0.0 starts at the time of its first packet not at 0.0 (`AsWritten.AsWrittenFrameRecords`), not at its first packet's time (see Findings).
- The output is a `map`, so the insertion order of the `frame_data` `defaultdict` (SSRCs in the order of their first marker packet) is not modelled. Only the plot observes that order, through its colours and legend (lines 63-67).

## Findings

| source | as written | input that shows it | evidently intended | confidence | as-written member | corrected member |
|---|---|---|---|---|---|---|
| offline_rtp_analyzer.py:41-48 | `if not current_frame_start[ssrc]` treats a start time of 0.0 as "no frame in progress", and the reset stores 0 | SSRC 7: a 12-byte packet at time 0.0 without marker, then a 12-byte marker packet at time 1.0; the Python code records `(1.0, 24)` | the frame starts with its first packet: `(0.0, 24)` | medium, not executed (a capture time of exactly 0.0 is rare in real traces) | `Captures.ZeroTimeStartLost` (model `AsWritten.AnalyzeAsWritten`) | `Reassembler.AnalyzeFrames` (model `Reassembler.Analyze`, explicit `Option` start) |
