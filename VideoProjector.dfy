/**
 * video_projector.c: a user-space sender that talks to the projector with
 * raw bulk transfers instead of going through the kernel driver. Commands
 * carry a one-byte opcode and a one-byte length. A frame is announced by a
 * 24-bit big-endian length and then sent in chunks of at most 1024 bytes.
 * The test frame is eight vertical colour bars.
 */
module VideoProjector {
  import opened Pixels

  const VideoWidth: nat := 800
  const VideoHeight: nat := 600
  const BytesPerPixel: nat := 3
  const FrameSize: nat := VideoWidth * VideoHeight * BytesPerPixel

  const CmdInit: byte := 0x01
  const CmdStart: byte := 0x02
  const CmdStop: byte := 0x03
  const CmdFrame: byte := 0x04

  /** `send_command`'s stack buffer. */
  const CommandBufferSize: nat := 64

  /** The largest request of the chunk loop, the endpoint's transfer size. */
  const ChunkSize: nat := 1024

  // ---------------------------------------------------------------------
  // Commands

  /** The buffer `send_command` sends: opcode, data length, data. */
  function CommandPacket(cmd: byte, data: seq<byte>): (p: seq<byte>)
    requires |data| <= CommandBufferSize - 2
    ensures |p| == 2 + |data| <= CommandBufferSize
  {
    [cmd, |data|] + data
  }

  /** Reading a command back: opcode and data, when the length byte matches. */
  function ParseCommand(p: seq<byte>): Option<(byte, seq<byte>)>
  {
    if |p| >= 2 && p[1] == |p| - 2 then Some((p[0], p[2..])) else None
  }

  /** A command packet carries its opcode and data, and nothing else. */
  lemma CommandRoundTrip(cmd: byte, data: seq<byte>, p: seq<byte>)
    requires |data| <= CommandBufferSize - 2
    ensures ParseCommand(CommandPacket(cmd, data)) == Some((cmd, data))
    ensures ParseCommand(p) == Some((cmd, data)) ==> p == CommandPacket(cmd, data)
  {
    var q := CommandPacket(cmd, data);
    assert q[2..] == data;
    if ParseCommand(p) == Some((cmd, data)) {
      assert p == [p[0], p[1]] + p[2..];
    }
  }

  /**
   * `send_command` when the bulk transfer returns `status`: it sends the
   * command packet and reports 1 on success, 0 on any error.
   */
  function SendCommand(cmd: byte, data: seq<byte>, status: int): (r: (int, seq<byte>))
    requires |data| <= CommandBufferSize - 2
    ensures r.0 == (if status == 0 then 1 else 0)
    ensures ParseCommand(r.1) == Some((cmd, data))
  {
    CommandRoundTrip(cmd, data, []);
    (if status == 0 then 1 else 0, CommandPacket(cmd, data))
  }

  // ---------------------------------------------------------------------
  // The frame header

  /** `{CMD_FRAME, size >> 16 & 0xff, size >> 8 & 0xff, size & 0xff}`. */
  function FrameHeader(size: nat): (h: seq<byte>)
    ensures |h| == 4 && h[0] == CmdFrame
  {
    [CmdFrame, size / 65536 % 256, size / 256 % 256, size % 256]
  }

  /** The length a frame header announces: bytes 1 to 3, most significant first. */
  function BigEndian24(h: seq<byte>): nat
    requires |h| == 4
  {
    65536 * (h[1] as nat) + 256 * (h[2] as nat) + h[3] as nat
  }

  /**
   * The header keeps the low 24 bits of the size, so every size below
   * 2^24 (the 1,440,000-byte frame among them) is read back exactly.
   */
  lemma FrameHeaderRoundTrip(size: nat)
    ensures BigEndian24(FrameHeader(size)) == size % 0x100_0000
    ensures size < 0x100_0000 ==> BigEndian24(FrameHeader(size)) == size
  {
    var h := FrameHeader(size);
    var low := size % 65536;
    Split(size, size / 65536, low, 65536);
    Split(low, size / 256 % 256, size % 256, 256) by {
      Split(size, size / 256, size % 256, 256);
      Split(size / 256, size / 65536, size / 256 % 256, 256) by {
        assert size / 256 == 256 * (size / 256 / 256) + size / 256 % 256;
        Split(size, size / 256 / 256, 256 * (size / 256 % 256) + size % 256, 65536);
      }
    }
    Split(size, size / 0x100_0000, 65536 * h[1] + low, 0x100_0000) by {
      Split(size / 65536, size / 0x100_0000, h[1], 256) by {
        assert size / 65536 == 256 * (size / 65536 / 256) + size / 65536 % 256;
        Split(size, size / 65536 / 256, 65536 * (size / 65536 % 256) + low, 0x100_0000);
      }
    }
  }

  lemma FrameSizeFits()
    ensures FrameSize == 1440000 && BigEndian24(FrameHeader(FrameSize)) == FrameSize
  {
    FrameHeaderRoundTrip(FrameSize);
  }

  // ---------------------------------------------------------------------
  // Sending a frame

  /** What `libusb_bulk_transfer` reports: its return code and the bytes it moved. */
  datatype Transfer = Transfer(status: int, actual: nat)

  /**
   * `reply(k, len)` is the outcome of the `k`-th transfer, which asks for
   * `len` bytes. A successful transfer of a non-empty request moves at least
   * one byte and never more than requested.
   */
  ghost predicate Device(reply: (nat, nat) -> Transfer)
  {
    forall k: nat, len: nat :: 0 < len && reply(k, len).status == 0 ==> 0 < reply(k, len).actual <= len
  }

  /** A device that takes every transfer whole. */
  ghost predicate Perfect(reply: (nat, nat) -> Transfer)
  {
    forall k: nat, len: nat :: reply(k, len) == Transfer(0, len)
  }

  /** What `send_frame` returns, the payloads it sends, and its final `sent`. */
  datatype Sending = Sending(ret: int, log: seq<seq<byte>>, sent: nat)

  function Min(a: nat, b: nat): nat { if a <= b then a else b }

  /**
   * The chunk loop of `send_frame` from `sent` bytes on, with `k` the index of
   * the next transfer: each chunk asks for the rest of the frame but at most
   * 1024 bytes from offset `sent`; an error ends the loop with 0; otherwise
   * `sent` grows by what the transfer moved.
   */
  function Chunks(data: seq<byte>, size: nat, sent: nat, reply: (nat, nat) -> Transfer, k: nat)
    : (r: Sending)
    requires sent <= size <= |data| && Device(reply)
    ensures sent <= r.sent <= size
    ensures r.ret == 1 || r.ret == 0
    ensures r.ret == 1 <==> r.sent == size
    ensures forall i :: 0 <= i < |r.log| ==> 0 < |r.log[i]| <= ChunkSize
    decreases size - sent
  {
    if sent == size then Sending(1, [], sent)
    else
      var len := Min(size - sent, ChunkSize);
      var t := reply(k, len);
      if t.status != 0 then Sending(0, [data[sent..sent + len]], sent)
      else
        var rest := Chunks(data, size, sent + t.actual, reply, k + 1);
        Sending(rest.ret, [data[sent..sent + len]] + rest.log, rest.sent)
  }

  /**
   * All of `send_frame`: the header, whose failure returns 0 at once, then
   * the chunk loop.
   */
  function SendFrameSpec(data: seq<byte>, size: nat, reply: (nat, nat) -> Transfer): (r: Sending)
    requires size <= |data| && Device(reply)
  {
    if reply(0, 4).status != 0 then Sending(0, [FrameHeader(size)], 0)
    else
      var c := Chunks(data, size, 0, reply, 1);
      Sending(c.ret, [FrameHeader(size)] + c.log, c.sent)
  }

  /**
   * A frame counts as sent (1) only when every byte went out; the header
   * comes first and every chunk asks for between 1 and 1024 bytes.
   */
  lemma SendFrameReturns(data: seq<byte>, size: nat, reply: (nat, nat) -> Transfer)
    requires size <= |data| && Device(reply)
    ensures var r := SendFrameSpec(data, size, reply);
      (r.ret == 0 || r.ret == 1) && (r.ret == 1 ==> r.sent == size) &&
      |r.log| >= 1 && r.log[0] == FrameHeader(size) &&
      forall i :: 1 <= i < |r.log| ==> 0 < |r.log[i]| <= ChunkSize
  {
    var r := SendFrameSpec(data, size, reply);
    if reply(0, 4).status == 0 {
      var c := Chunks(data, size, 0, reply, 1);
      assert forall i :: 1 <= i < |r.log| ==> r.log[i] == c.log[i - 1];
    }
  }

  /** Concatenation of the chunks. */
  function Concat(s: seq<seq<byte>>): seq<byte>
  {
    if s == [] then [] else s[0] + Concat(s[1..])
  }

  /**
   * On a device that takes every transfer whole the loop sends the rest of
   * the frame in `⌈(size - sent) / 1024⌉` chunks that, put together, are
   * exactly that rest.
   */
  lemma {:induction false} PerfectChunks(data: seq<byte>, size: nat, sent: nat,
                                         reply: (nat, nat) -> Transfer, k: nat)
    requires sent <= size <= |data| && Perfect(reply)
    ensures Device(reply)
    ensures var r := Chunks(data, size, sent, reply, k);
      r.ret == 1 && |r.log| == (size - sent + ChunkSize - 1) / ChunkSize &&
      Concat(r.log) == data[sent..size]
    decreases size - sent
  {
    if sent < size {
      var len := Min(size - sent, ChunkSize);
      assert reply(k, len) == Transfer(0, len);
      PerfectChunks(data, size, sent + len, reply, k + 1);
      var rest := Chunks(data, size, sent + len, reply, k + 1);
      var r := Chunks(data, size, sent, reply, k);
      assert r.log == [data[sent..sent + len]] + rest.log;
      assert r.log[1..] == rest.log;
      assert data[sent..size] == data[sent..sent + len] + data[sent + len..size];
      var m := size - sent - len;
      if size - sent <= ChunkSize {
        Split(size - sent + ChunkSize - 1, 1, size - sent - 1, ChunkSize);
      } else {
        Split(m + ChunkSize - 1, (m + ChunkSize - 1) / ChunkSize, (m + ChunkSize - 1) % ChunkSize, ChunkSize);
        Split(size - sent + ChunkSize - 1, (m + ChunkSize - 1) / ChunkSize + 1,
              (m + ChunkSize - 1) % ChunkSize, ChunkSize);
      }
    }
  }

  /**
   * `send_frame` on a device that takes every transfer whole: it returns 1
   * after the header and `⌈size / 1024⌉` chunks that together are the frame.
   */
  lemma PerfectSendFrame(data: seq<byte>, size: nat, reply: (nat, nat) -> Transfer)
    requires size <= |data| && Perfect(reply)
    ensures Device(reply)
    ensures var r := SendFrameSpec(data, size, reply);
      r.ret == 1 && r.sent == size && |r.log| == 1 + (size + ChunkSize - 1) / ChunkSize &&
      r.log[0] == FrameHeader(size) && Concat(r.log[1..]) == data[..size]
  {
    PerfectChunks(data, size, 0, reply, 1);
    assert reply(0, 4) == Transfer(0, 4);
    var r := SendFrameSpec(data, size, reply);
    assert r.log[1..] == Chunks(data, size, 0, reply, 1).log;
  }

  /** `s` with its payloads preceded by `pre`. */
  function After(pre: seq<seq<byte>>, s: Sending): Sending
  {
    Sending(s.ret, pre + s.log, s.sent)
  }

  /** One pass of the chunk loop, as seen from the payloads already sent. */
  lemma ChunksStep(data: seq<byte>, size: nat, sent: nat, reply: (nat, nat) -> Transfer, k: nat,
                   pre: seq<seq<byte>>, chunk: seq<byte>, t: Transfer)
    requires sent < size <= |data| && Device(reply)
    requires chunk == data[sent..sent + Min(size - sent, ChunkSize)]
    requires t == reply(k, Min(size - sent, ChunkSize))
    ensures t.status != 0 ==>
      After(pre, Chunks(data, size, sent, reply, k)) == Sending(0, pre + [chunk], sent)
    ensures t.status == 0 ==> sent + t.actual <= size
    ensures t.status == 0 ==>
      After(pre, Chunks(data, size, sent, reply, k)) ==
        After(pre + [chunk], Chunks(data, size, sent + t.actual, reply, k + 1))
  {
    if t.status == 0 {
      var rest := Chunks(data, size, sent + t.actual, reply, k + 1);
      assert pre + ([chunk] + rest.log) == pre + [chunk] + rest.log;
    }
  }

  /**
   * `send_frame(handle, frame_data, frame_size)`: `log` lists the payloads
   * of the transfers it makes, in order.
   */
  method SendFrame(frameData: array<byte>, frameSize: nat, reply: (nat, nat) -> Transfer)
    returns (ret: int, log: seq<seq<byte>>)
    requires frameSize <= frameData.Length && Device(reply)
    ensures var r := SendFrameSpec(frameData[..], frameSize, reply); ret == r.ret && log == r.log
  {
    ghost var data := frameData[..];
    ghost var spec := SendFrameSpec(data, frameSize, reply);
    var cmd := FrameHeader(frameSize);
    log := [cmd];
    var t := reply(0, |cmd|);
    if t.status != 0 {
      return 0, log;
    }
    var sent := 0;
    var k := 1;
    while sent < frameSize
      invariant sent <= frameSize
      invariant spec == After(log, Chunks(data, frameSize, sent, reply, k))
      decreases frameSize - sent
    {
      var failed;
      failed, sent, log := SendChunk(frameData, frameSize, reply, sent, k, log);
      if failed {
        return 0, log;
      }
      k := k + 1;
    }
    ret := 1;
  }

  /**
   * One pass of the chunk loop of `send_frame`: transfer `k` asks for the
   * rest of the frame but at most 1024 bytes from offset `sent`; on failure
   * the loop is left, otherwise `sent` grows by what was moved.
   */
  method SendChunk(frameData: array<byte>, frameSize: nat, reply: (nat, nat) -> Transfer,
                   sent: nat, k: nat, log: seq<seq<byte>>)
    returns (failed: bool, sent': nat, log': seq<seq<byte>>)
    requires sent < frameSize <= frameData.Length && Device(reply)
    ensures failed ==>
      After(log, Chunks(frameData[..], frameSize, sent, reply, k)) == Sending(0, log', sent)
    ensures !failed ==> sent < sent' <= frameSize
    ensures !failed ==>
      After(log, Chunks(frameData[..], frameSize, sent, reply, k)) ==
        After(log', Chunks(frameData[..], frameSize, sent', reply, k + 1))
  {
    var toSend := if frameSize - sent < ChunkSize then frameSize - sent else ChunkSize;
    var chunk := frameData[sent..sent + toSend];
    var t := reply(k, toSend);
    ChunksStep(frameData[..], frameSize, sent, reply, k, log, chunk, t);
    log' := log + [chunk];
    failed := t.status != 0;
    sent' := if failed then sent else sent + t.actual;
  }

  // ---------------------------------------------------------------------
  // The colour-bar frame

  /** Red, green, blue, yellow, magenta, cyan, white, black. */
  const Colours: seq<seq<byte>> := [
    [255, 0, 0], [0, 255, 0], [0, 0, 255], [255, 255, 0],
    [255, 0, 255], [0, 255, 255], [255, 255, 255], [0, 0, 0]]

  const BarWidth: nat := VideoWidth / 8

  /** Byte `k` of the test frame: channel `k % 3` of the bar under pixel `k / 3`. */
  function BarByte(k: nat): byte
    requires k < FrameSize
  {
    Colours[k / 3 % VideoWidth / BarWidth][k % 3]
  }

  /** The test frame, byte by byte. */
  function ColourBars(): (f: seq<byte>)
    ensures |f| == FrameSize
  {
    seq(FrameSize, k requires 0 <= k < FrameSize => BarByte(k))
  }

  /** The byte offset of channel `c` of pixel `(x, y)`. */
  function Offset(x: nat, y: nat, c: nat): nat
  {
    (y * VideoWidth + x) * BytesPerPixel + c
  }

  /**
   * Channel `c` of pixel `(x, y)` lies inside the frame and holds channel
   * `c` of bar `x / 100`, one of the eight bars.
   */
  lemma BarAt(x: nat, y: nat, c: nat)
    requires x < VideoWidth && y < VideoHeight && c < 3
    ensures x / BarWidth < 8 && Offset(x, y, c) < FrameSize
    ensures BarByte(Offset(x, y, c)) == Colours[x / BarWidth][c]
  {
    var p := y * VideoWidth + x;
    assert p < VideoWidth * VideoHeight by {
      assert y * VideoWidth <= (VideoHeight - 1) * VideoWidth;
    }
    Split(Offset(x, y, c), p, c, 3);
    Split(p, y, x, VideoWidth);
    var k := Offset(x, y, c);
    assert k / 3 % VideoWidth / BarWidth == x / BarWidth && k % 3 == c;
  }

  /**
   * The offsets of the fill loop cover the frame exactly once: each byte is
   * the offset of one pixel channel, and distinct pixel channels have
   * distinct offsets.
   */
  lemma OffsetsTile(k: nat, x: nat, y: nat, c: nat, x': nat, y': nat, c': nat)
    requires k < FrameSize
    requires x < VideoWidth && y < VideoHeight && c < 3
    requires x' < VideoWidth && y' < VideoHeight && c' < 3
    ensures k / 3 % VideoWidth < VideoWidth && k / 3 / VideoWidth < VideoHeight
    ensures Offset(k / 3 % VideoWidth, k / 3 / VideoWidth, k % 3) == k
    ensures Offset(x, y, c) == Offset(x', y', c') ==> x == x' && y == y' && c == c'
  {
    var p := k / 3;
    assert p * 3 <= k;
    Split(p, p / VideoWidth, p % VideoWidth, VideoWidth);
    if Offset(x, y, c) == Offset(x', y', c') {
      var q := y * VideoWidth + x;
      Split(Offset(x, y, c), q, c, 3);
      Split(Offset(x', y', c'), y' * VideoWidth + x', c', 3);
      Split(q, y, x, VideoWidth);
      Split(y' * VideoWidth + x', y', x', VideoWidth);
    }
  }

  /**
   * The colour-bar loop of `main`: whatever the `malloc`'d buffer held
   * before, every byte ends up as the test frame's.
   */
  method FillColourBars(frame: array<byte>)
    requires frame.Length == FrameSize
    modifies frame
    ensures frame[..] == ColourBars()
  {
    var barWidth := VideoWidth / 8;
    for y := 0 to VideoHeight
      invariant forall k :: 0 <= k < Offset(0, y, 0) ==> frame[k] == BarByte(k)
    {
      for x := 0 to VideoWidth
        invariant forall k :: 0 <= k < Offset(x, y, 0) ==> frame[k] == BarByte(k)
      {
        PaintPixel(frame, x, y, barWidth);
        assert Offset(x, y, 0) + 3 == Offset(x + 1, y, 0);
      }
      assert Offset(VideoWidth, y, 0) == Offset(0, y + 1, 0);
    }
    assert Offset(0, VideoHeight, 0) == FrameSize;
  }

  /**
   * One pass of the inner fill loop: pixel (x, y) gets the three bytes of
   * the colour of bar `x / barWidth`.
   */
  method PaintPixel(frame: array<byte>, x: nat, y: nat, barWidth: nat)
    requires frame.Length == FrameSize && x < VideoWidth && y < VideoHeight && barWidth == BarWidth
    requires forall k :: 0 <= k < Offset(x, y, 0) ==> frame[k] == BarByte(k)
    modifies frame
    ensures forall k :: 0 <= k < Offset(x, y, 0) + 3 ==> frame[k] == BarByte(k)
  {
    var pixelOffset := (y * VideoWidth + x) * BytesPerPixel;
    var barIndex := x / barWidth;
    BarAt(x, y, 0);
    BarAt(x, y, 1);
    BarAt(x, y, 2);
    frame[pixelOffset] := Colours[barIndex][0];
    frame[pixelOffset + 1] := Colours[barIndex][1];
    frame[pixelOffset + 2] := Colours[barIndex][2];
  }
}
