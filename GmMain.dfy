/**
 * gm12u320_main.c: the kernel driver's side of the projector protocol. A
 * frame travels as a run of data blocks, each announced by a 31-byte Command
 * Block Wrapper (USB Mass Storage Class Bulk-Only Transport, revision 1.0,
 * section 5.1: the signature "USBC", then a little-endian transfer length at
 * bytes 8 to 11) and acknowledged by a 13-byte Command Status Wrapper
 * (section 5.2); a draw command then makes the projector show the frame.
 */
module GmMain {
  import opened Pixels
  import opened Kernel

  const MiscRcvEpt: nat := 1
  const DataRcvEpt: nat := 2
  const DataSndEpt: nat := 3
  const MiscSndEpt: nat := 4

  const HeaderSize: nat := 84
  const ContentSize: nat := 64512
  const FooterSize: nat := 20
  const DataBlockSize: nat := HeaderSize + ContentSize + FooterSize
  const LastContentSize: nat := 4032
  const DataLastBlockSize: nat := HeaderSize + LastContentSize + FooterSize

  const CmdSize: nat := 31
  const ReadStatusSize: nat := 13
  const MiscValueSize: nat := 4

  /** Timeouts of the bulk transfers, in milliseconds. */
  const CmdTimeout: nat := 200
  const DataTimeout: nat := 1000
  const IdleTimeout: nat := 2000
  const FirstFrameTimeout: nat := 2000

  const EcoRequestA: byte := 0xff
  const EcoRequestB: byte := 0x35

  /** The Command Block Wrapper that announces a data block (`cmd_data`). */
  const CmdData: seq<byte> := [
    0x55, 0x53, 0x42, 0x43, 0x00, 0x00, 0x00, 0x00,
    0x68, 0xfc, 0x00, 0x00, 0x00, 0x00, 0x10, 0xff,
    0x00, 0x00, 0x00, 0x00, 0xfc, 0x00, 0x80, 0x00,
    0x00, 0x00, 0x00, 0x00, 0x00, 0x00, 0x00]

  /** The Command Block Wrapper that makes the projector show the frame (`cmd_draw`). */
  const CmdDraw: seq<byte> := [
    0x55, 0x53, 0x42, 0x43, 0x00, 0x00, 0x00, 0x00,
    0x00, 0x00, 0x00, 0x00, 0x00, 0x00, 0x10, 0xfe,
    0x00, 0x00, 0x00, 0xc0, 0xd1, 0x05, 0x00, 0x40,
    0x00, 0x01, 0x00, 0x00, 0x00, 0x00, 0x00]

  /** The Command Block Wrapper of a miscellaneous request (`cmd_misc`). */
  const CmdMisc: seq<byte> := [
    0x55, 0x53, 0x42, 0x43, 0x00, 0x00, 0x00, 0x00,
    0x04, 0x00, 0x00, 0x00, 0x80, 0x01, 0x10, 0xfd,
    0x00, 0x00, 0x00, 0xc0, 0x00, 0x00, 0x00, 0x00,
    0x00, 0x00, 0x00, 0x00, 0x00, 0x00, 0x00]

  /** `data_block_header`: 64 zero bytes, then 20 bytes of block description. */
  const DataBlockHeader: seq<byte> := Zeros(64) + [
    0xfb, 0x14, 0x00, 0x00, 0x00, 0x00, 0x00, 0x00,
    0x00, 0x04, 0x15, 0x00, 0x00, 0xfc, 0x00, 0x00,
    0x01, 0x00, 0x00, 0xdb]

  /** `data_last_block_header`. */
  const DataLastBlockHeader: seq<byte> := Zeros(64) + [
    0xfb, 0x14, 0x00, 0x00, 0x00, 0x00, 0x00, 0x00,
    0x2a, 0x00, 0x20, 0x00, 0xc0, 0x0f, 0x00, 0x00,
    0x01, 0x00, 0x00, 0xd7]

  /** `data_block_footer`. */
  const DataBlockFooter: seq<byte> := [
    0xfb, 0x14, 0x02, 0x20, 0x00, 0x00, 0x00, 0x00,
    0x00, 0x00, 0x00, 0x00, 0x00, 0x00, 0x00, 0x00,
    0x80, 0x00, 0x00, 0x4f]

  /** The little-endian 32-bit number at `off`. */
  function LittleEndian32(s: seq<byte>, off: nat): nat
    requires off + 4 <= |s|
  {
    s[off] as nat + 256 * (s[off + 1] as nat) + 65536 * (s[off + 2] as nat) + 16777216 * (s[off + 3] as nat)
  }

  /** The little-endian 16-bit number at `off`. */
  function LittleEndian16(s: seq<byte>, off: nat): nat
    requires off + 2 <= |s|
  {
    s[off] as nat + 256 * (s[off + 1] as nat)
  }

  /** The wrapper signature "USBC". */
  const Signature: seq<byte> := [0x55, 0x53, 0x42, 0x43]

  /** A 31-byte wrapper with the signature and a 16-byte command block. */
  predicate Wrapper(t: seq<byte>)
  {
    |t| == CmdSize && t[..4] == Signature && t[14] == 0x10
  }

  /**
   * The three templates are well-formed wrappers: the data command announces
   * a full block host-to-device, the draw command no data, and the
   * miscellaneous request four bytes device-to-host.
   */
  lemma TemplatesAreWrappers()
    ensures Wrapper(CmdData) && LittleEndian32(CmdData, 8) == DataBlockSize && CmdData[12] == 0x00
    ensures Wrapper(CmdDraw) && LittleEndian32(CmdDraw, 8) == 0
    ensures Wrapper(CmdMisc) && LittleEndian32(CmdMisc, 8) == MiscValueSize && CmdMisc[12] == 0x80
  {
  }

  // ---------------------------------------------------------------------
  // Data blocks

  /** Block `i` of `n` is the last one when `i == n - 1`. */
  function BlockSize(i: nat, n: nat): nat
  {
    if i == n - 1 then DataLastBlockSize else DataBlockSize
  }

  function Header(i: nat, n: nat): seq<byte>
  {
    if i == n - 1 then DataLastBlockHeader else DataBlockHeader
  }

  /** A block as `gm12u320_usb_alloc` leaves it: header, zero content, footer. */
  function Layout(i: nat, n: nat): (buf: seq<byte>)
    ensures |buf| == BlockSize(i, n)
  {
    Header(i, n) + Zeros(BlockSize(i, n) - HeaderSize - FooterSize) + DataBlockFooter
  }

  /** Block `i` of `n` has its size, its header at `[0, 84)` and the footer at its end. */
  ghost predicate Framed(buf: seq<byte>, i: nat, n: nat)
  {
    |buf| == BlockSize(i, n) && buf[..HeaderSize] == Header(i, n) &&
    buf[|buf| - FooterSize..] == DataBlockFooter
  }

  /**
   * Every buffer of `bufs` is framed as block `i` of `n`, stated block by
   * block from the last one down.
   */
  ghost predicate BlocksFramed(bufs: seq<array<byte>>, n: nat)
    reads bufs
    decreases |bufs|
  {
    bufs == [] ||
    (BlocksFramed(bufs[..|bufs| - 1], n) && Framed(bufs[|bufs| - 1][..], |bufs| - 1, n))
  }

  lemma {:induction false} BlocksFramedAt(bufs: seq<array<byte>>, n: nat, i: nat)
    requires BlocksFramed(bufs, n) && i < |bufs|
    ensures Framed(bufs[i][..], i, n)
  {
    if i < |bufs| - 1 {
      BlocksFramedAt(bufs[..|bufs| - 1], n, i);
    }
  }

  lemma {:induction false} BlocksFramedAll(bufs: seq<array<byte>>, n: nat)
    requires forall i :: 0 <= i < |bufs| ==> Framed(bufs[i][..], i, n)
    ensures BlocksFramed(bufs, n)
  {
    if bufs != [] {
      BlocksFramedAll(bufs[..|bufs| - 1], n);
    }
  }

  /**
   * The allocated layout is framed, its content is zero, and the header
   * announces the content's size (little-endian, at byte 76).
   */
  lemma LayoutFramed(i: nat, n: nat)
    ensures Framed(Layout(i, n), i, n)
    ensures forall k :: HeaderSize <= k < BlockSize(i, n) - FooterSize ==> Layout(i, n)[k] == 0
    ensures LittleEndian16(Header(i, n), 76) == BlockSize(i, n) - HeaderSize - FooterSize
  {
    var buf := Layout(i, n);
    assert buf[..HeaderSize] == Header(i, n);
    assert buf[|buf| - FooterSize..] == DataBlockFooter;
  }

  /** `buf` with `src` copied over it from `off` on (`memcpy(buf + off, src, |src|)`). */
  function Overwrite(buf: seq<byte>, off: nat, src: seq<byte>): seq<byte>
    requires off + |src| <= |buf|
  {
    buf[..off] + src + buf[off + |src|..]
  }

  /**
   * `kzalloc` then two `memcpy` calls: copying the header to the front and the
   * footer to the end of a zeroed block gives exactly the allocated layout.
   */
  lemma AllocLayout(i: nat, n: nat)
    ensures var size := BlockSize(i, n);
      Overwrite(Overwrite(Zeros(size), 0, Header(i, n)), size - FooterSize, DataBlockFooter) == Layout(i, n)
  {
    var size := BlockSize(i, n);
    var a := Overwrite(Zeros(size), 0, Header(i, n));
    var b := Overwrite(a, size - FooterSize, DataBlockFooter);
    forall k | 0 <= k < size ensures b[k] == Layout(i, n)[k] {
      if k < HeaderSize {
      } else if k < size - FooterSize {
      } else {
      }
    }
  }

  /** `memcpy(dst + off, src, |src|)`. */
  method Memcpy(dst: array<byte>, off: nat, src: seq<byte>)
    requires off + |src| <= dst.Length
    modifies dst
    ensures dst[..] == Overwrite(old(dst[..]), off, src)
  {
    for k := 0 to |src|
      invariant dst[..] == Overwrite(old(dst[..]), off, src[..k])
    {
      ghost var before := dst[..];
      dst[off + k] := src[k];
      assert dst[..] == Overwrite(old(dst[..]), off, src[..k + 1]) by {
        assert dst[..] == before[off + k := src[k]];
      }
    }
    assert src[..|src|] == src;
  }

  // ---------------------------------------------------------------------
  // The test pattern

  /** The pixel of the test pattern: red on odd frames, green on even ones. */
  function TestColour(frame: bool): (c: seq<byte>)
    ensures |c| == 3
  {
    if frame then [0xff, 0x00, 0x00] else [0x00, 0xff, 0x00]
  }

  /** `prev` with the pattern written over the content bytes below `upto`. */
  function Filled(prev: seq<byte>, frame: bool, upto: int): (r: seq<byte>)
    ensures |r| == |prev|
  {
    seq(|prev|, k requires 0 <= k < |prev| =>
      if HeaderSize <= k < upto then TestColour(frame)[(k - HeaderSize) % 3] else prev[k])
  }

  /** A block after the test fill: its whole content painted with the frame's colour. */
  function TestFill(prev: seq<byte>, frame: bool): seq<byte>
  {
    Filled(prev, frame, |prev| - FooterSize)
  }

  /** One step of the fill loop paints one more pixel. */
  lemma FillStep(prev: seq<byte>, frame: bool, j: nat, t: nat)
    requires j == HeaderSize + 3 * t && j + 3 <= |prev|
    ensures Filled(prev, frame, j)[j := TestColour(frame)[0]][j + 1 := TestColour(frame)[1]]
              [j + 2 := TestColour(frame)[2]] == Filled(prev, frame, j + 3)
  {
    var lhs := Filled(prev, frame, j)[j := TestColour(frame)[0]][j + 1 := TestColour(frame)[1]]
                 [j + 2 := TestColour(frame)[2]];
    forall k | j <= k < j + 3 ensures lhs[k] == Filled(prev, frame, j + 3)[k] {
      Split(k - HeaderSize, t, k - j, 3);
    }
    assert lhs == Filled(prev, frame, j + 3);
  }

  /**
   * The fill loop of `gm12u320_fb_update_work` for one block: every third
   * byte from the end of the header on, three bytes at a time.
   */
  method FillBlock(a: array<byte>, frame: bool)
    requires a.Length == DataBlockSize || a.Length == DataLastBlockSize
    modifies a
    ensures a[..] == TestFill(old(a[..]), frame)
  {
    ghost var prev := a[..];
    ghost var pixels: nat := if a.Length == DataBlockSize then ContentSize / 3 else LastContentSize / 3;
    ghost var t: nat := 0;
    var j := HeaderSize;
    while j < a.Length - FooterSize
      invariant j == HeaderSize + 3 * t && t <= pixels
      invariant a[..] == Filled(prev, frame, j)
      decreases pixels - t
    {
      FillStep(prev, frame, j, t);
      a[j] := if frame then 0xff else 0x00;
      a[j + 1] := if frame then 0x00 else 0xff;
      a[j + 2] := 0x00;
      j, t := j + 3, t + 1;
    }
  }

  /**
   * The fill keeps header and footer, because both content sizes are
   * multiples of three, and paints pixel `p` of the content with the frame's
   * colour, channel `c` at byte `84 + 3p + c`.
   */
  lemma TestFillFramed(buf: seq<byte>, i: nat, n: nat, frame: bool)
    requires Framed(buf, i, n)
    ensures Framed(TestFill(buf, frame), i, n)
    ensures forall p :: 0 <= p < (|buf| - HeaderSize - FooterSize) / 3 ==>
      ContentPixel(TestFill(buf, frame), p) == TestColour(frame)
  {
    var r := TestFill(buf, frame);
    assert r[..HeaderSize] == buf[..HeaderSize];
    assert r[|r| - FooterSize..] == buf[|buf| - FooterSize..];
    forall p | 0 <= p < (|buf| - HeaderSize - FooterSize) / 3
      ensures ContentPixel(r, p) == TestColour(frame)
    {
      forall c | 0 <= c < 3 ensures r[HeaderSize + 3 * p + c] == TestColour(frame)[c] {
        Split(3 * p + c, p, c, 3);
      }
    }
  }

  /** Pixel `p` of a block's content: bytes `84 + 3p` to `84 + 3p + 2`. */
  function ContentPixel(buf: seq<byte>, p: nat): seq<byte>
    requires HeaderSize + 3 * p + 3 <= |buf|
  {
    buf[HeaderSize + 3 * p..HeaderSize + 3 * p + 3]
  }

  /** Filling twice with the same frame is filling once. */
  lemma TestFillIdempotent(buf: seq<byte>, frame: bool)
    ensures TestFill(TestFill(buf, frame), frame) == TestFill(buf, frame)
  {
  }

  // ---------------------------------------------------------------------
  // Commands

  /**
   * The low byte of `block | (frame << 7)`: the block number with bit 7 set
   * when `frame` is 1.
   */
  function BlockTag(block: nat, frame: bool): byte
  {
    var low := block % 256;
    if frame && low < 128 then low + 128 else low
  }

  /**
   * `cmd_data` with the transfer length set to `size` (bytes 8 and 9) and the
   * block's two command bytes (20 and 21), each stored as its low byte.
   */
  function DataCommand(block: nat, size: nat, frame: bool): seq<byte>
  {
    CmdData[8 := size % 256][9 := size / 256 % 256][20 := (0xfc - 4 * block) % 256]
      [21 := BlockTag(block, frame)]
  }

  /**
   * The data command announces `size` in the wrapper's length field, carries
   * `0xfc - 4·block` at byte 20 and the block number with the frame bit at
   * byte 21, and keeps every other byte of the template.
   */
  lemma DataCommandFields(block: nat, size: nat, frame: bool)
    requires block < 64 && size < 65536
    ensures var cmd := DataCommand(block, size, frame);
      |cmd| == CmdSize && cmd[..4] == CmdData[..4] &&
      LittleEndian32(cmd, 8) == size &&
      cmd[20] == 0xfc - 4 * block &&
      cmd[21] % 128 == block && cmd[21] / 128 == (if frame then 1 else 0) &&
      forall k :: 0 <= k < CmdSize && k !in {8, 9, 20, 21} ==> cmd[k] == CmdData[k]
  {
    Split(size, size / 256, size % 256, 256);
    var tag := BlockTag(block, frame);
    Split(tag, if frame then 1 else 0, block, 128);
  }

  /** The template itself is the command for block 0 of frame 0. */
  lemma DataCommandTemplate()
    ensures DataCommand(0, DataBlockSize, false) == CmdData
  {
  }

  /** `cmd_misc` with bytes 20 to 25 set to the request and its arguments. */
  function MiscCommand(reqA: byte, reqB: byte, argA: byte, argB: byte, argC: byte, argD: byte): seq<byte>
  {
    CmdMisc[20 := reqA][21 := reqB][22 := argA][23 := argB][24 := argC][25 := argD]
  }

  /**
   * A miscellaneous request asks for the 4-byte value device-to-host, holds
   * its six parameters at bytes 20 to 25 and keeps every other template byte.
   */
  lemma MiscCommandFields(reqA: byte, reqB: byte, argA: byte, argB: byte, argC: byte, argD: byte)
    ensures var cmd := MiscCommand(reqA, reqB, argA, argB, argC, argD);
      |cmd| == CmdSize && cmd[..4] == CmdMisc[..4] &&
      LittleEndian32(cmd, 8) == MiscValueSize && cmd[12] == 0x80 &&
      cmd[20..26] == [reqA, reqB, argA, argB, argC, argD] &&
      cmd[..20] == CmdMisc[..20] && cmd[26..] == CmdMisc[26..]
  {
  }

  // ---------------------------------------------------------------------
  // Transfers

  /** A bulk transfer: `Out` sends a payload, `In` reads up to `length` bytes. */
  datatype Msg =
    | Out(endpoint: nat, payload: seq<byte>, timeout: nat)
    | In(endpoint: nat, length: nat, timeout: nat)

  /** What `usb_bulk_msg` reports: its return value and the bytes moved. */
  datatype Transfer = Transfer(status: int, actual: int)

  /** The number of bytes a transfer must move for the driver to go on. */
  function Want(m: Msg): nat
  {
    match m
    case Out(_, payload, _) => |payload|
    case In(_, length, _) => length
  }

  /** `!(ret || len != want)`. */
  predicate Exact(t: Transfer, want: nat)
  {
    t.status == 0 && t.actual == want
  }

  /**
   * `log` is what the driver sends for a planned run of transfers `script`
   * when transfer `k` is answered by `reply(k)`: the plan up to and including
   * the first transfer that falls short, or all of it (`ok`).
   */
  ghost predicate Exchanged(script: seq<Msg>, reply: nat -> Transfer, log: seq<Msg>, ok: bool)
  {
    |log| <= |script| && log == script[..|log|] &&
    (forall k :: 0 <= k < |log| - 1 ==> Exact(reply(k), Want(script[k]))) &&
    (ok ==> |log| == |script| && (|log| > 0 ==> Exact(reply(|log| - 1), Want(script[|log| - 1])))) &&
    (!ok ==> |log| > 0 && !Exact(reply(|log| - 1), Want(script[|log| - 1])))
  }

  /** A run succeeds exactly when every planned transfer moves its full length. */
  lemma ExchangedOk(script: seq<Msg>, reply: nat -> Transfer, log: seq<Msg>, ok: bool)
    requires Exchanged(script, reply, log, ok)
    ensures ok <==> forall k :: 0 <= k < |script| ==> Exact(reply(k), Want(script[k]))
  {
  }

  /** The replies determine the run: the log and the outcome are unique. */
  lemma ExchangedUnique(script: seq<Msg>, reply: nat -> Transfer,
                        log1: seq<Msg>, ok1: bool, log2: seq<Msg>, ok2: bool)
    requires Exchanged(script, reply, log1, ok1) && Exchanged(script, reply, log2, ok2)
    ensures log1 == log2 && ok1 == ok2
  {
    ExchangedOk(script, reply, log1, ok1);
    ExchangedOk(script, reply, log2, ok2);
  }

  /** The first `|log|` planned transfers have gone out, each moving its full length. */
  ghost predicate Progress(script: seq<Msg>, reply: nat -> Transfer, log: seq<Msg>)
  {
    |log| <= |script| && log == script[..|log|] &&
    forall k :: 0 <= k < |log| ==> Exact(reply(k), Want(script[k]))
  }

  /**
   * Sending the next planned transfer either keeps the run going, when it
   * moves its full length, or ends it with that transfer last.
   */
  lemma Advance(script: seq<Msg>, reply: nat -> Transfer, log: seq<Msg>)
    requires Progress(script, reply, log) && |log| < |script|
    ensures var next := log + [script[|log|]];
      (Exact(reply(|log|), Want(script[|log|])) ==> Progress(script, reply, next)) &&
      (!Exact(reply(|log|), Want(script[|log|])) ==> Exchanged(script, reply, next, false))
  {
    assert script[..|log| + 1] == log + [script[|log|]];
  }

  /** A run that has sent its whole plan succeeds. */
  lemma Finish(script: seq<Msg>, reply: nat -> Transfer, log: seq<Msg>)
    requires Progress(script, reply, log) && |log| == |script|
    ensures Exchanged(script, reply, log, true)
  {
  }

  // ---------------------------------------------------------------------
  // Miscellaneous requests

  /** Send the request, read the 4-byte value, read the status. */
  function MiscScript(cmd: seq<byte>): seq<Msg>
  {
    [Out(MiscSndEpt, cmd, CmdTimeout), In(MiscRcvEpt, MiscValueSize, DataTimeout),
     In(MiscRcvEpt, ReadStatusSize, CmdTimeout)]
  }

  /** The patching of the request buffer: the template, then bytes 20 to 25. */
  method BuildMiscCommand(buf: array<byte>, reqA: byte, reqB: byte, argA: byte, argB: byte,
                          argC: byte, argD: byte)
    requires buf.Length == CmdSize
    modifies buf
    ensures buf[..] == MiscCommand(reqA, reqB, argA, argB, argC, argD)
  {
    Memcpy(buf, 0, CmdMisc);
    buf[20] := reqA;
    buf[21] := reqB;
    buf[22] := argA;
    buf[23] := argB;
    buf[24] := argC;
    buf[25] := argD;
  }

  /**
   * `gm12u320_misc_request`. `allocOk` is whether `kmalloc` found the buffer,
   * `reply(k)` the outcome of the `k`-th transfer and `value` the first byte
   * the device returns for the value read. The result is that byte when all
   * three transfers move their full length, `-EIO` when one falls short, and
   * `-ENOMEM` without any transfer when the allocation fails.
   */
  method MiscRequest(reqA: byte, reqB: byte, argA: byte, argB: byte, argC: byte, argD: byte,
                     allocOk: bool, reply: nat -> Transfer, value: byte)
    returns (ret: int, log: seq<Msg>)
    ensures !allocOk ==> ret == -ENOMEM && log == []
    ensures allocOk ==>
      Exchanged(MiscScript(MiscCommand(reqA, reqB, argA, argB, argC, argD)), reply, log, ret >= 0) &&
      (ret >= 0 ==> ret == value) && (ret < 0 ==> ret == -EIO)
  {
    if !allocOk {
      return -ENOMEM, [];
    }
    var buf := new byte[CmdSize];
    BuildMiscCommand(buf, reqA, reqB, argA, argB, argC, argD);
    ghost var script := MiscScript(MiscCommand(reqA, reqB, argA, argB, argC, argD));

    log := [];
    Advance(script, reply, log);
    log := log + [Out(MiscSndEpt, buf[..], CmdTimeout)];
    var t := reply(0);
    if t.status != 0 || t.actual != CmdSize {
      return -EIO, log;
    }
    Advance(script, reply, log);
    log := log + [In(MiscRcvEpt, MiscValueSize, DataTimeout)];
    t := reply(1);
    if t.status != 0 || t.actual != MiscValueSize {
      return -EIO, log;
    }
    var val := value;
    Advance(script, reply, log);
    log := log + [In(MiscRcvEpt, ReadStatusSize, CmdTimeout)];
    t := reply(2);
    if t.status != 0 || t.actual != ReadStatusSize {
      return -EIO, log;
    }
    Finish(script, reply, log);
    ret := val;
  }

  /** The request `gm12u320_set_ecomode` sends: set (1) eco mode on or off. */
  function EcoCommand(eco: bool): seq<byte>
  {
    MiscCommand(EcoRequestA, EcoRequestB, 0x01, if eco then 0x01 else 0x00, 0x00, 0x01)
  }

  /** The eco-mode request differs between on and off only in byte 23. */
  lemma EcoCommandBytes(eco: bool)
    ensures EcoCommand(eco)[20..26] == [0xff, 0x35, 0x01, if eco then 0x01 else 0x00, 0x00, 0x01]
    ensures forall k :: 0 <= k < CmdSize && k != 23 ==> EcoCommand(true)[k] == EcoCommand(false)[k]
  {
    MiscCommandFields(EcoRequestA, EcoRequestB, 0x01, if eco then 0x01 else 0x00, 0x00, 0x01);
  }

  /** `gm12u320_set_ecomode` with the module parameter `eco_mode`. */
  method SetEcomode(ecoMode: bool, allocOk: bool, reply: nat -> Transfer, value: byte)
    returns (ret: int, log: seq<Msg>)
    ensures !allocOk ==> ret == -ENOMEM && log == []
    ensures allocOk ==>
      Exchanged(MiscScript(EcoCommand(ecoMode)), reply, log, ret >= 0) &&
      (ret >= 0 ==> ret == value) && (ret < 0 ==> ret == -EIO)
  {
    ret, log := MiscRequest(EcoRequestA, EcoRequestB, 0x01, if ecoMode then 0x01 else 0x00, 0x00, 0x01,
                            allocOk, reply, value);
  }

  // ---------------------------------------------------------------------
  // 32 to 24 bits per pixel

  /** The first `len` four-byte pixels of `src` with their fourth byte dropped. */
  function Packed(src: seq<byte>, len: nat): (dst: seq<byte>)
    requires 4 * len <= |src|
    ensures |dst| == 3 * len
  {
    if len == 0 then []
    else Packed(src, len - 1) + src[4 * (len - 1)..4 * (len - 1) + 3]
  }

  /** Byte `k < 3` of packed pixel `i` is byte `k` of source pixel `i`. */
  lemma {:induction false} PackedAt(src: seq<byte>, len: nat, i: nat, k: nat)
    requires 4 * len <= |src| && i < len && k < 3
    ensures Packed(src, len)[3 * i + k] == src[4 * i + k]
  {
    if i < len - 1 {
      PackedAt(src, len - 1, i, k);
    }
  }

  /** `len` three-byte pixels, each widened with a fourth byte `filler`. */
  function Widened(rgb: seq<byte>, len: nat, filler: byte): (src: seq<byte>)
    requires 3 * len <= |rgb|
    ensures |src| == 4 * len
  {
    if len == 0 then []
    else Widened(rgb, len - 1, filler) + rgb[3 * (len - 1)..3 * (len - 1) + 3] + [filler]
  }

  /** Packing undoes widening, whatever the fourth byte was. */
  lemma {:induction false} PackWidened(rgb: seq<byte>, len: nat, filler: byte)
    requires 3 * len <= |rgb|
    ensures Packed(Widened(rgb, len, filler), len) == rgb[..3 * len]
  {
    if len > 0 {
      var w := Widened(rgb, len, filler);
      var prev := Widened(rgb, len - 1, filler);
      assert w[..4 * (len - 1)] == prev;
      PackedPrefix(w, len - 1);
      PackWidened(rgb, len - 1, filler);
      assert rgb[..3 * len] == rgb[..3 * (len - 1)] + rgb[3 * (len - 1)..3 * len];
    }
  }

  /** Packing reads only the first `4·len` bytes. */
  lemma {:induction false} PackedPrefix(src: seq<byte>, len: nat)
    requires 4 * len <= |src|
    ensures Packed(src[..4 * len], len) == Packed(src, len)
    decreases len
  {
    if len > 0 {
      assert src[..4 * len][..4 * (len - 1)] == src[..4 * (len - 1)];
      PackedPrefix(src[..4 * len], len - 1);
      PackedPrefix(src, len - 1);
    }
  }

  /**
   * `gm12u320_32bpp_to_24bpp_packed(dst, src, len)`: copies three bytes and
   * skips one, `len` times, writing exactly the first `3·len` bytes of `dst`.
   */
  method Pack32To24(dst: array<byte>, src: array<byte>, len: nat)
    requires dst != src && 4 * len <= src.Length && 3 * len <= dst.Length
    modifies dst
    ensures dst[..] == Packed(src[..], len) + old(dst[..])[3 * len..]
  {
    ghost var original: seq<byte> := dst[..];
    ghost var input: seq<byte> := src[..];
    ghost var t: nat := 0;
    var d, s, n := 0, 0, len;
    while n > 0
      invariant t + n == len && d == 3 * t && s == 4 * t
      invariant dst[..d] == Packed(input, t)
      invariant dst[d..] == original[d..]
    {
      CopyPixel(dst, src, d, s);
      assert original[d + 3..] == original[d..][3..];
      d, s := d + 3, s + 4;
      n, t := n - 1, t + 1;
    }
    assert dst[..] == dst[..d] + dst[d..];
  }

  /** One pass of the packing loop: three bytes copied from `src[s..]` to `dst[d..]`. */
  method CopyPixel(dst: array<byte>, src: array<byte>, d: nat, s: nat)
    requires dst != src && d + 3 <= dst.Length && s + 3 <= src.Length
    modifies dst
    ensures dst[..d + 3] == old(dst[..d]) + src[s..s + 3]
    ensures dst[d + 3..] == old(dst[d + 3..])
  {
    dst[d] := src[s];
    dst[d + 1] := src[s + 1];
    dst[d + 2] := src[s + 2];
  }

  // ---------------------------------------------------------------------
  // One frame

  /**
   * One iteration of the loop of `gm12u320_usb_alloc`: a zeroed block of the
   * block's size with its header copied to the front and the footer to the end.
   */
  method AllocBlock(i: nat, n: nat) returns (a: array<byte>)
    ensures fresh(a) && a[..] == Layout(i, n)
  {
    var size := if i == n - 1 then DataLastBlockSize else DataBlockSize;
    var hdr := if i == n - 1 then DataLastBlockHeader else DataBlockHeader;
    a := new byte[size](_ => 0);
    assert a[..] == Zeros(size);
    Memcpy(a, 0, hdr);
    Memcpy(a, size - FooterSize, DataBlockFooter);
    AllocLayout(i, n);
  }

  /** The patching of `cmd_buf` before a data block is sent. */
  method BuildDataCommand(cmd: array<byte>, block: nat, size: nat, frame: bool)
    requires cmd.Length == CmdSize
    modifies cmd
    ensures cmd[..] == DataCommand(block, size, frame)
  {
    Memcpy(cmd, 0, CmdData);
    cmd[8] := size % 256;
    cmd[9] := size / 256 % 256;
    cmd[20] := (0xfc - block * 4) % 256;
    cmd[21] := BlockTag(block, frame);
  }

  /** The three transfers of block `b`: command, data, status. */
  function BlockMsgs(contents: seq<seq<byte>>, b: nat, frame: bool): seq<Msg>
    requires b < |contents|
  {
    [Out(DataSndEpt, DataCommand(b, BlockSize(b, |contents|), frame), CmdTimeout),
     Out(DataSndEpt, contents[b], DataTimeout),
     In(DataRcvEpt, ReadStatusSize, CmdTimeout)]
  }

  /** The transfers of the first `m` blocks, in block order. */
  function Blocks(contents: seq<seq<byte>>, m: nat, frame: bool): (s: seq<Msg>)
    requires m <= |contents|
    ensures |s| == 3 * m
  {
    if m == 0 then [] else Blocks(contents, m - 1, frame) + BlockMsgs(contents, m - 1, frame)
  }

  /** Every block's transfers, then the draw command and its status read. */
  function FrameScript(contents: seq<seq<byte>>, frame: bool, drawTimeout: nat): seq<Msg>
  {
    Blocks(contents, |contents|, frame) +
    [Out(DataSndEpt, CmdDraw, CmdTimeout), In(DataRcvEpt, ReadStatusSize, drawTimeout)]
  }

  lemma {:induction false} BlocksAt(contents: seq<seq<byte>>, m: nat, frame: bool, b: nat, j: nat)
    requires b < m <= |contents| && j < 3
    ensures Blocks(contents, m, frame)[3 * b + j] == BlockMsgs(contents, b, frame)[j]
  {
    if b < m - 1 {
      BlocksAt(contents, m - 1, frame, b, j);
    }
  }

  /**
   * Transfer `3b + j` of a frame is step `j` of block `b`; with every block
   * framed, each data command announces exactly the length of the data
   * transfer that follows it. The last two transfers are the draw command and
   * its status read.
   */
  lemma ScriptAt(contents: seq<seq<byte>>, frame: bool, drawTimeout: nat, b: nat, j: nat)
    requires b < |contents| && j < 3
    ensures var script := FrameScript(contents, frame, drawTimeout);
      |script| == 3 * |contents| + 2 &&
      script[3 * b + j] == BlockMsgs(contents, b, frame)[j] &&
      script[3 * |contents|] == Out(DataSndEpt, CmdDraw, CmdTimeout) &&
      script[3 * |contents| + 1] == In(DataRcvEpt, ReadStatusSize, drawTimeout)
  {
    BlocksAt(contents, |contents|, frame, b, j);
  }

  /** The last two transfers of a frame: the draw command and its status read. */
  lemma DrawAt(contents: seq<seq<byte>>, frame: bool, drawTimeout: nat)
    ensures var script := FrameScript(contents, frame, drawTimeout);
      |script| == 3 * |contents| + 2 &&
      script[3 * |contents|] == Out(DataSndEpt, CmdDraw, CmdTimeout) &&
      script[3 * |contents| + 1] == In(DataRcvEpt, ReadStatusSize, drawTimeout)
  {
  }

  /** With framed blocks, every data command announces the length of its data transfer. */
  lemma CommandAnnouncesData(contents: seq<seq<byte>>, frame: bool, drawTimeout: nat, b: nat)
    requires b < |contents| < 64
    requires forall i :: 0 <= i < |contents| ==> Framed(contents[i], i, |contents|)
    ensures var script := FrameScript(contents, frame, drawTimeout);
      script[3 * b].Out? && script[3 * b + 1].Out? && |script[3 * b].payload| == CmdSize &&
      LittleEndian32(script[3 * b].payload, 8) == |script[3 * b + 1].payload|
  {
    ScriptAt(contents, frame, drawTimeout, b, 0);
    ScriptAt(contents, frame, drawTimeout, b, 1);
    DataCommandFields(b, BlockSize(b, |contents|), frame);
  }

  /** The frame's data buffers after the test fill, block by block. */
  function TestPattern(contents: seq<seq<byte>>, frame: bool): (r: seq<seq<byte>>)
    ensures |r| == |contents|
  {
    seq(|contents|, i requires 0 <= i < |contents| => TestFill(contents[i], frame))
  }

  /** The frame bit of pass `i` of the update loop, which starts at `frame0`. */
  function PassFrame(frame0: bool, i: nat): bool
  {
    frame0 != (i % 2 == 1)
  }

  /** Consecutive passes have opposite frame bits. */
  lemma PassFrameStep(frame0: bool, i: nat)
    ensures PassFrame(frame0, i + 1) == !PassFrame(frame0, i)
  {
    assert (i + 1) % 2 == 1 <==> i % 2 == 0;
  }

  /** The draw timeout of pass `i`: `timeout0` for the first draw, then the short one. */
  function PassTimeout(timeout0: nat, i: nat): nat
  {
    if i == 0 then timeout0 else CmdTimeout
  }

  /**
   * The data buffers after `i` passes of the update loop, starting from
   * `contents0`: a pass without a pending framebuffer fills them with the test
   * pattern of its frame bit, a pass with one leaves them as they are.
   */
  function PassContents(contents0: seq<seq<byte>>, frame0: bool, pending: seq<bool>, i: nat): (c: seq<seq<byte>>)
    requires i <= |pending|
    ensures |c| == |contents0|
  {
    if i == 0 then contents0
    else
      var prev := PassContents(contents0, frame0, pending, i - 1);
      if pending[i - 1] then prev else TestPattern(prev, PassFrame(frame0, i - 1))
  }

  /**
   * Each pass of the update loop recorded in `logs` completed its whole
   * exchange: pass `i` sent the buffers as the first `i + 1` fills left them,
   * with its frame bit and draw timeout, and every transfer moved its full
   * length.
   */
  ghost predicate PassesDone(contents0: seq<seq<byte>>, frame0: bool, timeout0: nat, pending: seq<bool>,
                             reply: nat -> nat -> Transfer, logs: seq<seq<Msg>>)
    decreases |logs|
  {
    |logs| <= |pending| &&
    (logs != [] ==>
       var n := |logs| - 1;
       PassesDone(contents0, frame0, timeout0, pending, reply, logs[..n]) &&
       Exchanged(FrameScript(PassContents(contents0, frame0, pending, n + 1),
                             PassFrame(frame0, n), PassTimeout(timeout0, n)),
                 reply(n), logs[n], true))
  }

  /** Every recorded pass, not only the last, completed its exchange. */
  lemma {:induction false} PassesDoneAt(contents0: seq<seq<byte>>, frame0: bool, timeout0: nat,
                                        pending: seq<bool>, reply: nat -> nat -> Transfer,
                                        logs: seq<seq<Msg>>, i: nat)
    requires PassesDone(contents0, frame0, timeout0, pending, reply, logs) && i < |logs|
    ensures i < |pending|
    ensures Exchanged(FrameScript(PassContents(contents0, frame0, pending, i + 1),
                                  PassFrame(frame0, i), PassTimeout(timeout0, i)),
                      reply(i), logs[i], true)
    decreases |logs|
  {
    var n := |logs| - 1;
    if i < n {
      PassesDoneAt(contents0, frame0, timeout0, pending, reply, logs[..n], i);
      assert logs[..n][i] == logs[i];
    }
  }

  /** One more completed pass extends the record of completed passes. */
  lemma PassesDoneStep(contents0: seq<seq<byte>>, frame0: bool, timeout0: nat, pending: seq<bool>,
                       reply: nat -> nat -> Transfer, logs: seq<seq<Msg>>, log: seq<Msg>)
    requires PassesDone(contents0, frame0, timeout0, pending, reply, logs) && |logs| < |pending|
    requires Exchanged(FrameScript(PassContents(contents0, frame0, pending, |logs| + 1),
                                   PassFrame(frame0, |logs|), PassTimeout(timeout0, |logs|)),
                       reply(|logs|), log, true)
    ensures PassesDone(contents0, frame0, timeout0, pending, reply, logs + [log])
  {
    assert (logs + [log])[..|logs|] == logs;
  }

  /** A completed pass logs every block's three transfers and the draw's two. */
  lemma {:induction false} PassesDoneLengths(contents0: seq<seq<byte>>, frame0: bool, timeout0: nat,
                                             pending: seq<bool>, reply: nat -> nat -> Transfer,
                                             logs: seq<seq<Msg>>)
    requires PassesDone(contents0, frame0, timeout0, pending, reply, logs)
    ensures forall i :: 0 <= i < |logs| ==> |logs[i]| == 3 * |contents0| + 2
  {
    forall i | 0 <= i < |logs| ensures |logs[i]| == 3 * |contents0| + 2 {
      PassesDoneAt(contents0, frame0, timeout0, pending, reply, logs, i);
      DrawAt(PassContents(contents0, frame0, pending, i + 1), PassFrame(frame0, i), PassTimeout(timeout0, i));
    }
  }

  /**
   * The device state `gm12u320_fb_update_work` uses: the data buffers of
   * `gm12u320_usb_alloc`, the frame bit and the timeout of the draw's status
   * read.
   */
  class Gm12u320 {
    const blockCount: nat
    const dataBuf: seq<array<byte>>
    ghost const Repr: set<array<byte>>
    var frame: bool
    var drawStatusTimeout: nat

    ghost predicate Valid()
      reads Repr
    {
      Repr == (set i | 0 <= i < |dataBuf| :: dataBuf[i]) &&
      |dataBuf| == blockCount &&
      (forall i, j :: 0 <= i < j < |dataBuf| ==> dataBuf[i] != dataBuf[j]) &&
      BlocksFramed(dataBuf, blockCount)
    }

    /** The contents of the data buffers. */
    ghost function Contents(): (c: seq<seq<byte>>)
      requires forall i :: 0 <= i < |dataBuf| ==> dataBuf[i] in Repr
      reads Repr
      ensures |c| == |dataBuf|
    {
      seq(|dataBuf|, i requires 0 <= i < |dataBuf| reads Repr => dataBuf[i][..])
    }

    /** Every data buffer keeps its block's header and footer. */
    lemma ContentsFramed()
      requires Valid()
      ensures forall i :: 0 <= i < blockCount ==> Framed(Contents()[i], i, blockCount)
    {
      forall i | 0 <= i < blockCount ensures Framed(Contents()[i], i, blockCount) {
        BlocksFramedAt(dataBuf, blockCount, i);
      }
    }

    /**
     * `gm12u320_usb_alloc` with the buffers found, followed by the start of
     * `gm12u320_fb_update_work`: frame 0, and the long timeout for the first
     * draw.
     */
    constructor (blockCount: nat)
      ensures Valid() && this.blockCount == blockCount && fresh(Repr)
      ensures Contents() == seq(blockCount, i requires 0 <= i < blockCount => Layout(i, blockCount))
      ensures !frame && drawStatusTimeout == FirstFrameTimeout
    {
      var bufs: seq<array<byte>> := [];
      for i := 0 to blockCount
        invariant |bufs| == i
        invariant forall k :: 0 <= k < i ==> fresh(bufs[k])
        invariant forall k, l :: 0 <= k < l < i ==> bufs[k] != bufs[l]
        invariant forall k :: 0 <= k < i ==> bufs[k][..] == Layout(k, blockCount)
      {
        var a := AllocBlock(i, blockCount);
        bufs := bufs + [a];
      }
      this.blockCount := blockCount;
      dataBuf := bufs;
      Repr := set i | 0 <= i < |bufs| :: bufs[i];
      frame := false;
      drawStatusTimeout := FirstFrameTimeout;
      new;
      forall i | 0 <= i < blockCount ensures Framed(dataBuf[i][..], i, blockCount) {
        LayoutFramed(i, blockCount);
      }
      BlocksFramedAll(dataBuf, blockCount);
    }

    /** The test-pattern branch of `gm12u320_fb_update_work`: every block filled. */
    method FillTestPattern()
      requires Valid()
      modifies Repr
      ensures Valid()
      ensures Contents() == TestPattern(old(Contents()), frame)
    {
      ghost var before := Contents();
      ContentsFramed();
      for i := 0 to |dataBuf|
        invariant forall k :: 0 <= k < i ==> dataBuf[k][..] == TestFill(before[k], frame)
        invariant forall k :: i <= k < |dataBuf| ==> dataBuf[k][..] == before[k]
      {
        FillBlock(dataBuf[i], frame);
      }
      forall i | 0 <= i < |dataBuf| ensures Framed(dataBuf[i][..], i, blockCount) {
        TestFillFramed(before[i], i, blockCount, frame);
      }
      BlocksFramedAll(dataBuf, blockCount);
      assert Contents() == TestPattern(before, frame);
    }

    /**
     * One pass of the loop of `gm12u320_fb_update_work`. Without a pending
     * framebuffer the blocks are first filled with the test pattern; with one
     * they are sent as they are. Only a pass whose transfers all complete
     * toggles the frame bit and shortens the draw timeout.
     */
    method UpdateFrame(hasFb: bool, reply: nat -> Transfer) returns (ok: bool, log: seq<Msg>)
      requires Valid()
      modifies this, Repr
      ensures Valid()
      ensures Contents() == if hasFb then old(Contents()) else TestPattern(old(Contents()), old(frame))
      ensures Exchanged(FrameScript(Contents(), old(frame), old(drawStatusTimeout)), reply, log, ok)
      ensures frame == (if ok then !old(frame) else old(frame))
      ensures drawStatusTimeout == if ok then CmdTimeout else old(drawStatusTimeout)
    {
      if !hasFb {
        FillTestPattern();
      }
      ok, log := SendFrame(reply);
      if ok {
        drawStatusTimeout := CmdTimeout;
        frame := !frame;
      }
    }

    /**
     * The transfers of one pass: every block as command, data and status
     * read, then the draw command and its status read; the first transfer
     * that falls short ends the pass (`goto err`).
     */
    method SendFrame(reply: nat -> Transfer) returns (ok: bool, log: seq<Msg>)
      requires Valid()
      ensures Exchanged(FrameScript(old(Contents()), frame, drawStatusTimeout), reply, log, ok)
    {
      ghost var contents := Contents();
      ghost var script := FrameScript(contents, frame, drawStatusTimeout);
      var cmd := new byte[CmdSize];
      log := [];
      for block := 0 to blockCount
        modifies cmd
        invariant fresh(cmd) && Valid() && Contents() == contents
        invariant |log| == 3 * block && Progress(script, reply, log)
      {
        BlockPlanned(block);
        ok, log := SendBlock(cmd, block, script, reply, log);
        if !ok {
          return;
        }
      }
      DrawAt(contents, frame, drawStatusTimeout);
      ok, log := SendDraw(cmd, script, reply, log);
    }

    /**
     * The three transfers the frame plans for block `block`, from its data
     * buffer as it stands.
     */
    lemma BlockPlanned(block: nat)
      requires Valid() && block < blockCount
      ensures var script := FrameScript(Contents(), frame, drawStatusTimeout);
        |script| == 3 * blockCount + 2 && dataBuf[block] in Repr &&
        dataBuf[block].Length == BlockSize(block, blockCount) &&
        script[3 * block] == Out(DataSndEpt, DataCommand(block, BlockSize(block, blockCount), frame), CmdTimeout) &&
        script[3 * block + 1] == Out(DataSndEpt, dataBuf[block][..], DataTimeout) &&
        script[3 * block + 2] == In(DataRcvEpt, ReadStatusSize, CmdTimeout)
    {
      ScriptAt(Contents(), frame, drawStatusTimeout, block, 0);
      ScriptAt(Contents(), frame, drawStatusTimeout, block, 1);
      ScriptAt(Contents(), frame, drawStatusTimeout, block, 2);
      BlocksFramedAt(dataBuf, blockCount, block);
    }

    /**
     * The transfers of block `block`: the data command, the block, and the
     * status read, each sent only when the one before moved its full length.
     */
    method SendBlock(cmd: array<byte>, block: nat, ghost script: seq<Msg>, reply: nat -> Transfer,
                     log0: seq<Msg>) returns (ok: bool, log: seq<Msg>)
      requires block < |dataBuf| && cmd.Length == CmdSize && cmd != dataBuf[block]
      requires dataBuf[block].Length == BlockSize(block, blockCount)
      requires |log0| == 3 * block && 3 * block + 3 <= |script| && Progress(script, reply, log0)
      requires script[3 * block] == Out(DataSndEpt, DataCommand(block, BlockSize(block, blockCount), frame), CmdTimeout)
      requires script[3 * block + 1] == Out(DataSndEpt, dataBuf[block][..], DataTimeout)
      requires script[3 * block + 2] == In(DataRcvEpt, ReadStatusSize, CmdTimeout)
      modifies cmd
      ensures ok ==> |log| == 3 * block + 3 && Progress(script, reply, log)
      ensures !ok ==> Exchanged(script, reply, log, false)
    {
      var blockSize := if block == blockCount - 1 then DataLastBlockSize else DataBlockSize;

      BuildDataCommand(cmd, block, blockSize, frame);
      log := log0;
      Advance(script, reply, log);
      log := log + [Out(DataSndEpt, cmd[..], CmdTimeout)];
      var t := reply(3 * block);
      if t.status != 0 || t.actual != CmdSize {
        return false, log;
      }

      Advance(script, reply, log);
      log := log + [Out(DataSndEpt, dataBuf[block][..], DataTimeout)];
      t := reply(3 * block + 1);
      if t.status != 0 || t.actual != blockSize {
        return false, log;
      }

      Advance(script, reply, log);
      log := log + [In(DataRcvEpt, ReadStatusSize, CmdTimeout)];
      t := reply(3 * block + 2);
      if t.status != 0 || t.actual != ReadStatusSize {
        return false, log;
      }
      ok := true;
    }

    /** The draw command and its status read, which waits `drawStatusTimeout`. */
    method SendDraw(cmd: array<byte>, ghost script: seq<Msg>, reply: nat -> Transfer, log0: seq<Msg>)
      returns (ok: bool, log: seq<Msg>)
      requires cmd.Length == CmdSize && |script| == |log0| + 2 && Progress(script, reply, log0)
      requires script[|log0|] == Out(DataSndEpt, CmdDraw, CmdTimeout)
      requires script[|log0| + 1] == In(DataRcvEpt, ReadStatusSize, drawStatusTimeout)
      modifies cmd
      ensures Exchanged(script, reply, log, ok)
    {
      Memcpy(cmd, 0, CmdDraw);
      assert cmd[..] == CmdDraw;
      log := log0;
      Advance(script, reply, log);
      log := log + [Out(DataSndEpt, cmd[..], CmdTimeout)];
      var t := reply(|log0|);
      if t.status != 0 || t.actual != CmdSize {
        return false, log;
      }

      Advance(script, reply, log);
      log := log + [In(DataRcvEpt, ReadStatusSize, drawStatusTimeout)];
      t := reply(|log0| + 1);
      if t.status != 0 || t.actual != ReadStatusSize {
        return false, log;
      }
      Finish(script, reply, log);
      ok := true;
    }

    /**
     * The loop of `gm12u320_fb_update_work` while the update is running:
     * `pending[i]` says whether a framebuffer was pending at pass `i`, and
     * `reply(i)` answers that pass's transfers. The `sent` passes in `logs`
     * each completed their exchange, sending the buffers as that pass's fill
     * left them, with its frame bit and draw timeout. A pass that falls short
     * ends the work; its partial log is `failed`. The frame bit alternates
     * from pass to pass, and only the first draw waits the long timeout.
     */
    method Run(pending: seq<bool>, reply: nat -> nat -> Transfer)
      returns (sent: nat, logs: seq<seq<Msg>>, failed: Option<seq<Msg>>)
      requires Valid()
      modifies this, Repr
      ensures Valid()
      ensures sent <= |pending| && |logs| == sent && (failed.Some? <==> sent < |pending|)
      ensures PassesDone(old(Contents()), old(frame), old(drawStatusTimeout), pending, reply, logs)
      ensures failed.Some? ==>
        Exchanged(FrameScript(PassContents(old(Contents()), old(frame), pending, sent + 1),
                              PassFrame(old(frame), sent), PassTimeout(old(drawStatusTimeout), sent)),
                  reply(sent), failed.value, false)
      ensures failed.None? ==> Contents() == PassContents(old(Contents()), old(frame), pending, sent)
      ensures failed.Some? ==> Contents() == PassContents(old(Contents()), old(frame), pending, sent + 1)
      ensures forall i :: 0 <= i < sent ==> |logs[i]| == 3 * blockCount + 2
      ensures frame == PassFrame(old(frame), sent)
      ensures drawStatusTimeout == PassTimeout(old(drawStatusTimeout), sent)
    {
      sent, logs, failed := RunFrom(pending, reply, Contents(), frame, drawStatusTimeout);
      PassesDoneLengths(old(Contents()), old(frame), old(drawStatusTimeout), pending, reply, logs);
    }

    /** The loop of `Run`, from the buffers, frame bit and timeout it starts with. */
    method RunFrom(pending: seq<bool>, reply: nat -> nat -> Transfer, ghost contents0: seq<seq<byte>>,
                   ghost frame0: bool, ghost timeout0: nat)
      returns (sent: nat, logs: seq<seq<Msg>>, failed: Option<seq<Msg>>)
      requires Valid() && Contents() == contents0 && frame == frame0 && drawStatusTimeout == timeout0
      modifies this, Repr
      ensures Valid()
      ensures sent <= |pending| && |logs| == sent && (failed.Some? <==> sent < |pending|)
      ensures PassesDone(contents0, frame0, timeout0, pending, reply, logs)
      ensures failed.Some? ==>
        Exchanged(FrameScript(PassContents(contents0, frame0, pending, sent + 1),
                              PassFrame(frame0, sent), PassTimeout(timeout0, sent)),
                  reply(sent), failed.value, false)
      ensures failed.None? ==> Contents() == PassContents(contents0, frame0, pending, sent)
      ensures failed.Some? ==> Contents() == PassContents(contents0, frame0, pending, sent + 1)
      ensures frame == PassFrame(frame0, sent)
      ensures drawStatusTimeout == PassTimeout(timeout0, sent)
    {
      sent, logs, failed := 0, [], None;
      while sent < |pending|
        invariant Valid()
        invariant sent <= |pending| && |logs| == sent
        invariant PassesDone(contents0, frame0, timeout0, pending, reply, logs)
        invariant Contents() == PassContents(contents0, frame0, pending, sent)
        invariant frame == PassFrame(frame0, sent)
        invariant drawStatusTimeout == PassTimeout(timeout0, sent)
      {
        var ok, log := RunPass(pending, reply, contents0, frame0, timeout0, sent);
        if !ok {
          failed := Some(log);
          break;
        }
        PassesDoneStep(contents0, frame0, timeout0, pending, reply, logs, log);
        logs := logs + [log];
        sent := sent + 1;
      }
    }

    /**
     * Pass `n` of the update loop, from the state the `n` passes before it
     * left: the buffers are filled or not, and the frame goes out. Only a
     * completed pass advances the frame bit and the timeout.
     */
    method RunPass(pending: seq<bool>, reply: nat -> nat -> Transfer, ghost contents0: seq<seq<byte>>,
                   ghost frame0: bool, ghost timeout0: nat, n: nat)
      returns (ok: bool, log: seq<Msg>)
      requires Valid() && n < |pending|
      requires Contents() == PassContents(contents0, frame0, pending, n)
      requires frame == PassFrame(frame0, n) && drawStatusTimeout == PassTimeout(timeout0, n)
      modifies this, Repr
      ensures Valid()
      ensures Contents() == PassContents(contents0, frame0, pending, n + 1)
      ensures Exchanged(FrameScript(PassContents(contents0, frame0, pending, n + 1), PassFrame(frame0, n),
                                    PassTimeout(timeout0, n)),
                        reply(n), log, ok)
      ensures frame == PassFrame(frame0, if ok then n + 1 else n)
      ensures drawStatusTimeout == PassTimeout(timeout0, if ok then n + 1 else n)
    {
      ok, log := UpdateFrame(pending[n], reply(n));
      PassFrameStep(frame0, n);
    }
  }
}
