/** `firmware/main.py`: the device side. `main` builds the display driver,
    allocates a 96000-byte frame buffer, prints `READY`, and then reads lines
    from standard input until the write cursor reaches the end of the buffer.
    Every non-blank line is hex-decoded and written through a memoryview at
    the cursor, answered with `OK`; a line that does not decode, or does not
    fit, is answered with `ERR:<reason>` and `main` returns. A full buffer is
    shown on the panel and answered with `DONE`. Any exception outside the
    line handling prints `FATAL:<reason>`. After `DONE` or `FATAL` the device
    idles for ever; after `ERR_MEM` or `ERR` `main` has returned.

    What the device reads is the sequence of `sys.stdin.readline()` results,
    the empty string standing for nothing read. The driver and the allocator
    are outside the model: `Hardware` says which of their steps fail. */
module Firmware {
  import opened Text
  import opened Hex

  const TOTAL_SIZE: nat := 96000

  /** Why a line was rejected: the two `binascii.unhexlify` errors, and the
      memoryview slice assignment refusing data that does not fit at the
      cursor (the slice is cut at the end of the buffer, so its length no
      longer matches). */
  datatype Cause = Undecodable(error: HexError) | SizeMismatch

  /** What the device prints, one line each. */
  datatype Reply =
    | ReadyLine
    | OkLine
    | ErrLine(cause: Cause)
    | DoneLine
    | FatalLine(reason: string)
    | ErrMemLine

  /** The text of a reply's line. The wording of exception messages belongs
      to the runtime; these are representative. */
  function ReplyText(r: Reply): string {
    match r
    case ReadyLine => "READY"
    case OkLine => "OK"
    case ErrLine(c) => "ERR:" + CauseText(c)
    case DoneLine => "DONE"
    case FatalLine(reason) => "FATAL:" + reason
    case ErrMemLine => "ERR_MEM"
  }

  function CauseText(c: Cause): string {
    match c
    case Undecodable(OddLength) => "odd-length string"
    case Undecodable(NonHexDigit) => "non-hex digit found"
    case SizeMismatch => "lhs and rhs should be compatible"
  }

  /** Which steps of the hardware raise, and with what message. */
  datatype Hardware = Hardware(
    driverFault: Option<string>,  // `epaper7in5.EPD_7in5()`
    memory: bool,                 // whether `bytearray(TOTAL_SIZE)` succeeds
    initFault: Option<string>,    // `epd.init_4Gray()`
    displayFault: Option<string>, // `epd.display_4Gray(img_buffer)`
    sleepFault: Option<string>)   // `epd.sleep()`

  // ---------------------------------------------------------------------
  // One line

  /** What one `readline()` result is to the loop: nothing read or a blank
      line, the bytes its stripped text decodes to, or the decoding error. */
  datatype LineKind = Blank | Bytes(data: seq<byte>) | Bad(error: HexError)

  /** `if not hex_line`, `hex_line.strip()`, `if not hex_line` and
      `binascii.unhexlify(hex_line)`, in that order. */
  function Parse(hexLine: string): (p: LineKind)
    ensures p.Bytes? ==> p.data != []
  {
    if hexLine == [] then Blank
    else
      var line := Strip(hexLine);
      if line == [] then Blank
      else match Unhexlify(line)
        case Err(e) => Bad(e)
        case Ok(data) => Bytes(data)
  }

  /** A line is blank exactly when nothing was read or it is all whitespace;
      otherwise it decodes exactly when its stripped text is hex of even
      length, to the bytes that text stands for, and fails with the error
      `unhexlify` raises on it. */
  lemma ParseCases(hexLine: string)
    ensures Parse(hexLine).Blank? <==> forall k :: 0 <= k < |hexLine| ==> IsSpace(hexLine[k])
    ensures !Parse(hexLine).Blank? ==>
      var line := Strip(hexLine);
      && line != []
      && (Parse(hexLine).Bytes? <==> |line| % 2 == 0 && IsHexString(line))
      && (Parse(hexLine).Bytes? ==> Parse(hexLine).data == Unhexlify(line).bytes)
      && (Parse(hexLine).Bad? ==> Parse(hexLine).error == Unhexlify(line).error)
  {
    StripSlice(hexLine);
  }

  /** Decoded lines are never empty: a non-blank line has at least two
      characters. */
  predicate NonEmptyBytes(ls: seq<LineKind>) {
    forall k :: 0 <= k < |ls| && ls[k].Bytes? ==> ls[k].data != []
  }

  /** The device's view of the whole input, line by line. */
  function Parses(inputs: seq<string>): (ls: seq<LineKind>)
    ensures |ls| == |inputs| && NonEmptyBytes(ls)
    ensures forall k :: 0 <= k < |inputs| ==> ls[k] == Parse(inputs[k])
  {
    seq(|inputs|, k requires 0 <= k < |inputs| => Parse(inputs[k]))
  }

  /** `mv[pos:pos + len(data)] = data` for data that fits. */
  function WriteAt(buf: seq<byte>, pos: nat, data: seq<byte>): (r: seq<byte>)
    requires pos + |data| <= |buf|
    ensures |r| == |buf|
  {
    buf[..pos] + data + buf[pos + |data|..]
  }

  /** The write puts `data` at `pos` and leaves every other byte alone. */
  lemma WriteAtBytes(buf: seq<byte>, pos: nat, data: seq<byte>)
    requires pos + |data| <= |buf|
    ensures var r := WriteAt(buf, pos, data);
      && r[pos..pos + |data|] == data
      && (forall k :: 0 <= k < |buf| && !(pos <= k < pos + |data|) ==> r[k] == buf[k])
  {
    var r := WriteAt(buf, pos, data);
    forall k | 0 <= k < |buf| && !(pos <= k < pos + |data|) ensures r[k] == buf[k] {
      if k < pos {
        assert r[k] == buf[..pos][k];
      } else {
        assert r[k] == buf[pos + |data|..][k - pos - |data|];
      }
    }
    assert r[pos..pos + |data|] == data;
  }

  // ---------------------------------------------------------------------
  // The receive loop

  /** How the receive loop ends: the cursor reached the end of the buffer, a
      line was rejected (and `main` returned), or the input ran out while the
      loop was still waiting for lines. */
  datatype LoopExit = Filled | Aborted | Starved

  /** Where the loop stopped: the buffer and the cursor, the replies it
      printed, how it ended, and the index of the line it stopped at (the
      rejected line, one past the last line read, or the end of the input). */
  datatype Reception = Reception(buf: seq<byte>, pos: nat, replies: seq<Reply>, exit: LoopExit, next: nat)

  /** `while current_byte_pos < TOTAL_SIZE` from line `i` on: a blank line
      is passed over, decoded bytes that fit at the cursor are written there
      and answered with `OK`; a line that does not decode, or decodes to more
      bytes than fit, is answered with `ERR` and the loop is left. */
  function Receive(ls: seq<LineKind>, i: nat, buf: seq<byte>, pos: nat): (r: Reception)
    requires i <= |ls| && pos <= |buf| == TOTAL_SIZE
    ensures |r.buf| == TOTAL_SIZE && pos <= r.pos <= TOTAL_SIZE && i <= r.next <= |ls|
    decreases |ls| - i
  {
    if pos >= TOTAL_SIZE then Reception(buf, pos, [], Filled, i)
    else if i == |ls| then Reception(buf, pos, [], Starved, i)
    else match ls[i]
      case Blank => Receive(ls, i + 1, buf, pos)
      case Bad(e) => Reception(buf, pos, [ErrLine(Undecodable(e))], Aborted, i)
      case Bytes(data) =>
        if pos + |data| > TOTAL_SIZE then Reception(buf, pos, [ErrLine(SizeMismatch)], Aborted, i)
        else
          var r := Receive(ls, i + 1, WriteAt(buf, pos, data), pos + |data|);
          r.(replies := [OkLine] + r.replies)
  }

  /** A blank turn changes nothing. */
  lemma ReceiveBlank(ls: seq<LineKind>, i: nat, buf: seq<byte>, pos: nat)
    requires i < |ls| && pos < |buf| == TOTAL_SIZE && ls[i] == Blank
    ensures Receive(ls, i, buf, pos) == Receive(ls, i + 1, buf, pos)
  {
  }

  /** A chunk that fits is stored at the cursor and answered with `OK`. */
  lemma ReceiveStored(ls: seq<LineKind>, i: nat, buf: seq<byte>, pos: nat, data: seq<byte>)
    requires i < |ls| && pos < |buf| == TOTAL_SIZE
    requires ls[i] == Bytes(data) && pos + |data| <= TOTAL_SIZE
    ensures var r := Receive(ls, i + 1, WriteAt(buf, pos, data), pos + |data|);
      Receive(ls, i, buf, pos) == r.(replies := [OkLine] + r.replies)
  {
  }

  /** A line the loop refuses at cursor `pos`: it does not decode, or it
      decodes to more bytes than fit behind the cursor. */
  predicate Rejects(kind: LineKind, pos: nat) {
    kind.Bad? || (kind.Bytes? && pos + |kind.data| > TOTAL_SIZE)
  }

  /** The reason printed for a refused line. */
  function CauseOf(kind: LineKind): Cause
    requires !kind.Blank?
  {
    if kind.Bad? then Undecodable(kind.error) else SizeMismatch
  }

  /** A refused line is answered with exactly one `ERR` and ends the loop
      there, with the buffer and the cursor as they were. */
  lemma ReceiveReject(ls: seq<LineKind>, i: nat, buf: seq<byte>, pos: nat)
    requires i < |ls| && pos < |buf| == TOTAL_SIZE && Rejects(ls[i], pos)
    ensures Receive(ls, i, buf, pos) == Reception(buf, pos, [ErrLine(CauseOf(ls[i]))], Aborted, i)
  {
  }

  /** `whole` is how the loop ends when it has printed `taken` so far and
      goes on from line `i` with buffer `buf` and cursor `pos`. */
  predicate Resumes(whole: Reception, ls: seq<LineKind>, i: nat, buf: seq<byte>, pos: nat, taken: seq<Reply>)
    requires i <= |ls| && pos <= |buf| == TOTAL_SIZE
  {
    var r := Receive(ls, i, buf, pos);
    whole == r.(replies := taken + r.replies)
  }

  /** Passing over a blank line keeps the loop on course. */
  lemma ResumeBlank(whole: Reception, ls: seq<LineKind>, i: nat, buf: seq<byte>, pos: nat, taken: seq<Reply>)
    requires i < |ls| && pos < |buf| == TOTAL_SIZE && ls[i] == Blank
    requires Resumes(whole, ls, i, buf, pos, taken)
    ensures Resumes(whole, ls, i + 1, buf, pos, taken)
  {
    ReceiveBlank(ls, i, buf, pos);
  }

  /** Storing a chunk that fits moves one `OK` from what is to come to what
      has been printed. */
  lemma ResumeStored(whole: Reception, ls: seq<LineKind>, i: nat, buf: seq<byte>, pos: nat, taken: seq<Reply>, data: seq<byte>)
    requires i < |ls| && pos < |buf| == TOTAL_SIZE
    requires ls[i] == Bytes(data) && pos + |data| <= TOTAL_SIZE
    requires Resumes(whole, ls, i, buf, pos, taken)
    ensures Resumes(whole, ls, i + 1, WriteAt(buf, pos, data), pos + |data|, taken + [OkLine])
  {
    ReceiveStored(ls, i, buf, pos, data);
    var r := Receive(ls, i + 1, WriteAt(buf, pos, data), pos + |data|);
    assert taken + ([OkLine] + r.replies) == (taken + [OkLine]) + r.replies;
  }

  /** A refused line ends the loop with one more reply, its `ERR`. */
  lemma ResumeReject(whole: Reception, ls: seq<LineKind>, i: nat, buf: seq<byte>, pos: nat, taken: seq<Reply>)
    requires i < |ls| && pos < |buf| == TOTAL_SIZE && Rejects(ls[i], pos)
    requires Resumes(whole, ls, i, buf, pos, taken)
    ensures whole == Reception(buf, pos, taken + [ErrLine(CauseOf(ls[i]))], Aborted, i)
  {
    ReceiveReject(ls, i, buf, pos);
  }

  /** With the buffer full or the input used up the loop ends where it is. */
  lemma ResumeEnd(whole: Reception, ls: seq<LineKind>, i: nat, buf: seq<byte>, pos: nat, taken: seq<Reply>)
    requires i <= |ls| && pos <= |buf| == TOTAL_SIZE && (pos == TOTAL_SIZE || i == |ls|)
    requires Resumes(whole, ls, i, buf, pos, taken)
    ensures whole == Reception(buf, pos, taken, if pos == TOTAL_SIZE then Filled else Starved, i)
  {
    assert taken + [] == taken;
  }

  /** The loop leaves the buffer full exactly when it exits normally; every
      reply before the last is `OK`, and the last is an `ERR` exactly when
      the loop aborted. It aborts exactly on a line it refuses at the cursor
      it has reached, and answers that line with its cause; it is starved
      exactly when it ran out of input short of the end; no line before the
      one it stopped at failed to decode. */
  lemma {:induction false} ReceiveExit(ls: seq<LineKind>, i: nat, buf: seq<byte>, pos: nat)
    requires i <= |ls| && pos <= |buf| == TOTAL_SIZE
    ensures var r := Receive(ls, i, buf, pos);
      && (r.exit.Filled? <==> r.pos == TOTAL_SIZE)
      && (forall k :: 0 <= k < |r.replies| - 1 ==> r.replies[k] == OkLine)
      && (r.exit.Aborted? <==> r.replies != [] && r.replies[|r.replies| - 1].ErrLine?)
      && (!r.exit.Aborted? ==> forall k :: 0 <= k < |r.replies| ==> r.replies[k] == OkLine)
      && (r.exit.Aborted? <==> r.next < |ls| && r.pos < TOTAL_SIZE && Rejects(ls[r.next], r.pos))
      && (r.exit.Aborted? ==> r.replies[|r.replies| - 1] == ErrLine(CauseOf(ls[r.next])))
      && (r.exit.Starved? <==> r.next == |ls| && r.pos < TOTAL_SIZE)
      && (forall k :: i <= k < r.next ==> !ls[k].Bad?)
    decreases |ls| - i
  {
    if pos < TOTAL_SIZE && i < |ls| {
      match ls[i]
      case Blank => ReceiveExit(ls, i + 1, buf, pos);
      case Bad(e) =>
      case Bytes(data) =>
        if pos + |data| <= TOTAL_SIZE {
          var r := Receive(ls, i + 1, WriteAt(buf, pos, data), pos + |data|);
          ReceiveExit(ls, i + 1, WriteAt(buf, pos, data), pos + |data|);
          assert Receive(ls, i, buf, pos).replies == [OkLine] + r.replies;
        }
    }
  }

  /** The loop writes only at and after the cursor it starts from, and never
      at or after the cursor it stops at: what lay before the first and after
      the second is as it was. */
  lemma {:induction false} ReceiveFrame(ls: seq<LineKind>, i: nat, buf: seq<byte>, pos: nat)
    requires i <= |ls| && pos <= |buf| == TOTAL_SIZE
    ensures var r := Receive(ls, i, buf, pos);
      r.buf[..pos] == buf[..pos] && r.buf[r.pos..] == buf[r.pos..]
    decreases |ls| - i
  {
    if pos < TOTAL_SIZE && i < |ls| {
      match ls[i]
      case Blank => ReceiveFrame(ls, i + 1, buf, pos);
      case Bad(e) =>
      case Bytes(data) =>
        if pos + |data| <= TOTAL_SIZE {
          var next := WriteAt(buf, pos, data);
          ReceiveFrame(ls, i + 1, next, pos + |data|);
          var r := Receive(ls, i + 1, next, pos + |data|);
          assert r.buf[..pos] == next[..pos + |data|][..pos];
          assert next[..pos] == buf[..pos];
          assert next[r.pos..] == buf[r.pos..];
        }
    }
  }

  /** Every `OK` stands for a line that advanced the cursor: the cursor moved
      exactly when at least one line was stored. */
  lemma {:induction false} ReceiveAdvance(ls: seq<LineKind>, i: nat, buf: seq<byte>, pos: nat)
    requires i <= |ls| && pos <= |buf| == TOTAL_SIZE && NonEmptyBytes(ls)
    ensures var r := Receive(ls, i, buf, pos);
      (r.pos > pos <==> OkLine in r.replies)
    decreases |ls| - i
  {
    if pos < TOTAL_SIZE && i < |ls| {
      match ls[i]
      case Blank => ReceiveAdvance(ls, i + 1, buf, pos);
      case Bad(e) =>
      case Bytes(data) =>
        if pos + |data| <= TOTAL_SIZE {
          var r := Receive(ls, i + 1, WriteAt(buf, pos, data), pos + |data|);
          assert Receive(ls, i, buf, pos).replies == [OkLine] + r.replies;
        }
    }
  }

  // ---------------------------------------------------------------------
  // A well-formed session

  /** The line the host writes for one chunk of bytes. */
  function HexLine(chunk: seq<byte>): string {
    Hexlify(chunk) + "\n"
  }

  /** The host's lines for a sequence of chunks, in order. */
  function Lines(chunks: seq<seq<byte>>): (ls: seq<string>)
    ensures |ls| == |chunks|
    ensures forall k :: 0 <= k < |chunks| ==> ls[k] == HexLine(chunks[k])
  {
    seq(|chunks|, k requires 0 <= k < |chunks| => HexLine(chunks[k]))
  }

  /** The device reads a host line back as the chunk it encodes. */
  lemma HexLineParses(chunk: seq<byte>)
    requires chunk != []
    ensures Parse(HexLine(chunk)) == Bytes(chunk)
  {
    var s := Hexlify(chunk);
    assert !IsSpace(s[0]) && !IsSpace(s[|s| - 1]) by {
      assert IsLowerDigit(s[0]) && IsLowerDigit(s[|s| - 1]);
    }
    StripLine(s);
    UnhexlifyHexlify(chunk);
  }

  function TotalLength(chunks: seq<seq<byte>>): nat {
    if chunks == [] then 0 else |chunks[0]| + TotalLength(chunks[1..])
  }

  function Oks(n: nat): (r: seq<Reply>)
    ensures |r| == n && forall k :: 0 <= k < n ==> r[k] == OkLine
  {
    if n == 0 then [] else [OkLine] + Oks(n - 1)
  }

  /** `ls` holds, from line `i` on, the decoded chunks. */
  predicate ChunksAt(ls: seq<LineKind>, i: nat, chunks: seq<seq<byte>>) {
    && i + |chunks| <= |ls|
    && forall k :: 0 <= k < |chunks| ==> chunks[k] != [] && ls[i + k] == Bytes(chunks[k])
  }

  /** Fed non-empty chunks that exactly fill the rest of the buffer from
      `pos`, the loop stores the chunks one after another behind the cursor,
      answers each with `OK`, and exits with a full buffer, whatever follows
      them. */
  lemma ReceiveChunks(ls: seq<LineKind>, i: nat, chunks: seq<seq<byte>>, buf: seq<byte>, pos: nat)
    requires pos <= |buf| == TOTAL_SIZE
    requires ChunksAt(ls, i, chunks) && pos + TotalLength(chunks) == TOTAL_SIZE
    ensures var r := Receive(ls, i, buf, pos);
      && r.exit.Filled?
      && r.buf == buf[..pos] + Concat(chunks)
      && r.replies == Oks(|chunks|)
  {
    ReceiveChunksReplies(ls, i, chunks, buf, pos);
    ReceiveChunksBuffer(ls, i, chunks, buf, pos);
  }

  /** The first chunk is stored, and the others still lie ahead. */
  lemma FirstChunk(ls: seq<LineKind>, i: nat, chunks: seq<seq<byte>>, buf: seq<byte>, pos: nat)
    requires pos <= |buf| == TOTAL_SIZE && chunks != []
    requires ChunksAt(ls, i, chunks) && pos + TotalLength(chunks) == TOTAL_SIZE
    ensures var c := chunks[0];
      && pos + |c| + TotalLength(chunks[1..]) == TOTAL_SIZE
      && ChunksAt(ls, i + 1, chunks[1..])
      && var r0 := Receive(ls, i, buf, pos);
         var r := Receive(ls, i + 1, WriteAt(buf, pos, c), pos + |c|);
         r0 == r.(replies := [OkLine] + r.replies)
  {
    assert ls[i + 0] == Bytes(chunks[0]);
    forall k | 0 <= k < |chunks[1..]|
      ensures chunks[1..][k] != [] && ls[i + 1 + k] == Bytes(chunks[1..][k])
    {
      assert ls[i + (k + 1)] == Bytes(chunks[k + 1]);
    }
  }

  lemma {:induction false} ReceiveChunksReplies(ls: seq<LineKind>, i: nat, chunks: seq<seq<byte>>, buf: seq<byte>, pos: nat)
    requires pos <= |buf| == TOTAL_SIZE
    requires ChunksAt(ls, i, chunks) && pos + TotalLength(chunks) == TOTAL_SIZE
    ensures var r := Receive(ls, i, buf, pos);
      r.exit.Filled? && r.replies == Oks(|chunks|)
    decreases |chunks|
  {
    if chunks != [] {
      var c := chunks[0];
      FirstChunk(ls, i, chunks, buf, pos);
      ReceiveChunksReplies(ls, i + 1, chunks[1..], WriteAt(buf, pos, c), pos + |c|);
      assert Oks(|chunks|) == [OkLine] + Oks(|chunks[1..]|);
    }
  }

  lemma {:induction false} ReceiveChunksBuffer(ls: seq<LineKind>, i: nat, chunks: seq<seq<byte>>, buf: seq<byte>, pos: nat)
    requires pos <= |buf| == TOTAL_SIZE
    requires ChunksAt(ls, i, chunks) && pos + TotalLength(chunks) == TOTAL_SIZE
    ensures Receive(ls, i, buf, pos).buf == buf[..pos] + Concat(chunks)
    decreases |chunks|
  {
    if chunks == [] {
      assert buf[..pos] == buf;
    } else {
      var c := chunks[0];
      var next := WriteAt(buf, pos, c);
      FirstChunk(ls, i, chunks, buf, pos);
      ReceiveChunksBuffer(ls, i + 1, chunks[1..], next, pos + |c|);
      BufferStep(buf, pos, chunks, Receive(ls, i + 1, next, pos + |c|).buf);
    }
  }

  /** Writing the first chunk at the cursor and then the rest behind it
      leaves the prefix followed by all chunks. */
  lemma BufferStep(buf: seq<byte>, pos: nat, chunks: seq<seq<byte>>, rb: seq<byte>)
    requires chunks != [] && pos + |chunks[0]| <= |buf|
    requires rb == WriteAt(buf, pos, chunks[0])[..pos + |chunks[0]|] + Concat(chunks[1..])
    ensures rb == buf[..pos] + Concat(chunks)
  {
    assert WriteAt(buf, pos, chunks[0])[..pos + |chunks[0]|] == buf[..pos] + chunks[0];
    assert Concat(chunks) == chunks[0] + Concat(chunks[1..]);
  }

  /** The host's lines for non-empty chunks, followed by anything at all,
      are read as those chunks. */
  lemma LinesParse(chunks: seq<seq<byte>>, rest: seq<string>)
    requires forall k :: 0 <= k < |chunks| ==> chunks[k] != []
    ensures ChunksAt(Parses(Lines(chunks) + rest), 0, chunks)
  {
    var inputs := Lines(chunks) + rest;
    forall k | 0 <= k < |chunks|
      ensures Parses(inputs)[0 + k] == Bytes(chunks[k])
    {
      assert inputs[k] == HexLine(chunks[k]);
      HexLineParses(chunks[k]);
    }
  }

  // ---------------------------------------------------------------------
  // The whole of `main`

  /** Where the device is when the model stops looking: still in the receive
      loop at cursor `pos` waiting for input, returned from `main`, or in the
      final idle loop. */
  datatype DevState = Receiving(pos: nat) | Exited | Idle

  /** Everything `main` did: its replies in order, where it ended up, the
      buffer when it stopped and the frame given to the panel, if any. */
  datatype Device = Device(out: seq<Reply>, state: DevState, buf: seq<byte>, shown: Option<seq<byte>>)

  function Zeros(n: nat): (z: seq<byte>)
    ensures |z| == n && forall k :: 0 <= k < n ==> z[k] == 0
  {
    seq(n, _ => 0)
  }

  /** After the loop: `init_4Gray`, `display_4Gray`, `sleep`, then `DONE`;
      a fault in any of them prints `FATAL` instead; the panel shows the
      buffer once `display_4Gray` has returned. */
  function Refresh(hw: Hardware, buf: seq<byte>): (r: (seq<Reply>, Option<seq<byte>>))
  {
    if hw.initFault.Some? then ([FatalLine(hw.initFault.value)], None)
    else if hw.displayFault.Some? then ([FatalLine(hw.displayFault.value)], None)
    else if hw.sleepFault.Some? then ([FatalLine(hw.sleepFault.value)], Some(buf))
    else ([DoneLine], Some(buf))
  }

  /** `main()` on the given hardware and input lines. */
  function Lifetime(hw: Hardware, inputs: seq<string>): (d: Device) {
    if hw.driverFault.Some? then Device([FatalLine(hw.driverFault.value)], Idle, [], None)
    else if !hw.memory then Device([ErrMemLine], Exited, [], None)
    else
      var r := Receive(Parses(inputs), 0, Zeros(TOTAL_SIZE), 0);
      var out := [ReadyLine] + r.replies;
      match r.exit
      case Starved => Device(out, Receiving(r.pos), r.buf, None)
      case Aborted => Device(out, Exited, r.buf, None)
      case Filled =>
        var (tail, shown) := Refresh(hw, r.buf);
        Device(out + tail, Idle, r.buf, shown)
  }

  /** Hardware on which nothing raises. */
  predicate Healthy(hw: Hardware) {
    hw.driverFault.None? && hw.memory && hw.initFault.None? && hw.displayFault.None? && hw.sleepFault.None?
  }

  /** A complete frame sent as non-empty chunks: `READY`, one `OK` per chunk,
      `DONE`; the buffer holds the chunks in order and that is what the panel
      shows; the device idles, and nothing sent after the frame is read. */
  lemma LifetimeFrame(hw: Hardware, chunks: seq<seq<byte>>, rest: seq<string>)
    requires Healthy(hw)
    requires forall k :: 0 <= k < |chunks| ==> chunks[k] != []
    requires TotalLength(chunks) == TOTAL_SIZE
    ensures var d := Lifetime(hw, Lines(chunks) + rest);
      && d.out == [ReadyLine] + Oks(|chunks|) + [DoneLine]
      && d.state == Idle
      && d.buf == Concat(chunks)
      && d.shown == Some(Concat(chunks))
  {
    LinesParse(chunks, rest);
    ReceiveChunks(Parses(Lines(chunks) + rest), 0, chunks, Zeros(TOTAL_SIZE), 0);
    assert Zeros(TOTAL_SIZE)[..0] == [];
  }

  /** Once the buffer exists `READY` comes first and never again, and every
      later line but the last is `OK`. Something is always printed. */
  lemma LifetimeOpens(hw: Hardware, inputs: seq<string>)
    ensures var d := Lifetime(hw, inputs);
      && d.out != []
      && (hw.driverFault.None? && hw.memory ==>
            && d.out[0] == ReadyLine
            && (forall k :: 1 <= k < |d.out| - 1 ==> d.out[k] == OkLine)
            && (forall k :: 1 <= k < |d.out| ==> d.out[k] != ReadyLine))
  {
    if hw.driverFault.None? && hw.memory {
      ReceiveExit(Parses(inputs), 0, Zeros(TOTAL_SIZE), 0);
    }
  }

  /** `main` returns (no idle loop) exactly after `ERR_MEM` or an `ERR`, and
      an `ERR` is always the last line; `ERR_MEM` is printed exactly when the
      driver was built and the buffer could not be allocated. */
  lemma LifetimeExits(hw: Hardware, inputs: seq<string>)
    ensures var d := Lifetime(hw, inputs);
      && d.out != []
      && (d.state.Exited? <==> d.out == [ErrMemLine] || d.out[|d.out| - 1].ErrLine?)
      && (forall k :: 0 <= k < |d.out| && d.out[k].ErrLine? ==> k == |d.out| - 1)
      && (ErrMemLine in d.out <==> hw.driverFault.None? && !hw.memory)
  {
    if hw.driverFault.None? && hw.memory {
      var r := Receive(Parses(inputs), 0, Zeros(TOTAL_SIZE), 0);
      ReceiveExit(Parses(inputs), 0, Zeros(TOTAL_SIZE), 0);
      var d := Lifetime(hw, inputs);
      assert d.out[0] == ReadyLine;
      assert forall k :: 1 <= k <= |r.replies| ==> d.out[k] == r.replies[k - 1];
      if r.exit.Filled? {
        assert |d.out| == |r.replies| + 2 && !d.out[|d.out| - 1].ErrLine?;
      }
    }
  }

  /** A failed allocation prints `ERR_MEM` and returns: nothing is read,
      nothing is shown, whatever the input. */
  lemma LifetimeNoMemory(hw: Hardware, inputs: seq<string>)
    ensures hw.driverFault.None? && !hw.memory ==>
      Lifetime(hw, inputs) == Device([ErrMemLine], Exited, [], None)
  {
  }

  /** The panel is given the buffer, and `DONE` printed, only after the
      receive loop filled it: `DONE` needs every driver step to succeed and is
      the last line, printed in the idle state; the panel is shown the buffer
      exactly when the driver was built, the buffer allocated and filled, and
      `init_4Gray` and `display_4Gray` returned. */
  lemma LifetimeDone(hw: Hardware, inputs: seq<string>)
    ensures var d := Lifetime(hw, inputs);
      var r := Receive(Parses(inputs), 0, Zeros(TOTAL_SIZE), 0);
      && (forall k :: 0 <= k < |d.out| && d.out[k] == DoneLine ==>
            k == |d.out| - 1 && d.state == Idle && d.shown == Some(d.buf))
      && (DoneLine in d.out <==> Healthy(hw) && r.exit.Filled?)
      && (d.shown.Some? <==>
            hw.driverFault.None? && hw.memory && r.exit.Filled? && hw.initFault.None? && hw.displayFault.None?)
      && (d.shown.Some? || DoneLine in d.out ==> r.pos == TOTAL_SIZE && d.shown == Some(r.buf))
      && (d.shown.Some? ==> |d.shown.value| == TOTAL_SIZE)
  {
    if hw.driverFault.None? && hw.memory {
      ReceiveExit(Parses(inputs), 0, Zeros(TOTAL_SIZE), 0);
      var r := Receive(Parses(inputs), 0, Zeros(TOTAL_SIZE), 0);
      if !r.exit.Filled? {
        assert DoneLine !in [ReadyLine] + r.replies;
      }
    }
  }

  /** A fault in a driver step ends `main` with `FATAL:<reason>` as the only
      such line and the last, in the idle state, with no `DONE`; a fault
      while building the driver is all that is printed. */
  lemma LifetimeFatal(hw: Hardware, inputs: seq<string>)
    ensures var d := Lifetime(hw, inputs);
      var r := Receive(Parses(inputs), 0, Zeros(TOTAL_SIZE), 0);
      var late := hw.initFault.Some? || hw.displayFault.Some? || hw.sleepFault.Some?;
      && d.out != []
      && (d.out[|d.out| - 1].FatalLine? <==> hw.driverFault.Some? || (hw.memory && r.exit.Filled? && late))
      && (d.out[|d.out| - 1].FatalLine? ==>
            && d.state == Idle
            && DoneLine !in d.out
            && forall k :: 0 <= k < |d.out| - 1 ==> !d.out[k].FatalLine?)
      && (hw.driverFault.Some? ==> d == Device([FatalLine(hw.driverFault.value)], Idle, [], None))
  {
    if hw.driverFault.None? && hw.memory {
      ReceiveExit(Parses(inputs), 0, Zeros(TOTAL_SIZE), 0);
      var r := Receive(Parses(inputs), 0, Zeros(TOTAL_SIZE), 0);
      var d := Lifetime(hw, inputs);
      assert d.out[0] == ReadyLine;
      assert forall k :: 1 <= k <= |r.replies| ==> d.out[k] == r.replies[k - 1];
      if r.exit.Filled? {
        assert |d.out| == |r.replies| + 2;
      }
    }
  }

  /** While the device waits for input, the bytes from the cursor on are
      still the zeros `bytearray` starts with. */
  lemma LifetimeWaiting(hw: Hardware, inputs: seq<string>)
    requires hw.driverFault.None? && hw.memory
    ensures var d := Lifetime(hw, inputs);
      d.state.Receiving? ==>
        && d.state.pos < TOTAL_SIZE
        && d.buf[d.state.pos..] == Zeros(TOTAL_SIZE - d.state.pos)
        && (d.state.pos > 0 <==> OkLine in d.out)
  {
    var ls := Parses(inputs);
    ReceiveExit(ls, 0, Zeros(TOTAL_SIZE), 0);
    ReceiveFrame(ls, 0, Zeros(TOTAL_SIZE), 0);
    ReceiveAdvance(ls, 0, Zeros(TOTAL_SIZE), 0);
    var r := Receive(ls, 0, Zeros(TOTAL_SIZE), 0);
    assert OkLine in [ReadyLine] + r.replies <==> OkLine in r.replies;
    assert Zeros(TOTAL_SIZE)[r.pos..] == Zeros(TOTAL_SIZE - r.pos);
  }

  /** One turn's handling of a `readline()` result before it reaches the
      buffer: empty, then stripped and blank, then decoded or failing. */
  method ReadLine(hexLine: string) returns (kind: LineKind)
    ensures kind == Parse(hexLine)
  {
    if hexLine == [] {
      return Blank;
    }
    var line := Strip(hexLine);
    if line == [] {
      return Blank;
    }
    match Unhexlify(line) {
      case Err(e) => kind := Bad(e);
      case Ok(chunkData) => kind := Bytes(chunkData);
    }
  }

  /** `mv[pos:pos + length] = chunk_data` on the frame buffer. */
  method StoreAt(buf: array<byte>, pos: nat, data: seq<byte>)
    requires pos + |data| <= buf.Length
    modifies buf
    ensures buf[..] == WriteAt(old(buf[..]), pos, data)
  {
    forall k | pos <= k < pos + |data| {
      buf[k] := data[k - pos];
    }
    assert buf[..] == WriteAt(old(buf[..]), pos, data);
  }

  /** The receive loop of `main` over the frame buffer: it reads one line
      per turn, writes decoded bytes through the memoryview and advances the
      cursor; it stops looking when the input runs out. */
  method ReceiveLoop(inputs: seq<string>, imgBuffer: array<byte>)
    returns (replies: seq<Reply>, pos: nat, exit: LoopExit, next: nat)
    requires imgBuffer.Length == TOTAL_SIZE
    modifies imgBuffer
    ensures Reception(imgBuffer[..], pos, replies, exit, next) == Receive(Parses(inputs), 0, old(imgBuffer[..]), 0)
  {
    ghost var ls := Parses(inputs);
    ghost var buf := imgBuffer[..];
    ghost var whole := Receive(ls, 0, buf, 0);
    assert [] + whole.replies == whole.replies;
    replies := [];
    pos := 0;
    var i: nat := 0;
    while pos < TOTAL_SIZE
      invariant i <= |inputs| && pos <= TOTAL_SIZE
      invariant buf == imgBuffer[..]
      invariant Resumes(whole, ls, i, buf, pos, replies)
      decreases |inputs| - i
    {
      if i == |inputs| {
        ResumeEnd(whole, ls, i, buf, pos, replies);
        return replies, pos, Starved, i;
      }
      var kind := ReadLine(inputs[i]);
      assert ls[i] == kind;
      match kind {
        case Blank =>
          ResumeBlank(whole, ls, i, buf, pos, replies);
        case Bad(e) =>
          ResumeReject(whole, ls, i, buf, pos, replies);
          return replies + [ErrLine(Undecodable(e))], pos, Aborted, i;
        case Bytes(chunkData) =>
          if pos + |chunkData| > TOTAL_SIZE {
            ResumeReject(whole, ls, i, buf, pos, replies);
            return replies + [ErrLine(SizeMismatch)], pos, Aborted, i;
          }
          StoreAt(imgBuffer, pos, chunkData);
          ResumeStored(whole, ls, i, buf, pos, replies, chunkData);
          buf := WriteAt(buf, pos, chunkData);
          pos := pos + |chunkData|;
          replies := replies + [OkLine];
      }
      i := i + 1;
    }
    ResumeEnd(whole, ls, i, buf, pos, replies);
    exit, next := Filled, i;
  }

  /** `main` itself: the driver, the buffer, `READY`, the receive loop, and
      the refresh of the panel. */
  method RunMain(hw: Hardware, inputs: seq<string>) returns (d: Device)
    ensures d == Lifetime(hw, inputs)
  {
    if hw.driverFault.Some? {
      return Device([FatalLine(hw.driverFault.value)], Idle, [], None);
    }
    if !hw.memory {
      return Device([ErrMemLine], Exited, [], None);
    }
    var imgBuffer := new byte[TOTAL_SIZE](_ => 0);
    assert imgBuffer[..] == Zeros(TOTAL_SIZE);
    var out := [ReadyLine];
    var replies, pos, exit, _ := ReceiveLoop(inputs, imgBuffer);
    out := out + replies;
    var frame := imgBuffer[..];
    match exit {
      case Starved => return Device(out, Receiving(pos), frame, None);
      case Aborted => return Device(out, Exited, frame, None);
      case Filled =>
    }
    if hw.initFault.Some? {
      return Device(out + [FatalLine(hw.initFault.value)], Idle, frame, None);
    }
    if hw.displayFault.Some? {
      return Device(out + [FatalLine(hw.displayFault.value)], Idle, frame, None);
    }
    if hw.sleepFault.Some? {
      return Device(out + [FatalLine(hw.sleepFault.value)], Idle, frame, Some(frame));
    }
    d := Device(out + [DoneLine], Idle, frame, Some(frame));
  }
}
