/** The host scripts and the firmware together: the chunk lines the hosts
    write are exactly what the device's receive loop needs to fill its frame
    buffer with the packed frame; the device's replies are read by the hosts
    the way they intend; the permission handshake of `server/send_image.py`
    meets a firmware that does not know it; and the two packing orders are
    mirror images of each other. */
module Session {
  import opened Text
  import opened Hex
  import opened Pixels
  import opened Link
  import SendImage
  import ServerMain
  import Firmware

  // ---------------------------------------------------------------------
  // The chunk lines, seen from the bytes

  /** The frame cut into the byte runs the hex chunks stand for:
      `raw[pos:pos + 512]`, then onwards. */
  function ByteChunks(raw: seq<byte>, pos: nat): seq<seq<byte>>
    decreases |raw| - pos
  {
    if pos >= |raw| then []
    else
      var c := raw[pos..Min(|raw|, pos + CHUNK_SIZE)];
      [c] + ByteChunks(raw, pos + |c|)
  }

  /** The line the host writes for each chunk of a hex frame. */
  function ChunkLines(hex: string): (ls: seq<string>)
    ensures |ls| == |Chunks(hex)|
    ensures forall k :: 0 <= k < |ls| ==> ls[k] == Chunks(hex)[k] + "\n"
  {
    var cs := Chunks(hex);
    seq(|cs|, k requires 0 <= k < |cs| => cs[k] + "\n")
  }

  /** The first byte run of the frame from `pos`. */
  function FirstRun(raw: seq<byte>, pos: nat): seq<byte>
    requires pos < |raw|
  {
    raw[pos..Min(|raw|, pos + CHUNK_SIZE)]
  }

  /** The first hex chunk from `2 * pos` is the hex of the first byte run
      from `pos`, and both cuts go on from the same place. */
  lemma HexChunkHead(raw: seq<byte>, pos: nat)
    requires pos < |raw|
    ensures var c := FirstRun(raw, pos);
      && c != []
      && ChunksFrom(Hexlify(raw), 2 * pos) == [Hexlify(c)] + ChunksFrom(Hexlify(raw), 2 * (pos + |c|))
      && ByteChunks(raw, pos) == [c] + ByteChunks(raw, pos + |c|)
  {
    var hi := Min(|raw|, pos + CHUNK_SIZE);
    HexlifySlice(raw, pos, hi);
    assert PySlice(Hexlify(raw), 2 * pos, 2 * pos + CHUNK_HEX) == Hexlify(raw[pos..hi]);
  }

  /** There are as many hex chunks from `2 * pos` as byte runs from `pos`. */
  lemma {:induction false} HexChunksLength(raw: seq<byte>, pos: nat)
    requires pos <= |raw|
    ensures |ChunksFrom(Hexlify(raw), 2 * pos)| == |ByteChunks(raw, pos)|
    decreases |raw| - pos
  {
    if pos < |raw| {
      HexChunkHead(raw, pos);
      HexChunksLength(raw, pos + |FirstRun(raw, pos)|);
    }
  }

  /** Hex chunk `k` is the hex of byte run `k`, which is non-empty. */
  lemma {:induction false} HexChunkAt(raw: seq<byte>, pos: nat, k: nat)
    requires pos <= |raw| && k < |ByteChunks(raw, pos)|
    ensures k < |ChunksFrom(Hexlify(raw), 2 * pos)|
    ensures ChunksFrom(Hexlify(raw), 2 * pos)[k] == Hexlify(ByteChunks(raw, pos)[k])
    ensures ByteChunks(raw, pos)[k] != []
    decreases |raw| - pos
  {
    HexChunksLength(raw, pos);
    var c := FirstRun(raw, pos);
    var rest := pos + |c|;
    HexChunkHead(raw, pos);
    if k > 0 {
      HexChunkAt(raw, rest, k - 1);
    }
  }

  /** Hex chunk `k` cut from `hexlify(raw)` at offset `2 * pos` is the hex of
      the `k`th byte run cut from `raw` at `pos`: 1024 hex characters are 512
      bytes, and the last chunk is cut at the same place in both. The byte
      runs are non-empty. */
  lemma HexChunks(raw: seq<byte>, pos: nat)
    requires pos <= |raw|
    ensures var hc := ChunksFrom(Hexlify(raw), 2 * pos);
      var bc := ByteChunks(raw, pos);
      && |hc| == |bc|
      && (forall k :: 0 <= k < |bc| ==> hc[k] == Hexlify(bc[k]) && bc[k] != [])
  {
    HexChunksLength(raw, pos);
    forall k | 0 <= k < |ByteChunks(raw, pos)|
      ensures ChunksFrom(Hexlify(raw), 2 * pos)[k] == Hexlify(ByteChunks(raw, pos)[k])
      ensures ByteChunks(raw, pos)[k] != []
    {
      HexChunkAt(raw, pos, k);
    }
  }

  /** The byte runs from `pos` are, together, the rest of the frame. */
  lemma {:induction false} ByteChunksCover(raw: seq<byte>, pos: nat)
    requires pos <= |raw|
    ensures Firmware.TotalLength(ByteChunks(raw, pos)) == |raw| - pos
    ensures Concat(ByteChunks(raw, pos)) == raw[pos..]
    decreases |raw| - pos
  {
    if pos < |raw| {
      var c := FirstRun(raw, pos);
      var bc := ByteChunks(raw, pos);
      assert bc == [c] + ByteChunks(raw, pos + |c|);
      assert bc[1..] == ByteChunks(raw, pos + |c|);
      ByteChunksCover(raw, pos + |c|);
      assert raw[pos..] == c + raw[pos + |c|..];
    } else {
      assert raw[pos..] == [];
    }
  }

  /** The host's chunk lines for a frame are the device's lines for the
      frame's byte runs. */
  lemma ChunkLinesAreHexLines(raw: seq<byte>)
    ensures var bc := ByteChunks(raw, 0);
      && ChunkLines(Hexlify(raw)) == Firmware.Lines(bc)
      && (forall k :: 0 <= k < |bc| ==> bc[k] != [])
      && Firmware.TotalLength(bc) == |raw|
      && Concat(bc) == raw
  {
    HexChunks(raw, 0);
    ByteChunksCover(raw, 0);
    assert raw[0..] == raw;
  }

  /** A healthy device fed the host's chunk lines of a 96000-byte frame,
      whatever follows them, answers `READY`, 188 `OK`s and `DONE`, and shows
      exactly that frame. */
  lemma FrameDelivered(hw: Firmware.Hardware, raw: seq<byte>, rest: seq<string>)
    requires Firmware.Healthy(hw) && |raw| == EXPECTED_SIZE
    ensures var d := Firmware.Lifetime(hw, ChunkLines(Hexlify(raw)) + rest);
      && d.out == [Firmware.ReadyLine] + Firmware.Oks(188) + [Firmware.DoneLine]
      && d.state == Firmware.Idle
      && d.buf == raw
      && d.shown == Some(raw)
  {
    ChunkLinesAreHexLines(raw);
    FrameChunks(Hexlify(raw));
    Firmware.LifetimeFrame(hw, ByteChunks(raw, 0), rest);
  }

  /** The lines a host wrote, in order, leaving out its sleeps: what the
      device reads. */
  function WrittenLines(actions: seq<Action>): seq<string> {
    if actions == [] then []
    else (if actions[0].Write? then [actions[0].line] else []) + WrittenLines(actions[1..])
  }

  lemma {:induction false} WrittenLinesOfWrites(actions: seq<Action>)
    requires forall k :: 0 <= k < |actions| ==> actions[k].Write?
    ensures |WrittenLines(actions)| == |actions|
    ensures forall k :: 0 <= k < |actions| ==> WrittenLines(actions)[k] == actions[k].line
  {
    if actions != [] {
      WrittenLinesOfWrites(actions[1..]);
      assert WrittenLines(actions) == [actions[0].line] + WrittenLines(actions[1..]);
    }
  }

  /** End to end for `server/main.py`: after a successful run, a healthy
      device that read what the script wrote shows the script's packed frame,
      and reading that frame back in the script's bit order gives the
      quantized picture, pixel for pixel. */
  lemma ServerMainShowsPicture(img: seq<seq<byte>>, rs: seq<Reading>, hw: Firmware.Hardware, rest: seq<string>)
    requires IsRaster(img) && Firmware.Healthy(hw)
    requires ServerMain.Transfer(img, rs).outcome.Success?
    ensures var raw := ServerMain.ProcessImage(img);
      var d := Firmware.Lifetime(hw, WrittenLines(ServerMain.Transfer(img, rs).writes) + rest);
      && d.out == [Firmware.ReadyLine] + Firmware.Oks(188) + [Firmware.DoneLine]
      && d.shown == Some(raw)
      && UnpackGroups(raw, ServerMain.UnpackForward) == Levels(img)
  {
    var raw := ServerMain.ProcessImage(img);
    var writes := ServerMain.Transfer(img, rs).writes;
    ServerMain.SizeCheck(img);
    ServerMain.TransferWrites(img, rs);
    WrittenLinesOfWrites(writes);
    assert WrittenLines(writes) == ChunkLines(Hexlify(raw));
    FrameDelivered(hw, raw, rest);
    ServerMain.UnpackProcessImage(img);
  }

  // ---------------------------------------------------------------------
  // The device's replies, as the hosts read them

  /** A reply as it reaches the host: one printed line. */
  function Printed(r: Firmware.Reply): Event {
    Line(Firmware.ReplyText(r) + "\n")
  }

  lemma NoSpaceEnds(s: string)
    requires s != [] && !IsSpace(s[0]) && !IsSpace(s[|s| - 1])
    ensures Read(Line(s + "\n")) == Heard(s)
  {
    StripLine(s);
  }

  /** `OK` acknowledges the chunk it answers. */
  lemma OkAcknowledges(rs: seq<Reading>)
    ensures AckWindow([Read(Printed(Firmware.OkLine))] + rs, 0) == (Acked, 1)
  {
    NoSpaceEnds("OK");
    assert StartsWith("OK", "OK");
  }

  /** A text that starts with `ERR`, has no `O` and ends in a letter. */
  predicate ErrText(t: string) {
    && StartsWith(t, "ERR")
    && NoO(t)
    && !IsSpace(t[|t| - 1])
  }

  predicate NoO(s: string) {
    forall k :: 0 <= k < |s| ==> s[k] != 'O'
  }

  lemma NoOAppend(a: string, b: string)
    requires NoO(a) && NoO(b)
    ensures NoO(a + b)
  {
    assert forall k :: |a| <= k < |a + b| ==> (a + b)[k] == b[k - |a|];
  }

  /** The messages of the three rejections have no `O` and end in a
      letter. */
  lemma CauseTexts(c: Firmware.Cause)
    ensures var m := Firmware.CauseText(c);
      m != [] && NoO(m) && !IsSpace(m[|m| - 1])
  {
    match c
    case Undecodable(OddLength) =>
      NoOAppend("odd-length", " string");
      assert "odd-length string" == "odd-length" + " string";
    case Undecodable(NonHexDigit) =>
      NoOAppend("non-hex", " digit found");
      assert "non-hex digit found" == "non-hex" + " digit found";
    case SizeMismatch =>
      NoOAppend("lhs and ", "rhs should");
      NoOAppend("lhs and rhs should", " be compatible");
      assert "lhs and rhs should be compatible" == "lhs and rhs should" + " be compatible";
  }

  lemma ErrTexts(c: Firmware.Cause)
    ensures ErrText(Firmware.ReplyText(Firmware.ErrLine(c)))
  {
    var m := Firmware.CauseText(c);
    var t := "ERR:" + m;
    CauseTexts(c);
    NoOAppend("ERR:", m);
    assert t[..3] == "ERR";
    assert t[|t| - 1] == m[|m| - 1];
  }

  /** An `ERR` reply is reported as a device error carrying the line's
      text: it contains `ERR` and not `OK`. */
  lemma ErrIsReported(c: Firmware.Cause, rs: seq<Reading>)
    ensures var t := Firmware.ReplyText(Firmware.ErrLine(c));
      AckWindow([Read(Printed(Firmware.ErrLine(c)))] + rs, 0) == (ErrReply(t), 1)
  {
    var t := Firmware.ReplyText(Firmware.ErrLine(c));
    ErrTexts(c);
    NoSpaceEnds(t);
    NotContainsWithout(t, "OK", 0);
    assert Contains(t, "ERR");
  }

  /** `READY` is found by the wait of `server/main.py` for it, and does not
      decide an acknowledgement window. */
  lemma ReadyFound(rs: seq<Reading>)
    ensures LineWith([Read(Printed(Firmware.ReadyLine))] + rs, 0, "READY") == Some(1)
    ensures !Decisive(Read(Printed(Firmware.ReadyLine)))
  {
    NoSpaceEnds("READY");
    assert StartsWith("READY", "READY");
    NotContainsWithout("READY", "OK", 0);
    NotContainsWithout("READY", "ERR", 1);
  }

  /** `DONE` is found by the hosts' final wait for it, and does not decide
      an acknowledgement window. */
  lemma DoneFound(rs: seq<Reading>)
    ensures LineWith([Read(Printed(Firmware.DoneLine))] + rs, 0, "DONE") == Some(1)
    ensures !Decisive(Read(Printed(Firmware.DoneLine)))
  {
    NoSpaceEnds("DONE");
    assert StartsWith("DONE", "DONE");
    NotContainsWithout("DONE", "OK", 1);
    NotContainsWithout("DONE", "ERR", 1);
  }

  // ---------------------------------------------------------------------
  // The permission handshake against this firmware

  /** No reply of the firmware reads as `YES` or `BUSY`: it has no such
      replies. */
  lemma FirmwareNeverGrants(hw: Firmware.Hardware, inputs: seq<string>)
    ensures var d := Firmware.Lifetime(hw, inputs);
      forall k :: 0 <= k < |d.out| ==>
        Firmware.ReplyText(d.out[k]) != SendImage.SEND_OK
        && Firmware.ReplyText(d.out[k]) != SendImage.SEND_BUSY
  {
    var d := Firmware.Lifetime(hw, inputs);
    forall k | 0 <= k < |d.out|
      ensures Firmware.ReplyText(d.out[k]) != SendImage.SEND_OK
      ensures Firmware.ReplyText(d.out[k]) != SendImage.SEND_BUSY
    {
      var t := Firmware.ReplyText(d.out[k]);
      assert t[0] in {'R', 'O', 'E', 'D', 'F'};
    }
  }

  /** `CAN_SEND` is not hex: `N` is no hex digit. */
  lemma QueryIsNotHex()
    ensures Firmware.Parse(SendImage.SEND_QUERY + "\n") == Firmware.Bad(NonHexDigit)
  {
    var q := SendImage.SEND_QUERY;
    StripLine(q);
    assert !IsHexChar(q[2]);
  }

  /** The `ERR` reply to `CAN_SEND` settles the handshake as refused, and a
      `READY` line before it is passed over. */
  lemma RefusalRead(ready: bool, rs: seq<Reading>)
    ensures var err := Firmware.ErrLine(Firmware.Undecodable(NonHexDigit));
      var pre := if ready then [Read(Printed(Firmware.ReadyLine))] else [];
      var heard := pre + [Read(Printed(err))] + rs;
      SendImage.QueryWindow(heard, 0) == (SendImage.Refused(Firmware.ReplyText(err)), |pre| + 1)
  {
    var err := Firmware.ErrLine(Firmware.Undecodable(NonHexDigit));
    var t := Firmware.ReplyText(err);
    NoSpaceEnds(t);
    assert StartsWith(t, SendImage.SEND_ERR_PREFIX);
    var pre := if ready then [Read(Printed(Firmware.ReadyLine))] else [];
    var heard := pre + [Read(Printed(err))] + rs;
    assert heard[|pre|] == Heard(t);
    if ready {
      NoSpaceEnds("READY");
      assert "READY"[..3] != SendImage.SEND_ERR_PREFIX;
      assert heard[0] == Heard("READY");
    }
  }

  /** `CAN_SEND` is not hex: the firmware answers it with `ERR` and returns
      from `main`, its buffer untouched. `request_send_permission` reads that
      answer (after a `READY` or not) as a refusal and gives up after its
      first query, so `server/send_image.py` never sends a chunk to this
      firmware. */
  lemma CanSendIsRejectedByFirmware(hw: Firmware.Hardware, rest: seq<string>, ready: bool, rs: seq<Reading>)
    requires hw.driverFault.None? && hw.memory
    ensures var err := Firmware.ErrLine(Firmware.Undecodable(NonHexDigit));
      && Firmware.Lifetime(hw, [SendImage.SEND_QUERY + "\n"] + rest) ==
           Firmware.Device([Firmware.ReadyLine, err], Firmware.Exited, Firmware.Zeros(Firmware.TOTAL_SIZE), None)
      && var heard := (if ready then [Read(Printed(Firmware.ReadyLine))] else []) + [Read(Printed(err))] + rs;
         var h := SendImage.Handshake(heard, 0, 0, SendImage.MAX_ATTEMPTS);
         && !h.granted
         && h.actions == [Write(SendImage.SEND_QUERY + "\n")]
  {
    QueryIsNotHex();
    var inputs := [SendImage.SEND_QUERY + "\n"] + rest;
    assert Firmware.Parses(inputs)[0] == Firmware.Bad(NonHexDigit);
    RefusalRead(ready, rs);
  }

  /** The events the host hears when the device prints `out`, one line each. */
  function Transcript(out: seq<Firmware.Reply>): (es: seq<Event>)
    ensures |es| == |out|
    ensures forall k :: 0 <= k < |out| ==> es[k] == Printed(out[k])
  {
    seq(|out|, k requires 0 <= k < |out| => Printed(out[k]))
  }

  /** `strip()` of a line that does not start with whitespace keeps its
      first character. */
  lemma StripKeepsHead(raw: string)
    requires raw != [] && !IsSpace(raw[0])
    ensures Strip(raw) == [] || Strip(raw)[0] == raw[0]
  {
    assert TrimStart(raw) == raw;
    TrimEndSlice(raw);
  }

  /** No line of the firmware, once stripped, is `YES`: each starts with a
      letter other than `Y`, and `strip()` keeps that first letter. */
  lemma NoReplyReadsYes(r: Firmware.Reply)
    ensures !SendImage.IsYes(Read(Printed(r)))
  {
    var t := Firmware.ReplyText(r);
    var head := match r
      case ReadyLine => 'R'
      case OkLine => 'O'
      case ErrLine(_) => 'E'
      case DoneLine => 'D'
      case FatalLine(_) => 'F'
      case ErrMemLine => 'E';
    assert t[0] == head;
    StripKeepsHead(t + "\n");
    assert (t + "\n")[0] == head;
  }

  /** Whatever the firmware prints, heard in any order, any number of times
      and with any silences between, `request_send_permission` is never
      granted: `send_image_to_pico` either refuses the raster's size and
      writes nothing, or writes only its `CAN_SEND` queries and backoffs and
      never a chunk. */
  lemma SendImageNeverSends(img: seq<seq<byte>>, hw: Firmware.Hardware, inputs: seq<string>, events: seq<Event>)
    requires Rows(img)
    requires forall k :: 0 <= k < |events| ==>
      events[k].Silence? || events[k] in Transcript(Firmware.Lifetime(hw, inputs).out)
    ensures var rs := Readings(events);
      var r := SendImage.Transfer(img, rs);
      && (r.outcome.SizeError? <==> |img| != HEIGHT)
      && (!r.outcome.SizeError? ==> r.outcome.NotPermitted?)
      && r.actions ==
           (if |img| != HEIGHT then []
            else SendImage.QueryLog(SendImage.Attempts(rs, 0, 0, SendImage.MAX_ATTEMPTS)))
  {
    var rs := Readings(events);
    var ts := Transcript(Firmware.Lifetime(hw, inputs).out);
    forall k | 0 <= k < |rs|
      ensures !SendImage.IsYes(rs[k])
    {
      if !events[k].Silence? {
        var m :| 0 <= m < |ts| && ts[m] == events[k];
        NoReplyReadsYes(Firmware.Lifetime(hw, inputs).out[m]);
      }
    }
    SendImage.SizeCheck(img);
    SendImage.HandshakeGrant(rs, 0, 0, SendImage.MAX_ATTEMPTS);
    SendImage.HandshakeLog(rs, 0, 0, SendImage.MAX_ATTEMPTS);
  }

  // ---------------------------------------------------------------------
  // The two packing orders

  function Mirror(p: Group): Group {
    [p[3], p[2], p[1], p[0]]
  }

  /** `server/send_image.py` packs a group as `server/main.py` packs the
      mirrored group. */
  lemma PackReversedIsMirrored(p: Group)
    ensures SendImage.PackReversed(p) == ServerMain.PackForward(Mirror(p))
  {
    var b := SendImage.PackReversed(p);
    ServerMain.PackUnpackForward(b);
    assert ServerMain.UnpackForward(b) == Mirror(p);
  }

  /** The two scripts pack a group into the same byte exactly when the group
      reads the same backwards. */
  lemma PackersAgree(p: Group)
    ensures SendImage.PackReversed(p) == ServerMain.PackForward(p) <==> Mirror(p) == p
  {
    PackReversedIsMirrored(p);
    ServerMain.UnpackPackForward(p);
    ServerMain.UnpackPackForward(Mirror(p));
  }

  /** The frame of `server/send_image.py`, read back in the bit order of
      `server/main.py`, has every group of four pixels mirrored. */
  lemma ReversedFrameReadForward(img: seq<seq<byte>>, g: nat)
    requires Rows(img) && g < |img| * (WIDTH / 4)
    ensures |SendImage.ProcessImage(img)| == |img| * (WIDTH / 4)
    ensures ServerMain.UnpackForward(SendImage.ProcessImage(img)[g]) == Mirror(GroupAt(Levels(img), g))
  {
    var lv := Levels(img);
    assert |lv| == 4 * (|img| * (WIDTH / 4));
    var p := GroupAt(lv, g);
    PackReversedIsMirrored(p);
    ServerMain.UnpackPackForward(Mirror(p));
  }
}
