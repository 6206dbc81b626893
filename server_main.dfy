/** `server/main.py`: the earlier host script. It packs four levels per
    byte in forward order (the first pixel of a group in the two high bits),
    waits for the device's `READY` line instead of asking for permission, and
    then sends the frame as hex lines exactly as `server/send_image.py`
    does. */
module ServerMain {
  import opened Text
  import opened Hex
  import opened Pixels
  import opened Link

  // ---------------------------------------------------------------------
  // Frame codec

  /** `(p0 << 6) | (p1 << 4) | (p2 << 2) | p3` on int64 lanes, then
      `astype(np.uint8)`: level `j` of the group lands in bits `6 - 2j` and
      `7 - 2j`, so the first pixel takes the two high bits. */
  function PackForward(p: Group): (b: byte)
    ensures Field(b, 6) == p[0] && Field(b, 4) == p[1]
    ensures Field(b, 2) == p[2] && Field(b, 0) == p[3]
  {
    ToUint8((Lane(p[0]) << 6) | (Lane(p[1]) << 4) | (Lane(p[2]) << 2) | Lane(p[3]))
  }

  /** Reads the group back out of a byte packed in forward order. */
  function UnpackForward(b: byte): Group {
    [Field(b, 6), Field(b, 4), Field(b, 2), Field(b, 0)]
  }

  /** Unpacking at bits 6, 4, 2, 0 recovers every group. */
  lemma UnpackPackForward(p: Group)
    ensures UnpackForward(PackForward(p)) == p
  {
    var b := PackForward(p);
    assert UnpackForward(b)[0] == p[0] && UnpackForward(b)[1] == p[1];
    assert UnpackForward(b)[2] == p[2] && UnpackForward(b)[3] == p[3];
  }

  /** Packing recovers every byte: under this bit order too, groups and
      bytes are in one-to-one correspondence. */
  lemma PackUnpackForward(b: byte)
    ensures PackForward(UnpackForward(b)) == b
  {
  }

  /** `process_image` from the resized raster on. */
  function ProcessImage(img: seq<seq<byte>>): (raw: seq<byte>)
    requires Rows(img)
    ensures |raw| == |img| * (WIDTH / 4)
  {
    var ls := Levels(img);
    assert |ls| == 4 * (|img| * (WIDTH / 4));
    PackGroups(ls, PackForward)
  }

  /** Unpacking `raw_data` in this bit order gives back the quantized raster,
      level by level in row-major order. */
  lemma UnpackProcessImage(img: seq<seq<byte>>)
    requires Rows(img)
    ensures UnpackGroups(ProcessImage(img), UnpackForward) == Levels(img)
  {
    forall p: Group ensures UnpackForward(PackForward(p)) == p {
      UnpackPackForward(p);
    }
    var ls := Levels(img);
    assert |ls| == 4 * (|img| * (WIDTH / 4));
    UnpackPackGroups(ls, PackForward, UnpackForward);
  }

  /** Byte `r * 200 + q` of `raw_data` carries samples `4q` to `4q + 3` of
      row `r`, each quantized, the first in the two high bits. */
  lemma ProcessImagePixels(img: seq<seq<byte>>, r: nat, q: nat)
    requires Rows(img) && r < |img| && q < WIDTH / 4
    ensures var b := ProcessImage(img)[r * (WIDTH / 4) + q];
      && Field(b, 6) == Quantize(img[r][4 * q])
      && Field(b, 4) == Quantize(img[r][4 * q + 1])
      && Field(b, 2) == Quantize(img[r][4 * q + 2])
      && Field(b, 0) == Quantize(img[r][4 * q + 3])
  {
    GroupLevels(img, r, q);
    assert ProcessImage(img)[r * (WIDTH / 4) + q] == PackForward(GroupAt(Levels(img), r * (WIDTH / 4) + q));
  }

  /** The size check rejects a raster exactly when it does not have HEIGHT
      rows. */
  lemma SizeCheck(img: seq<seq<byte>>)
    requires Rows(img)
    ensures |ProcessImage(img)| == EXPECTED_SIZE <==> |img| == HEIGHT
  {
  }

  // ---------------------------------------------------------------------
  // The whole transfer

  /** How `send_image_to_pico` ends: a size error, still waiting for `READY`
      when the device falls silent for good, an `ERR` reply to a chunk, an
      acknowledgement timeout, `DONE` read, or still waiting for `DONE`. */
  datatype Outcome =
    | SizeError(size: nat)
    | AwaitingReady
    | DeviceError(reply: string)
    | AckTimedOut
    | Success
    | AwaitingDone

  datatype Run = Run(outcome: Outcome, writes: seq<Action>)

  /** `send_image_to_pico` on a resized raster and the readings of what the
      device says. */
  function Transfer(img: seq<seq<byte>>, rs: seq<Reading>): (r: Run)
    requires Rows(img)
  {
    var raw := ProcessImage(img);
    if |raw| != EXPECTED_SIZE then Run(SizeError(|raw|), [])
    else match LineWith(rs, 0, "READY")
      case None => Run(AwaitingReady, [])
      case Some(i) =>
        var l := ChunkLoop(Hexlify(raw), 0, rs, i);
        match l.end
        case DeviceErr(t) => Run(DeviceError(t), l.writes)
        case AckTimeout => Run(AckTimedOut, l.writes)
        case AllAcked =>
          if LineWith(rs, l.next, "DONE").Some? then Run(Success, l.writes)
          else Run(AwaitingDone, l.writes)
  }

  /** A raster without HEIGHT rows is refused by the size check, and nothing
      is written. Otherwise no chunk is written before a line containing
      `READY` was read: without such a line nothing is written at all, and
      otherwise the chunk loop starts on the reading right after the first
      such line, so every window it watches lies after it. A successful run
      wrote every one of the 188 chunk lines of the hex frame, in order, and
      nothing else. */
  lemma TransferWrites(img: seq<seq<byte>>, rs: seq<Reading>)
    requires Rows(img)
    ensures var r := Transfer(img, rs);
      var hex := Hexlify(ProcessImage(img));
      var cs := Chunks(hex);
      var ready := LineWith(rs, 0, "READY");
      && (r.outcome.SizeError? <==> |img| != HEIGHT)
      && (r.outcome.SizeError? ==> r.writes == [])
      && (|img| == HEIGHT ==>
            ((forall k :: 0 <= k < |rs| ==> !HasWord(rs[k], "READY")) <==> r.outcome.AwaitingReady?))
      && (r.outcome.AwaitingReady? ==> r.writes == [])
      && (|img| == HEIGHT && ready.Some? ==>
            && HasWord(rs[ready.value - 1], "READY")
            && (forall k :: 0 <= k < ready.value - 1 ==> !HasWord(rs[k], "READY"))
            && r.writes == ChunkLoop(hex, 0, rs, ready.value).writes)
      && (r.outcome.Success? ==>
            && |cs| == 188
            && |r.writes| == |cs|
            && forall k :: 0 <= k < |cs| ==> r.writes[k] == Write(cs[k] + "\n"))
  {
    var raw := ProcessImage(img);
    SizeCheck(img);
    LineWithFirst(rs, 0, "READY");
    var ready := LineWith(rs, 0, "READY");
    if |raw| == EXPECTED_SIZE && ready.Some? {
      var hex := Hexlify(raw);
      ChunkLoopOutcome(hex, rs, ready.value);
      FrameChunks(hex);
    }
  }

  /** What each outcome of a run on a 480-row raster means: with `start` the
      event after the first line containing `READY`, the run reports a
      device error or an ack timeout exactly when the chunk loop ended so,
      carrying the `ERR` line; it succeeds exactly when every window after
      the 188 chunk lines acknowledged its chunk and some line after the last
      window contains `DONE`, and it is still waiting for `DONE` exactly when
      every chunk was acknowledged but no such line follows. */
  lemma TransferOutcome(img: seq<seq<byte>>, rs: seq<Reading>)
    requires Rows(img)
    ensures var r := Transfer(img, rs);
      var ready := LineWith(rs, 0, "READY");
      var hex := Hexlify(ProcessImage(img));
      var cs := Chunks(hex);
      |img| == HEIGHT && ready.Some? ==>
        var l := ChunkLoop(hex, 0, rs, ready.value);
        var acked := forall m :: 0 <= m < |cs| ==> AckReply(rs, ready.value, m).Acked?;
        var last := AckStart(rs, ready.value, |cs|);
        && (r.outcome.DeviceError? <==> l.end.DeviceErr?)
        && (r.outcome.DeviceError? ==> r.outcome.reply == l.end.reply)
        && (r.outcome.AckTimedOut? <==> l.end.AckTimeout?)
        && (r.outcome.Success? <==>
              acked && exists k :: last <= k < |rs| && HasWord(rs[k], "DONE"))
        && (r.outcome.AwaitingDone? <==>
              acked && forall k :: last <= k < |rs| ==> !HasWord(rs[k], "DONE"))
  {
    var raw := ProcessImage(img);
    SizeCheck(img);
    var ready := LineWith(rs, 0, "READY");
    if |raw| == EXPECTED_SIZE && ready.Some? {
      var hex := Hexlify(raw);
      ChunkLoopThenDone(hex, rs, ready.value);
    }
  }

  /** The script's `send_image_to_pico`, step by step. */
  method SendImageToPico(img: seq<seq<byte>>, events: seq<Event>)
    returns (outcome: Outcome, writes: seq<Action>)
    requires Rows(img)
    ensures Run(outcome, writes) == Transfer(img, Readings(events))
  {
    var raw := ProcessImage(img);
    if |raw| != EXPECTED_SIZE {
      return SizeError(|raw|), [];
    }
    var hexData := Hexlify(raw);
    var ready := AwaitLine(events, 0, "READY");
    if ready.None? {
      return AwaitingReady, [];
    }
    var end, bytesSent, next;
    end, bytesSent, writes, next := SendChunks(hexData, events, ready.value);
    match end {
      case DeviceErr(t) => return DeviceError(t), writes;
      case AckTimeout => return AckTimedOut, writes;
      case AllAcked =>
    }
    var done := AwaitLine(events, next, "DONE");
    outcome := if done.Some? then Success else AwaitingDone;
  }
}
