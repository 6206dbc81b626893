/** The host's side of the serial link, shared by both host scripts: what the
    host sees while it waits, what it writes, the slicing of the hex payload
    into lines, the per-chunk acknowledgement window and the loop that sends
    the chunks one by one.

    Time is abstracted: the port delivers a sequence of events, each either a
    line the device printed (as read, before `.strip()`) or `Silence`, which
    stands for a waiting window that expired with nothing further arriving.
    Once the events are used up the device stays silent for ever. Every line
    the host reads it strips at once, so the decisions of the host are stated
    on the readings: the stripped text of each line, or `Quiet`. */
module Link {
  import opened Text

  const CHUNK_SIZE: nat := 512
  /** `chunk_len = CHUNK_SIZE * 2`: hex characters per written line, two per
      byte. */
  const CHUNK_HEX: nat := 1024

  datatype Event = Line(raw: string) | Silence

  /** An event as the host's code sees it: `readline().decode().strip()`,
      or nothing within the window. */
  datatype Reading = Heard(line: string) | Quiet

  function Read(e: Event): Reading {
    match e
    case Line(raw) => Heard(Strip(raw))
    case Silence => Quiet
  }

  /** The readings of all events, in order. */
  function Readings(events: seq<Event>): (rs: seq<Reading>)
    ensures |rs| == |events|
    ensures forall k :: 0 <= k < |events| ==> rs[k] == Read(events[k])
  {
    seq(|events|, k requires 0 <= k < |events| => Read(events[k]))
  }

  /** What the host does to the link: write a line, or sleep for the
      handshake's retry backoff. */
  datatype Action = Write(line: string) | Backoff

  // ---------------------------------------------------------------------
  // Chunking

  /** The lines the send loop cuts from `hex` starting at offset `pos`:
      `hex[pos:pos + 1024]`, then onwards from `pos + len(chunk)`. */
  function ChunksFrom(hex: string, pos: nat): seq<string>
    decreases |hex| - pos
  {
    if pos >= |hex| then []
    else
      var chunk := PySlice(hex, pos, pos + CHUNK_HEX);
      [chunk] + ChunksFrom(hex, pos + |chunk|)
  }

  function Chunks(hex: string): seq<string> {
    ChunksFrom(hex, 0)
  }

  /** `ceil(n / 1024)`: the least number of 1024-character chunks that
      covers `n` characters. */
  function NumChunks(n: nat): (k: nat)
    ensures n <= k * CHUNK_HEX
    ensures k == 0 || (k - 1) * CHUNK_HEX < n
  {
    (n + CHUNK_HEX - 1) / CHUNK_HEX
  }

  /** The first chunk from `pos` is the next (at most) 1024 characters; it is
      a full 1024 unless it reaches the end of the payload. */
  lemma ChunkHead(hex: string, pos: nat)
    requires pos < |hex|
    ensures var chunk := PySlice(hex, pos, pos + CHUNK_HEX);
      && chunk == hex[pos..Min(pos + CHUNK_HEX, |hex|)]
      && 0 < |chunk| <= CHUNK_HEX
      && (pos + |chunk| < |hex| ==> |chunk| == CHUNK_HEX)
      && ChunksFrom(hex, pos) == [chunk] + ChunksFrom(hex, pos + |chunk|)
  {
  }

  lemma NumChunksStep(n: nat)
    requires n > 0
    ensures n <= CHUNK_HEX ==> NumChunks(n) == 1
    ensures n > CHUNK_HEX ==> NumChunks(n) == 1 + NumChunks(n - CHUNK_HEX)
  {
  }

  /** There are `ceil((|hex| - pos) / 1024)` chunks from `pos` on. */
  lemma {:induction false} ChunksFromCount(hex: string, pos: nat)
    requires pos <= |hex|
    ensures |ChunksFrom(hex, pos)| == NumChunks(|hex| - pos)
    decreases |hex| - pos
  {
    if pos < |hex| {
      ChunkHead(hex, pos);
      NumChunksStep(|hex| - pos);
      ChunksFromCount(hex, pos + |PySlice(hex, pos, pos + CHUNK_HEX)|);
    }
  }

  /** Joined in order, the chunks from `pos` on give `hex[pos..]` back. */
  lemma {:induction false} ChunksFromConcat(hex: string, pos: nat)
    requires pos <= |hex|
    ensures Concat(ChunksFrom(hex, pos)) == hex[pos..]
    decreases |hex| - pos
  {
    if pos < |hex| {
      var chunk := PySlice(hex, pos, pos + CHUNK_HEX);
      ChunkHead(hex, pos);
      var e := pos + |chunk|;
      var rest := ChunksFrom(hex, e);
      ChunksFromConcat(hex, e);
      assert ([chunk] + rest)[1..] == rest;
      assert Concat(ChunksFrom(hex, pos)) == chunk + Concat(rest);
      assert hex[pos..] == hex[pos..e] + hex[e..];
    }
  }

  /** Chunk `k` from `pos` is `hex[pos + 1024k .. pos + 1024(k+1)]`, cut at
      the end of the payload; it is non-empty, and full unless it is the
      last. */
  lemma {:induction false} ChunksFromAt(hex: string, pos: nat, k: nat)
    requires pos <= |hex| && k < |ChunksFrom(hex, pos)|
    ensures var c := ChunksFrom(hex, pos)[k];
      && pos + k * CHUNK_HEX < |hex|
      && c == hex[pos + k * CHUNK_HEX..Min(pos + (k + 1) * CHUNK_HEX, |hex|)]
      && 0 < |c| <= CHUNK_HEX
      && (k < |ChunksFrom(hex, pos)| - 1 ==> |c| == CHUNK_HEX)
    decreases |hex| - pos
  {
    var chunk := PySlice(hex, pos, pos + CHUNK_HEX);
    ChunkHead(hex, pos);
    var rest := ChunksFrom(hex, pos + |chunk|);
    if k > 0 {
      ChunksFromAt(hex, pos + |chunk|, k - 1);
      assert ChunksFrom(hex, pos)[k] == rest[k - 1];
    } else if 0 < |ChunksFrom(hex, pos)| - 1 {
      assert rest != [];
    }
  }

  /** Every chunk is non-empty and at most 1024 characters long, all but the
      last are exactly 1024, the chunks are consecutive slices of the payload,
      and joined in order they give the payload back. */
  lemma ChunksShape(hex: string)
    ensures var cs := Chunks(hex);
      && |cs| == NumChunks(|hex|)
      && Concat(cs) == hex
      && (forall k :: 0 <= k < |cs| ==>
            cs[k] == hex[k * CHUNK_HEX..Min((k + 1) * CHUNK_HEX, |hex|)])
      && (forall k :: 0 <= k < |cs| ==> 0 < |cs[k]| <= CHUNK_HEX)
      && (forall k :: 0 <= k < |cs| - 1 ==> |cs[k]| == CHUNK_HEX)
  {
    ChunksFromCount(hex, 0);
    ChunksFromConcat(hex, 0);
    var cs := Chunks(hex);
    forall k | 0 <= k < |cs|
      ensures cs[k] == hex[k * CHUNK_HEX..Min((k + 1) * CHUNK_HEX, |hex|)]
      ensures 0 < |cs[k]| <= CHUNK_HEX
      ensures k < |cs| - 1 ==> |cs[k]| == CHUNK_HEX
    {
      ChunksFromAt(hex, 0, k);
    }
  }

  /** The hex form of one frame (192000 characters) goes out as 188 lines,
      the last one 512 characters long. */
  lemma FrameChunks(hex: string)
    requires |hex| == 192000
    ensures |Chunks(hex)| == 188 && |Chunks(hex)[187]| == 512
  {
    ChunksShape(hex);
    assert NumChunks(192000) == 188;
  }

  // ---------------------------------------------------------------------
  // Acknowledgement window

  /** How one acknowledgement window ends. */
  datatype AckResult = Acked | ErrReply(reply: string) | NoAck

  /** A reading that decides a window: a line containing `OK` or `ERR`. */
  predicate Decisive(r: Reading) {
    r.Heard? && (Contains(r.line, "OK") || Contains(r.line, "ERR"))
  }

  /** The window after one chunk was written, read from reading `i`: a line
      containing `OK` is tested first and acknowledges, otherwise a line
      containing `ERR` aborts, other lines are skipped, and silence (or no
      events left) is a timeout. Returns the result and the position after the
      last event read. */
  function AckWindow(rs: seq<Reading>, i: nat): (r: (AckResult, nat))
    requires i <= |rs|
    ensures i <= r.1 <= |rs|
    decreases |rs| - i
  {
    if i == |rs| then (NoAck, i)
    else match rs[i]
      case Quiet => (NoAck, i + 1)
      case Heard(resp) =>
        if Contains(resp, "OK") then (Acked, i + 1)
        else if Contains(resp, "ERR") then (ErrReply(resp), i + 1)
        else AckWindow(rs, i + 1)
  }

  /** The window's result is decided by the first reading from `i` on that is
      quiet or a deciding line: before it only other lines were read, and
      the window acknowledges exactly when that reading is a line containing
      `OK` (even if it also contains `ERR`); it reports an `ERR` reply
      exactly when that line contains `ERR` and not `OK`; it times out
      exactly when that reading is quiet or there is none. */
  lemma {:induction false} AckWindowDecidedBy(rs: seq<Reading>, i: nat)
    requires i <= |rs|
    ensures var (ack, j) := AckWindow(rs, i);
      && (forall k :: i <= k < j - 1 ==> rs[k].Heard? && !Decisive(rs[k]))
      && (ack.Acked? <==> j > i && rs[j - 1].Heard? && Contains(rs[j - 1].line, "OK"))
      && (ack.ErrReply? <==>
            j > i && rs[j - 1].Heard? && !Contains(rs[j - 1].line, "OK")
            && Contains(rs[j - 1].line, "ERR"))
      && (ack.ErrReply? ==> ack.reply == rs[j - 1].line)
      && (ack.NoAck? <==>
            ((j > i && rs[j - 1].Quiet?) ||
             (j == |rs| && forall k :: i <= k < j ==> rs[k].Heard? && !Decisive(rs[k]))))
    decreases |rs| - i
  {
    if i < |rs| && rs[i].Heard? && !Decisive(rs[i]) {
      AckWindowDecidedBy(rs, i + 1);
    }
  }

  // ---------------------------------------------------------------------
  // The send loop

  /** How the chunk loop ends. */
  datatype SendEnd = AllAcked | DeviceErr(reply: string) | AckTimeout

  /** The end of the chunk loop: how it ended, the final `bytes_sent`, the
      lines written and the position in the readings. */
  datatype LoopEnd = LoopEnd(end: SendEnd, sent: nat, writes: seq<Action>, next: nat)

  /** `while bytes_sent < total_hex_len`: write `hex[bytes_sent:bytes_sent + 1024]`
      and a line feed, wait for the window, and on an acknowledgement advance
      `bytes_sent` by the length of the chunk; any other window result ends the
      loop before a further chunk is written. */
  function ChunkLoop(hex: string, sent: nat, rs: seq<Reading>, i: nat): (r: LoopEnd)
    requires sent <= |hex| && i <= |rs|
    ensures sent <= r.sent <= |hex| && i <= r.next <= |rs|
    decreases |hex| - sent
  {
    if sent >= |hex| then LoopEnd(AllAcked, sent, [], i)
    else
      var chunk := PySlice(hex, sent, sent + CHUNK_HEX);
      var w := Write(chunk + "\n");
      var (ack, j) := AckWindow(rs, i);
      match ack
      case Acked =>
        var r := ChunkLoop(hex, sent + |chunk|, rs, j);
        r.(writes := [w] + r.writes)
      case ErrReply(t) => LoopEnd(DeviceErr(t), sent, [w], j)
      case NoAck => LoopEnd(AckTimeout, sent, [w], j)
  }

  /** What the loop writes are the chunk lines in order, a prefix of them: all
      of them when every chunk was acknowledged, otherwise at least one, the
      last being the chunk left unacknowledged. */
  lemma {:induction false} ChunkLoopWrites(hex: string, sent: nat, rs: seq<Reading>, i: nat)
    requires sent <= |hex| && i <= |rs|
    ensures var r := ChunkLoop(hex, sent, rs, i);
      var cs := ChunksFrom(hex, sent);
      && |r.writes| <= |cs|
      && (forall k :: 0 <= k < |r.writes| ==> r.writes[k] == Write(cs[k] + "\n"))
      && (r.end.AllAcked? ==> |r.writes| == |cs|)
      && (!r.end.AllAcked? ==> 1 <= |r.writes|)
    decreases |hex| - sent
  {
    if sent < |hex| {
      var chunk := PySlice(hex, sent, sent + CHUNK_HEX);
      ChunkHead(hex, sent);
      var (ack, j) := AckWindow(rs, i);
      if ack.Acked? {
        ChunkLoopWrites(hex, sent + |chunk|, rs, j);
      }
    }
  }

  /** `bytes_sent` reaches the payload length exactly when the loop ran to
      completion; otherwise it stopped below it, having advanced by 1024 for
      every acknowledged chunk, which are all the lines written but the
      last. */
  lemma {:induction false} ChunkLoopSent(hex: string, sent: nat, rs: seq<Reading>, i: nat)
    requires sent <= |hex| && i <= |rs|
    ensures var r := ChunkLoop(hex, sent, rs, i);
      && (r.end.AllAcked? ==> r.sent == |hex|)
      && (!r.end.AllAcked? ==> r.sent < |hex| && r.sent == sent + (|r.writes| - 1) * CHUNK_HEX)
    decreases |hex| - sent
  {
    if sent < |hex| {
      var chunk := PySlice(hex, sent, sent + CHUNK_HEX);
      ChunkHead(hex, sent);
      var (ack, j) := AckWindow(rs, i);
      if ack.Acked? {
        var t := ChunkLoop(hex, sent + |chunk|, rs, j);
        assert ChunkLoop(hex, sent, rs, i) == t.(writes := [Write(chunk + "\n")] + t.writes);
        ChunkLoopSent(hex, sent + |chunk|, rs, j);
      }
    }
  }

  /** The loop from the start of the payload: `bytes_sent` equals the payload
      length exactly when every chunk was acknowledged, and then every chunk
      line was written. Otherwise the window after the last line written
      read an `ERR` line or timed out, every earlier window acknowledged its
      chunk, `bytes_sent` is 1024 for each of those, and no further chunk
      follows the unacknowledged one. */
  lemma ChunkLoopOutcome(hex: string, rs: seq<Reading>, i: nat)
    requires i <= |rs|
    ensures var r := ChunkLoop(hex, 0, rs, i);
      var cs := Chunks(hex);
      var n := |r.writes|;
      && (r.end.AllAcked? <==> r.sent == |hex|)
      && (r.end.AllAcked? ==> n == |cs|)
      && (forall k :: 0 <= k < n ==> k < |cs| && r.writes[k] == Write(cs[k] + "\n"))
      && (forall m :: 0 <= m < n && (m < n - 1 || r.end.AllAcked?) ==> AckReply(rs, i, m).Acked?)
      && (!r.end.AllAcked? ==>
            && 1 <= n <= |cs| && r.sent == (n - 1) * CHUNK_HEX
            && (r.end.DeviceErr? <==> AckReply(rs, i, n - 1).ErrReply?)
            && (r.end.AckTimeout? <==> AckReply(rs, i, n - 1).NoAck?))
      && r.next == AckStart(rs, i, n)
  {
    ChunkLoopWrites(hex, 0, rs, i);
    ChunkLoopSent(hex, 0, rs, i);
    ChunkLoopByWindows(hex, 0, rs, i);
  }

  /** Where the `m`-th acknowledgement window from event `i` starts: each
      window starts at the event after the one that ended the window
      before. */
  function AckStart(rs: seq<Reading>, i: nat, m: nat): (w: nat)
    requires i <= |rs|
    ensures i <= w <= |rs|
  {
    if m == 0 then i else AckWindow(rs, AckStart(rs, i, m - 1)).1
  }

  /** How the `m`-th acknowledgement window from event `i` ends. */
  function AckReply(rs: seq<Reading>, i: nat, m: nat): AckResult
    requires i <= |rs|
  {
    AckWindow(rs, AckStart(rs, i, m)).0
  }

  /** Counting windows from the end of the first is counting them from its
      start, one fewer. */
  lemma {:induction false} AckShift(rs: seq<Reading>, i: nat, m: nat)
    requires i <= |rs|
    ensures AckStart(rs, AckWindow(rs, i).1, m) == AckStart(rs, i, m + 1)
  {
    if m > 0 {
      AckShift(rs, i, m - 1);
    }
  }

  /** A loop result agrees with the acknowledgement windows from event `i`:
      every window but the last one watched acknowledged its chunk, and so
      did the last when the loop ran to completion; the loop ended on a
      device error (carrying the line) or a timeout exactly when the last
      window did, and it stopped reading where the last window ended. */
  predicate WindowsAgree(r: LoopEnd, rs: seq<Reading>, i: nat)
    requires i <= |rs|
  {
    var n := |r.writes|;
    && (forall m :: 0 <= m < n && (m < n - 1 || r.end.AllAcked?) ==> AckReply(rs, i, m).Acked?)
    && (r.end.DeviceErr? <==> n >= 1 && AckReply(rs, i, n - 1).ErrReply?)
    && (r.end.DeviceErr? ==> r.end.reply == AckReply(rs, i, n - 1).reply)
    && (r.end.AckTimeout? <==> n >= 1 && AckReply(rs, i, n - 1).NoAck?)
    && r.next == AckStart(rs, i, n)
  }

  /** Prefixing a line whose window acknowledged keeps the agreement, counted
      from the start of that window. */
  lemma WindowsAgreeStep(t: LoopEnd, rs: seq<Reading>, i: nat, w: Action)
    requires i <= |rs| && AckWindow(rs, i).0.Acked?
    requires WindowsAgree(t, rs, AckWindow(rs, i).1)
    ensures WindowsAgree(t.(writes := [w] + t.writes), rs, i)
  {
    var j := AckWindow(rs, i).1;
    var r := t.(writes := [w] + t.writes);
    assert AckReply(rs, i, 0).Acked?;
    forall m | 0 <= m
      ensures AckReply(rs, j, m) == AckReply(rs, i, m + 1)
    {
      AckShift(rs, i, m);
    }
    AckShift(rs, i, |t.writes|);
    forall m | 0 <= m < |r.writes| && (m < |r.writes| - 1 || r.end.AllAcked?)
      ensures AckReply(rs, i, m).Acked?
    {
      if m > 0 {
        assert AckReply(rs, j, m - 1) == AckReply(rs, i, m);
      }
    }
  }

  /** Every run of the loop agrees with the windows it watched. */
  lemma {:induction false} LoopWindows(hex: string, sent: nat, rs: seq<Reading>, i: nat)
    requires sent <= |hex| && i <= |rs|
    ensures WindowsAgree(ChunkLoop(hex, sent, rs, i), rs, i)
    decreases |hex| - sent
  {
    if sent < |hex| {
      var chunk := PySlice(hex, sent, sent + CHUNK_HEX);
      ChunkHead(hex, sent);
      var (ack, j) := AckWindow(rs, i);
      assert AckReply(rs, i, 0) == ack;
      assert AckStart(rs, i, 1) == j;
      if ack.Acked? {
        var t := ChunkLoop(hex, sent + |chunk|, rs, j);
        assert ChunkLoop(hex, sent, rs, i) == t.(writes := [Write(chunk + "\n")] + t.writes);
        LoopWindows(hex, sent + |chunk|, rs, j);
        WindowsAgreeStep(t, rs, i, Write(chunk + "\n"));
      }
    }
  }

  /** The loop, read window by window: the `m`-th line written is followed by
      the `m`-th acknowledgement window. Every window but the last one
      watched acknowledged its chunk, and so did the last when the loop ran
      to completion; the loop ends on a device error exactly when the last
      window read an `ERR` line (and carries that line), and on a timeout
      exactly when the last window timed out. It stops reading where the
      last window ended. */
  lemma ChunkLoopByWindows(hex: string, sent: nat, rs: seq<Reading>, i: nat)
    requires sent <= |hex| && i <= |rs|
    ensures var r := ChunkLoop(hex, sent, rs, i);
      var n := |r.writes|;
      && (forall m :: 0 <= m < n && (m < n - 1 || r.end.AllAcked?) ==> AckReply(rs, i, m).Acked?)
      && (r.end.DeviceErr? <==> n >= 1 && AckReply(rs, i, n - 1).ErrReply?)
      && (r.end.DeviceErr? ==> r.end.reply == AckReply(rs, i, n - 1).reply)
      && (r.end.AckTimeout? <==> n >= 1 && AckReply(rs, i, n - 1).NoAck?)
      && r.next == AckStart(rs, i, n)
  {
    LoopWindows(hex, sent, rs, i);
  }

  /** The loop from the start of the payload runs to completion exactly when
      each of the windows after the chunk lines acknowledged its chunk, and
      it then stops reading where the last of those windows ended. */
  lemma ChunkLoopAllAcked(hex: string, rs: seq<Reading>, i: nat)
    requires i <= |rs|
    ensures var r := ChunkLoop(hex, 0, rs, i);
      var cs := Chunks(hex);
      && (r.end.AllAcked? <==> forall m :: 0 <= m < |cs| ==> AckReply(rs, i, m).Acked?)
      && (r.end.AllAcked? ==> r.next == AckStart(rs, i, |cs|))
  {
    ChunkLoopOutcome(hex, rs, i);
    var r := ChunkLoop(hex, 0, rs, i);
    if !r.end.AllAcked? {
      assert !AckReply(rs, i, |r.writes| - 1).Acked?;
    }
  }

  /** After the loop from the start of the payload, the wait for `DONE`
      finds it exactly when every chunk was acknowledged and some line after
      the last window contains `DONE`; it waits for ever exactly when every
      chunk was acknowledged and no such line follows. */
  lemma ChunkLoopThenDone(hex: string, rs: seq<Reading>, i: nat)
    requires i <= |rs|
    ensures var r := ChunkLoop(hex, 0, rs, i);
      var cs := Chunks(hex);
      var acked := forall m :: 0 <= m < |cs| ==> AckReply(rs, i, m).Acked?;
      var last := AckStart(rs, i, |cs|);
      var done := LineWith(rs, r.next, "DONE");
      && (r.end.AllAcked? && done.Some? <==>
            acked && exists k :: last <= k < |rs| && HasWord(rs[k], "DONE"))
      && (r.end.AllAcked? && done.None? <==>
            acked && forall k :: last <= k < |rs| ==> !HasWord(rs[k], "DONE"))
  {
    var r := ChunkLoop(hex, 0, rs, i);
    ChunkLoopAllAcked(hex, rs, i);
    LineWithFirst(rs, r.next, "DONE");
    var done := LineWith(rs, r.next, "DONE");
    if done.Some? {
      assert r.next <= done.value - 1 < |rs| && HasWord(rs[done.value - 1], "DONE");
    }
  }

  /** An acknowledged chunk: its line, then the loop from the next
      chunk. */
  lemma ChunkLoopStep(hex: string, sent: nat, rs: seq<Reading>, i: nat)
    requires sent < |hex| && i <= |rs| && AckWindow(rs, i).0.Acked?
    ensures var chunk := PySlice(hex, sent, sent + CHUNK_HEX);
      && sent + |chunk| <= |hex|
      && var t := ChunkLoop(hex, sent + |chunk|, rs, AckWindow(rs, i).1);
         ChunkLoop(hex, sent, rs, i) == t.(writes := [Write(chunk + "\n")] + t.writes)
  {
  }

  /** A chunk left unacknowledged ends the loop after its line. */
  lemma ChunkLoopStops(hex: string, sent: nat, rs: seq<Reading>, i: nat)
    requires sent < |hex| && i <= |rs| && !AckWindow(rs, i).0.Acked?
    ensures var (ack, j) := AckWindow(rs, i);
      var chunk := PySlice(hex, sent, sent + CHUNK_HEX);
      var end := if ack.ErrReply? then DeviceErr(ack.reply) else AckTimeout;
      ChunkLoop(hex, sent, rs, i) == LoopEnd(end, sent, [Write(chunk + "\n")], j)
  {
  }

  /** Moving one chunk line from the rest of the loop to the lines already
      written. */
  lemma RebaseWrites(whole: LoopEnd, r: LoopEnd, t: LoopEnd, taken: seq<Action>, step: seq<Action>)
    requires whole == r.(writes := taken + r.writes)
    requires r == t.(writes := step + t.writes)
    ensures whole == t.(writes := (taken + step) + t.writes)
  {
    assert taken + (step + t.writes) == (taken + step) + t.writes;
  }

  /** The acknowledgement polling after one chunk: reads lines until one
      contains `OK` or `ERR`, or the window ends. */
  method AwaitAck(events: seq<Event>, start: nat) returns (ack: AckResult, next: nat)
    requires start <= |events|
    ensures (ack, next) == AckWindow(Readings(events), start)
  {
    ghost var rs := Readings(events);
    next := start;
    while next < |events|
      invariant start <= next <= |events|
      invariant AckWindow(rs, start) == AckWindow(rs, next)
      decreases |events| - next
    {
      var e := events[next];
      assert rs[next] == Read(e);
      next := next + 1;
      if e.Silence? {
        return NoAck, next;
      }
      var resp := Strip(e.raw);
      if Contains(resp, "OK") {
        return Acked, next;
      } else if Contains(resp, "ERR") {
        return ErrReply(resp), next;
      }
    }
    ack := NoAck;
  }

  /** The send loop of `send_image_to_pico`. */
  method SendChunks(hex: string, events: seq<Event>, start: nat)
    returns (end: SendEnd, bytesSent: nat, writes: seq<Action>, next: nat)
    requires start <= |events|
    ensures LoopEnd(end, bytesSent, writes, next) == ChunkLoop(hex, 0, Readings(events), start)
  {
    ghost var rs := Readings(events);
    ghost var whole := ChunkLoop(hex, 0, rs, start);
    bytesSent, writes, next := 0, [], start;
    var totalHexLen := |hex|;
    while bytesSent < totalHexLen
      invariant bytesSent <= |hex| && start <= next <= |events|
      invariant var r := ChunkLoop(hex, bytesSent, rs, next);
        whole == r.(writes := writes + r.writes)
      decreases |hex| - bytesSent
    {
      var chunk := PySlice(hex, bytesSent, bytesSent + CHUNK_HEX);
      var w := Write(chunk + "\n");
      ghost var i := next;
      var ack;
      ack, next := AwaitAck(events, next);
      if !ack.Acked? {
        ChunkLoopStops(hex, bytesSent, rs, i);
        assert whole.writes == writes + [w];
        end := if ack.ErrReply? then DeviceErr(ack.reply) else AckTimeout;
        return end, bytesSent, writes + [w], next;
      }
      ChunkLoopStep(hex, bytesSent, rs, i);
      RebaseWrites(whole, ChunkLoop(hex, bytesSent, rs, i),
        ChunkLoop(hex, bytesSent + |chunk|, rs, next), writes, [w]);
      writes := writes + [w];
      bytesSent := bytesSent + |chunk|;
    }
    end := AllAcked;
  }

  // ---------------------------------------------------------------------
  // Waiting for a line containing a word

  /** The unbounded polling loops (`while True`) that wait for a line
      containing `word` (`READY`, `DONE`), skipping everything else: the
      position after that line, or `None` when no such line ever comes and
      the host waits for ever. */
  function LineWith(rs: seq<Reading>, i: nat, word: string): (r: Option<nat>)
    requires i <= |rs|
    ensures r.Some? ==> i < r.value <= |rs|
    decreases |rs| - i
  {
    if i == |rs| then None
    else if HasWord(rs[i], word) then Some(i + 1)
    else LineWith(rs, i + 1, word)
  }

  predicate HasWord(r: Reading, word: string) {
    r.Heard? && Contains(r.line, word)
  }

  /** `LineWith` finds the first line containing the word, and finds nothing
      exactly when there is no such line. */
  lemma {:induction false} LineWithFirst(rs: seq<Reading>, i: nat, word: string)
    requires i <= |rs|
    ensures var r := LineWith(rs, i, word);
      && (r.Some? ==>
            (&& HasWord(rs[r.value - 1], word)
             && forall k :: i <= k < r.value - 1 ==> !HasWord(rs[k], word)))
      && (r.None? <==> forall k :: i <= k < |rs| ==> !HasWord(rs[k], word))
    decreases |rs| - i
  {
    if i < |rs| {
      LineWithFirst(rs, i + 1, word);
    }
  }

  method AwaitLine(events: seq<Event>, start: nat, word: string) returns (found: Option<nat>)
    requires start <= |events|
    ensures found == LineWith(Readings(events), start, word)
  {
    ghost var rs := Readings(events);
    var i := start;
    while i < |events|
      invariant start <= i <= |events|
      invariant LineWith(rs, start, word) == LineWith(rs, i, word)
      decreases |events| - i
    {
      var e := events[i];
      assert rs[i] == Read(e);
      i := i + 1;
      if e.Line? {
        var line := Strip(e.raw);
        if Contains(line, word) {
          return Some(i);
        }
      }
    }
    found := None;
  }
}
