/** `server/send_image.py`: the host script that packs four levels per byte
    in reversed order (the first pixel of a group in the two low bits), asks
    the device for permission with `CAN_SEND` before sending, and then sends
    the frame as hex lines, one acknowledgement per line. */
module SendImage {
  import opened Text
  import opened Hex
  import opened Pixels
  import opened Link

  const SEND_QUERY: string := "CAN_SEND"
  const SEND_OK: string := "YES"
  const SEND_BUSY: string := "BUSY"
  const SEND_ERR_PREFIX: string := "ERR"
  /** The default `max_attempts` of `request_send_permission`. */
  const MAX_ATTEMPTS: nat := 5

  // ---------------------------------------------------------------------
  // Frame codec

  /** `(p3 << 6) | (p2 << 4) | (p1 << 2) | p0` on int64 lanes, then
      `astype(np.uint8)`: level `j` of the group lands in bits `2j` and
      `2j + 1`, so the first pixel takes the two low bits. */
  function PackReversed(p: Group): (b: byte)
    ensures Field(b, 0) == p[0] && Field(b, 2) == p[1]
    ensures Field(b, 4) == p[2] && Field(b, 6) == p[3]
  {
    ToUint8((Lane(p[3]) << 6) | (Lane(p[2]) << 4) | (Lane(p[1]) << 2) | Lane(p[0]))
  }

  /** Reads the group back out of a byte packed in reversed order. */
  function UnpackReversed(b: byte): Group {
    [Field(b, 0), Field(b, 2), Field(b, 4), Field(b, 6)]
  }

  /** Unpacking recovers every group. */
  lemma UnpackPackReversed(p: Group)
    ensures UnpackReversed(PackReversed(p)) == p
  {
    var b := PackReversed(p);
    assert UnpackReversed(b)[0] == p[0] && UnpackReversed(b)[1] == p[1];
    assert UnpackReversed(b)[2] == p[2] && UnpackReversed(b)[3] == p[3];
  }

  /** Packing recovers every byte: groups of four levels and bytes are in
      one-to-one correspondence under this bit order. */
  lemma PackUnpackReversed(b: byte)
    ensures PackReversed(UnpackReversed(b)) == b
  {
  }

  /** `process_image` from the resized raster on: `raw_data` holds a quarter
      byte per sample. */
  function ProcessImage(img: seq<seq<byte>>): (raw: seq<byte>)
    requires Rows(img)
    ensures |raw| == |img| * (WIDTH / 4)
  {
    var ls := Levels(img);
    assert |ls| == 4 * (|img| * (WIDTH / 4));
    PackGroups(ls, PackReversed)
  }

  /** Unpacking `raw_data` in this bit order gives back the quantized raster,
      level by level in row-major order. */
  lemma UnpackProcessImage(img: seq<seq<byte>>)
    requires Rows(img)
    ensures UnpackGroups(ProcessImage(img), UnpackReversed) == Levels(img)
  {
    forall p: Group ensures UnpackReversed(PackReversed(p)) == p {
      UnpackPackReversed(p);
    }
    var ls := Levels(img);
    assert |ls| == 4 * (|img| * (WIDTH / 4));
    UnpackPackGroups(ls, PackReversed, UnpackReversed);
  }

  /** Byte `r * 200 + q` of `raw_data` carries samples `4q` to `4q + 3` of
      row `r`, each quantized, the first in the two low bits. */
  lemma ProcessImagePixels(img: seq<seq<byte>>, r: nat, q: nat)
    requires Rows(img) && r < |img| && q < WIDTH / 4
    ensures var b := ProcessImage(img)[r * (WIDTH / 4) + q];
      && Field(b, 0) == Quantize(img[r][4 * q])
      && Field(b, 2) == Quantize(img[r][4 * q + 1])
      && Field(b, 4) == Quantize(img[r][4 * q + 2])
      && Field(b, 6) == Quantize(img[r][4 * q + 3])
  {
    GroupLevels(img, r, q);
    assert ProcessImage(img)[r * (WIDTH / 4) + q] == PackReversed(GroupAt(Levels(img), r * (WIDTH / 4) + q));
  }

  /** The size check rejects a raster exactly when it does not have HEIGHT
      rows; in particular it never rejects an 800 x 480 raster. */
  lemma SizeCheck(img: seq<seq<byte>>)
    requires Rows(img)
    ensures |ProcessImage(img)| == EXPECTED_SIZE <==> |img| == HEIGHT
  {
  }

  // ---------------------------------------------------------------------
  // Handshake

  /** How one attempt's window ends. */
  datatype QueryReply = Yes | Busy | Refused(line: string) | NoReply

  /** A line the handshake reacts to once stripped: `YES`, `BUSY` or a line
      starting with `ERR`. */
  predicate Settles(line: string) {
    line == SEND_OK || line == SEND_BUSY || StartsWith(line, SEND_ERR_PREFIX)
  }

  /** The polling loop of one attempt, from event `i`: `YES` grants,
      `BUSY` ends the attempt, a line starting with `ERR` refuses, other lines
      are ignored and silence ends the window. */
  function QueryWindow(rs: seq<Reading>, i: nat): (r: (QueryReply, nat))
    requires i <= |rs|
    ensures i <= r.1 <= |rs|
    decreases |rs| - i
  {
    if i == |rs| then (NoReply, i)
    else match rs[i]
      case Quiet => (NoReply, i + 1)
      case Heard(line) =>
        if line == SEND_OK then (Yes, i + 1)
        else if line == SEND_BUSY then (Busy, i + 1)
        else if StartsWith(line, SEND_ERR_PREFIX) then (Refused(line), i + 1)
        else QueryWindow(rs, i + 1)
  }

  /** The window reads non-reacting lines until the first event that is
      silence or a reacting line, and its reply is that line's meaning. */
  lemma {:induction false} QueryWindowDecidedBy(rs: seq<Reading>, i: nat)
    requires i <= |rs|
    ensures var (reply, j) := QueryWindow(rs, i);
      && (forall k :: i <= k < j - 1 ==> rs[k].Heard? && !Settles(rs[k].line))
      && (reply.Yes? <==> j > i && rs[j - 1].Heard? && rs[j - 1].line == SEND_OK)
      && (reply.Busy? <==> j > i && rs[j - 1].Heard? && rs[j - 1].line == SEND_BUSY)
      && (reply.Refused? <==>
            j > i && rs[j - 1].Heard? && StartsWith(rs[j - 1].line, SEND_ERR_PREFIX)
            && rs[j - 1].line != SEND_OK && rs[j - 1].line != SEND_BUSY)
      && (reply.Refused? ==> reply.line == rs[j - 1].line)
      && (reply.NoReply? ==> j == |rs| || rs[j - 1].Quiet?)
    decreases |rs| - i
  {
    if i < |rs| && rs[i].Heard? && !Settles(rs[i].line) {
      QueryWindowDecidedBy(rs, i + 1);
    }
  }

  /** The result of the handshake: whether permission was granted, what was
      written (and slept) and the position in the readings. */
  datatype Permission = Permission(granted: bool, actions: seq<Action>, next: nat)

  /** `for attempt in range(max_attempts)` from `attempt` on: write
      `CAN_SEND`, watch one window, and after a `BUSY` or an empty window
      sleep before the next attempt unless it was the last. */
  function Handshake(rs: seq<Reading>, i: nat, attempt: nat, max: nat): (r: Permission)
    requires i <= |rs|
    ensures i <= r.next <= |rs|
    decreases max - attempt
  {
    if attempt >= max then Permission(false, [], i)
    else
      var w := Write(SEND_QUERY + "\n");
      var (reply, j) := QueryWindow(rs, i);
      match reply
      case Yes => Permission(true, [w], j)
      case Refused(_) => Permission(false, [w], j)
      case _ =>
        var pause := if attempt < max - 1 then [Backoff] else [];
        var r := Handshake(rs, j, attempt + 1, max);
        r.(actions := [w] + pause + r.actions)
  }

  /** `n` attempts as written to the link: `CAN_SEND`, then a backoff and
      `CAN_SEND` again for every further attempt. */
  function QueryLog(n: nat): seq<Action> {
    if n == 0 then []
    else if n == 1 then [Write(SEND_QUERY + "\n")]
    else [Write(SEND_QUERY + "\n"), Backoff] + QueryLog(n - 1)
  }

  predicate IsYes(r: Reading) {
    r.Heard? && r.line == SEND_OK
  }

  /** A reading that `request_send_permission` takes as the device's
      refusal: a line starting with `ERR`. */
  predicate IsErr(r: Reading) {
    r.Heard? && StartsWith(r.line, SEND_ERR_PREFIX)
  }

  /** A line starting with `ERR` is neither `YES` nor `BUSY`. */
  lemma ErrIsNeither(r: Reading)
    requires IsErr(r)
    ensures r.line != SEND_OK && r.line != SEND_BUSY
  {
    assert r.line[0] == 'E';
  }

  /** The number of attempts the handshake makes from `attempt` on. */
  function Attempts(rs: seq<Reading>, i: nat, attempt: nat, max: nat): nat
    requires i <= |rs|
    decreases max - attempt
  {
    if attempt >= max then 0
    else
      var (reply, j) := QueryWindow(rs, i);
      if reply.Yes? || reply.Refused? then 1 else 1 + Attempts(rs, j, attempt + 1, max)
  }

  /** What the handshake writes is `n` queries, one per attempt, with one
      backoff between consecutive queries and none after the last; at least
      one attempt is made when any is left, and at most all that are left. */
  lemma {:induction false} HandshakeLog(rs: seq<Reading>, i: nat, attempt: nat, max: nat)
    requires i <= |rs| && attempt <= max
    ensures var n := Attempts(rs, i, attempt, max);
      && Handshake(rs, i, attempt, max).actions == QueryLog(n)
      && attempt + n <= max
      && (attempt < max ==> n >= 1)
    decreases max - attempt
  {
    if attempt < max {
      var (reply, j) := QueryWindow(rs, i);
      if !(reply.Yes? || reply.Refused?) {
        HandshakeLog(rs, j, attempt + 1, max);
        var m := Attempts(rs, j, attempt + 1, max);
        if attempt < max - 1 {
          assert QueryLog(m + 1) == [Write(SEND_QUERY + "\n"), Backoff] + QueryLog(m);
        }
      }
    }
  }

  /** Permission is granted exactly when the handshake read a `YES` line:
      the last event it read is that line and none before it was. */
  lemma {:induction false} HandshakeGrant(rs: seq<Reading>, i: nat, attempt: nat, max: nat)
    requires i <= |rs|
    ensures var r := Handshake(rs, i, attempt, max);
      && (forall k :: i <= k < r.next - 1 ==> !IsYes(rs[k]))
      && (r.granted <==> r.next > i && IsYes(rs[r.next - 1]))
    decreases max - attempt
  {
    var r := Handshake(rs, i, attempt, max);
    if attempt < max {
      var (reply, j) := QueryWindow(rs, i);
      QueryWindowDecidedBy(rs, i);
      forall k | i <= k < j - 1
        ensures !IsYes(rs[k])
      {
        assert !Settles(rs[k].line);
      }
      if !(reply.Yes? || reply.Refused?) {
        HandshakeGrant(rs, j, attempt + 1, max);
        if j > i {
          assert !IsYes(rs[j - 1]);
        }
      }
    }
  }

  /** Where the handshake's `m`-th window from event `i` starts: each window
      starts at the event after the one that ended the window before. */
  function WindowStart(rs: seq<Reading>, i: nat, m: nat): (w: nat)
    requires i <= |rs|
    ensures i <= w <= |rs|
  {
    if m == 0 then i else QueryWindow(rs, WindowStart(rs, i, m - 1)).1
  }

  /** How the `m`-th window from event `i` ends. */
  function WindowReply(rs: seq<Reading>, i: nat, m: nat): QueryReply
    requires i <= |rs|
  {
    QueryWindow(rs, WindowStart(rs, i, m)).0
  }

  /** Counting windows from the end of the first is counting them from its
      start, one fewer. */
  lemma {:induction false} WindowShift(rs: seq<Reading>, i: nat, m: nat)
    requires i <= |rs|
    ensures WindowStart(rs, QueryWindow(rs, i).1, m) == WindowStart(rs, i, m + 1)
  {
    if m > 0 {
      WindowShift(rs, i, m - 1);
    }
  }

  /** The attempts, read window by window: with attempts left, the handshake
      makes `n` of them, where every window before the `n`-th ended in
      `BUSY` or silence and the `n`-th granted, refused or was the last one
      allowed; it stops reading where the `n`-th window ended, and it is
      granted exactly when that window read `YES`. */
  lemma {:induction false} AttemptsByWindows(rs: seq<Reading>, i: nat, attempt: nat, max: nat)
    requires i <= |rs| && attempt < max
    ensures var n := Attempts(rs, i, attempt, max);
      var r := Handshake(rs, i, attempt, max);
      && 1 <= n <= max - attempt
      && (forall m :: 0 <= m < n - 1 ==> !WindowReply(rs, i, m).Yes? && !WindowReply(rs, i, m).Refused?)
      && (WindowReply(rs, i, n - 1).Yes? || WindowReply(rs, i, n - 1).Refused? || n == max - attempt)
      && r.next == WindowStart(rs, i, n)
      && (r.granted <==> WindowReply(rs, i, n - 1).Yes?)
    decreases max - attempt
  {
    var (reply, j) := QueryWindow(rs, i);
    if !(reply.Yes? || reply.Refused?) && attempt + 1 < max {
      AttemptsByWindows(rs, j, attempt + 1, max);
      var n := Attempts(rs, j, attempt + 1, max);
      forall m | 0 <= m <= n
        ensures WindowStart(rs, j, m) == WindowStart(rs, i, m + 1)
      {
        WindowShift(rs, i, m);
      }
      forall m | 0 <= m < n
        ensures !WindowReply(rs, i, m).Yes? && !WindowReply(rs, i, m).Refused?
      {
        if m > 0 {
          assert WindowReply(rs, i, m) == WindowReply(rs, j, m - 1);
        }
      }
      assert WindowReply(rs, i, n) == WindowReply(rs, j, n - 1);
    }
  }

  /** A line starting with `ERR` ends the handshake in whichever attempt it
      arrives: no event before the last one read is such a line, and when
      the last one is, permission is refused. Conversely, stopping before the
      last attempt without permission means such a line was the last event
      read. */
  lemma {:induction false} HandshakeRefusal(rs: seq<Reading>, i: nat, attempt: nat, max: nat)
    requires i <= |rs|
    ensures var r := Handshake(rs, i, attempt, max);
      && (forall k :: i <= k < r.next - 1 ==> !IsErr(rs[k]))
      && (r.next > i && IsErr(rs[r.next - 1]) ==> !r.granted)
      && (!r.granted && attempt + Attempts(rs, i, attempt, max) < max ==>
            r.next > i && rs[r.next - 1].Heard?
            && StartsWith(rs[r.next - 1].line, SEND_ERR_PREFIX))
    decreases max - attempt
  {
    var r := Handshake(rs, i, attempt, max);
    if attempt < max {
      var (reply, j) := QueryWindow(rs, i);
      QueryWindowDecidedBy(rs, i);
      forall k | i <= k < j - 1
        ensures !IsErr(rs[k])
      {
        assert !Settles(rs[k].line);
      }
      if !(reply.Yes? || reply.Refused?) {
        HandshakeRefusal(rs, j, attempt + 1, max);
        if j > i && IsErr(rs[j - 1]) {
          ErrIsNeither(rs[j - 1]);
        }
      }
      if r.next > i && IsErr(rs[r.next - 1]) {
        ErrIsNeither(rs[r.next - 1]);
      }
    }
  }

  /** The polling loop of one attempt: reads lines until `YES`, `BUSY`, a
      line starting with `ERR`, or the end of the window. */
  method PollReply(events: seq<Event>, start: nat) returns (reply: QueryReply, next: nat)
    requires start <= |events|
    ensures (reply, next) == QueryWindow(Readings(events), start)
  {
    ghost var rs := Readings(events);
    next := start;
    while next < |events|
      invariant start <= next <= |events|
      invariant QueryWindow(rs, start) == QueryWindow(rs, next)
      decreases |events| - next
    {
      var e := events[next];
      assert rs[next] == Read(e);
      next := next + 1;
      if e.Silence? {
        return NoReply, next;
      }
      var line := Strip(e.raw);
      if line == SEND_OK {
        return Yes, next;
      }
      if line == SEND_BUSY {
        return Busy, next;
      }
      if StartsWith(line, SEND_ERR_PREFIX) {
        return Refused(line), next;
      }
    }
    reply := NoReply;
  }

  /** One attempt that neither granted nor refused: the query, the backoff
      unless it was the last attempt, then the remaining attempts. */
  lemma HandshakeStep(rs: seq<Reading>, i: nat, attempt: nat, max: nat)
    requires i <= |rs| && attempt < max
    requires var reply := QueryWindow(rs, i).0; !reply.Yes? && !reply.Refused?
    ensures var t := Handshake(rs, QueryWindow(rs, i).1, attempt + 1, max);
      var pause := if attempt < max - 1 then [Backoff] else [];
      Handshake(rs, i, attempt, max) == t.(actions := [Write(SEND_QUERY + "\n")] + pause + t.actions)
  {
  }

  /** An attempt that granted or refused ends the handshake after its
      query. */
  lemma HandshakeDecided(rs: seq<Reading>, i: nat, attempt: nat, max: nat)
    requires i <= |rs| && attempt < max
    requires var reply := QueryWindow(rs, i).0; reply.Yes? || reply.Refused?
    ensures Handshake(rs, i, attempt, max) ==
      Permission(QueryWindow(rs, i).0.Yes?, [Write(SEND_QUERY + "\n")], QueryWindow(rs, i).1)
  {
  }

  /** Moving the actions of one attempt from the remaining handshake to those
      already taken. */
  lemma Rebase(whole: Permission, r: Permission, t: Permission, taken: seq<Action>, step: seq<Action>)
    requires whole == r.(actions := taken + r.actions)
    requires r == t.(actions := step + t.actions)
    ensures whole == t.(actions := (taken + step) + t.actions)
  {
    assert taken + (step + t.actions) == (taken + step) + t.actions;
  }

  /** `request_send_permission(ser)`: up to `maxAttempts` queries, each
      watched by one window, with a backoff between attempts. */
  method RequestSendPermission(events: seq<Event>, start: nat, maxAttempts: nat)
    returns (granted: bool, actions: seq<Action>, next: nat)
    requires start <= |events|
    ensures Permission(granted, actions, next) == Handshake(Readings(events), start, 0, maxAttempts)
  {
    ghost var rs := Readings(events);
    ghost var whole := Handshake(rs, start, 0, maxAttempts);
    actions, next := [], start;
    for attempt := 0 to maxAttempts
      invariant start <= next <= |events|
      invariant var r := Handshake(rs, next, attempt, maxAttempts);
        whole == r.(actions := actions + r.actions)
    {
      var w := Write(SEND_QUERY + "\n");
      ghost var i := next;
      var reply;
      reply, next := PollReply(events, next);
      if reply.Yes? || reply.Refused? {
        HandshakeDecided(rs, i, attempt, maxAttempts);
        assert whole.actions == actions + [w];
        return reply.Yes?, actions + [w], next;
      }
      var pause := if attempt < maxAttempts - 1 then [Backoff] else [];
      HandshakeStep(rs, i, attempt, maxAttempts);
      Rebase(whole, Handshake(rs, i, attempt, maxAttempts), Handshake(rs, next, attempt + 1, maxAttempts),
        actions, [w] + pause);
      actions := actions + ([w] + pause);
    }
    granted := false;
  }

  // ---------------------------------------------------------------------
  // The whole transfer

  /** How `send_image_to_pico` ends: a size error, the handshake not granted,
      an `ERR` reply to a chunk, an acknowledgement timeout, `DONE` read, or
      still polling for `DONE` when the device falls silent for good. */
  datatype Outcome =
    | SizeError(size: nat)
    | NotPermitted
    | DeviceError(reply: string)
    | AckTimedOut
    | Success
    | AwaitingDone

  datatype Run = Run(outcome: Outcome, actions: seq<Action>)

  /** `send_image_to_pico` on a resized raster and what the device says. */
  function Transfer(img: seq<seq<byte>>, rs: seq<Reading>): (r: Run)
    requires Rows(img)
  {
    var raw := ProcessImage(img);
    if |raw| != EXPECTED_SIZE then Run(SizeError(|raw|), [])
    else
      var h := Handshake(rs, 0, 0, MAX_ATTEMPTS);
      if !h.granted then Run(NotPermitted, h.actions)
      else
        var l := ChunkLoop(Hexlify(raw), 0, rs, h.next);
        var actions := h.actions + l.writes;
        match l.end
        case DeviceErr(t) => Run(DeviceError(t), actions)
        case AckTimeout => Run(AckTimedOut, actions)
        case AllAcked =>
          if LineWith(rs, l.next, "DONE").Some? then Run(Success, actions)
          else Run(AwaitingDone, actions)
  }

  /** A run writes nothing when the size check fails, which happens exactly
      when the raster does not have HEIGHT rows. Otherwise it starts with the
      handshake's queries and writes a chunk only once permission was
      granted, i.e. after the handshake read a `YES` line. A successful run
      then wrote every one of the 188 chunk lines of the hex frame, in order,
      and nothing else. */
  lemma TransferWrites(img: seq<seq<byte>>, rs: seq<Reading>)
    requires Rows(img)
    ensures var r := Transfer(img, rs);
      var h := Handshake(rs, 0, 0, MAX_ATTEMPTS);
      var cs := Chunks(Hexlify(ProcessImage(img)));
      && (r.outcome.SizeError? <==> |img| != HEIGHT)
      && (r.outcome.SizeError? ==> r.actions == [])
      && (!r.outcome.SizeError? ==> |h.actions| <= |r.actions| && r.actions[..|h.actions|] == h.actions)
      && (!r.outcome.SizeError? && |r.actions| > |h.actions| ==>
            h.granted && h.next > 0 && IsYes(rs[h.next - 1]))
      && (r.outcome.Success? ==>
            && |cs| == 188
            && |r.actions| == |h.actions| + |cs|
            && forall k :: 0 <= k < |cs| ==> r.actions[|h.actions| + k] == Write(cs[k] + "\n"))
  {
    var r := Transfer(img, rs);
    var h := Handshake(rs, 0, 0, MAX_ATTEMPTS);
    var raw := ProcessImage(img);
    SizeCheck(img);
    if |raw| == EXPECTED_SIZE {
      HandshakeGrant(rs, 0, 0, MAX_ATTEMPTS);
      if h.granted {
        var hex := Hexlify(raw);
        var l := ChunkLoop(hex, 0, rs, h.next);
        ChunkLoopOutcome(hex, rs, h.next);
        FrameChunks(hex);
        assert r.actions == h.actions + l.writes;
      } else {
        assert r.actions == h.actions;
      }
    }
  }

  /** What each outcome of a run on a 480-row raster means: permission is
      refused exactly when the handshake was not granted; after a grant,
      with `start` the event after the handshake, the run reports a device
      error or an ack timeout exactly when the chunk loop ended so, carrying
      the `ERR` line; it succeeds exactly when every window after the 188
      chunk lines acknowledged its chunk and some line after the last window
      contains `DONE`, and it is still waiting for `DONE` exactly when every
      chunk was acknowledged but no such line follows. */
  lemma TransferOutcome(img: seq<seq<byte>>, rs: seq<Reading>)
    requires Rows(img)
    ensures var r := Transfer(img, rs);
      var h := Handshake(rs, 0, 0, MAX_ATTEMPTS);
      var hex := Hexlify(ProcessImage(img));
      var cs := Chunks(hex);
      var l := ChunkLoop(hex, 0, rs, h.next);
      var acked := forall m :: 0 <= m < |cs| ==> AckReply(rs, h.next, m).Acked?;
      var last := AckStart(rs, h.next, |cs|);
      |img| == HEIGHT ==>
        && (r.outcome.NotPermitted? <==> !h.granted)
        && (h.granted ==>
              && (r.outcome.DeviceError? <==> l.end.DeviceErr?)
              && (r.outcome.DeviceError? ==> r.outcome.reply == l.end.reply)
              && (r.outcome.AckTimedOut? <==> l.end.AckTimeout?)
              && (r.outcome.Success? <==>
                    acked && exists k :: last <= k < |rs| && HasWord(rs[k], "DONE"))
              && (r.outcome.AwaitingDone? <==>
                    acked && forall k :: last <= k < |rs| ==> !HasWord(rs[k], "DONE")))
  {
    var raw := ProcessImage(img);
    SizeCheck(img);
    var h := Handshake(rs, 0, 0, MAX_ATTEMPTS);
    if |raw| == EXPECTED_SIZE && h.granted {
      var hex := Hexlify(raw);
      ChunkLoopThenDone(hex, rs, h.next);
    }
  }

  /** The handshake the script calls, with five attempts: it wrote between
      one and five queries with a backoff between consecutive ones; it is
      granted exactly when it read a `YES` line, which is then the last event
      it read; a line starting with `ERR` is always the last event read and
      refuses; stopping before the fifth without permission means such a line
      was read last; the attempts are those up to the first window that
      granted or refused. */
  lemma RequestSendPermissionShape(rs: seq<Reading>)
    ensures var r := Handshake(rs, 0, 0, MAX_ATTEMPTS);
      var n := Attempts(rs, 0, 0, MAX_ATTEMPTS);
      && 1 <= n <= MAX_ATTEMPTS
      && r.actions == QueryLog(n)
      && (forall k :: 0 <= k < r.next - 1 ==> !IsYes(rs[k]) && !IsErr(rs[k]))
      && (r.granted <==> r.next > 0 && IsYes(rs[r.next - 1]))
      && (r.next > 0 && IsErr(rs[r.next - 1]) ==> !r.granted)
      && (!r.granted && n < MAX_ATTEMPTS ==>
            r.next > 0 && rs[r.next - 1].Heard?
            && StartsWith(rs[r.next - 1].line, SEND_ERR_PREFIX))
      && (forall m :: 0 <= m < n - 1 ==> !WindowReply(rs, 0, m).Yes? && !WindowReply(rs, 0, m).Refused?)
      && (WindowReply(rs, 0, n - 1).Yes? || WindowReply(rs, 0, n - 1).Refused? || n == MAX_ATTEMPTS)
  {
    HandshakeLog(rs, 0, 0, MAX_ATTEMPTS);
    HandshakeGrant(rs, 0, 0, MAX_ATTEMPTS);
    HandshakeRefusal(rs, 0, 0, MAX_ATTEMPTS);
    AttemptsByWindows(rs, 0, 0, MAX_ATTEMPTS);
  }

  /** `QueryLog(n)` holds `n` queries and `n - 1` backoffs and never ends
      in a backoff. */
  lemma {:induction false} QueryLogCounts(n: nat)
    requires n >= 1
    ensures |QueryLog(n)| == 2 * n - 1
    ensures QueryLog(n)[|QueryLog(n)| - 1] == Write(SEND_QUERY + "\n")
    ensures forall k :: 0 <= k < |QueryLog(n)| ==>
      QueryLog(n)[k] == (if k % 2 == 0 then Write(SEND_QUERY + "\n") else Backoff)
  {
    if n > 1 {
      QueryLogCounts(n - 1);
      var t := QueryLog(n - 1);
      assert QueryLog(n) == [Write(SEND_QUERY + "\n"), Backoff] + t;
      forall k | 0 <= k < |QueryLog(n)|
        ensures QueryLog(n)[k] == (if k % 2 == 0 then Write(SEND_QUERY + "\n") else Backoff)
      {
        if k >= 2 {
          assert QueryLog(n)[k] == t[k - 2];
        }
      }
    }
  }

  /** The script's `send_image_to_pico`, step by step. */
  method SendImageToPico(img: seq<seq<byte>>, events: seq<Event>)
    returns (outcome: Outcome, actions: seq<Action>)
    requires Rows(img)
    ensures Run(outcome, actions) == Transfer(img, Readings(events))
  {
    var raw := ProcessImage(img);
    if |raw| != EXPECTED_SIZE {
      return SizeError(|raw|), [];
    }
    var hexData := Hexlify(raw);
    var granted, next;
    granted, actions, next := RequestSendPermission(events, 0, MAX_ATTEMPTS);
    if !granted {
      return NotPermitted, actions;
    }
    var end, bytesSent, writes;
    end, bytesSent, writes, next := SendChunks(hexData, events, next);
    actions := actions + writes;
    match end {
      case DeviceErr(t) => return DeviceError(t), actions;
      case AckTimeout => return AckTimedOut, actions;
      case AllAcked =>
    }
    var done := AwaitLine(events, next, "DONE");
    outcome := if done.Some? then Success else AwaitingDone;
  }
}
