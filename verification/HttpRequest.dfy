/**
 Framing of one provider request read from a byte stream in chunks of at most 4096 bytes, and
 when the outcome depends on how the stream is cut (src/provider_server/http_json.rs:113-180).
 */
module HttpRequest {
  import opened Wrappers
  import opened Text
  import HttpHead
  import Utf8

  const MAX_REQUEST_BYTES: nat := 1024 * 1024
  const CHUNK: nat := 4096
  const BLANK_LINE := "\r\n\r\n"

  datatype RequestError =
    | FrameLimit
    | EndedBeforeHeaders
    | BadHead(error: HttpHead.HeadError)
    | BodyEndedEarly

  datatype Request = Request(verb: string, path: string, body: string)

  datatype Outcome = Accepted(request: Request) | Rejected(error: RequestError)

  /** How many bytes the k-th read is ready to deliver; the rest of the stream may be shorter. */
  type Chunking = nat -> nat

  ghost predicate IsChunking(chunking: Chunking)
  {
    forall k :: 1 <= chunking(k) <= CHUNK
  }

  function AfterRead(stream: string, chunking: Chunking, count: nat, position: nat): (after: nat)
    requires position <= |stream|
    ensures position <= after <= |stream|
  {
    if position + chunking(count) <= |stream| then position + chunking(count) else |stream|
  }

  /** The end of the header block of a text: just past its first blank line. */
  function HeaderEnd(text: string): (r: Option<nat>)
    ensures r.Some? ==> 4 <= r.value <= |text|
  {
    match Find(text, BLANK_LINE)
    case None => None
    case Some(i) => Some(i + 4)
  }

  // ----- the two read loops under a given chunking

  datatype HeaderPhase = HeaderRead(position: nat, count: nat) | HeaderFailed(error: RequestError)

  function ReadHeader(stream: string, chunking: Chunking, count: nat, position: nat): (r: HeaderPhase)
    requires position <= |stream| && IsChunking(chunking)
    ensures r.HeaderRead? ==> r.position <= |stream|
    decreases |stream| - position
  {
    if position >= MAX_REQUEST_BYTES then HeaderFailed(FrameLimit)
    else if position == |stream| then HeaderFailed(EndedBeforeHeaders)
    else
      var after := AfterRead(stream, chunking, count, position);
      if HeaderEnd(stream[..after]).Some? then HeaderRead(after, count + 1)
      else ReadHeader(stream, chunking, count + 1, after)
  }

  /** What follows once the buffer holds the header: limits, then the body. */
  function AfterHeader(stream: string, position: nat, headerEnd: nat): Outcome
    requires headerEnd <= position <= |stream|
  {
    match HttpHead.ParseHead(stream[..headerEnd])
    case Err(e) => Rejected(BadHead(e))
    case Ok(head) =>
      var frameEnd := headerEnd + head.contentLength;
      if frameEnd > MAX_REQUEST_BYTES || position > MAX_REQUEST_BYTES then Rejected(FrameLimit)
      else if frameEnd > |stream| then Rejected(BodyEndedEarly)
      else Accepted(Request(head.verb, head.path, stream[headerEnd..frameEnd]))
  }

  function Run(stream: string, chunking: Chunking): Outcome
    requires IsChunking(chunking)
  {
    match ReadHeader(stream, chunking, 0, 0)
    case HeaderFailed(e) => Rejected(e)
    case HeaderRead(position, _) =>
      var headerEnd := HeaderEnd(stream[..position]);
      if headerEnd.None? then Rejected(FrameLimit) else AfterHeader(stream, position, headerEnd.value)
  }

  /** The outcome as a function of the stream alone. */
  function Frame(stream: string): Outcome
  {
    match HeaderEnd(stream)
    case None => Rejected(if |stream| >= MAX_REQUEST_BYTES then FrameLimit else EndedBeforeHeaders)
    case Some(headerEnd) =>
      if headerEnd > MAX_REQUEST_BYTES then Rejected(FrameLimit) else AfterHeader(stream, headerEnd, headerEnd)
  }

  // ----- the reader itself

  /** A TCP stream: its bytes, what has been read, and how reads are cut. */
  class Connection {
    const data: string
    const chunking: Chunking
    var position: nat
    var count: nat

    constructor (data: string, chunking: Chunking)
      requires IsChunking(chunking)
      ensures this.data == data && this.chunking == chunking && position == 0 && count == 0
    {
      this.data, this.chunking := data, chunking;
      position, count := 0, 0;
    }

    /** One `read` into a 4096-byte chunk; empty exactly at the end of the stream. */
    method Read() returns (chunk: string)
      requires position <= |data| && IsChunking(chunking)
      modifies this
      ensures position == AfterRead(data, chunking, old(count), old(position)) && count == old(count) + 1
      ensures chunk == data[old(position)..position] && |chunk| <= CHUNK
      ensures chunk == "" <==> old(position) == |data|
    {
      var next := AfterRead(data, chunking, count, position);
      chunk := data[position..next];
      position, count := next, count + 1;
    }
  }

  /** The buffer is exactly what the connection has delivered, and within a chunk of the limit. */
  ghost predicate Buffered(connection: Connection, bytes: string)
    reads connection
  {
    && connection.position <= |connection.data| && bytes == connection.data[..connection.position]
    && |bytes| <= MAX_REQUEST_BYTES + CHUNK - 1 && IsChunking(connection.chunking)
  }

  /** The first loop of `read_request`: until the buffer holds a blank line. */
  method BufferHeader(connection: Connection) returns (bytes: string, phase: HeaderPhase)
    requires connection.position == 0 && connection.count == 0 && IsChunking(connection.chunking)
    modifies connection
    ensures phase == ReadHeader(connection.data, connection.chunking, 0, 0)
    ensures Buffered(connection, bytes)
    ensures phase.HeaderRead? ==> phase.position == |bytes| && HeaderEnd(bytes).Some?
  {
    bytes := "";
    ghost var whole := ReadHeader(connection.data, connection.chunking, 0, 0);
    while true
      invariant Buffered(connection, bytes)
      invariant whole == ReadHeader(connection.data, connection.chunking, connection.count, connection.position)
      decreases |connection.data| - connection.position
    {
      if |bytes| >= MAX_REQUEST_BYTES {
        return bytes, HeaderFailed(FrameLimit);
      }
      ghost var position, count := connection.position, connection.count;
      var chunk := connection.Read();
      assert whole == ReadHeader(connection.data, connection.chunking, count, position) && position == |bytes|;
      if chunk == "" {
        return bytes, HeaderFailed(EndedBeforeHeaders);
      }
      bytes := bytes + chunk;
      assert bytes == connection.data[..connection.position];
      if HeaderEnd(bytes).Some? {
        return bytes, HeaderRead(|bytes|, connection.count);
      }
    }
  }

  /** The second loop: until the buffer holds the frame, or the stream ends. */
  method BufferFrame(connection: Connection, buffered: string, frameEnd: nat) returns (bytes: string)
    requires Buffered(connection, buffered) && frameEnd <= MAX_REQUEST_BYTES
    modifies connection
    ensures Buffered(connection, bytes) && buffered <= bytes
    ensures |bytes| < frameEnd ==> frameEnd > |connection.data|
  {
    bytes := buffered;
    while |bytes| < frameEnd
      invariant Buffered(connection, bytes) && buffered <= bytes
      decreases frameEnd - |bytes|
    {
      var chunk := connection.Read();
      if chunk == "" {
        return;
      }
      bytes := bytes + chunk;
    }
  }

  lemma SliceOfPrefix(data: string, n: nat, from: nat, to: nat)
    requires from <= to <= n <= |data|
    ensures data[..n][from..to] == data[from..to]
    ensures data[..n][..to] == data[..to]
  {
  }

  /**
   `read_request`: buffers until the blank line, reads the head, then buffers the rest of the
   frame. However the stream is cut, no more than the limit and 4095 bytes are ever buffered.
   */
  method ReadRequest(connection: Connection) returns (outcome: Outcome)
    requires connection.position == 0 && connection.count == 0 && IsChunking(connection.chunking)
    modifies connection
    ensures outcome == Run(connection.data, connection.chunking)
    ensures connection.position <= MAX_REQUEST_BYTES + CHUNK - 1
  {
    var bytes, phase := BufferHeader(connection);
    if phase.HeaderFailed? {
      return Rejected(phase.error);
    }
    var headerEnd := HeaderEnd(bytes).value;
    outcome := FinishRequest(connection, bytes, headerEnd);
  }

  /** `read_request` from its blank line on. */
  method FinishRequest(connection: Connection, buffered: string, headerEnd: nat) returns (outcome: Outcome)
    requires Buffered(connection, buffered) && headerEnd <= |buffered|
    modifies connection
    ensures outcome == AfterHeader(connection.data, |buffered|, headerEnd)
    ensures connection.position <= MAX_REQUEST_BYTES + CHUNK - 1
  {
    SliceOfPrefix(connection.data, connection.position, 0, headerEnd);
    var parsed := HttpHead.ParseHead(buffered[..headerEnd]);
    if parsed.Err? {
      return Rejected(BadHead(parsed.error));
    }
    var frameEnd := headerEnd + parsed.value.contentLength;
    if frameEnd > MAX_REQUEST_BYTES {
      return Rejected(FrameLimit);
    }
    if |buffered| > MAX_REQUEST_BYTES {
      return Rejected(FrameLimit);
    }
    var bytes := BufferFrame(connection, buffered, frameEnd);
    if |bytes| < frameEnd {
      return Rejected(BodyEndedEarly);
    }
    SliceOfPrefix(connection.data, connection.position, headerEnd, frameEnd);
    return Accepted(Request(parsed.value.verb, parsed.value.path, bytes[headerEnd..frameEnd]));
  }

  // ----- what the cut can and cannot change

  /** The blank line of a prefix is the blank line of the stream. */
  lemma HeaderEndOfPrefix(stream: string, n: nat)
    requires n <= |stream|
    ensures HeaderEnd(stream[..n]) ==
            if HeaderEnd(stream).Some? && HeaderEnd(stream).value <= n then HeaderEnd(stream) else None
  {
    var inPrefix, inStream := Find(stream[..n], BLANK_LINE), Find(stream, BLANK_LINE);
    if inPrefix.Some? {
      OccurrenceInPrefix(stream, n, BLANK_LINE, inPrefix.value);
    }
    if inStream.Some? && inStream.value + 4 <= n {
      assert stream[..n][inStream.value..inStream.value + 4] == stream[inStream.value..inStream.value + 4];
      assert OccursAt(stream[..n], BLANK_LINE, inStream.value);
    }
  }

  /** The header loop, from any point before the blank line. */
  lemma {:induction false} HeaderLoop(stream: string, chunking: Chunking, count: nat, position: nat)
    requires IsChunking(chunking) && position <= |stream|
    requires HeaderEnd(stream).Some? ==> position < HeaderEnd(stream).value
    ensures var r := ReadHeader(stream, chunking, count, position);
            match HeaderEnd(stream)
            case None => r == HeaderFailed(if |stream| >= MAX_REQUEST_BYTES then FrameLimit else EndedBeforeHeaders)
            case Some(h) =>
              if r.HeaderRead? then h <= r.position <= h + CHUNK - 1 && r.position <= MAX_REQUEST_BYTES + CHUNK - 1
              else h > MAX_REQUEST_BYTES && r == HeaderFailed(FrameLimit)
    decreases |stream| - position
  {
    if position < MAX_REQUEST_BYTES && position < |stream| {
      var after := AfterRead(stream, chunking, count, position);
      HeaderEndOfPrefix(stream, after);
      if HeaderEnd(stream[..after]).None? {
        HeaderLoop(stream, chunking, count + 1, after);
      }
    }
  }

  lemma RunIs(stream: string, chunking: Chunking)
    requires IsChunking(chunking)
    ensures match ReadHeader(stream, chunking, 0, 0)
            case HeaderFailed(e) => Run(stream, chunking) == Rejected(e)
            case HeaderRead(position, _) =>
              && HeaderEnd(stream).Some? && HeaderEnd(stream).value <= position
              && Run(stream, chunking) == AfterHeader(stream, position, HeaderEnd(stream).value)
  {
    HeaderLoop(stream, chunking, 0, 0);
    var phase := ReadHeader(stream, chunking, 0, 0);
    if phase.HeaderRead? {
      HeaderEndOfPrefix(stream, phase.position);
    }
  }

  /** Whatever is accepted under some cut is what the stream alone determines. */
  lemma AcceptedIsFrame(stream: string, chunking: Chunking)
    requires IsChunking(chunking) && Run(stream, chunking).Accepted?
    ensures Run(stream, chunking) == Frame(stream)
  {
    RunIs(stream, chunking);
    var phase := ReadHeader(stream, chunking, 0, 0);
    AcceptedWithinLimit(stream, phase.position, HeaderEnd(stream).value);
  }

  lemma AcceptedWithinLimit(stream: string, position: nat, headerEnd: nat)
    requires headerEnd <= position <= |stream| && AfterHeader(stream, position, headerEnd).Accepted?
    ensures headerEnd <= MAX_REQUEST_BYTES
    ensures AfterHeader(stream, headerEnd, headerEnd) == AfterHeader(stream, position, headerEnd)
  {
  }

  ghost predicate Overshoots(stream: string, headerEnd: nat)
    requires headerEnd <= |stream|
  {
    var head := HttpHead.ParseHead(stream[..headerEnd]);
    && headerEnd <= MAX_REQUEST_BYTES < headerEnd + CHUNK - 1
    && head.Ok? && headerEnd + head.value.contentLength <= MAX_REQUEST_BYTES
  }

  ghost predicate LateBadHead(stream: string, headerEnd: nat)
    requires headerEnd <= |stream|
  {
    MAX_REQUEST_BYTES < headerEnd <= MAX_REQUEST_BYTES + CHUNK - 1 && HttpHead.ParseHead(stream[..headerEnd]).Err?
  }

  /**
   The streams whose outcome depends on the cut: longer than the limit, and either a good frame
   whose header ends within a chunk of the limit, or a bad head that ends within a chunk after it.
   */
  ghost predicate CutSensitive(stream: string)
  {
    && |stream| > MAX_REQUEST_BYTES && HeaderEnd(stream).Some?
    && (Overshoots(stream, HeaderEnd(stream).value) || LateBadHead(stream, HeaderEnd(stream).value))
  }

  /** Where the first loop stopped changes nothing for a stream that is not cut-sensitive. */
  lemma StopIsNoMatter(stream: string, position: nat, headerEnd: nat)
    requires headerEnd <= position <= |stream| && position <= headerEnd + CHUNK - 1
    requires position <= MAX_REQUEST_BYTES + CHUNK - 1
    requires |stream| <= MAX_REQUEST_BYTES || !(Overshoots(stream, headerEnd) || LateBadHead(stream, headerEnd))
    ensures AfterHeader(stream, position, headerEnd) ==
            if headerEnd > MAX_REQUEST_BYTES then Rejected(FrameLimit) else AfterHeader(stream, headerEnd, headerEnd)
  {
  }

  /** A stream that is not cut-sensitive has one outcome under every chunking. */
  lemma InsensitiveIsFrame(stream: string, chunking: Chunking)
    requires IsChunking(chunking) && !CutSensitive(stream)
    ensures Run(stream, chunking) == Frame(stream)
  {
    RunIs(stream, chunking);
    HeaderLoop(stream, chunking, 0, 0);
    var phase := ReadHeader(stream, chunking, 0, 0);
    if phase.HeaderRead? {
      StopIsNoMatter(stream, phase.position, HeaderEnd(stream).value);
    }
  }

  /** One byte per read, except a full chunk at one chosen read. */
  function OneByte(): Chunking
  {
    (k: nat) => 1
  }

  function Jump(at: nat): Chunking
  {
    (k: nat) => if k == at then CHUNK else 1
  }

  /** Single-byte reads walk up to any point before the blank line. */
  lemma {:induction false} WalkTo(stream: string, chunking: Chunking, position: nat, target: nat)
    requires IsChunking(chunking) && position <= target <= MAX_REQUEST_BYTES && target <= |stream|
    requires forall k :: 0 <= k < target ==> chunking(k) == 1
    requires HeaderEnd(stream).Some? ==> target < HeaderEnd(stream).value
    ensures ReadHeader(stream, chunking, position, position) == ReadHeader(stream, chunking, target, target)
    decreases target - position
  {
    if position < target {
      HeaderEndOfPrefix(stream, position + 1);
      WalkTo(stream, chunking, position + 1, target);
    }
  }

  /** A walk up to `target`, then one read that reaches the blank line. */
  lemma WalkThenFind(stream: string, chunking: Chunking, target: nat)
    requires IsChunking(chunking) && target < MAX_REQUEST_BYTES && HeaderEnd(stream).Some?
    requires forall k :: 0 <= k < target ==> chunking(k) == 1
    requires target < HeaderEnd(stream).value <= target + chunking(target)
    ensures ReadHeader(stream, chunking, 0, 0) == HeaderRead(AfterRead(stream, chunking, target, target), target + 1)
  {
    WalkTo(stream, chunking, 0, target);
    HeaderEndOfPrefix(stream, AfterRead(stream, chunking, target, target));
  }

  lemma GoodHeadOutcome(stream: string, position: nat, headerEnd: nat)
    requires headerEnd <= position <= |stream| && |stream| > MAX_REQUEST_BYTES && Overshoots(stream, headerEnd)
    ensures if position > MAX_REQUEST_BYTES then AfterHeader(stream, position, headerEnd) == Rejected(FrameLimit)
            else AfterHeader(stream, position, headerEnd).Accepted?
  {
  }

  lemma OvershootAccepted(stream: string)
    requires |stream| > MAX_REQUEST_BYTES && HeaderEnd(stream).Some? && Overshoots(stream, HeaderEnd(stream).value)
    ensures Run(stream, OneByte()).Accepted?
  {
    var h := HeaderEnd(stream).value;
    WalkThenFind(stream, OneByte(), h - 1);
    RunIs(stream, OneByte());
    GoodHeadOutcome(stream, h, h);
  }

  lemma OvershootRejected(stream: string)
    requires |stream| > MAX_REQUEST_BYTES && HeaderEnd(stream).Some? && Overshoots(stream, HeaderEnd(stream).value)
    ensures Run(stream, Jump(HeaderEnd(stream).value - 1)) == Rejected(FrameLimit)
  {
    var h := HeaderEnd(stream).value;
    var jump := Jump(h - 1);
    WalkThenFind(stream, jump, h - 1);
    RunIs(stream, jump);
    GoodHeadOutcome(stream, AfterRead(stream, jump, h - 1, h - 1), h);
  }

  lemma LateBadHeadDiffers(stream: string)
    requires |stream| > MAX_REQUEST_BYTES && HeaderEnd(stream).Some? && LateBadHead(stream, HeaderEnd(stream).value)
    ensures Run(stream, OneByte()) == Rejected(FrameLimit)
    ensures Run(stream, Jump(MAX_REQUEST_BYTES - 1)) != Rejected(FrameLimit)
  {
    var jump := Jump(MAX_REQUEST_BYTES - 1);
    WalkTo(stream, OneByte(), 0, MAX_REQUEST_BYTES);
    RunIs(stream, OneByte());
    WalkThenFind(stream, jump, MAX_REQUEST_BYTES - 1);
    RunIs(stream, jump);
  }

  /** The outcome is the same under every chunking if and only if the stream is not cut-sensitive. */
  lemma CutIndependentExactlyWhen(stream: string)
    ensures (forall a, b :: IsChunking(a) && IsChunking(b) ==> Run(stream, a) == Run(stream, b))
            <==> !CutSensitive(stream)
  {
    if CutSensitive(stream) {
      if Overshoots(stream, HeaderEnd(stream).value) {
        OvershootAccepted(stream);
        OvershootRejected(stream);
        assert IsChunking(OneByte()) && IsChunking(Jump(HeaderEnd(stream).value - 1));
      } else {
        LateBadHeadDiffers(stream);
        assert IsChunking(OneByte()) && IsChunking(Jump(MAX_REQUEST_BYTES - 1));
      }
    } else {
      forall a, b | IsChunking(a) && IsChunking(b) ensures Run(stream, a) == Run(stream, b) {
        InsensitiveIsFrame(stream, a);
        InsensitiveIsFrame(stream, b);
      }
    }
  }

  /** In particular every stream within the limit is framed independently of the cut. */
  lemma WithinLimitIsFrame(stream: string, chunking: Chunking)
    requires IsChunking(chunking) && |stream| <= MAX_REQUEST_BYTES
    ensures Run(stream, chunking) == Frame(stream)
  {
    InsensitiveIsFrame(stream, chunking);
  }

  // ----- what an accepted request is

  /** Just past the first blank line. */
  ghost predicate FirstBlankLine(stream: string, h: nat)
  {
    4 <= h && OccursAt(stream, "\r\n\r\n", h - 4) && forall i :: 0 <= i < h - 4 ==> !OccursAt(stream, "\r\n\r\n", i)
  }

  lemma HeaderEndExactlyWhen(stream: string, h: nat)
    ensures HeaderEnd(stream) == Some(h) <==> FirstBlankLine(stream, h)
    ensures HeaderEnd(stream).None? <==> !Contains(stream, "\r\n\r\n")
  {
  }

  /** A head that spells verb, path and the body's length, a blank line, and exactly the body after it. */
  ghost predicate FrameParts(stream: string, r: Request, h: nat, lines: seq<string>)
  {
    && FirstBlankLine(stream, h) && Utf8.Valid(stream[..h])
    && HttpHead.SpellsHead(stream[..h], lines, r.verb, r.path, |r.body|)
    && h + |r.body| <= MAX_REQUEST_BYTES && h + |r.body| <= |stream|
    && stream[h..h + |r.body|] == r.body
  }

  ghost predicate IsFrame(stream: string, r: Request)
  {
    exists h: nat, lines :: FrameParts(stream, r, h, lines)
  }

  /** A head of this length spells these. */
  ghost predicate HeadSpells(stream: string, h: nat, verb: string, path: string, n: nat)
  {
    h <= |stream| && Utf8.Valid(stream[..h]) && exists lines :: HttpHead.SpellsHead(stream[..h], lines, verb, path, n)
  }

  lemma HeadSpellsExactlyWhen(stream: string, h: nat, verb: string, path: string, n: nat)
    requires h <= |stream|
    ensures HttpHead.ParseHead(stream[..h]) == Ok(HttpHead.Head(verb, path, n)) <==>
            HeadSpells(stream, h, verb, path, n)
  {
    HttpHead.HeadExactlyWhen(stream[..h], verb, path, n);
  }

  /** The frame once its head is known. */
  lemma FrameOfHead(stream: string, h: nat, parsed: Result<HttpHead.Head, HttpHead.HeadError>)
    requires HeaderEnd(stream) == Some(h) && HttpHead.ParseHead(stream[..h]) == parsed
    ensures Frame(stream) ==
            if h > MAX_REQUEST_BYTES then Rejected(FrameLimit)
            else if parsed.Err? then Rejected(BadHead(parsed.error))
            else
              var end := h + parsed.value.contentLength;
              if end > MAX_REQUEST_BYTES then Rejected(FrameLimit)
              else if end > |stream| then Rejected(BodyEndedEarly)
              else Accepted(Request(parsed.value.verb, parsed.value.path, stream[h..end]))
  {
  }

  /** The frame of a stream is accepted as this request if and only if the stream begins with it. */
  lemma FrameExactlyWhen(stream: string, r: Request)
    ensures Frame(stream) == Accepted(r) <==> IsFrame(stream, r)
  {
    if Frame(stream) == Accepted(r) { AcceptedIsSpelled(stream, r); }
    if IsFrame(stream, r) {
      var h: nat, lines :| FrameParts(stream, r, h, lines);
      SpelledIsAccepted(stream, r, h, lines);
    }
  }

  lemma SpelledIsAccepted(stream: string, r: Request, h: nat, lines: seq<string>)
    requires FrameParts(stream, r, h, lines)
    ensures Frame(stream) == Accepted(r)
  {
    PartsHeader(stream, r, h, lines);
    HeaderAccepts(stream, r, h);
  }

  lemma HeaderAccepts(stream: string, r: Request, h: nat)
    requires HeaderEnd(stream) == Some(h) && h + |r.body| <= MAX_REQUEST_BYTES && h + |r.body| <= |stream|
    requires HttpHead.ParseHead(stream[..h]) == Ok(HttpHead.Head(r.verb, r.path, |r.body|))
    requires stream[h..h + |r.body|] == r.body
    ensures Frame(stream) == Accepted(r)
  {
    FrameOfHead(stream, h, Ok(HttpHead.Head(r.verb, r.path, |r.body|)));
  }

  lemma PartsHeader(stream: string, r: Request, h: nat, lines: seq<string>)
    requires FrameParts(stream, r, h, lines)
    ensures HeaderEnd(stream) == Some(h) && h + |r.body| <= MAX_REQUEST_BYTES && h + |r.body| <= |stream|
    ensures stream[h..h + |r.body|] == r.body
    ensures HttpHead.ParseHead(stream[..h]) == Ok(HttpHead.Head(r.verb, r.path, |r.body|))
  {
    HeaderEndExactlyWhen(stream, h);
    HeadSpellsExactlyWhen(stream, h, r.verb, r.path, |r.body|);
  }

  lemma AcceptedIsSpelled(stream: string, r: Request)
    requires Frame(stream) == Accepted(r)
    ensures IsFrame(stream, r)
  {
    var h := HeaderEnd(stream).value;
    var parsed := HttpHead.ParseHead(stream[..h]);
    FrameOfHead(stream, h, parsed);
    HeaderEndExactlyWhen(stream, h);
    HeadSpellsExactlyWhen(stream, h, r.verb, r.path, |r.body|);
    var lines := SpellingOf(stream, h, r.verb, r.path, |r.body|);
    assert FrameParts(stream, r, h, lines);
  }

  lemma SpellingOf(stream: string, h: nat, verb: string, path: string, n: nat) returns (lines: seq<string>)
    requires HeadSpells(stream, h, verb, path, n)
    ensures HttpHead.SpellsHead(stream[..h], lines, verb, path, n)
  {
    lines :| HttpHead.SpellsHead(stream[..h], lines, verb, path, n);
  }

  /** Under every cut, what is accepted is the frame the stream begins with. */
  lemma AcceptedBeginsStream(stream: string, chunking: Chunking, r: Request)
    requires IsChunking(chunking) && Run(stream, chunking) == Accepted(r)
    ensures IsFrame(stream, r)
  {
    AcceptedIsFrame(stream, chunking);
    FrameExactlyWhen(stream, r);
  }

  /** Within the limit, under every cut: accepted as this request if and only if the stream begins with it. */
  lemma AcceptedExactlyWhen(stream: string, chunking: Chunking, r: Request)
    requires IsChunking(chunking) && |stream| <= MAX_REQUEST_BYTES
    ensures Run(stream, chunking) == Accepted(r) <==> IsFrame(stream, r)
  {
    WithinLimitIsFrame(stream, chunking);
    FrameExactlyWhen(stream, r);
  }

  /** The head announces a body that ends here. */
  ghost predicate Announces(stream: string, h: nat, end: nat)
  {
    FirstBlankLine(stream, h) && exists verb, path, n: nat :: HeadSpells(stream, h, verb, path, n) && end == h + n
  }

  lemma AnnouncesExactlyWhen(stream: string, h: nat, end: nat, parsed: Result<HttpHead.Head, HttpHead.HeadError>)
    requires FirstBlankLine(stream, h) && HttpHead.ParseHead(stream[..h]) == parsed
    ensures Announces(stream, h, end) <==> parsed.Ok? && end == h + parsed.value.contentLength
  {
    if parsed.Ok? {
      HeadSpellsExactlyWhen(stream, h, parsed.value.verb, parsed.value.path, parsed.value.contentLength);
    }
    if Announces(stream, h, end) {
      var verb, path, n: nat :| HeadSpells(stream, h, verb, path, n) && end == h + n;
      HeadSpellsExactlyWhen(stream, h, verb, path, n);
    }
  }

  /** Some head announces an end in this range. */
  ghost predicate AnnouncesWithin(stream: string, from: nat, to: nat)
  {
    exists h: nat, end: nat :: Announces(stream, h, end) && from < end <= to
  }

  ghost predicate AnnouncesBeyond(stream: string, limit: nat)
  {
    exists h: nat, end: nat :: Announces(stream, h, end) && end > limit
  }

  ghost predicate AnnouncesNothing(stream: string)
  {
    exists h: nat :: FirstBlankLine(stream, h) && forall end: nat :: !Announces(stream, h, end)
  }

  /**
   Below the limit a stream is rejected for want of a blank line, for its head, for the length it
   announces or for ending early, each exactly when that is so.
   */
  lemma RejectedExactlyWhen(stream: string, chunking: Chunking)
    requires IsChunking(chunking) && |stream| < MAX_REQUEST_BYTES
    ensures var outcome := Run(stream, chunking);
            && (outcome == Rejected(EndedBeforeHeaders) <==> !Contains(stream, "\r\n\r\n"))
            && (outcome == Rejected(FrameLimit) <==> AnnouncesBeyond(stream, MAX_REQUEST_BYTES))
            && (outcome == Rejected(BodyEndedEarly) <==> AnnouncesWithin(stream, |stream|, MAX_REQUEST_BYTES))
            && (outcome.Rejected? && outcome.error.BadHead? <==> AnnouncesNothing(stream))
  {
    WithinLimitIsFrame(stream, chunking);
    HeaderEndExactlyWhen(stream, 0);
    if HeaderEnd(stream).Some? {
      HeadDecides(stream, HeaderEnd(stream).value);
    } else {
      NoHeadNoAnnouncement(stream);
    }
  }

  lemma OneHead(stream: string, h: nat, h': nat)
    requires FirstBlankLine(stream, h) && FirstBlankLine(stream, h')
    ensures h == h'
  {
  }

  lemma NoHeadNoAnnouncement(stream: string)
    requires HeaderEnd(stream).None?
    ensures !AnnouncesNothing(stream) && forall from, to :: !AnnouncesWithin(stream, from, to)
    ensures forall limit :: !AnnouncesBeyond(stream, limit)
  {
    forall h: nat ensures !FirstBlankLine(stream, h) { HeaderEndExactlyWhen(stream, h); }
  }

  lemma HeadDecides(stream: string, h: nat)
    requires HeaderEnd(stream) == Some(h) && |stream| < MAX_REQUEST_BYTES
    ensures var outcome := Frame(stream);
            && (outcome == Rejected(FrameLimit) <==> AnnouncesBeyond(stream, MAX_REQUEST_BYTES))
            && (outcome == Rejected(BodyEndedEarly) <==> AnnouncesWithin(stream, |stream|, MAX_REQUEST_BYTES))
            && (outcome.Rejected? && outcome.error.BadHead? <==> AnnouncesNothing(stream))
            && outcome != Rejected(EndedBeforeHeaders)
  {
    var parsed := HttpHead.ParseHead(stream[..h]);
    HeaderEndExactlyWhen(stream, h);
    FrameOfHead(stream, h, parsed);
    AnnouncementIs(stream, h, parsed);
  }

  lemma AnnouncementIs(stream: string, h: nat, parsed: Result<HttpHead.Head, HttpHead.HeadError>)
    requires FirstBlankLine(stream, h) && HttpHead.ParseHead(stream[..h]) == parsed
    ensures AnnouncesNothing(stream) <==> parsed.Err?
    ensures forall from: nat, to: nat :: AnnouncesWithin(stream, from, to) <==>
              parsed.Ok? && from < h + parsed.value.contentLength <= to
    ensures forall limit: nat :: AnnouncesBeyond(stream, limit) <==>
              parsed.Ok? && h + parsed.value.contentLength > limit
  {
    forall k: nat | FirstBlankLine(stream, k) ensures k == h { OneHead(stream, h, k); }
    forall end: nat ensures Announces(stream, h, end) <==> parsed.Ok? && end == h + parsed.value.contentLength {
      AnnouncesExactlyWhen(stream, h, end, parsed);
    }
    if parsed.Ok? { assert Announces(stream, h, h + parsed.value.contentLength); }
  }

  // ----- both families are there

  lemma BlankLineFound(front: string, rest: string)
    requires Without(front, '\r')
    ensures HeaderEnd(front + (BLANK_LINE + rest)) == Some(|front| + 4)
  {
    var stream := front + (BLANK_LINE + rest);
    assert stream[|front|..|front| + 4] == BLANK_LINE;
    assert OccursAt(stream, BLANK_LINE, |front|);
    OccurrenceHead(stream, BLANK_LINE, Find(stream, BLANK_LINE).value);
  }

  lemma OvershootOf(front: string, head: HttpHead.Head) returns (stream: string)
    requires Without(front, '\r') && |front| == MAX_REQUEST_BYTES - 4 && head.contentLength == 0
    requires HttpHead.ParseHead(front + BLANK_LINE) == Ok(head)
    ensures |stream| > MAX_REQUEST_BYTES && HeaderEnd(stream) == Some(MAX_REQUEST_BYTES)
    ensures Overshoots(stream, MAX_REQUEST_BYTES)
  {
    stream := front + (BLANK_LINE + "x");
    BlankLineFound(front, "x");
    assert stream[..MAX_REQUEST_BYTES] == front + BLANK_LINE;
  }

  /** A request padded until its header ends at the limit, and one byte more. */
  lemma OvershootsExist() returns (stream: string)
    ensures |stream| > MAX_REQUEST_BYTES && HeaderEnd(stream) == Some(MAX_REQUEST_BYTES)
    ensures Overshoots(stream, MAX_REQUEST_BYTES)
  {
    var pad := seq(MAX_REQUEST_BYTES - 19, _ => 'a');
    HttpHead.PaddedIsPlain(pad);
    HttpHead.PaddedHeadReads(pad);
    assert HttpHead.CRLF + HttpHead.CRLF == BLANK_LINE;
    stream := OvershootOf(HttpHead.PaddedRequest(pad), HttpHead.Head("GET", "/", 0));
  }

  lemma LateBadHeadOf(front: string) returns (stream: string)
    requires Without(front, '\r') && |front| == MAX_REQUEST_BYTES && front[0] == 255 as char
    ensures |stream| > MAX_REQUEST_BYTES && HeaderEnd(stream) == Some(MAX_REQUEST_BYTES + 4)
    ensures LateBadHead(stream, MAX_REQUEST_BYTES + 4)
  {
    stream := front + (BLANK_LINE + "");
    BlankLineFound(front, "");
    NotUtf8Fails(stream[..MAX_REQUEST_BYTES + 4]);
  }

  lemma NotUtf8Fails(header: string)
    requires header != "" && header[0] == 255 as char
    ensures HttpHead.ParseHead(header) == Err(HttpHead.NotUtf8)
  {
  }

  /** A header that is no UTF-8 and ends just past the limit. */
  lemma LateBadHeadsExist() returns (stream: string)
    ensures |stream| > MAX_REQUEST_BYTES && HeaderEnd(stream) == Some(MAX_REQUEST_BYTES + 4)
    ensures LateBadHead(stream, MAX_REQUEST_BYTES + 4)
  {
    stream := LateBadHeadOf(seq(MAX_REQUEST_BYTES, _ => 255 as char));
  }

  /** So the outcome of some streams does depend on the cut, in both ways. */
  lemma CutsDiffer() returns (accepted: string, late: string)
    ensures Run(accepted, OneByte()).Accepted?
    ensures exists chunking :: IsChunking(chunking) && Run(accepted, chunking) == Rejected(FrameLimit)
    ensures Run(late, OneByte()) == Rejected(FrameLimit)
    ensures exists chunking :: IsChunking(chunking) && Run(late, chunking) != Rejected(FrameLimit)
  {
    accepted := OvershootsExist();
    OvershootAccepted(accepted);
    OvershootRejected(accepted);
    assert IsChunking(Jump(MAX_REQUEST_BYTES - 1));
    late := LateBadHeadsExist();
    LateBadHeadDiffers(late);
  }
}
