/** Incremental event-stream framing: `parseSseFrame` and `runSseConnection` of
    `src/clients/horizon-contract-client.ts`. Frames end at a blank line as in section 9.2.6 of
    the WHATWG HTML Standard; UTF-8 decoding and JSON parsing are taken as given. */
module SseFraming {
  import opened Results
  import opened Sequences
  import JsText

  // ---------------------------------------------------------------- splitting on blank lines

  /** Index of the first "\n\n", or the length when there is none. */
  function FirstBlank(s: string): (i: nat)
    ensures i <= |s|
    ensures i < |s| ==> i + 2 <= |s| && s[i..i + 2] == "\n\n"
  {
    if |s| < 2 then |s|
    else if s[0] == '\n' && s[1] == '\n' then assert s[0..2] == "\n\n"; 0
    else
      var i := FirstBlank(s[1..]);
      assert i < |s[1..]| ==> s[1..][i..i + 2] == s[1 + i..1 + i + 2];
      1 + i
  }

  /** `s.split("\n\n")`: scans left to right, matches do not overlap. */
  function Split(s: string): (frames: seq<string>)
    ensures |frames| > 0
    decreases |s|
  {
    var i := FirstBlank(s);
    if i == |s| then [s] else [s[..i]] + Split(s[i + 2..])
  }

  function Init<T>(s: seq<T>): seq<T>
    requires s != []
  {
    s[..|s| - 1]
  }

  function Last<T>(s: seq<T>): T
    requires s != []
  {
    s[|s| - 1]
  }

  lemma {:induction false} FirstBlankAppend(a: string, b: string)
    requires FirstBlank(a) < |a|
    ensures FirstBlank(a + b) == FirstBlank(a)
  {
    if !(a[0] == '\n' && a[1] == '\n') {
      assert (a + b)[1..] == a[1..] + b;
      FirstBlankAppend(a[1..], b);
    }
  }

  /** The text after the last blank line is all that later input can still change. */
  lemma {:induction false} SplitAppend(a: string, b: string)
    ensures Split(a + b) == Init(Split(a)) + Split(Last(Split(a)) + b)
    decreases |a|
  {
    var i := FirstBlank(a);
    if i < |a| {
      var head, rest := a[..i], Split(a[i + 2..]);
      FirstBlankAppend(a, b);
      assert (a + b)[..i] == head && (a + b)[i + 2..] == a[i + 2..] + b;
      SplitAppend(a[i + 2..], b);
      InitCons(head, rest);
      ConcatAssoc([head], Init(rest), Split(Last(rest) + b));
    }
  }

  lemma InitSnoc<T>(s: seq<T>, x: T)
    ensures Init(s + [x]) == s && Last(s + [x]) == x
  {
  }

  lemma InitLast<T>(s: seq<T>)
    requires s != []
    ensures s == Init(s) + [Last(s)]
  {
  }

  lemma InitCons<T>(x: T, s: seq<T>)
    requires s != []
    ensures Init([x] + s) == [x] + Init(s) && Last([x] + s) == Last(s)
  {
  }

  // ---------------------------------------------------------------- one frame

  datatype SseEvent = SseEvent(cursor: string, eventType: string, data: string)

  /** What a frame's data decodes to when it is a JSON object; other data gives no event. */
  datatype Payload = Payload(pagingToken: Option<string>, id: Option<string>)

  type Decoder = string -> Option<Payload>

  function Lines(s: string): seq<string> {
    JsText.SplitOn(s, '\n')
  }

  /** `replace(/\r\n/g, "\n")`. */
  function NormalizeNewlines(s: string): string {
    if |s| < 2 then s
    else if s[0] == '\r' && s[1] == '\n' then "\n" + NormalizeNewlines(s[2..])
    else [s[0]] + NormalizeNewlines(s[1..])
  }

  datatype Fields = Fields(eventType: string, data: Option<string>)

  const NoFields := Fields("message", None)

  /** The effect of one line of a frame. */
  function ApplyLine(f: Fields, line: string): Fields {
    if ":" <= line then f
    else if "event:" <= line then f.(eventType := JsText.Trim(line[|"event:"|..]))
    else if "data:" <= line then
      var chunk := line[|"data:"|..];
      f.(data := Some(if f.data.None? then chunk else f.data.value + "\n" + chunk))
    else f
  }

  function FieldsOf(lines: seq<string>): Fields {
    if lines == [] then NoFields else ApplyLine(FieldsOf(Init(lines)), Last(lines))
  }

  function CursorOf(p: Payload): string {
    match (p.pagingToken, p.id)
    case (Some(token), _) => token
    case (None, Some(id)) => id
    case (None, None) => ""
  }

  function EventOf(f: Fields, decode: Decoder): Option<SseEvent> {
    if f.data.None? then None
    else
      var text := JsText.Trim(f.data.value);
      match decode(text)
      case None => None
      case Some(p) => Some(SseEvent(CursorOf(p), f.eventType, text))
  }

  /** The event a raw frame stands for, if any. */
  function FrameEvent(frame: string, decode: Decoder): Option<SseEvent> {
    EventOf(FieldsOf(Lines(NormalizeNewlines(frame))), decode)
  }

  function ParserOf(decode: Decoder): (parse: FrameParser)
    ensures parse("").None?
  {
    assert Init([""]) == [];
    frame => FrameEvent(frame, decode)
  }

  /** `parseSseFrame` on a normalised frame. */
  method ParseSseFrame(frame: string, decode: Decoder) returns (e: Option<SseEvent>)
    ensures e == EventOf(FieldsOf(Lines(frame)), decode)
  {
    var lines := Lines(frame);
    var fields := NoFields;
    for i := 0 to |lines|
      invariant fields == FieldsOf(lines[..i])
    {
      assert Init(lines[..i + 1]) == lines[..i];
      fields := ApplyLine(fields, lines[i]);
    }
    assert lines[..|lines|] == lines;
    e := EventOf(fields, decode);
  }

  // ---------------------------------------------------------------- a whole connection

  /** How the body ended: the server closed it, the network failed, or the caller aborted. */
  datatype BodyEnd = CleanClose | NetworkError | Aborted

  function Concat(chunks: seq<string>): string {
    if chunks == [] then [] else Concat(Init(chunks)) + Last(chunks)
  }

  type FrameParser = string -> Option<SseEvent>

  function ToSeq<T>(o: Option<T>): seq<T> {
    match o
    case None => []
    case Some(x) => [x]
  }

  function EventsOf(frames: seq<string>, parse: FrameParser): seq<SseEvent> {
    if frames == [] then [] else EventsOf(Init(frames), parse) + ToSeq(parse(Last(frames)))
  }

  /** The reference: cut the whole text at blank lines; an abort loses the unfinished last frame. */
  function ReferenceFrames(text: string, end: BodyEnd): seq<string> {
    if end.Aborted? then Init(Split(text)) else Split(text)
  }

  /** `attempts` is what a handler sees that accepts its k-th event exactly when `accepts(k)`:
      all events in order, up to and including the first one it rejects. */
  ghost predicate DeliveredUntilFailure(attempts: seq<SseEvent>, events: seq<SseEvent>, accepts: nat -> bool,
      failed: bool)
  {
    && attempts <= events
    && (forall k :: 0 <= k < |attempts| - 1 ==> accepts(k))
    && (failed <==> attempts != [] && !accepts(|attempts| - 1))
    && (!failed ==> attempts == events)
  }

  lemma EventsPrefix(frames: seq<string>, n: nat, parse: FrameParser)
    requires n <= |frames|
    ensures EventsOf(frames[..n], parse) <= EventsOf(frames, parse)
    decreases |frames|
  {
    if n < |frames| {
      assert Init(frames)[..n] == frames[..n];
      EventsPrefix(Init(frames), n, parse);
    } else {
      assert frames[..n] == frames;
    }
  }

  lemma {:induction false} EventsConcat(a: seq<string>, b: seq<string>, parse: FrameParser)
    ensures EventsOf(a + b, parse) == EventsOf(a, parse) + EventsOf(b, parse)
    decreases |b|
  {
    if b == [] {
      assert a + b == a;
    } else {
      assert Init(a + b) == a + Init(b) && Last(a + b) == Last(b);
      EventsConcat(a, Init(b), parse);
      ConcatAssoc(EventsOf(a, parse), EventsOf(Init(b), parse), ToSeq(parse(Last(b))));
    }
  }

  lemma {:induction false} ConcatSplit(chunks: seq<string>, n: nat)
    requires n <= |chunks|
    ensures Concat(chunks) == Concat(chunks[..n]) + Concat(chunks[n..])
    decreases |chunks|
  {
    if n == |chunks| {
      assert chunks[..n] == chunks;
    } else {
      ConcatSplit(Init(chunks), n);
      assert Init(chunks)[..n] == chunks[..n] && Init(chunks)[n..] == Init(chunks[n..]);
    }
  }

  /** Delivers the events of `frames` after `seen` earlier attempts, all accepted. */
  method DeliverFrames(frames: seq<string>, parse: FrameParser, accepts: nat -> bool, seen: seq<SseEvent>)
    returns (attempts: seq<SseEvent>, failed: bool)
    requires forall k :: 0 <= k < |seen| ==> accepts(k)
    ensures DeliveredUntilFailure(attempts, seen + EventsOf(frames, parse), accepts, failed)
  {
    attempts, failed := seen, false;
    for i := 0 to |frames|
      invariant attempts == seen + EventsOf(frames[..i], parse)
      invariant forall k :: 0 <= k < |attempts| ==> accepts(k)
    {
      assert Init(frames[..i + 1]) == frames[..i];
      var parsed := parse(frames[i]);
      if parsed.Some? {
        attempts := attempts + [parsed.value];
        EventsPrefix(frames, i + 1, parse);
        if !accepts(|attempts| - 1) {
          failed := true;
          return;
        }
      }
    }
    assert frames[..|frames|] == frames;
  }

  /** Of the text read so far, `done` are the finished frames and `buffer` is the rest. */
  ghost predicate Framed(text: string, done: seq<string>, buffer: string) {
    Split(text) == done + [buffer]
  }

  lemma FramedGrows(text: string, done: seq<string>, buffer: string, chunk: string)
    requires Framed(text, done, buffer)
    ensures var frames := Split(buffer + chunk); Framed(text + chunk, done + Init(frames), Last(frames))
  {
    SplitAppend(text, chunk);
    InitSnoc(done, buffer);
    var frames := Split(buffer + chunk);
    InitLast(frames);
    ConcatAssoc(done, Init(frames), [Last(frames)]);
  }

  lemma ConcatOne(chunks: seq<string>, i: nat)
    requires i < |chunks|
    ensures Concat(chunks[..i + 1]) == Concat(chunks[..i]) + chunks[i]
  {
    assert Init(chunks[..i + 1]) == chunks[..i] && Last(chunks[..i + 1]) == chunks[i];
  }

  lemma NextChunk(chunks: seq<string>, i: nat, done: seq<string>, buffer: string, parse: FrameParser)
    requires i < |chunks| && Framed(Concat(chunks[..i]), done, buffer)
    ensures var frames := Split(buffer + chunks[i]);
            && Framed(Concat(chunks[..i + 1]), done + Init(frames), Last(frames))
            && EventsOf(done + Init(frames), parse) == EventsOf(done, parse) + EventsOf(Init(frames), parse)
  {
    ConcatOne(chunks, i);
    FramedGrows(Concat(chunks[..i]), done, buffer, chunks[i]);
    EventsConcat(done, Init(Split(buffer + chunks[i])), parse);
  }

  /** Frames finished after the first `n` chunks come first in the whole text. */
  lemma EarlierFramesFirst(chunks: seq<string>, n: nat, done: seq<string>, buffer: string, end: BodyEnd,
      parse: FrameParser)
    requires n <= |chunks| && Framed(Concat(chunks[..n]), done, buffer)
    ensures EventsOf(done, parse) <= EventsOf(ReferenceFrames(Concat(chunks), end), parse)
  {
    ConcatSplit(chunks, n);
    var rest := Concat(chunks[n..]);
    FramedGrows(Concat(chunks[..n]), done, buffer, rest);
    var all := ReferenceFrames(Concat(chunks), end);
    assert all[..|done|] == done;
    EventsPrefix(all, |done|, parse);
  }

  /** After the last chunk only the buffer is left, and an empty one is no event. */
  lemma ReferenceAtEnd(text: string, done: seq<string>, buffer: string, end: BodyEnd, parse: FrameParser)
    requires Framed(text, done, buffer) && parse("").None?
    ensures EventsOf(ReferenceFrames(text, end), parse)
         == EventsOf(done, parse) + (if end.Aborted? || buffer == "" then [] else EventsOf([buffer], parse))
  {
    assert Init(done + [buffer]) == done;
    EventsConcat(done, [buffer], parse);
    assert Init([buffer]) == [];
  }

  /** `runSseConnection`: whatever the chunk boundaries, the handler sees the events of the
      whole text cut at blank lines, up to the first event it rejects. */
  method RunSseConnection(chunks: seq<string>, end: BodyEnd, parse: FrameParser, accepts: nat -> bool)
    returns (attempts: seq<SseEvent>, failed: bool)
    requires parse("").None?
    ensures DeliveredUntilFailure(attempts, EventsOf(ReferenceFrames(Concat(chunks), end), parse), accepts, failed)
  {
    attempts, failed := [], false;
    var buffer := "";
    ghost var done: seq<string> := [];
    for i := 0 to |chunks|
      invariant Framed(Concat(chunks[..i]), done, buffer)
      invariant attempts == EventsOf(done, parse) && !failed
      invariant forall k :: 0 <= k < |attempts| ==> accepts(k)
    {
      NextChunk(chunks, i, done, buffer, parse);
      buffer := buffer + chunks[i];
      var frames := Split(buffer);
      buffer := Last(frames);
      done := done + Init(frames);
      attempts, failed := DeliverFrames(Init(frames), parse, accepts, attempts);
      if failed {
        EarlierFramesFirst(chunks, i + 1, done, buffer, end, parse);
        return;
      }
    }
    assert chunks[..|chunks|] == chunks;
    ReferenceAtEnd(Concat(chunks), done, buffer, end, parse);
    if !end.Aborted? && |buffer| > 0 {
      attempts, failed := DeliverFrames([buffer], parse, accepts, attempts);
    }
  }

  // ---------------------------------------------------------------- what a server sends

  /** The frame a server writes for an event, without the blank line that ends it. */
  function RenderFrame(e: SseEvent): string {
    "event: " + e.eventType + "\ndata: " + e.data
  }

  function StreamText(events: seq<SseEvent>): string {
    if events == [] then [] else RenderFrame(events[0]) + "\n\n" + StreamText(events[1..])
  }

  /** One trimmed line of text with LF framing only. */
  predicate PlainLine(s: string) {
    '\n' !in s && '\r' !in s && JsText.Trimmed(s)
  }

  /** The event can be written on single lines and its data carries its own cursor. */
  predicate Sendable(e: SseEvent, decode: Decoder) {
    && PlainLine(e.eventType) && PlainLine(e.data) && e.data != []
    && decode(e.data).Some? && CursorOf(decode(e.data).value) == e.cursor
  }

  lemma {:induction false} NormalizeKeepsLf(s: string)
    requires '\r' !in s
    ensures NormalizeNewlines(s) == s
  {
    if |s| >= 2 {
      NormalizeKeepsLf(s[1..]);
    }
  }

  lemma LinesOfTwo(a: string, b: string)
    requires '\n' !in a
    ensures Lines(a + "\n" + b) == [a] + Lines(b)
  {
    JsText.SplitOnConcat(a, b, '\n');
    JsText.SplitOnWord(a, '\n');
    assert a + "\n" + b == a + ['\n'] + b;
  }

  lemma TrimSpace(t: string)
    requires JsText.Trimmed(t)
    ensures JsText.Trim(" " + t) == t
  {
    assert (" " + t)[1..] == t;
    JsText.TrimmedIffFixed(t);
  }

  lemma RenderedFrameParses(e: SseEvent, decode: Decoder)
    requires Sendable(e, decode)
    ensures FrameEvent(RenderFrame(e), decode) == Some(e)
  {
    var first, second := "event: " + e.eventType, "data: " + e.data;
    var frame := RenderFrame(e);
    assert frame == first + "\n" + second;
    NormalizeKeepsLf(frame);
    LinesOfTwo(first, second);
    JsText.SplitOnWord(second, '\n');
    FieldsOfTwo(e.eventType, e.data);
    TrimSpace(e.data);
    assert Lines(frame) == [first, second];
  }

  lemma FieldsOfTwo(eventType: string, data: string)
    requires JsText.Trimmed(eventType)
    ensures FieldsOf(["event: " + eventType, "data: " + data]) == Fields(eventType, Some(" " + data))
  {
    var first, second := "event: " + eventType, "data: " + data;
    assert Init([first, second]) == [first] && Init([first]) == [];
    assert first[|"event:"|..] == " " + eventType && second[|"data:"|..] == " " + data;
    assert first[0] == 'e' && second[0] == 'd';
    TrimSpace(eventType);
    assert FieldsOf([first]) == Fields(eventType, None);
  }

  lemma {:induction false} BlankAfterFrame(a: string, b: string)
    requires FirstBlank(a) == |a| && (a != [] ==> Last(a) != '\n')
    ensures FirstBlank(a + "\n\n" + b) == |a|
  {
    var s := a + "\n\n" + b;
    if a != [] {
      assert s[1..] == a[1..] + "\n\n" + b;
      assert |a| >= 2 ==> FirstBlank(a) == 1 + FirstBlank(a[1..]);
      BlankAfterFrame(a[1..], b);
    }
  }

  lemma {:induction false} NoBlankInside(a: string)
    requires forall i :: 0 <= i < |a| - 1 ==> a[i] != '\n' || a[i + 1] != '\n'
    ensures FirstBlank(a) == |a|
  {
    if |a| >= 2 {
      assert a[0] != '\n' || a[0 + 1] != '\n';
      forall i | 0 <= i < |a[1..]| - 1
        ensures a[1..][i] != '\n' || a[1..][i + 1] != '\n'
      {
        assert a[i + 1] != '\n' || a[i + 1 + 1] != '\n';
      }
      NoBlankInside(a[1..]);
    }
  }

  lemma FrameEndsAtBlankLine(e: SseEvent, rest: string, decode: Decoder)
    requires Sendable(e, decode)
    ensures Split(RenderFrame(e) + "\n\n" + rest) == [RenderFrame(e)] + Split(rest)
  {
    var frame := RenderFrame(e);
    var n := |"event: " + e.eventType|;
    forall i | 0 <= i < |frame| && frame[i] == '\n'
      ensures i == n
    {
    }
    assert frame[n + 1] == 'd';
    NoBlankInside(frame);
    assert Last(frame) == Last(e.data);
    BlankAfterFrame(frame, rest);
    var s := frame + "\n\n" + rest;
    assert s[..|frame|] == frame && s[|frame| + 2..] == rest;
  }

  lemma EmptyStream(parse: FrameParser)
    requires parse("").None?
    ensures EventsOf(Split(""), parse) == []
  {
    assert Split("") == [""] && Init([""]) == [];
  }

  /** Writing events as frames and reading the text back gives the events. */
  lemma {:induction false} StreamRoundTrip(events: seq<SseEvent>, decode: Decoder)
    requires forall i :: 0 <= i < |events| ==> Sendable(events[i], decode)
    ensures EventsOf(Split(StreamText(events)), ParserOf(decode)) == events
  {
    if events == [] {
      EmptyStream(ParserOf(decode));
    } else {
      FrameFirst(events[0], StreamText(events[1..]), decode);
      StreamRoundTrip(events[1..], decode);
      assert events == [events[0]] + events[1..];
    }
  }

  // ---------------------------------------------------------------- a body cut anywhere

  /** Data that decodes has no proper beginning that does, as for JSON objects. */
  ghost predicate RejectsBeginnings(data: string, decode: Decoder) {
    forall k :: 0 <= k < |data| ==> decode(data[..k]).None?
  }

  ghost predicate Cuttable(e: SseEvent, decode: Decoder) {
    Sendable(e, decode) && RejectsBeginnings(e.data, decode)
  }

  /** A beginning of the frame of an event, possibly with the first newline after it. */
  lemma CutFrame(e: SseEvent, n: nat, decode: Decoder)
    requires Sendable(e, decode) && RejectsBeginnings(e.data, decode)
    requires n <= |RenderFrame(e)| + 1
    ensures FirstBlank((RenderFrame(e) + "\n")[..n]) == n
    ensures FrameEvent((RenderFrame(e) + "\n")[..n], decode) in {None, Some(e)}
  {
    var first, second := "event: " + e.eventType, "data: " + e.data;
    var whole := RenderFrame(e) + "\n";
    var text := whole[..n];
    assert whole == first + "\n" + second + "\n";
    OneNewlineInside(e);
    NoBlankInside(text);
    assert '\r' !in text;
    NormalizeKeepsLf(text);
    if n <= |first| {
      assert text == first[..n];
      JsText.SplitOnWord(text, '\n');
      CutEventLine(text, e.eventType);
    } else {
      var m := n - |first| - 1;
      assert text == first + "\n" + (second + "\n")[..m];
      LinesOfTwo(first, (second + "\n")[..m]);
      CutDataLine(e, m, decode);
    }
  }

  /** The only newline of a rendered frame stands before its data. */
  lemma OneNewlineInside(e: SseEvent)
    requires PlainLine(e.eventType) && PlainLine(e.data) && e.data != []
    ensures var whole := RenderFrame(e) + "\n";
            forall i :: 0 <= i < |whole| - 1 ==> whole[i] != '\n' || whole[i + 1] != '\n'
    ensures '\r' !in RenderFrame(e)
  {
    var whole, n := RenderFrame(e) + "\n", |"event: " + e.eventType|;
    assert whole[n + 1] == 'd' && whole[|whole| - 2] == Last(e.data);
    forall i | 0 <= i < |whole| - 1 && whole[i] == '\n'
      ensures i == n
    {
    }
  }

  lemma CutEventLine(text: string, eventType: string)
    requires text <= "event: " + eventType
    ensures FieldsOf([text]).data.None?
  {
    assert Init([text]) == [];
    assert text != [] ==> text[0] == 'e';
  }

  lemma CutDataLine(e: SseEvent, m: nat, decode: Decoder)
    requires Sendable(e, decode) && RejectsBeginnings(e.data, decode)
    requires m <= |"data: " + e.data| + 1
    ensures var lines := ["event: " + e.eventType] + Lines(("data: " + e.data + "\n")[..m]);
            EventOf(FieldsOf(lines), decode) in {None, Some(e)}
  {
    var first, second := "event: " + e.eventType, "data: " + e.data;
    if m == |second| + 1 {
      assert (second + "\n")[..m] == second + "\n" + "";
      LinesOfTwo(second, "");
      assert [first] + ([second] + [""]) == [first, second, ""];
      WholeFrame(e, decode);
    } else {
      var cut := second[..m];
      assert (second + "\n")[..m] == cut;
      JsText.SplitOnWord(cut, '\n');
      assert [first] + [cut] == [first, cut];
      if m < |second| {
        CutIsNoEvent(e, m, decode);
      } else {
        assert cut == second;
        WholeFrame(e, decode);
      }
    }
  }

  lemma WholeFrame(e: SseEvent, decode: Decoder)
    requires Sendable(e, decode)
    ensures var first, second := "event: " + e.eventType, "data: " + e.data;
            && EventOf(FieldsOf([first, second]), decode) == Some(e)
            && EventOf(FieldsOf([first, second, ""]), decode) == Some(e)
  {
    var first, second := "event: " + e.eventType, "data: " + e.data;
    FieldsOfTwo(e.eventType, e.data);
    TrimSpace(e.data);
    assert Init([first, second, ""]) == [first, second];
  }

  lemma CutIsNoEvent(e: SseEvent, m: nat, decode: Decoder)
    requires Sendable(e, decode) && RejectsBeginnings(e.data, decode) && m < |"data: " + e.data|
    ensures EventOf(FieldsOf(["event: " + e.eventType, ("data: " + e.data)[..m]]), decode) == None
  {
    var cut := ("data: " + e.data)[..m];
    CutFields(e.eventType, cut);
    if m >= 6 {
      assert cut == "data: " + e.data[..m - 6];
      CutData(e.data, m - 6, decode);
      assert cut[5..] == " " + e.data[..m - 6];
    } else if m == 5 {
      assert cut[5..] == "" == e.data[..0];
    }
  }

  /** The fields of an event line and a second line that may be cut short. */
  lemma CutFields(eventType: string, cut: string)
    ensures FieldsOf(["event: " + eventType, cut]).data ==
            if ":" <= cut || "event:" <= cut || !("data:" <= cut) then None else Some(cut[5..])
  {
    var first := "event: " + eventType;
    assert Init([first, cut]) == [first] && Init([first]) == [];
    assert first[0] == 'e' && first[..6] == "event:";
    assert FieldsOf([first]).data.None?;
  }

  lemma CutData(data: string, k: nat, decode: Decoder)
    requires PlainLine(data) && k < |data| && RejectsBeginnings(data, decode)
    ensures decode(JsText.Trim(" " + data[..k])).None?
  {
    var cut := data[..k];
    assert (" " + cut)[1..] == cut;
    assert k > 0 ==> cut[0] == data[0];
    assert JsText.TrimStart(" " + cut) == cut;
    JsText.TrimEndKeepsStart(cut);
    var t := JsText.TrimEnd(cut);
    assert t == data[..|t|];
  }

  lemma OneFrame(text: string, parse: FrameParser)
    requires FirstBlank(text) == |text|
    ensures EventsOf(Split(text), parse) == ToSeq(parse(text))
  {
    assert Init([text]) == [];
  }

  lemma FrameFirst(e: SseEvent, rest: string, decode: Decoder)
    requires Sendable(e, decode)
    ensures EventsOf(Split(RenderFrame(e) + "\n\n" + rest), ParserOf(decode)) ==
            [e] + EventsOf(Split(rest), ParserOf(decode))
  {
    var frame := RenderFrame(e);
    FrameEndsAtBlankLine(e, rest, decode);
    RenderedFrameParses(e, decode);
    EventsConcat([frame], Split(rest), ParserOf(decode));
    assert Init([frame]) == [];
  }

  lemma CutFrameDelivers(e: SseEvent, n: nat, decode: Decoder)
    requires Cuttable(e, decode) && n <= |RenderFrame(e)| + 1
    ensures EventsOf(Split((RenderFrame(e) + "\n")[..n]), ParserOf(decode)) in {[], [e]}
  {
    CutFrame(e, n, decode);
    OneFrame((RenderFrame(e) + "\n")[..n], ParserOf(decode));
  }

  lemma CutText(e: SseEvent, rest: string, n: nat)
    requires n <= |RenderFrame(e) + "\n\n" + rest|
    ensures var frame := RenderFrame(e);
            (frame + "\n\n" + rest)[..n] ==
            if n >= |frame| + 2 then frame + "\n\n" + rest[..n - |frame| - 2] else (frame + "\n")[..n]
  {
  }

  lemma CutStep(e: SseEvent, tail: seq<SseEvent>, rest: string, n: nat, decode: Decoder)
    requires Cuttable(e, decode)
    requires n <= |RenderFrame(e) + "\n\n" + rest|
    requires var m := n - |RenderFrame(e)| - 2; m >= 0 ==> EventsOf(Split(rest[..m]), ParserOf(decode)) <= tail
    ensures EventsOf(Split((RenderFrame(e) + "\n\n" + rest)[..n]), ParserOf(decode)) <= [e] + tail
  {
    CutText(e, rest, n);
    var m := n - |RenderFrame(e)| - 2;
    if m >= 0 {
      FrameFirst(e, rest[..m], decode);
    } else {
      CutFrameDelivers(e, n, decode);
    }
  }

  /** However the body is cut, what is delivered is a first part of the events sent: the leftover
      of a cut frame is no event, or the whole one. */
  lemma {:induction false} CutStreamDeliversPrefix(events: seq<SseEvent>, n: nat, decode: Decoder)
    requires forall i :: 0 <= i < |events| ==> Cuttable(events[i], decode)
    requires n <= |StreamText(events)|
    ensures EventsOf(Split(StreamText(events)[..n]), ParserOf(decode)) <= events
  {
    if events == [] {
      assert StreamText(events)[..n] == "";
      EmptyStream(ParserOf(decode));
    } else {
      var e, tail := events[0], events[1..];
      var m := n - |RenderFrame(e)| - 2;
      assert StreamText(events) == RenderFrame(e) + "\n\n" + StreamText(tail);
      if m >= 0 {
        CutStreamDeliversPrefix(tail, m, decode);
      }
      CutStep(e, tail, StreamText(tail), n, decode);
      assert events == [e] + tail;
    }
  }
}
