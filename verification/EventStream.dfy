/**
  The web UI's event-stream readers, `streamChat` and `streamLive`: text arrives in chunks cut anywhere,
  a buffer carries what is not finished, and a frame ends at a blank line.
*/
module EventStream {
  import opened Bytes

  /** A JavaScript string, as its UTF-16 code units. */
  type Unit = u: int | 0 <= u < 65536
  type Text = seq<Unit>

  const NL: Unit := 10
  /** `data:` */
  const DATA: Text := [100, 97, 116, 97, 58]

  datatype Tag = Done | Stopped | Error | Other

  /** What `JSON.parse` makes of a payload. Only `null` cannot be asked for its `type`. */
  datatype Json = Malformed | Null | Value(tag: Tag, body: Text)

  predicate Terminal(e: Json) {
    e.Value? && (e.tag == Done || e.tag == Stopped || e.tag == Error)
  }

  // ----- frames

  function Prepend(u: Unit, parts: seq<Text>): (r: seq<Text>)
    requires |parts| >= 1
    ensures |r| == |parts|
  {
    [[u] + parts[0]] + parts[1..]
  }

  predicate Break(s: Text) {
    |s| >= 2 && s[0] == NL && s[1] == NL
  }

  /** `text.split('\n\n')`: cut at each blank line, leftmost first. */
  function Frames(s: Text): (parts: seq<Text>)
    ensures |parts| >= 1
    decreases |s|
  {
    if s == [] then [[]]
    else if Break(s) then [[]] + Frames(s[2..])
    else Prepend(s[0], Frames(s[1..]))
  }

  function Front(parts: seq<Text>): seq<Text>
    requires |parts| >= 1
  {
    parts[..|parts| - 1]
  }

  function Last(parts: seq<Text>): Text
    requires |parts| >= 1
  {
    parts[|parts| - 1]
  }

  lemma {:induction false} SingleFrame(s: Text)
    requires |Frames(s)| == 1
    ensures Frames(s) == [s]
    decreases |s|
  {
    if s != [] {
      SingleFrame(s[1..]);
      assert [s[0]] + s[1..] == s;
    }
  }

  /** Cutting is incremental: finished frames stay, and only the last part goes on with the next chunk. */
  lemma {:induction false} FramesAppend(a: Text, b: Text)
    ensures Frames(a + b) == Front(Frames(a)) + Frames(Last(Frames(a)) + b)
    decreases |a|
  {
    hide Frames;
    if |Frames(a)| == 1 {
      SingleFrame(a);
      assert Front([a]) + Frames(a + b) == Frames(a + b);
    } else if a == [] {
      FramesOfNothing();
    } else if Break(a) {
      FramesAppend(a[2..], b);
      FramesBreak(a);
      FramesBreak(a + b);
      assert (a + b)[2..] == a[2..] + b;
      FrontBreak(Frames(a[2..]), Frames(Last(Frames(a[2..])) + b));
    } else {
      FramesAppend(a[1..], b);
      FramesKeep(a);
      assert |a| > 1 by {
        if |a| == 1 {
          assert a[1..] == [];
          FramesOfNothing();
        }
      }
      FramesKeep(a + b);
      assert (a + b)[1..] == a[1..] + b;
      FrontKeep(a[0], Frames(a[1..]), Frames(Last(Frames(a[1..])) + b));
    }
  }

  lemma FrontBreak(rest: seq<Text>, tail: seq<Text>)
    requires |rest| >= 1
    ensures [[]] + (Front(rest) + tail) == Front([[]] + rest) + tail && Last([[]] + rest) == Last(rest)
  {
  }

  lemma FrontKeep(u: Unit, rest: seq<Text>, tail: seq<Text>)
    requires |rest| > 1
    ensures Prepend(u, Front(rest) + tail) == Front(Prepend(u, rest)) + tail && Last(Prepend(u, rest)) == Last(rest)
  {
  }

  lemma FramesBreak(s: Text)
    requires Break(s)
    ensures Frames(s) == [[]] + Frames(s[2..])
  {
  }

  lemma FramesKeep(s: Text)
    requires s != [] && !Break(s)
    ensures Frames(s) == Prepend(s[0], Frames(s[1..]))
  {
  }

  /** A text without a blank line. */
  predicate Unbroken(s: Text) {
    forall i :: 0 <= i < |s| - 1 ==> !(s[i] == NL && s[i + 1] == NL)
  }

  /** Frames as a server writes them, each but the last ended by a blank line. */
  function Sent(parts: seq<Text>): Text
    requires |parts| >= 1
  {
    if |parts| == 1 then parts[0] else parts[0] + [NL, NL] + Sent(parts[1..])
  }

  /** Frames that hold no blank line, and of which only the last may end in a newline. */
  predicate Sendable(parts: seq<Text>) {
    && |parts| >= 1
    && Unbroken(parts[|parts| - 1])
    && forall i :: 0 <= i < |parts| - 1 ==> Unbroken(parts[i] + [NL])
  }

  /** Cutting what was sent gives back the frames, and every text is sent by exactly the frames it is cut into. */
  lemma {:induction false} FramesOfSent(parts: seq<Text>)
    requires Sendable(parts)
    ensures Frames(Sent(parts)) == parts
  {
    if |parts| == 1 {
      UnbrokenFrame(parts[0]);
    } else {
      assert parts[1..][|parts| - 2] == parts[|parts| - 1];
      FramesOfSent(parts[1..]);
      FramePrefix(parts[0], Sent(parts[1..]));
      assert [parts[0]] + parts[1..] == parts;
    }
  }

  lemma {:induction false} UnbrokenFrame(s: Text)
    requires Unbroken(s)
    ensures Frames(s) == [s]
    decreases |s|
  {
    if s != [] {
      assert !Break(s);
      UnbrokenFrame(s[1..]);
      assert [s[0]] + s[1..] == s;
    }
  }

  lemma {:induction false} FramePrefix(p: Text, rest: Text)
    requires Unbroken(p + [NL])
    ensures Frames(p + [NL, NL] + rest) == [p] + Frames(rest)
    decreases |p|
  {
    var s := p + [NL, NL] + rest;
    if p == [] {
      assert s[2..] == rest;
    } else {
      assert s[0] == (p + [NL])[0] && s[1] == (p + [NL])[1];
      assert p[1..] + [NL] == (p + [NL])[1..];
      FramePrefix(p[1..], rest);
      assert s[1..] == p[1..] + [NL, NL] + rest;
      assert [p[0]] + p[1..] == p;
    }
  }

  lemma {:induction false} SentByItsFrames(s: Text)
    ensures Sendable(Frames(s)) && Sent(Frames(s)) == s
    decreases |s|
  {
    if s == [] {
    } else if Break(s) {
      SentByItsFrames(s[2..]);
      BreakSent(Frames(s[2..]));
      assert s == [NL, NL] + s[2..];
    } else {
      SentByItsFrames(s[1..]);
      PrependSent(s[0], Frames(s[1..]));
      assert [s[0]] + s[1..] == s;
    }
  }

  lemma BreakSent(rest: seq<Text>)
    requires Sendable(rest)
    ensures Sendable([[]] + rest) && Sent([[]] + rest) == [NL, NL] + Sent(rest)
  {
    var parts := [[]] + rest;
    assert parts[1..] == rest;
    assert parts[|parts| - 1] == rest[|rest| - 1];
    forall i | 0 <= i < |parts| - 1
      ensures Unbroken(parts[i] + [NL])
    {
      assert i > 0 ==> parts[i] == rest[i - 1];
    }
  }

  lemma PrependSent(u: Unit, parts: seq<Text>)
    requires Sendable(parts) && !Break([u] + Sent(parts))
    ensures Sendable(Prepend(u, parts)) && Sent(Prepend(u, parts)) == [u] + Sent(parts)
  {
    var r := Prepend(u, parts);
    if |parts| > 1 {
      assert r[1..] == parts[1..];
      assert Sent(parts) == parts[0] + [NL, NL] + Sent(parts[1..]);
      assert ([u] + Sent(parts))[1] == (parts[0] + [NL])[0];
      assert r[0] + [NL] == [u] + (parts[0] + [NL]);
      assert Unbroken(parts[0] + [NL]);
      assert Unbroken(r[0] + [NL]);
      assert r[|r| - 1] == parts[|parts| - 1];
    } else if parts[0] != [] {
      assert ([u] + Sent(parts))[1] == parts[0][0];
    }
  }

  // ----- one frame

  /** JavaScript's white space and line terminators. */
  predicate Space(u: Unit) {
    || 9 <= u <= 13 || u == 32 || u == 0xA0 || u == 0x1680 || 0x2000 <= u <= 0x200A
    || u == 0x2028 || u == 0x2029 || u == 0x202F || u == 0x205F || u == 0x3000 || u == 0xFEFF
  }

  /** The table, character by character. */
  lemma SpaceMeans(u: Unit)
    ensures Space(u) <==> u in {
              9, 10, 11, 12, 13, 32, 0xA0, 0x1680, 0x2000, 0x2001, 0x2002, 0x2003, 0x2004, 0x2005, 0x2006, 0x2007, 0x2008,
              0x2009, 0x200A, 0x2028, 0x2029, 0x202F, 0x205F, 0x3000, 0xFEFF}
  {
  }

  function TrimText(s: Text): (t: Text)
    ensures t == [] <==> forall u :: u in s ==> Space(u)
    ensures t != [] ==> !Space(t[0]) && !Space(t[|t| - 1])
    decreases |s|
  {
    if s == [] then []
    else if Space(s[0]) then
      assert s == [s[0]] + s[1..];
      TrimText(s[1..])
    else if Space(s[|s| - 1]) then
      assert s == s[..|s| - 1] + [s[|s| - 1]];
      assert s[..|s| - 1][0] == s[0];
      TrimText(s[..|s| - 1])
    else s
  }

  /** `line` stands at `i` and no line before it opens with `data:`. */
  ghost predicate FirstAt(lines: seq<Text>, line: Text, i: int) {
    0 <= i < |lines| && lines[i] == line && forall j :: 0 <= j < i ==> !(DATA <= lines[j])
  }

  /** The first line that opens with `data:`. */
  function FirstData(lines: seq<Text>): (line: Option<Text>)
    ensures line.Some? ==> DATA <= line.value && line.value in lines
    ensures line.Some? ==> exists i :: FirstAt(lines, line.value, i)
    ensures line.None? ==> forall i :: 0 <= i < |lines| ==> !(DATA <= lines[i])
  {
    if lines == [] then None
    else if DATA <= lines[0] then
      assert FirstAt(lines, lines[0], 0);
      Some(lines[0])
    else
      var rest := FirstData(lines[1..]);
      assert rest.Some? ==> exists i :: FirstAt(lines, rest.value, i) by {
        if rest.Some? {
          var i :| FirstAt(lines[1..], rest.value, i);
          assert forall j :: 0 < j < |lines| ==> lines[j] == lines[1..][j - 1];
          assert FirstAt(lines, rest.value, i + 1);
        }
      }
      rest
  }

  /** The payload of a frame: its first data line, trimmed, unless nothing is left of it. */
  function Payload(frame: Text): Option<Text> {
    var line := FirstData(SplitOn(frame, NL));
    if line.None? || TrimText(line.value[|DATA|..]) == [] then None
    else Some(TrimText(line.value[|DATA|..]))
  }

  // ----- what a frame carries

  predicate Spaces(s: Text) {
    forall i :: 0 <= i < |s| ==> Space(s[i])
  }

  /** `t`, which neither starts nor ends with white space, with white space around it. */
  ghost predicate Padded(s: Text, front: Text, t: Text, back: Text) {
    && s == front + t + back && Spaces(front) && Spaces(back)
    && (t != [] ==> !Space(t[0]) && !Space(t[|t| - 1]))
  }

  lemma {:induction false} TrimUndoesPadding(s: Text, front: Text, t: Text, back: Text)
    requires Padded(s, front, t, back) && t != []
    ensures TrimText(s) == t
    decreases |s|
  {
    hide Space;
    if front != [] {
      assert s[0] == front[0];
      assert s[1..] == front[1..] + t + back;
      TrimUndoesPadding(s[1..], front[1..], t, back);
    } else if back != [] {
      assert s[0] == t[0] && s[|s| - 1] == back[|back| - 1];
      assert s[..|s| - 1] == front + t + back[..|back| - 1];
      TrimUndoesPadding(s[..|s| - 1], front, t, back[..|back| - 1]);
    } else {
      assert s == t;
    }
  }

  lemma {:induction false} TrimPads(s: Text) returns (front: Text, back: Text)
    ensures Padded(s, front, TrimText(s), back)
    decreases |s|
  {
    hide Space, Padded;
    if s == [] {
      front, back := [], [];
      PadNothing(s);
    } else if Space(s[0]) {
      front, back := TrimPads(s[1..]);
      PadFront(s, front, TrimText(s), back);
      front := [s[0]] + front;
    } else if Space(s[|s| - 1]) {
      front, back := TrimPads(s[..|s| - 1]);
      PadBack(s, front, TrimText(s), back);
      back := back + [s[|s| - 1]];
    } else {
      front, back := [], [];
      PadNothing(s);
    }
  }

  lemma PadNothing(s: Text)
    requires s != [] ==> !Space(s[0]) && !Space(s[|s| - 1])
    ensures Padded(s, [], s, [])
  {
    assert [] + s + [] == s;
  }

  lemma PadFront(s: Text, front: Text, t: Text, back: Text)
    requires s != [] && Space(s[0]) && Padded(s[1..], front, t, back)
    ensures Padded(s, [s[0]] + front, t, back)
  {
    hide Space;
    assert s == [s[0]] + (front + t + back) == [s[0]] + front + t + back;
  }

  lemma PadBack(s: Text, front: Text, t: Text, back: Text)
    requires s != [] && Space(s[|s| - 1]) && Padded(s[..|s| - 1], front, t, back)
    ensures Padded(s, front, t, back + [s[|s| - 1]])
  {
    hide Space;
    var last := [s[|s| - 1]];
    assert s == s[..|s| - 1] + last;
    assert s == (front + t + back) + last == front + t + (back + last);
  }

  /** The first data line of these lines, the one at `i`, carries `t`. */
  ghost predicate Carries(lines: seq<Text>, i: int, t: Text) {
    && 0 <= i < |lines| && FirstAt(lines, lines[i], i) && DATA <= lines[i]
    && t != [] && exists front, back :: Padded(lines[i][5..], front, t, back)
  }

  /** A frame delivers exactly what the text its first data line carries parses to, if it parses. */
  lemma FrameMeans(parse: Text -> Json, lines: seq<Text>, e: Json)
    requires |lines| >= 1 && forall i :: 0 <= i < |lines| ==> NL !in lines[i]
    ensures LiveFrame(parse, Join(lines, NL)) == [e] <==>
            e != Malformed && exists i, t :: Carries(lines, i, t) && parse(t) == e
    ensures |LiveFrame(parse, Join(lines, NL))| <= 1
  {
    SplitOnJoin(lines, NL);
    hide Space, SplitOn, Join, FirstData, TrimText, FirstAt, Padded;
    var line := FirstData(lines);
    if line.Some? {
      var i :| FirstAt(lines, line.value, i);
      FirstIsFirst(lines, line.value, i);
      var rest := line.value[5..];
      var front, back := TrimPads(rest);
      var mine := TrimText(rest);
      assert mine != [] ==> Carries(lines, i, mine);
      forall j, t | Carries(lines, j, t)
        ensures t == mine
      {
        FirstIsFirst(lines, lines[j], j);
        SameFirst(lines, i, j);
        var f, b :| Padded(lines[j][5..], f, t, b);
        TrimUndoesPadding(rest, f, t, b);
      }
    }
  }

  lemma FirstIsFirst(lines: seq<Text>, line: Text, i: int)
    requires FirstAt(lines, line, i)
    ensures 0 <= i < |lines| && lines[i] == line
  {
  }

  lemma SameFirst(lines: seq<Text>, i: nat, j: nat)
    requires i < |lines| && j < |lines| && DATA <= lines[i] && DATA <= lines[j]
    requires FirstAt(lines, lines[i], i) && FirstAt(lines, lines[j], j)
    ensures i == j
  {
  }

  /** What `streamLive` delivers for a frame: whatever parses. */
  function LiveFrame(parse: Text -> Json, frame: Text): seq<Json> {
    var payload := Payload(frame);
    if payload.None? || parse(payload.value) == Malformed then [] else [parse(payload.value)]
  }

  /** What `streamChat` delivers: asking `null` for its type throws, inside the handler that ignores it. */
  function ChatFrame(parse: Text -> Json, frame: Text): seq<Json> {
    if LiveFrame(parse, frame) == [Null] then [] else LiveFrame(parse, frame)
  }

  function LiveEach(parse: Text -> Json): Text -> seq<Json> {
    frame => LiveFrame(parse, frame)
  }

  function ChatEach(parse: Text -> Json): Text -> seq<Json> {
    frame => ChatFrame(parse, frame)
  }

  function Deliver(each: Text -> seq<Json>, frames: seq<Text>): seq<Json> {
    if frames == [] then [] else Deliver(each, frames[..|frames| - 1]) + each(frames[|frames| - 1])
  }

  lemma {:induction false} DeliverAppend(each: Text -> seq<Json>, a: seq<Text>, b: seq<Text>)
    ensures Deliver(each, a + b) == Deliver(each, a) + Deliver(each, b)
    decreases |b|
  {
    if b == [] {
      assert a + b == a;
    } else {
      var b' := b[..|b| - 1];
      assert (a + b)[..|a + b| - 1] == a + b';
      DeliverAppend(each, a, b');
    }
  }

  // ----- the whole text at once

  function Whole(chunks: seq<Text>): Text {
    if chunks == [] then [] else Whole(chunks[..|chunks| - 1]) + chunks[|chunks| - 1]
  }

  /** The events of a text cut once: all its frames, the unfinished last one too. */
  function ChatEvents(parse: Text -> Json, text: Text): seq<Json> {
    Deliver(ChatEach(parse), Frames(text))
  }

  function LiveEvents(parse: Text -> Json, text: Text): seq<Json> {
    Deliver(LiveEach(parse), Front(Frames(text)))
  }

  datatype ChatEnd = Returned | Aborted | NoTerminal | ReadFailed
  datatype LiveEnd = Closed | LiveReadFailed | HandlerThrew

  /** An event that ends a chat has been delivered: `done`, `stopped` or `error`. */
  predicate Ended(events: seq<Json>) {
    exists i :: 0 <= i < |events| && events[i].Value? && events[i].tag in {Done, Stopped, Error}
  }

  /** One frame of `streamChat`: find the data line, parse it, note a terminal event, hand it over. */
  method EmitFrame(parse: Text -> Json, frame: Text, before: seq<Json>, seen: bool)
    returns (events: seq<Json>, terminalSeen: bool)
    requires seen == Ended(before)
    ensures events == before + ChatFrame(parse, frame)
    ensures terminalSeen == Ended(events)
  {
    events, terminalSeen := before, seen;
    var line := FirstData(SplitOn(frame, NL));
    if line.None? {
      return;
    }
    var json := TrimText(line.value[|DATA|..]);
    if json == [] {
      return;
    }
    var parsed := parse(json);
    if parsed == Malformed || parsed == Null {
      return;
    }
    events := events + [parsed];
    assert forall i :: 0 <= i < |before| ==> events[i] == before[i];
    if Terminal(parsed) {
      terminalSeen := true;
      assert Terminal(events[|before|]);
    }
  }

  /** Every part of a buffer but the last, in order. */
  method EmitFrames(parse: Text -> Json, parts: seq<Text>, before: seq<Json>, seen: bool)
    returns (events: seq<Json>, terminalSeen: bool)
    requires seen == Ended(before)
    ensures events == before + Deliver(ChatEach(parse), parts)
    ensures terminalSeen == Ended(events)
  {
    hide ChatFrame;
    events, terminalSeen := before, seen;
    ghost var each := ChatEach(parse);
    for k := 0 to |parts|
      invariant events == before + Deliver(each, parts[..k])
      invariant terminalSeen == Ended(events)
    {
      events, terminalSeen := EmitFrame(parse, parts[k], events, terminalSeen);
      assert parts[..k + 1][..k] == parts[..k];
      assert events == before + (Deliver(each, parts[..k]) + each(parts[k]));
    }
    assert parts[..|parts|] == parts;
  }

  /** `streamChat` after its response has opened: `chunks` is what the reader yields before it is done,
      or before a read fails. What is delivered does not depend on where the chunks are cut. */
  method StreamChat(parse: Text -> Json, chunks: seq<Text>, readFails: bool, aborted: bool)
    returns (events: seq<Json>, end: ChatEnd)
    ensures readFails ==> end == ReadFailed
    ensures readFails ==> events == Deliver(ChatEach(parse), Front(Frames(Whole(chunks))))
    ensures !readFails ==> events == ChatEvents(parse, Whole(chunks))
    ensures !readFails ==> (end == Returned <==>
              !aborted && exists i :: 0 <= i < |events| && events[i].Value? && events[i].tag in {Done, Stopped, Error})
    ensures !readFails ==> (end == Aborted <==> aborted) && end != ReadFailed
  {
    hide ChatFrame, Frames, Whole, Deliver, Front, Last, TrimText;
    var buffer: Text := [];
    var terminalSeen := false;
    events := [];
    ghost var each := ChatEach(parse);
    NoChunk(each, chunks);
    for n := 0 to |chunks|
      invariant buffer == Last(Frames(Whole(chunks[..n])))
      invariant events == Deliver(each, Front(Frames(Whole(chunks[..n]))))
      invariant terminalSeen == Ended(events)
    {
      NextChunk(each, chunks, n);
      buffer := buffer + chunks[n];
      var parts := Frames(buffer);
      buffer := Last(parts);
      events, terminalSeen := EmitFrames(parse, Front(parts), events, terminalSeen);
    }
    assert chunks[..|chunks|] == chunks;
    if readFails {
      return events, ReadFailed;
    }
    DeliverLast(each, Frames(Whole(chunks)));
    if TrimText(buffer) != [] {
      events, terminalSeen := EmitFrame(parse, buffer, events, terminalSeen);
    } else {
      BlankFrame(parse, buffer);
      assert events + [] == events;
    }
    end := if aborted then Aborted else if !terminalSeen then NoTerminal else Returned;
  }

  lemma NoChunk(each: Text -> seq<Json>, chunks: seq<Text>)
    ensures Last(Frames(Whole(chunks[..0]))) == []
    ensures Deliver(each, Front(Frames(Whole(chunks[..0])))) == []
  {
  }

  /** What one more chunk adds: the finished frames of the buffer it is appended to. */
  lemma NextChunk(each: Text -> seq<Json>, chunks: seq<Text>, n: nat)
    requires n < |chunks|
    ensures var sofar := Frames(Whole(chunks[..n]));
            var next := Frames(Whole(chunks[..n + 1]));
            var parts := Frames(Last(sofar) + chunks[n]);
            && Last(next) == Last(parts)
            && Front(next) == Front(sofar) + Front(parts)
            && Deliver(each, Front(next)) == Deliver(each, Front(sofar)) + Deliver(each, Front(parts))
  {
    hide Frames, Deliver;
    assert chunks[..n + 1][..n] == chunks[..n];
    FramesAppend(Whole(chunks[..n]), chunks[n]);
    var sofar := Frames(Whole(chunks[..n]));
    var parts := Frames(Last(sofar) + chunks[n]);
    DeliverAppend(each, Front(sofar), Front(parts));
    assert Front(Front(sofar) + parts) == Front(sofar) + Front(parts);
  }

  lemma DeliverLast(each: Text -> seq<Json>, parts: seq<Text>)
    requires |parts| >= 1
    ensures Deliver(each, parts) == Deliver(each, Front(parts)) + each(Last(parts))
  {
  }

  lemma FramesOfNothing()
    ensures Frames([]) == [[]]
  {
  }

  /** A blank rest holds no data line, so skipping it loses nothing. */
  lemma BlankFrame(parse: Text -> Json, frame: Text)
    requires TrimText(frame) == []
    ensures ChatFrame(parse, frame) == []
  {
    var line := FirstData(SplitOn(frame, NL));
    if line.Some? {
      SplitOnWithin(frame, NL, line.value, DATA[0]);
    }
  }

  lemma {:induction false} SplitOnWithin(s: Text, sep: Unit, part: Text, u: Unit)
    requires part in SplitOn(s, sep) && u in part
    ensures u in s
  {
    if s != [] {
      var rest := SplitOn(s[1..], sep);
      if part in rest {
        SplitOnWithin(s[1..], sep, part, u);
      } else if s[0] != sep && part == [s[0]] + rest[0] && u != s[0] {
        SplitOnWithin(s[1..], sep, rest[0], u);
      }
    }
  }

  /** The events up to and with the first one the handler throws on. */
  function UpToThrow(throws: Json -> bool, events: seq<Json>): seq<Json> {
    if events == [] then []
    else if throws(events[0]) then [events[0]]
    else [events[0]] + UpToThrow(throws, events[1..])
  }

  /** Delivery goes up to the first event the handler throws on, and with it; or to the end. */
  lemma {:induction false} UpToThrowMeans(throws: Json -> bool, events: seq<Json>)
    ensures var u := UpToThrow(throws, events);
            && u <= events && (forall i :: 0 <= i < |u| - 1 ==> !throws(u[i]))
            && (|u| < |events| ==> |u| > 0 && throws(u[|u| - 1]))
  {
    if events != [] && !throws(events[0]) {
      UpToThrowMeans(throws, events[1..]);
      assert events == [events[0]] + events[1..];
    }
  }

  /** What comes before is delivered whole if the handler throws on none of it. */
  lemma {:induction false} UpToThrowAppend(throws: Json -> bool, a: seq<Json>, b: seq<Json>)
    requires forall i :: 0 <= i < |a| ==> !throws(a[i])
    ensures UpToThrow(throws, a + b) == a + UpToThrow(throws, b)
  {
    if a == [] {
      assert a + b == b;
    } else {
      assert (a + b)[1..] == a[1..] + b;
      UpToThrowAppend(throws, a[1..], b);
      assert [a[0]] + a[1..] == a;
    }
  }

  /** `streamLive`: the finished frames, until the handler throws; what is left in the buffer is dropped. */
  method StreamLive(parse: Text -> Json, throws: Json -> bool, chunks: seq<Text>, readFails: bool)
    returns (events: seq<Json>, end: LiveEnd)
    ensures events == UpToThrow(throws, LiveEvents(parse, Whole(chunks)))
    ensures end == HandlerThrew <==>
            exists i :: 0 <= i < |LiveEvents(parse, Whole(chunks))| && throws(LiveEvents(parse, Whole(chunks))[i])
    ensures end == LiveReadFailed ==> readFails
    ensures end == Closed ==> !readFails
  {
    hide LiveFrame, Frames, Whole, Deliver, Front, Last, UpToThrow, ThrowsAtEnd;
    var buffer: Text := [];
    events := [];
    ghost var each := LiveEach(parse);
    NoChunk(each, chunks);
    for n := 0 to |chunks|
      invariant buffer == Last(Frames(Whole(chunks[..n])))
      invariant events == Deliver(each, Front(Frames(Whole(chunks[..n]))))
      invariant forall i :: 0 <= i < |events| ==> !throws(events[i])
    {
      ghost var done := Front(Frames(Whole(chunks[..n])));
      NextChunk(each, chunks, n);
      buffer := buffer + chunks[n];
      var parts := Front(Frames(buffer));
      buffer := Last(Frames(buffer));
      var threw;
      ghost var k;
      events, threw, k := HandOver(parse, throws, parts, events);
      if threw {
        DeliverAppend(each, done, parts[..k]);
        assert done + parts == (done + parts[..k]) + parts[k..];
        ThrownEarly(parse, throws, chunks, n, done + parts[..k], parts[k..], events);
        return events, HandlerThrew;
      }
      assert parts[..k] == parts;
    }
    assert chunks[..|chunks|] == chunks;
    NoThrow(throws, events);
    end := if readFails then LiveReadFailed else Closed;
  }

  lemma NoThrow(throws: Json -> bool, events: seq<Json>)
    requires forall i :: 0 <= i < |events| ==> !throws(events[i])
    ensures UpToThrow(throws, events) == events
  {
    UpToThrowAppend(throws, events, []);
    assert events + [] == events;
  }

  /** Only the last of `events` makes the handler throw. */
  ghost predicate ThrowsAtEnd(throws: Json -> bool, events: seq<Json>) {
    && |events| > 0 && throws(events[|events| - 1])
    && forall i :: 0 <= i < |events| - 1 ==> !throws(events[i])
  }

  /** The inner loop of `streamLive`: `k` of the frames were read when it ended. */
  method HandOver(parse: Text -> Json, throws: Json -> bool, parts: seq<Text>, before: seq<Json>)
    returns (events: seq<Json>, threw: bool, ghost k: nat)
    requires forall i :: 0 <= i < |before| ==> !throws(before[i])
    ensures k <= |parts| && events == before + Deliver(LiveEach(parse), parts[..k])
    ensures !threw ==> k == |parts| && forall i :: 0 <= i < |events| ==> !throws(events[i])
    ensures threw ==> ThrowsAtEnd(throws, events)
  {
    hide LiveFrame;
    events := before;
    ghost var each := LiveEach(parse);
    for j := 0 to |parts|
      invariant events == before + Deliver(each, parts[..j])
      invariant forall i :: 0 <= i < |events| ==> !throws(events[i])
    {
      assert parts[..j + 1][..j] == parts[..j];
      var found := ReadFrame(parse, parts[j]);
      assert before + (Deliver(each, parts[..j]) + found) == events + found;
      events := events + found;
      if found != [] && throws(found[0]) {
        return events, true, j + 1;
      }
    }
    return events, false, |parts|;
  }

  /** One frame of `streamLive`, before the handler is called. */
  method ReadFrame(parse: Text -> Json, frame: Text) returns (found: seq<Json>)
    ensures found == LiveFrame(parse, frame) && |found| <= 1
  {
    found := [];
    var line := FirstData(SplitOn(frame, NL));
    if line.Some? {
      var json := TrimText(line.value[|DATA|..]);
      if json != [] {
        var parsed := parse(json);
        if parsed != Malformed {
          found := [parsed];
        }
      }
    }
  }

  /** A handler that throws cuts the delivery off there, whatever frames and chunks would have come. */
  lemma ThrownEarly(parse: Text -> Json, throws: Json -> bool, chunks: seq<Text>, n: nat,
                    done: seq<Text>, left: seq<Text>, events: seq<Json>)
    requires n < |chunks| && Front(Frames(Whole(chunks[..n + 1]))) == done + left
    requires Deliver(LiveEach(parse), done) == events
    requires ThrowsAtEnd(throws, events)
    ensures events == UpToThrow(throws, LiveEvents(parse, Whole(chunks)))
    ensures exists i :: 0 <= i < |LiveEvents(parse, Whole(chunks))| && throws(LiveEvents(parse, Whole(chunks))[i])
  {
    hide LiveFrame, Frames, Front, Whole, Deliver, UpToThrow;
    var each := LiveEach(parse);
    var more := MoreFrames(chunks, n + 1);
    DeliverAppend(each, done, left + more);
    assert done + left + more == done + (left + more);
    var rest := Deliver(each, left + more);
    assert LiveEvents(parse, Whole(chunks)) == events + rest;
    CutAtThrow(throws, events, rest);
    assert throws((events + rest)[|events| - 1]);
  }

  lemma CutAtThrow(throws: Json -> bool, events: seq<Json>, rest: seq<Json>)
    requires ThrowsAtEnd(throws, events)
    ensures UpToThrow(throws, events + rest) == events
  {
    var before, last := events[..|events| - 1], events[|events| - 1];
    assert events + rest == before + ([last] + rest);
    UpToThrowAppend(throws, before, [last] + rest);
    assert UpToThrow(throws, [last] + rest) == [last];
  }

  /** Later chunks only add finished frames. */
  lemma {:induction false} MoreFrames(chunks: seq<Text>, n: nat) returns (more: seq<Text>)
    requires n <= |chunks|
    ensures Front(Frames(Whole(chunks))) == Front(Frames(Whole(chunks[..n]))) + more
    decreases |chunks|
  {
    hide Frames;
    if n == |chunks| {
      assert chunks[..n] == chunks;
      more := [];
    } else {
      var most := chunks[..|chunks| - 1];
      var more' := MoreFrames(most, n);
      assert most[..n] == chunks[..n];
      FramesAppend(Whole(most), chunks[|chunks| - 1]);
      var parts := Frames(Last(Frames(Whole(most))) + chunks[|chunks| - 1]);
      more := more' + Front(parts);
      assert Front(Front(Frames(Whole(most))) + parts) == Front(Frames(Whole(most))) + Front(parts);
    }
  }

  // ----- the two readers on the same text

  function NotNull(events: seq<Json>): seq<Json> {
    if events == [] then []
    else NotNull(events[..|events| - 1]) + (if events[|events| - 1] == Null then [] else [events[|events| - 1]])
  }

  lemma {:induction false} NotNullShrinks(events: seq<Json>)
    ensures |NotNull(events)| <= |events|
    ensures Null !in events ==> NotNull(events) == events
    ensures Null in events ==> |NotNull(events)| < |events|
  {
    if events != [] {
      NotNullStep(events);
      hide NotNull;
      NotNullShrinks(events[..|events| - 1]);
    }
  }

  lemma NotNullStep(events: seq<Json>)
    requires events != []
    ensures var most, last := events[..|events| - 1], events[|events| - 1];
            && NotNull(events) == (if last == Null then NotNull(most) else NotNull(most) + [last])
            && events == most + [last]
            && (Null in events <==> Null in most || last == Null)
  {
    var most, last := events[..|events| - 1], events[|events| - 1];
    assert events == most + [last];
    if Null in events {
      var i :| 0 <= i < |events| && events[i] == Null;
      assert i < |most| ==> most[i] == Null;
    }
  }

  lemma {:induction false} ChatIsLiveNotNull(parse: Text -> Json, frames: seq<Text>)
    ensures Deliver(ChatEach(parse), frames) == NotNull(Deliver(LiveEach(parse), frames))
    decreases |frames|
  {
    hide Payload;
    if frames != [] {
      var most, last := frames[..|frames| - 1], frames[|frames| - 1];
      ChatIsLiveNotNull(parse, most);
      var live := Deliver(LiveEach(parse), most);
      var found := LiveFrame(parse, last);
      if found == [] {
        assert live + found == live;
      } else {
        NotNullStep(live + found);
        assert (live + found)[..|live|] == live;
      }
    }
  }

  /** No finished frame of the text carries a payload that reads as `null`. */
  ghost predicate NoNullFrame(parse: Text -> Json, text: Text) {
    forall i :: 0 <= i < |Frames(text)| - 1 ==>
      !(Payload(Frames(text)[i]).Some? && parse(Payload(Frames(text)[i]).value) == Null)
  }

  /** What is delivered of some frames holds an event exactly when one of the frames carries it. */
  lemma {:induction false} DeliveredFrom(parse: Text -> Json, frames: seq<Text>, e: Json)
    ensures e in Deliver(LiveEach(parse), frames) <==> exists i :: 0 <= i < |frames| && e in LiveFrame(parse, frames[i])
    decreases |frames|
  {
    hide LiveFrame;
    if frames != [] {
      var most, last := frames[..|frames| - 1], frames[|frames| - 1];
      DeliveredFrom(parse, most, e);
      assert forall i :: 0 <= i < |most| ==> most[i] == frames[i];
      assert e in Deliver(LiveEach(parse), frames) <==>
          e in Deliver(LiveEach(parse), most) || e in LiveFrame(parse, last);
    }
  }

  lemma NullFrames(parse: Text -> Json, text: Text)
    ensures Null in LiveEvents(parse, text) <==> !NoNullFrame(parse, text)
  {
    hide Frames;
    var front := Front(Frames(text));
    DeliveredFrom(parse, front, Null);
    assert forall i :: 0 <= i < |front| ==> front[i] == Frames(text)[i];
    assert forall i :: 0 <= i < |front| ==>
      (Null in LiveFrame(parse, front[i]) <==> Payload(front[i]).Some? && parse(Payload(front[i]).value) == Null);
  }

  /** On the same text `streamLive` delivers what `streamChat` does but for the unfinished last frame
      exactly when no finished frame carries a bare `null`, which only `streamLive` passes on. */
  lemma LiveIsChatWithoutTheRest(parse: Text -> Json, text: Text)
    ensures ChatEvents(parse, text) == LiveEvents(parse, text) + ChatFrame(parse, Last(Frames(text)))
       <==> NoNullFrame(parse, text)
  {
    NullFrames(parse, text);
    hide ChatFrame, LiveFrame, Frames, NoNullFrame;
    var frames := Frames(text);
    var live := LiveEvents(parse, text);
    ChatIsLiveNotNull(parse, Front(frames));
    NotNullShrinks(live);
    var rest := ChatFrame(parse, Last(frames));
    assert ChatEvents(parse, text) == NotNull(live) + rest;
  }

  /** The same of the readers as they run, on any two ways to cut one text into chunks, for a live handler that
      throws on nothing the finished frames carry. */
  lemma ReadersAgree(parse: Text -> Json, throws: Json -> bool, text: Text)
    requires forall i, e :: 0 <= i < |Frames(text)| - 1 && e in LiveFrame(parse, Frames(text)[i]) ==> !throws(e)
    ensures ChatEvents(parse, text) == UpToThrow(throws, LiveEvents(parse, text)) + ChatFrame(parse, Last(Frames(text)))
       <==> NoNullFrame(parse, text)
  {
    LiveIsChatWithoutTheRest(parse, text);
    hide ChatFrame, LiveFrame, Frames, NoNullFrame;
    var live := LiveEvents(parse, text);
    forall k | 0 <= k < |live|
      ensures !throws(live[k])
    {
      assert live[k] in live;
      DeliveredFrom(parse, Front(Frames(text)), live[k]);
      var i :| 0 <= i < |Front(Frames(text))| && live[k] in LiveFrame(parse, Front(Frames(text))[i]);
      assert Front(Frames(text))[i] == Frames(text)[i];
    }
    NoThrow(throws, live);
  }

  /** `null` */
  const NULL_TEXT: Text := [110, 117, 108, 108]

  lemma NullFrame(parse: Text -> Json)
    requires parse(NULL_TEXT) == Null
    ensures LiveFrame(parse, DATA + NULL_TEXT) == [Null] && ChatFrame(parse, DATA + NULL_TEXT) == []
    ensures LiveFrame(parse, []) == [] == ChatFrame(parse, [])
  {
    var frame := DATA + NULL_TEXT;
    SplitOnWhole(frame, NL);
    assert frame[|DATA|..] == NULL_TEXT;
    assert FirstData([frame]) == Some(frame);
    SplitOnWhole<Unit>([], NL);
    assert FirstData([[]]) == None;
  }

  lemma NullSent()
    ensures Frames(DATA + NULL_TEXT + [NL, NL]) == [DATA + NULL_TEXT, []]
  {
    var frame := DATA + NULL_TEXT;
    assert Unbroken(frame + [NL]);
    FramePrefix(frame, []);
    assert frame + [NL, NL] + [] == frame + [NL, NL];
  }

  /** The case that differs, as a whole frame: `data:null`. */
  lemma NullIsLiveOnly(parse: Text -> Json)
    requires parse(NULL_TEXT) == Null
    ensures var text := DATA + NULL_TEXT + [NL, NL];
            LiveEvents(parse, text) == [Null] && ChatEvents(parse, text) == []
  {
    NullFrame(parse);
    NullSent();
    hide Frames, LiveFrame, ChatFrame;
    var frame: Text := DATA + NULL_TEXT;
    assert Front([frame, []]) == [frame] && [frame, []][..1] == [frame] && [frame][..0] == [];
    DeliverLast(LiveEach(parse), [frame]);
    DeliverLast(ChatEach(parse), [frame]);
    DeliverLast(ChatEach(parse), [frame, []]);
  }
}
