/**
 * The transcript reassembler of app/hooks/useChat.ts.
 *
 * Room-channel messages carry chunks of two kinds. Speech recognition
 * (Cmd 3) sends the whole current text of the user's utterance each time,
 * and a chunk is applied only if its sequence id is newer than the cached
 * one. The agent's reply (Cmd 4) sends fragments that are appended in
 * arrival order. Each utterance, keyed by its MessageId, owns one line of
 * the transcript; a chunk with EndFlag retires the utterance's cache entry.
 *
 * `Step` is the specification of one `handleMessage` call on the whole
 * state; the class `Reassembler` holds the state in fields and updates it
 * in place, and its `HandleMessage` is proved to do what `Step` says.
 */
module Chat {
  import opened Wrappers

  datatype Role = User | Agent

  /** A transcript line (`ChatMessage`). */
  datatype ChatMessage = ChatMessage(id: string, role: Role, content: string, timestamp: int, isComplete: bool)

  /** The `Data` part of a room message. */
  datatype ChunkData = ChunkData(text: string, messageId: string, endFlag: bool)

  /** A room message as its JSON text parses (`ZegoRoomMessage`). */
  datatype RawMessage = RawMessage(timestamp: int, seqId: int, round: int, cmd: int, data: ChunkData)

  /** What `handleMessage` tells apart: speech-recognition text, the agent's
      reply text, any other command, and text that does not parse. */
  datatype RoomMessage =
    | Asr(seqId: int, data: ChunkData)
    | Llm(seqId: int, data: ChunkData)
    | Other(cmd: int)
    | Unparsable

  const AsrCmd: int := 3
  const LlmCmd: int := 4

  /** The branch `handleMessage` takes for the outcome of `JSON.parse`. */
  function Classify(parsed: Option<RawMessage>): (m: RoomMessage)
    ensures m.Unparsable? <==> parsed.None?
    ensures m.Asr? <==> parsed.Some? && parsed.value.cmd == AsrCmd
    ensures m.Llm? <==> parsed.Some? && parsed.value.cmd == LlmCmd
    ensures (m.Asr? || m.Llm?) ==> m.seqId == parsed.value.seqId && m.data == parsed.value.data
    ensures m.Other? ==> m.cmd == parsed.value.cmd
  {
    match parsed
    case None => Unparsable
    case Some(raw) =>
      if raw.cmd == AsrCmd then Asr(raw.seqId, raw.data)
      else if raw.cmd == LlmCmd then Llm(raw.seqId, raw.data)
      else Other(raw.cmd)
  }

  /** A speech-recognition cache entry. */
  datatype AsrEntry = AsrEntry(seqId: int, text: string)

  /** An agent-reply cache entry. */
  datatype LlmEntry = LlmEntry(seqId: int, text: string, isComplete: bool)

  predicate HasId(lines: seq<ChatMessage>, id: string) {
    exists i :: 0 <= i < |lines| && lines[i].id == id
  }

  predicate UniqueIds(lines: seq<ChatMessage>) {
    forall i, j :: 0 <= i < j < |lines| ==> lines[i].id != lines[j].id
  }

  /** The first line with that id, if any. */
  function Find(lines: seq<ChatMessage>, id: string): (r: Option<ChatMessage>)
    ensures r.Some? <==> HasId(lines, id)
    ensures r.Some? ==> exists i :: 0 <= i < |lines| && lines[i] == r.value && r.value.id == id
  {
    if lines == [] then None
    else if lines[0].id == id then Some(lines[0])
    else
      var r := Find(lines[1..], id);
      assert HasId(lines, id) ==> lines[0].id == id || HasId(lines[1..], id) by {
        if HasId(lines, id) && lines[0].id != id {
          var i :| 0 <= i < |lines| && lines[i].id == id;
          assert lines[1..][i - 1] == lines[i];
        }
      }
      assert r.Some? ==> exists i :: 0 <= i < |lines| && lines[i] == r.value && r.value.id == id by {
        if r.Some? {
          var i :| 0 <= i < |lines[1..]| && lines[1..][i] == r.value && r.value.id == id;
          assert lines[i + 1] == r.value;
        }
      }
      r
  }

  /** Every line with that id gets the new content and completion flag;
      the other lines are kept as they are. */
  function SetContent(lines: seq<ChatMessage>, id: string, content: string, isComplete: bool)
    : (r: seq<ChatMessage>)
    ensures |r| == |lines|
    ensures forall i :: 0 <= i < |lines| ==>
              r[i] == if lines[i].id == id then lines[i].(content := content, isComplete := isComplete)
                      else lines[i]
  {
    if lines == [] then []
    else
      var head := if lines[0].id == id then lines[0].(content := content, isComplete := isComplete)
                  else lines[0];
      [head] + SetContent(lines[1..], id, content, isComplete)
  }

  /** The list transform inside `setMessages`: update the line with that id
      in place, or append a new line stamped `now`. */
  function Upsert(lines: seq<ChatMessage>, id: string, role: Role, content: string, isComplete: bool, now: int)
    : seq<ChatMessage>
  {
    if Find(lines, id).Some? then SetContent(lines, id, content, isComplete)
    else lines + [ChatMessage(id, role, content, now, isComplete)]
  }

  /** Reading back after an upsert: the line for `id` now has the new
      content and completion flag; it is new (with the given role and
      timestamp) exactly when no line had the id, and otherwise keeps the
      role and timestamp it had. */
  lemma {:induction false} UpsertThenFind(lines: seq<ChatMessage>, id: string, role: Role, content: string, isComplete: bool, now: int)
    ensures var r := Upsert(lines, id, role, content, isComplete, now);
            Find(r, id) == Some(
              if HasId(lines, id) then Find(lines, id).value.(content := content, isComplete := isComplete)
              else ChatMessage(id, role, content, now, isComplete))
  {
    var r := Upsert(lines, id, role, content, isComplete, now);
    if lines != [] && lines[0].id != id {
      UpsertThenFind(lines[1..], id, role, content, isComplete, now);
      assert r[0] == lines[0];
      assert r[1..] == Upsert(lines[1..], id, role, content, isComplete, now);
    }
  }

  /** With unique ids, `find` returns the one line holding the id. */
  lemma {:induction false} FindUnique(lines: seq<ChatMessage>, i: int)
    requires UniqueIds(lines) && 0 <= i < |lines|
    ensures Find(lines, lines[i].id) == Some(lines[i])
  {
    if i > 0 {
      assert lines[1..][i - 1] == lines[i];
      FindUnique(lines[1..], i - 1);
    }
  }

  /** An upsert keeps every existing line in its place, with its id, role
      and timestamp; only the line with `id` changes; a new line, if any,
      goes at the end. */
  lemma UpsertKeepsPlaces(lines: seq<ChatMessage>, id: string, role: Role, content: string, isComplete: bool, now: int)
    ensures var r := Upsert(lines, id, role, content, isComplete, now);
            && |r| == (if HasId(lines, id) then |lines| else |lines| + 1)
            && (forall i :: 0 <= i < |lines| ==>
                  && r[i].id == lines[i].id && r[i].role == lines[i].role
                  && r[i].timestamp == lines[i].timestamp
                  && (lines[i].id != id ==> r[i] == lines[i]))
            && (!HasId(lines, id) ==> r[|lines|] == ChatMessage(id, role, content, now, isComplete))
  {
  }

  lemma UpsertKeepsUnique(lines: seq<ChatMessage>, id: string, role: Role, content: string, isComplete: bool, now: int)
    requires UniqueIds(lines)
    ensures UniqueIds(Upsert(lines, id, role, content, isComplete, now))
    ensures forall k :: HasId(Upsert(lines, id, role, content, isComplete, now), k) <==> HasId(lines, k) || k == id
  {
    var r := Upsert(lines, id, role, content, isComplete, now);
    UpsertKeepsPlaces(lines, id, role, content, isComplete, now);
    forall k | HasId(lines, k) || k == id
      ensures HasId(r, k)
    {
      if HasId(lines, k) {
        var i :| 0 <= i < |lines| && lines[i].id == k;
        assert r[i].id == k;
      } else {
        assert r[|lines|].id == k;
      }
    }
    forall k | HasId(r, k)
      ensures HasId(lines, k) || k == id
    {
      var i :| 0 <= i < |r| && r[i].id == k;
      if i < |lines| {
        assert lines[i].id == k;
      }
    }
  }

  /** The reassembler's whole state: the transcript and the two caches. */
  datatype State = State(messages: seq<ChatMessage>, asr: map<string, AsrEntry>, llm: map<string, LlmEntry>)

  /** The state `clearMessages` leaves, and the one a session starts in. */
  const Empty: State := State([], map[], map[])

  /** One `handleMessage` call. */
  function Step(s: State, msg: RoomMessage, now: int): State
  {
    match msg
    case Asr(seqId, d) =>
      var id := d.messageId;
      var apply := id !in s.asr || seqId > s.asr[id].seqId;
      var asr := if apply then s.asr[id := AsrEntry(seqId, d.text)] else s.asr;
      var messages := if apply then Upsert(s.messages, id, User, d.text, d.endFlag, now) else s.messages;
      State(messages, if d.endFlag then asr - {id} else asr, s.llm)
    case Llm(seqId, d) =>
      var id := d.messageId;
      var newText := if id in s.llm then s.llm[id].text + d.text else d.text;
      var llm := s.llm[id := LlmEntry(seqId, newText, d.endFlag)];
      State(Upsert(s.messages, id, Agent, newText, d.endFlag, now), s.asr,
            if d.endFlag then llm - {id} else llm)
    case Other(_) => s
    case Unparsable => s
  }

  /** What every reachable state satisfies: one line per message id, a line
      for every cached utterance, and no completed reply left in the cache. */
  ghost predicate Consistent(s: State) {
    && UniqueIds(s.messages)
    && (forall id :: id in s.asr ==> HasId(s.messages, id))
    && (forall id :: id in s.llm ==> HasId(s.messages, id) && !s.llm[id].isComplete)
  }

  lemma StepKeepsConsistent(s: State, msg: RoomMessage, now: int)
    requires Consistent(s)
    ensures Consistent(Step(s, msg, now))
  {
    match msg
    case Asr(seqId, d) => AsrKeepsConsistent(s, seqId, d, now);
    case Llm(seqId, d) => LlmKeepsConsistent(s, seqId, d, now);
    case Other(_) =>
    case Unparsable =>
  }

  lemma AsrKeepsConsistent(s: State, seqId: int, d: ChunkData, now: int)
    requires Consistent(s)
    ensures Consistent(Step(s, Asr(seqId, d), now))
  {
    var id := d.messageId;
    if id !in s.asr || seqId > s.asr[id].seqId {
      UpsertKeepsUnique(s.messages, id, User, d.text, d.endFlag, now);
    }
  }

  lemma LlmKeepsConsistent(s: State, seqId: int, d: ChunkData, now: int)
    requires Consistent(s)
    ensures Consistent(Step(s, Llm(seqId, d), now))
  {
    var id := d.messageId;
    var newText := if id in s.llm then s.llm[id].text + d.text else d.text;
    var s' := Step(s, Llm(seqId, d), now);
    assert s'.messages == Upsert(s.messages, id, Agent, newText, d.endFlag, now);
    UpsertKeepsUnique(s.messages, id, Agent, newText, d.endFlag, now);
    LlmChunkCaches(s, seqId, d, now);
    forall k | k in s'.llm
      ensures HasId(s'.messages, k) && !s'.llm[k].isComplete
    {
      if k != id {
        assert k in s.llm;
      }
    }
  }

  /** A Cmd 3 chunk is applied exactly when its utterance has no cache entry
      or its sequence id is strictly greater than the cached one. Applied,
      the utterance's line shows the chunk's text verbatim (it replaces,
      never appends) with the chunk's end flag; dropped, the transcript is
      unchanged. */
  lemma AsrChunkTranscript(s: State, seqId: int, d: ChunkData, now: int)
    ensures var id := d.messageId;
            var s' := Step(s, Asr(seqId, d), now);
            var applied := id !in s.asr || seqId > s.asr[id].seqId;
            && (applied ==> Find(s'.messages, id).Some?
                            && Find(s'.messages, id).value.content == d.text
                            && Find(s'.messages, id).value.isComplete == d.endFlag)
            && (!applied ==> s'.messages == s.messages)
  {
    var id := d.messageId;
    if id !in s.asr || seqId > s.asr[id].seqId {
      UpsertThenFind(s.messages, id, User, d.text, d.endFlag, now);
    }
  }

  /** The caches after a Cmd 3 chunk: an applied chunk records its sequence
      id and text; an end flag retires the entry even when the chunk itself
      was dropped; a dropped chunk without it changes nothing. The reply
      cache and every other speech entry are untouched. */
  lemma AsrChunkCaches(s: State, seqId: int, d: ChunkData, now: int)
    ensures var id := d.messageId;
            var s' := Step(s, Asr(seqId, d), now);
            var applied := id !in s.asr || seqId > s.asr[id].seqId;
            && (d.endFlag ==> id !in s'.asr)
            && (!d.endFlag && applied ==> id in s'.asr && s'.asr[id] == AsrEntry(seqId, d.text))
            && (!d.endFlag && !applied ==> s'.asr == s.asr)
            && (forall k :: k != id ==> (k in s'.asr <==> k in s.asr))
            && (forall k :: k != id && k in s.asr ==> s'.asr[k] == s.asr[k])
            && s'.llm == s.llm
  {
  }

  /** A Cmd 4 chunk is always applied, with no sequence check: the reply
      text becomes the cached text followed by the fragment, or the
      fragment alone when nothing is cached, and the line shows that text
      and the chunk's end flag. */
  lemma LlmChunkTranscript(s: State, seqId: int, d: ChunkData, now: int)
    ensures var id := d.messageId;
            var s' := Step(s, Llm(seqId, d), now);
            var newText := if id in s.llm then s.llm[id].text + d.text else d.text;
            && Find(s'.messages, id).Some?
            && Find(s'.messages, id).value.content == newText
            && Find(s'.messages, id).value.isComplete == d.endFlag
  {
    var id := d.messageId;
    var newText := if id in s.llm then s.llm[id].text + d.text else d.text;
    UpsertThenFind(s.messages, id, Agent, newText, d.endFlag, now);
  }

  /** The caches after a Cmd 4 chunk: the entry records the chunk's
      sequence id and the accumulated text unless the end flag retires it;
      the speech cache and every other reply entry are untouched. */
  lemma LlmChunkCaches(s: State, seqId: int, d: ChunkData, now: int)
    ensures var id := d.messageId;
            var s' := Step(s, Llm(seqId, d), now);
            var newText := if id in s.llm then s.llm[id].text + d.text else d.text;
            && (d.endFlag ==> id !in s'.llm)
            && (!d.endFlag ==> id in s'.llm && s'.llm[id] == LlmEntry(seqId, newText, false))
            && (forall k :: k != id ==> (k in s'.llm <==> k in s.llm))
            && (forall k :: k != id && k in s.llm ==> s'.llm[k] == s.llm[k])
            && s'.asr == s.asr
  {
  }

  /** Unknown commands and unparsable text change nothing. */
  lemma IgnoredMessages(s: State, cmd: int, now: int)
    ensures Step(s, Other(cmd), now) == s
    ensures Step(s, Unparsable, now) == s
  {
  }

  /** Whether a message adds a line: an applied chunk whose id has no line yet. */
  predicate AddsLine(s: State, msg: RoomMessage) {
    match msg
    case Asr(seqId, d) =>
      (d.messageId !in s.asr || seqId > s.asr[d.messageId].seqId) && !HasId(s.messages, d.messageId)
    case Llm(_, d) => !HasId(s.messages, d.messageId)
    case Other(_) => false
    case Unparsable => false
  }

  /** The transcript is never re-sorted: each step keeps every line in its
      place with its id, role and timestamp, and leaves the lines of other
      utterances as they were. It adds one line, at the end, exactly when
      an applied chunk's id had no line; that line has the chunk's id, the
      role `User` for Cmd 3 or `Agent` for Cmd 4, and the arrival time. */
  lemma StepKeepsOrder(s: State, msg: RoomMessage, now: int)
    ensures var s' := Step(s, msg, now);
            && |s'.messages| == (if AddsLine(s, msg) then |s.messages| + 1 else |s.messages|)
            && (AddsLine(s, msg) ==>
                  && s'.messages[|s.messages|].id == msg.data.messageId
                  && s'.messages[|s.messages|].role == (if msg.Asr? then User else Agent)
                  && s'.messages[|s.messages|].timestamp == now)
            && forall i :: 0 <= i < |s.messages| ==>
                 && s'.messages[i].id == s.messages[i].id
                 && s'.messages[i].role == s.messages[i].role
                 && s'.messages[i].timestamp == s.messages[i].timestamp
                 && ((msg.Asr? || msg.Llm?) && s.messages[i].id != msg.data.messageId ==>
                       s'.messages[i] == s.messages[i])
                 && (!(msg.Asr? || msg.Llm?) ==> s'.messages[i] == s.messages[i])
  {
    match msg
    case Asr(seqId, d) =>
      UpsertKeepsPlaces(s.messages, d.messageId, User, d.text, d.endFlag, now);
    case Llm(seqId, d) =>
      var newText := if d.messageId in s.llm then s.llm[d.messageId].text + d.text else d.text;
      UpsertKeepsPlaces(s.messages, d.messageId, Agent, newText, d.endFlag, now);
    case Other(_) =>
    case Unparsable =>
  }

  /** After a Cmd 3 chunk with the end flag, the next Cmd 3 chunk for the
      same utterance is accepted whatever its sequence id, and its text
      replaces the line's content. */
  lemma AsrAcceptedAfterEnd(s: State, seq1: int, d1: ChunkData, now1: int, seq2: int, d2: ChunkData, now2: int)
    requires d1.endFlag && d2.messageId == d1.messageId
    ensures var s2 := Step(Step(s, Asr(seq1, d1), now1), Asr(seq2, d2), now2);
            Find(s2.messages, d2.messageId).Some? && Find(s2.messages, d2.messageId).value.content == d2.text
  {
    var s1 := Step(s, Asr(seq1, d1), now1);
    AsrChunkCaches(s, seq1, d1, now1);
    AsrChunkTranscript(s1, seq2, d2, now2);
  }

  /** After a Cmd 4 chunk with the end flag, the next Cmd 4 chunk for the
      same utterance starts afresh: the line shows its fragment alone. */
  lemma LlmRestartsAfterEnd(s: State, seq1: int, d1: ChunkData, now1: int, seq2: int, d2: ChunkData, now2: int)
    requires d1.endFlag && d2.messageId == d1.messageId
    ensures var s2 := Step(Step(s, Llm(seq1, d1), now1), Llm(seq2, d2), now2);
            Find(s2.messages, d2.messageId).Some? && Find(s2.messages, d2.messageId).value.content == d2.text
  {
    var s1 := Step(s, Llm(seq1, d1), now1);
    LlmChunkCaches(s, seq1, d1, now1);
    LlmChunkTranscript(s1, seq2, d2, now2);
  }

  /** One inbound event: the message and the clock reading when it arrived. */
  datatype Event = Event(msg: RoomMessage, now: int)

  /** A session: the events applied one after another. */
  function Run(s: State, events: seq<Event>): State
    decreases |events|
  {
    if events == [] then s else Run(Step(s, events[0].msg, events[0].now), events[1..])
  }

  lemma {:induction false} RunKeepsConsistent(s: State, events: seq<Event>)
    requires Consistent(s)
    ensures Consistent(Run(s, events))
    decreases |events|
  {
    if events != [] {
      StepKeepsConsistent(s, events[0].msg, events[0].now);
      RunKeepsConsistent(Step(s, events[0].msg, events[0].now), events[1..]);
    }
  }

  predicate Recognized(e: Event) {
    e.msg.Asr? || e.msg.Llm?
  }

  /** The events that are Cmd 3 or Cmd 4 chunks, in their order. */
  function Recognizable(events: seq<Event>): (r: seq<Event>)
    ensures forall k :: 0 <= k < |r| ==> Recognized(r[k])
    ensures forall e :: e in r <==> e in events && Recognized(e)
    ensures |r| <= |events|
  {
    if events == [] then []
    else if Recognized(events[0]) then [events[0]] + Recognizable(events[1..])
    else Recognizable(events[1..])
  }

  /** A bad or unknown event never poisons the stream: dropping every such
      event from a session leaves its outcome unchanged. */
  lemma {:induction false} IgnoredEventsAreInvisible(s: State, events: seq<Event>)
    ensures Run(s, events) == Run(s, Recognizable(events))
    decreases |events|
  {
    if events != [] {
      IgnoredEventsAreInvisible(Step(s, events[0].msg, events[0].now), events[1..]);
      if !Recognized(events[0]) {
        IgnoredEventsAreInvisible(s, events[1..]);
      }
    }
  }

  /** Every event is a Cmd 4 fragment of reply `id` without the end flag. */
  predicate ReplyFragments(events: seq<Event>, id: string) {
    forall k :: 0 <= k < |events| ==>
      events[k].msg.Llm? && events[k].msg.data.messageId == id && !events[k].msg.data.endFlag
  }

  /** The text a Cmd 4 chunk carries; other events carry none. */
  function Fragment(e: Event): string {
    if e.msg.Llm? then e.msg.data.text else ""
  }

  /** The reply fragments of a run of events, concatenated in order. */
  function Concat(events: seq<Event>): string {
    if events == [] then "" else Fragment(events[0]) + Concat(events[1..])
  }

  /** Reply `id` is cached as unfinished with `text` and shown with `text`. */
  predicate Streaming(s: State, id: string, text: string) {
    && id in s.llm && s.llm[id].text == text
    && Find(s.messages, id).Some? && Find(s.messages, id).value.content == text
  }

  /** The text cached for reply `id`, or nothing. */
  function CachedReply(s: State, id: string): string {
    if id in s.llm then s.llm[id].text else ""
  }

  /** One reply fragment without the end flag. */
  lemma LlmFragment(s: State, e: Event, id: string)
    requires e.msg.Llm? && e.msg.data.messageId == id && !e.msg.data.endFlag
    ensures Streaming(Step(s, e.msg, e.now), id, CachedReply(s, id) + e.msg.data.text)
  {
    LlmChunkCaches(s, e.msg.seqId, e.msg.data, e.now);
    LlmChunkTranscript(s, e.msg.seqId, e.msg.data, e.now);
    assert CachedReply(s, id) + e.msg.data.text
        == if id in s.llm then s.llm[id].text + e.msg.data.text else e.msg.data.text;
  }

  /** A reply streamed as Cmd 4 chunks without the end flag caches, and
      shows, the concatenation of its fragments in arrival order, after
      whatever text was cached for it before. */
  lemma {:induction false} LlmAccumulates(s: State, events: seq<Event>, id: string)
    requires events != []
    requires ReplyFragments(events, id)
    ensures Streaming(Run(s, events), id, CachedReply(s, id) + Concat(events))
    decreases |events|
  {
    var s1 := Step(s, events[0].msg, events[0].now);
    var rest := events[1..];
    var before, fragment := CachedReply(s, id), Fragment(events[0]);
    LlmFragment(s, events[0], id);
    assert Run(s, events) == Run(s1, rest);
    if rest == [] {
      assert Concat(events) == fragment + Concat(rest) == fragment;
    } else {
      ReplyFragmentsTail(events, id);
      LlmAccumulates(s1, rest, id);
      assert CachedReply(s1, id) == before + fragment;
      AppendAssoc(before, fragment, Concat(rest));
    }
  }

  /** A speech chunk older than the cached one is dropped: "hel" at
      sequence 2 stays when "garbage" arrives at sequence 1. */
  lemma StaleSpeechDropped()
    ensures Run(Empty, [Event(Asr(2, ChunkData("hel", "u1", false)), 10),
                        Event(Asr(1, ChunkData("garbage", "u1", false)), 20)]).messages
            == [ChatMessage("u1", User, "hel", 10, false)]
  {
  }

  /** Reply fragments "Hel" and "lo" show as "Hello", and the end flag
      marks the line complete and empties the reply cache. */
  lemma ReplyFragmentsJoined()
    ensures var s := Run(Empty, [Event(Llm(1, ChunkData("Hel", "a1", false)), 10),
                                 Event(Llm(2, ChunkData("lo", "a1", true)), 20)]);
            s.messages == [ChatMessage("a1", Agent, "Hello", 10, true)] && s.llm == map[]
  {
    var s1 := Step(Empty, Llm(1, ChunkData("Hel", "a1", false)), 10);
    assert s1.messages == [ChatMessage("a1", Agent, "Hel", 10, false)];
    assert s1.llm == map["a1" := LlmEntry(1, "Hel", false)];
    assert "Hel" + "lo" == "Hello";
    var s2 := Step(s1, Llm(2, ChunkData("lo", "a1", true)), 20);
    assert Find(s1.messages, "a1").Some?;
    assert s2.messages == [ChatMessage("a1", Agent, "Hello", 10, true)];
  }

  lemma AppendAssoc(a: string, b: string, c: string)
    ensures (a + b) + c == a + (b + c)
  {
  }

  lemma ReplyFragmentsTail(events: seq<Event>, id: string)
    requires events != [] && ReplyFragments(events, id)
    ensures ReplyFragments(events[1..], id)
  {
    forall k | 0 <= k < |events| - 1
      ensures events[1..][k].msg.Llm? && events[1..][k].msg.data.messageId == id
    {
      assert events[1..][k] == events[k + 1];
    }
  }

  /** The reassembler as the hook holds it: the `messages` state and the two
      cache maps, updated in place by `handleMessage` and `clearMessages`. */
  class Reassembler {
    var messages: seq<ChatMessage>
    var asrCache: map<string, AsrEntry>
    var llmCache: map<string, LlmEntry>

    function Snapshot(): State
      reads this
    {
      State(messages, asrCache, llmCache)
    }

    ghost predicate Valid()
      reads this
    {
      Consistent(Snapshot())
    }

    constructor ()
      ensures Valid() && Snapshot() == Empty
    {
      messages := [];
      asrCache := map[];
      llmCache := map[];
    }

    /** `handleMessage` on a message already classified. */
    method HandleMessage(msg: RoomMessage, now: int)
      requires Valid()
      modifies this
      ensures Valid()
      ensures Snapshot() == Step(old(Snapshot()), msg, now)
    {
      ghost var before := Snapshot();
      StepKeepsConsistent(before, msg, now);
      match msg {
        case Asr(seqId, d) =>
          var id := d.messageId;
          if id !in asrCache || seqId > asrCache[id].seqId {
            asrCache := asrCache[id := AsrEntry(seqId, d.text)];
            messages := Upsert(messages, id, User, d.text, d.endFlag, now);
          }
          if d.endFlag {
            asrCache := asrCache - {id};
          }
        case Llm(seqId, d) =>
          var id := d.messageId;
          var newText := if id in llmCache then llmCache[id].text + d.text else d.text;
          llmCache := llmCache[id := LlmEntry(seqId, newText, d.endFlag)];
          messages := Upsert(messages, id, Agent, newText, d.endFlag, now);
          if d.endFlag {
            llmCache := llmCache - {id};
          }
        case Other(_) =>
        case Unparsable =>
      }
      assert Snapshot() == Step(before, msg, now);
    }

    /** `clearMessages`: the transcript and both caches become empty. */
    method ClearMessages()
      modifies this
      ensures Valid() && Snapshot() == Empty
    {
      messages := [];
      asrCache := map[];
      llmCache := map[];
    }
  }
}
