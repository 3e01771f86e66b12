/** The websocket chat consumer: every inbound text frame is answered by an echo of
    its "message" value and then by a canned bot reply. The transport is abstracted:
    sending a frame appends its decoded value to the connection's outbox. */
module Consumers {
  import opened JsonValues

  /** The replies the bot picks from, in order. */
  const BotResponses: seq<string> := [
    "Hello there! How can I assist you?",
    "I'm just a bot, but I try my best!",
    "Interesting... tell me more!",
    "That's a great point."
  ]

  /** Why handling a frame raised: `json.loads` rejected the text, or the decoded
      value is not an object and so has no `.get`. */
  datatype Failure = DecodeError | NoGetMethod

  /** The result of one exchange: the frames sent, or the exception raised before
      anything was sent. */
  datatype Outcome = Sent(frames: seq<Json>) | Raises(failure: Failure)

  /** An outbound frame: an object with exactly the keys "type" and "message". */
  function OutFrame(kind: string, message: Json): Json {
    JObject(map["type" := JString(kind), "message" := message])
  }

  /** Observations a client makes of a received frame. */
  predicate HasKind(frame: Json, kind: string) {
    frame.JObject? && "type" in frame.members && frame.members["type"] == JString(kind)
  }

  predicate HasExactlyKeys(frame: Json, keys: set<string>) {
    frame.JObject? && frame.members.Keys == keys
  }

  function MessageOf(frame: Json): Json
    requires frame.JObject? && "message" in frame.members
  {
    frame.members["message"]
  }

  /** `data.get("message", "")`: the value under "message", whatever its shape,
      or the empty string when the key is absent. */
  function MessageField(data: map<string, Json>): Json {
    if "message" in data then data["message"] else JString("")
  }

  /** True when `receive` gets past decoding and `.get`. */
  predicate Handled(inbound: Inbound) {
    inbound.Decoded? && inbound.value.JObject?
  }

  /** What one call of `receive` does, given the decoded frame and the index that
      `random.choice` drew. */
  function Exchange(inbound: Inbound, choice: nat): (r: Outcome)
    requires choice < |BotResponses|
    ensures r.Raises? <==> !Handled(inbound)
    ensures inbound.Undecodable? ==> r == Raises(DecodeError)
    ensures inbound.Decoded? && !inbound.value.JObject? ==> r == Raises(NoGetMethod)
    ensures r.Sent? ==>
      && |r.frames| == 2
      && HasKind(r.frames[0], "user") && HasKind(r.frames[1], "bot")
      && HasExactlyKeys(r.frames[0], {"type", "message"})
      && HasExactlyKeys(r.frames[1], {"type", "message"})
      && MessageOf(r.frames[0]) == MessageField(inbound.value.members)
      && MessageOf(r.frames[1]) == JString(BotResponses[choice])
  {
    match inbound
    case Undecodable => Raises(DecodeError)
    case Decoded(JObject(data)) =>
      Sent([OutFrame("user", MessageField(data)), OutFrame("bot", JString(BotResponses[choice]))])
    case Decoded(_) => Raises(NoGetMethod)
  }

  /** A frame without a "message" key is not rejected: it is echoed as "". */
  lemma MissingMessageEchoesEmpty(data: map<string, Json>, choice: nat)
    requires choice < |BotResponses| && "message" !in data
    ensures Exchange(Decoded(JObject(data)), choice).Sent?
    ensures Exchange(Decoded(JObject(data)), choice).frames[0] == OutFrame("user", JString(""))
  {
  }

  /** The bot's text is always one of the four replies, and every reply can be drawn. */
  lemma BotReplyFromCorpus(inbound: Inbound, choice: nat)
    requires choice < |BotResponses| && Handled(inbound)
    ensures exists s :: s in BotResponses && MessageOf(Exchange(inbound, choice).frames[1]) == JString(s)
    ensures forall s :: s in BotResponses ==>
      exists c :: 0 <= c < |BotResponses| && MessageOf(Exchange(inbound, c).frames[1]) == JString(s)
  {
    assert BotResponses[choice] in BotResponses;
    forall s | s in BotResponses
      ensures exists c :: 0 <= c < |BotResponses| && MessageOf(Exchange(inbound, c).frames[1]) == JString(s)
    {
      var c :| 0 <= c < |BotResponses| && BotResponses[c] == s;
      assert MessageOf(Exchange(inbound, c).frames[1]) == JString(s);
    }
  }

  /** The bot frame does not depend on what the user said. */
  lemma BotReplyIgnoresInput(a: Inbound, b: Inbound, choice: nat)
    requires choice < |BotResponses| && Handled(a) && Handled(b)
    ensures Exchange(a, choice).frames[1] == Exchange(b, choice).frames[1]
  {
  }

  /** Frames a connection sends for a run of inbound frames, each with its drawn
      index. An exception ends the connection, so nothing after it is answered.
      This describes the runtime's sequence of `Receive` calls on one connection,
      not the class on its own, which would go on answering after a `Raises`. */
  function Transcript(inbound: seq<Inbound>, choices: seq<nat>): (frames: seq<Json>)
    requires |choices| == |inbound|
    requires forall k :: 0 <= k < |choices| ==> choices[k] < |BotResponses|
    ensures |frames| % 2 == 0 && |frames| <= 2 * |inbound|
    ensures forall k :: 0 <= k < |frames| ==> HasKind(frames[k], if k % 2 == 0 then "user" else "bot")
    decreases |inbound|
  {
    if inbound == [] then []
    else match Exchange(inbound[0], choices[0])
      case Raises(_) => []
      case Sent(sent) => sent + Transcript(inbound[1..], choices[1..])
  }

  /** When every frame is handled, the k-th inbound frame yields exactly frames 2k
      and 2k+1, and they are what that frame alone yields: no earlier message
      influences a later exchange. */
  lemma {:induction false} TranscriptPairs(inbound: seq<Inbound>, choices: seq<nat>)
    requires |choices| == |inbound|
    requires forall k :: 0 <= k < |choices| ==> choices[k] < |BotResponses|
    requires forall k :: 0 <= k < |inbound| ==> Handled(inbound[k])
    ensures |Transcript(inbound, choices)| == 2 * |inbound|
    ensures forall k :: 0 <= k < |inbound| ==>
      Transcript(inbound, choices)[2 * k..2 * k + 2] == Exchange(inbound[k], choices[k]).frames
    decreases |inbound|
  {
    if inbound != [] {
      TranscriptPairs(inbound[1..], choices[1..]);
      forall k | 0 <= k < |inbound|
        ensures Transcript(inbound, choices)[2 * k..2 * k + 2] == Exchange(inbound[k], choices[k]).frames
      {
        PairOfHandledPrefix(inbound, choices, k);
      }
    }
  }

  /** One step of TranscriptPairs: the k-th pair of a transcript that starts with a
      handled frame is the (k-1)-th pair of the rest. */
  lemma PairOfHandledPrefix(inbound: seq<Inbound>, choices: seq<nat>, k: nat)
    requires |choices| == |inbound| && k < |inbound|
    requires forall k :: 0 <= k < |choices| ==> choices[k] < |BotResponses|
    requires forall k :: 0 <= k < |inbound| ==> Handled(inbound[k])
    requires |Transcript(inbound[1..], choices[1..])| == 2 * (|inbound| - 1)
    requires k > 0 ==>
      Transcript(inbound[1..], choices[1..])[2 * (k - 1)..2 * (k - 1) + 2]
        == Exchange(inbound[1..][k - 1], choices[1..][k - 1]).frames
    ensures Transcript(inbound, choices)[2 * k..2 * k + 2] == Exchange(inbound[k], choices[k]).frames
  {
    var sent := Exchange(inbound[0], choices[0]).frames;
    var rest := Transcript(inbound[1..], choices[1..]);
    TranscriptOfHandledHead(inbound, choices);
    if k > 0 {
      assert inbound[1..][k - 1] == inbound[k];
      assert choices[1..][k - 1] == choices[k];
      PairAfterPair(sent, rest, k);
    } else {
      assert (sent + rest)[..2] == sent;
    }
  }

  /** A transcript whose first frame is handled starts with that frame's pair. */
  lemma TranscriptOfHandledHead(inbound: seq<Inbound>, choices: seq<nat>)
    requires |choices| == |inbound| && 0 < |inbound|
    requires forall k :: 0 <= k < |choices| ==> choices[k] < |BotResponses|
    requires Handled(inbound[0])
    ensures Transcript(inbound, choices)
      == Exchange(inbound[0], choices[0]).frames + Transcript(inbound[1..], choices[1..])
  {
  }

  /** Slicing the k-th pair out of a sequence that starts with one pair. */
  lemma PairAfterPair(first: seq<Json>, rest: seq<Json>, k: nat)
    requires |first| == 2 && 0 < k && 2 * k + 2 <= |first| + |rest|
    ensures (first + rest)[2 * k..2 * k + 2] == rest[2 * (k - 1)..2 * (k - 1) + 2]
  {
  }

  /** An exception on the j-th frame leaves exactly the frames of the j frames
      before it. */
  lemma {:induction false} TranscriptStopsAtFailure(inbound: seq<Inbound>, choices: seq<nat>, j: nat)
    requires |choices| == |inbound|
    requires forall k :: 0 <= k < |choices| ==> choices[k] < |BotResponses|
    requires j < |inbound| && !Handled(inbound[j])
    requires forall k :: 0 <= k < j ==> Handled(inbound[k])
    ensures Transcript(inbound, choices) == Transcript(inbound[..j], choices[..j])
    ensures |Transcript(inbound, choices)| == 2 * j
    decreases j
  {
    if j == 0 {
      assert Exchange(inbound[0], choices[0]).Raises?;
    } else {
      TranscriptStopsAtFailure(inbound[1..], choices[1..], j - 1);
      assert inbound[..j][1..] == inbound[1..][..j - 1];
      assert choices[..j][1..] == choices[1..][..j - 1];
      TranscriptPairs(inbound[..j], choices[..j]);
    }
  }

  /** One websocket connection served by the chat consumer. */
  class ChatConsumer {
    /** Whether the handshake has been accepted. */
    var accepted: bool
    /** Every frame sent on this connection, oldest first. */
    var outbox: seq<Json>

    constructor ()
      ensures !accepted && outbox == []
    {
      accepted := false;
      outbox := [];
    }

    /** `connect`: accepts the handshake, unconditionally. */
    method Connect()
      modifies this
      ensures accepted
      ensures outbox == old(outbox)
    {
      accepted := true;
    }

    /** `send`: puts one frame on the wire. */
    method Send(frame: Json)
      modifies this
      ensures outbox == old(outbox) + [frame]
      ensures accepted == old(accepted)
    {
      outbox := outbox + [frame];
    }

    /** `receive`: echoes the "message" value, then sends the reply at `choice`.
        An exception is raised before anything is sent. */
    method Receive(inbound: Inbound, choice: nat) returns (r: Outcome)
      requires choice < |BotResponses|
      modifies this
      ensures r == Exchange(inbound, choice)
      ensures outbox == old(outbox) + (if r.Sent? then r.frames else [])
      ensures accepted == old(accepted)
    {
      if inbound.Undecodable? {
        return Raises(DecodeError);
      }
      if !inbound.value.JObject? {
        return Raises(NoGetMethod);
      }
      var userMessage := MessageField(inbound.value.members);
      var echo := OutFrame("user", userMessage);
      Send(echo);
      var botMessage := BotResponses[choice];
      var reply := OutFrame("bot", JString(botMessage));
      Send(reply);
      r := Sent([echo, reply]);
    }
  }
}
