/** The chat client (client.py): the reaction to one inbound payload, the formatting of
    one outbound line, and the two loops that run them until they stop. */
module ChatClient {
  import opened Protocol

  /** What the receive loop does with one payload: answer the nickname prompt, or
      print the payload. */
  datatype Reaction = Reply(payload: string) | Show(text: string)

  /** The dispatch of `receive_messages` on one decoded payload. */
  function OnPayload(nickname: string, payload: string): (a: Reaction)
    ensures a.Reply? <==> payload == Sentinel
    ensures a.Reply? ==> a.payload == nickname
    ensures a.Show? ==> a.text == payload
  {
    if payload == Sentinel then Reply(nickname) else Show(payload)
  }

  /** The text `send_messages` transmits for one line of user input. */
  function FormatLine(nickname: string, text: string): (line: string)
    ensures |line| == |nickname| + |text| + 4
    ensures line[0] == '<' && line[|nickname| + 1..|nickname| + 4] == ">: "
    ensures line[1..|nickname| + 1] == nickname && line[|nickname| + 4..] == text
  {
    "<" + nickname + ">: " + text
  }

  /** A formatted line is never the bare prompt, so the server's relay of a chat line can
      never make another client answer with its nickname. */
  lemma FormattedLineIsNotPrompt(nickname: string, text: string, other: string)
    ensures FormatLine(nickname, text) != Sentinel
    ensures OnPayload(other, FormatLine(nickname, text)) == Show(FormatLine(nickname, text))
  {
    assert FormatLine(nickname, text)[0] != Sentinel[0];
  }

  /** For a fixed nickname the typed text can be read back from the line. */
  lemma FormatLineInjective(nickname: string, text1: string, text2: string)
    requires FormatLine(nickname, text1) == FormatLine(nickname, text2)
    ensures text1 == text2
  {
    var n := |nickname| + 4;
    assert text1 == FormatLine(nickname, text1)[n..];
  }

  // ---------------------------------------------------------------------------------
  // The receive loop

  /** One turn of the receive loop: a payload received, together with whether the reply
      `send` raises should the payload be the prompt; or a `recv` (or its decoding) that
      raises. */
  datatype Inbound = Data(payload: string, replyFails: bool) | RecvError

  /** Whether a turn ends the receive loop: an exception inside its `try`, from `recv` or
      from the reply `send`. */
  predicate Breaks(i: Inbound) {
    i.RecvError? || (i.payload == Sentinel && i.replyFails)
  }

  /** What the receive loop did: the replies it sent, the payloads it printed, and whether
      it closed the socket (and stopped). */
  datatype ReceiveTrace = ReceiveTrace(replies: seq<string>, shown: seq<string>, closed: bool)

  /** `receive_messages` over the outcomes of its successive turns. An empty payload
      (what `recv` returns once the server has closed) is not an error there: it is
      printed and the loop goes on. */
  function ReceiveLoop(nickname: string, inbox: seq<Inbound>): (t: ReceiveTrace)
    ensures t.closed <==> exists k :: 0 <= k < |inbox| && Breaks(inbox[k])
    ensures forall k :: 0 <= k < |t.replies| ==> t.replies[k] == nickname
    ensures Sentinel !in t.shown
    ensures |t.replies| + |t.shown| <= |inbox|
    decreases |inbox|
  {
    if |inbox| == 0 then ReceiveTrace([], [], false)
    else if Breaks(inbox[0]) then ReceiveTrace([], [], true)
    else
      var rest := ReceiveLoop(nickname, inbox[1..]);
      assert (exists k :: 0 <= k < |inbox| && Breaks(inbox[k]))
         <==> (exists k :: 0 <= k < |inbox[1..]| && Breaks(inbox[1..][k])) by {
        if exists k :: 0 <= k < |inbox| && Breaks(inbox[k]) {
          var k :| 0 <= k < |inbox| && Breaks(inbox[k]);
          assert k > 0 && Breaks(inbox[1..][k - 1]);
        }
      }
      match OnPayload(nickname, inbox[0].payload)
      case Reply(answer) => ReceiveTrace([answer] + rest.replies, rest.shown, rest.closed)
      case Show(text) => ReceiveTrace(rest.replies, [text] + rest.shown, rest.closed)
  }

  /** Nothing after a turn that raises is looked at: the loop has stopped. */
  lemma {:induction false} ReceiveStopsAtError(nickname: string, before: seq<Inbound>, stop: Inbound, after: seq<Inbound>)
    requires Breaks(stop)
    ensures ReceiveLoop(nickname, before + [stop] + after) == ReceiveLoop(nickname, before + [stop])
    decreases |before|
  {
    if |before| == 0 {
      assert ([] + [stop] + after)[0] == stop;
      assert ([] + [stop])[0] == stop;
    } else {
      assert (before + [stop] + after)[1..] == before[1..] + [stop] + after;
      assert (before + [stop])[1..] == before[1..] + [stop];
      ReceiveStopsAtError(nickname, before[1..], stop, after);
    }
  }

  /** On an inbox without errors the loop answers every prompt and prints every other
      payload, verbatim and in order, and keeps the socket open. A prompt whose reply
      `send` fails, `Data(p, true)`, is covered by the ensures of `ReceiveLoop`. */
  lemma {:induction false} ReceiveWithoutError(nickname: string, payloads: seq<string>)
    ensures var t := ReceiveLoop(nickname, Inbox(payloads));
            && !t.closed
            && |t.replies| == Prompts(payloads)
            && t.shown == Shown(payloads)
    decreases |payloads|
  {
    if |payloads| > 0 {
      assert Inbox(payloads)[1..] == Inbox(payloads[1..]);
      ReceiveWithoutError(nickname, payloads[1..]);
    }
  }

  /** Up to the first turn that raises, the loop answers every prompt and prints every
      other payload, verbatim and in order; that turn closes the socket, and nothing
      after it is looked at. The turn may be a failed reply `send`, as `Breaks` allows. */
  lemma {:induction false} ReceiveUntilError(nickname: string, payloads: seq<string>, stop: Inbound, after: seq<Inbound>)
    requires Breaks(stop)
    ensures var t := ReceiveLoop(nickname, Inbox(payloads) + [stop] + after);
            && t.closed
            && |t.replies| == Prompts(payloads)
            && t.shown == Shown(payloads)
    decreases |payloads|
  {
    if |payloads| == 0 {
      assert (Inbox(payloads) + [stop] + after)[0] == stop;
    } else {
      assert (Inbox(payloads) + [stop] + after)[1..] == Inbox(payloads[1..]) + [stop] + after;
      ReceiveUntilError(nickname, payloads[1..], stop, after);
    }
  }

  /** The `recv` outcomes that deliver the given payloads. */
  function Inbox(payloads: seq<string>): (inbox: seq<Inbound>)
    ensures |inbox| == |payloads|
  {
    if |payloads| == 0 then [] else [Data(payloads[0], false)] + Inbox(payloads[1..])
  }

  /** How many of the payloads are the prompt. */
  function Prompts(payloads: seq<string>): nat {
    if |payloads| == 0 then 0 else (if payloads[0] == Sentinel then 1 else 0) + Prompts(payloads[1..])
  }

  /** The payloads that are not the prompt, in order. */
  function Shown(payloads: seq<string>): seq<string> {
    if |payloads| == 0 then []
    else if payloads[0] == Sentinel then Shown(payloads[1..])
    else [payloads[0]] + Shown(payloads[1..])
  }

  // ---------------------------------------------------------------------------------
  // The send loop

  /** One turn of the send loop: a line of input whose `send` succeeds or raises, or the
      end of the input (`EOFError`). */
  datatype Input = Line(text: string, sendFails: bool) | EndOfInput

  /** Whether an input ends the send loop. */
  predicate Stops(i: Input) {
    i.EndOfInput? || i.sendFails
  }

  /** What the send loop did: the lines it transmitted, whether it closed the socket, and
      whether it stopped (otherwise it is still waiting for input). */
  datatype SendTrace = SendTrace(sent: seq<string>, closed: bool, stopped: bool)

  /** `send_messages` over the successive results of `input()` and `send`. */
  function SendLoop(nickname: string, inputs: seq<Input>): (t: SendTrace)
    ensures t.stopped <==> exists k :: 0 <= k < |inputs| && Stops(inputs[k])
    ensures t.closed ==> t.stopped
    ensures t.closed ==> exists k :: 0 <= k < |inputs| && inputs[k].Line? && inputs[k].sendFails
    ensures t.stopped && !t.closed ==> exists k :: 0 <= k < |inputs| && inputs[k].EndOfInput?
    ensures forall k :: 0 <= k < |t.sent| ==> exists text :: t.sent[k] == FormatLine(nickname, text)
    ensures forall k :: 0 <= k < |t.sent| ==> t.sent[k] != Sentinel
    ensures |t.sent| <= |inputs|
    decreases |inputs|
  {
    if |inputs| == 0 then SendTrace([], false, false)
    else match inputs[0]
      case EndOfInput => SendTrace([], false, true)
      case Line(text, sendFails) =>
        if sendFails then SendTrace([], true, true)
        else
          var rest := SendLoop(nickname, inputs[1..]);
          FormattedLineIsNotPrompt(nickname, text, nickname);
          assert (exists k :: 0 <= k < |inputs| && Stops(inputs[k]))
             <==> (exists k :: 0 <= k < |inputs[1..]| && Stops(inputs[1..][k])) by {
            if exists k :: 0 <= k < |inputs| && Stops(inputs[k]) {
              var k :| 0 <= k < |inputs| && Stops(inputs[k]);
              assert k > 0 && Stops(inputs[1..][k - 1]);
            }
          }
          SendTrace([FormatLine(nickname, text)] + rest.sent, rest.closed, rest.stopped)
  }

  /** End of input stops the loop without closing the socket; a failed `send` stops it and
      closes the socket. Everything typed before is transmitted, formatted, in order. */
  lemma {:induction false} SendStops(nickname: string, typed: seq<string>, last: Input, after: seq<Input>)
    requires Stops(last)
    ensures var t := SendLoop(nickname, Lines(typed) + [last] + after);
            && t.stopped
            && (t.closed <==> !last.EndOfInput?)
            && t.sent == Formatted(nickname, typed)
    decreases |typed|
  {
    if |typed| == 0 {
      assert (Lines(typed) + [last] + after)[0] == last;
    } else {
      assert (Lines(typed) + [last] + after)[1..] == Lines(typed[1..]) + [last] + after;
      SendStops(nickname, typed[1..], last, after);
    }
  }

  /** Lines typed and sent successfully. */
  function Lines(typed: seq<string>): (inputs: seq<Input>)
    ensures |inputs| == |typed|
  {
    if |typed| == 0 then [] else [Line(typed[0], false)] + Lines(typed[1..])
  }

  /** Each typed line, formatted. */
  function Formatted(nickname: string, typed: seq<string>): seq<string> {
    if |typed| == 0 then [] else [FormatLine(nickname, typed[0])] + Formatted(nickname, typed[1..])
  }

  // ---------------------------------------------------------------------------------
  // The session

  /** A session: refused at connect time, or both loops running over their inputs. */
  datatype Session = Refused | Connected(receive: ReceiveTrace, send: SendTrace)

  /** Everything the client transmits in a session: its replies to the prompt, then the
      formatted lines of the send loop. */
  function Transmitted(s: Session): seq<string> {
    if s.Refused? then [] else s.receive.replies + s.send.sent
  }

  /** Whether one of the loops closed the socket. */
  predicate SocketClosed(s: Session) {
    s.Connected? && (s.receive.closed || s.send.closed)
  }

  /** `start_client`: the nickname is read first; a refused connection returns before
      either loop starts, so nothing is transmitted. Otherwise every transmitted string
      is the nickname or a formatted line, so the prompt itself is sent only by a client
      whose nickname is the prompt. The socket ends up closed only when a receive turn
      raised or a `send` of the send loop raised, and always when a receive turn raised. */
  function StartClient(nickname: string, refused: bool, inbox: seq<Inbound>, inputs: seq<Input>): (s: Session)
    ensures s.Refused? <==> refused
    ensures s.Connected? ==> s.receive == ReceiveLoop(nickname, inbox) && s.send == SendLoop(nickname, inputs)
    ensures refused ==> Transmitted(s) == []
    ensures forall k :: 0 <= k < |Transmitted(s)| ==>
              Transmitted(s)[k] == nickname || exists text :: Transmitted(s)[k] == FormatLine(nickname, text)
    ensures nickname != Sentinel ==> Sentinel !in Transmitted(s)
    ensures SocketClosed(s) ==>
              !refused && ((exists k :: 0 <= k < |inbox| && Breaks(inbox[k]))
                           || (exists k :: 0 <= k < |inputs| && inputs[k].Line? && inputs[k].sendFails))
    ensures !refused && (exists k :: 0 <= k < |inbox| && Breaks(inbox[k])) ==> SocketClosed(s)
  {
    if refused then Refused
    else
      var r := ReceiveLoop(nickname, inbox);
      var t := SendLoop(nickname, inputs);
      var all := r.replies + t.sent;
      assert forall k :: 0 <= k < |all| ==> all[k] == nickname || exists text :: all[k] == FormatLine(nickname, text) by {
        forall k | 0 <= k < |all| ensures all[k] == nickname || exists text :: all[k] == FormatLine(nickname, text) {
          if k >= |r.replies| { assert all[k] == t.sent[k - |r.replies|]; }
        }
      }
      assert nickname != Sentinel ==> Sentinel !in all by {
        if nickname != Sentinel {
          forall k | 0 <= k < |all| ensures all[k] != Sentinel {
            if k >= |r.replies| { assert all[k] == t.sent[k - |r.replies|]; }
          }
        }
      }
      Connected(r, t)
  }
}
