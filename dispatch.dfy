/** What chatbot.py's `IRCBot.handle_message` and one pass of the read loop
    in `IRCBot.listen` do, as functions of the state they start from. */
module Dispatch {
  import opened PyStr
  import opened Protocol
  import opened ChatGpt

  /** The completion service: the request's message list to the reply, or
      None when the call raises. */
  type Responder = seq<Message> -> Option<string>

  // ---------------------------------------------------------------------
  // handle_message

  /** What handle_message does with one line: the per-user memory after it,
      the messages it sends and the exception it raises, if any. */
  datatype Handled = Handled(context: map<string, seq<Message>>, sends: seq<string>, fault: Option<Fault>)

  /** What handle_message does once the line is routed: an asking line
      reads the sender's history (which creates it), calls the responder
      with the administrative prompt, that history and the prompt, and on a
      reply stores the exchange and sends the one reply line. */
  function Act(admin: string, context: map<string, seq<Message>>, route: Route, complete: Responder)
    : (h: Handled)
    ensures |h.sends| <= 1 && (h.sends != [] ==> h.fault.None?)
    ensures route.Ignore? ==> h == Handled(context, [], None)
    ensures context.Keys <= h.context.Keys
  {
    match route
    case Ignore => Handled(context, [], None)
    case Invalid => Handled(context, [], Some(EmptySeparator))
    case Ask(user, replyTo, prompt) =>
      var history := HistoryOf(context, user);
      match complete(Prompt(admin, history, prompt))
      case None => Handled(context[user := history], [], Some(ResponderFailed))
      case Some(reply) => Handled(Converse(context, user, prompt, reply), [ReplyLine(replyTo, user, reply)], None)
  }

  /** handle_message(message) with the bot's nickname and memory. */
  function Handle(nickname: string, admin: string, context: map<string, seq<Message>>,
                  message: string, complete: Responder): (h: Handled)
    ensures |h.sends| <= 1 && (h.sends != [] ==> h.fault.None?)
    ensures ParsePrivmsg(message).None? ==> h == Handled(context, [], None)
  {
    Act(admin, context, RouteMessage(nickname, message), complete)
  }

  /** Only the asking user's history can change, and histories stay well
      formed. */
  lemma ActTouchesOnlyUser(admin: string, context: map<string, seq<Message>>, route: Route, complete: Responder)
    requires AllStored(context)
    ensures var h := Act(admin, context, route, complete);
      && AllStored(h.context)
      && (!route.Ask? ==> h.context == context)
      && (route.Ask? ==>
            h.context.Keys == context.Keys + {route.user}
            && forall u :: u in context && u != route.user ==> h.context[u] == context[u])
  {
    if route.Ask? {
      var history := HistoryOf(context, route.user);
      match complete(Prompt(admin, history, route.prompt))
      case None =>
      case Some(reply) => ConverseStored(context, route.user, route.prompt, reply);
    }
  }

  /** handle_message changes no history but the sender's, and keeps every
      history well formed. */
  lemma HandleTouchesOnlySender(nickname: string, admin: string, context: map<string, seq<Message>>,
                                message: string, complete: Responder)
    requires AllStored(context)
    ensures var h := Handle(nickname, admin, context, message, complete);
      && AllStored(h.context)
      && (ParsePrivmsg(message).None? ==> h.context == context)
      && (ParsePrivmsg(message).Some? ==>
            var sender := ParsePrivmsg(message).value.sender;
            h.context.Keys <= context.Keys + {sender}
            && forall u :: u in context && u != sender ==> h.context[u] == context[u])
  {
    ActTouchesOnlyUser(admin, context, RouteMessage(nickname, message), complete);
  }

  /** The responder raised: only the read of the history took effect. */
  lemma ActUnanswered(admin: string, context: map<string, seq<Message>>, complete: Responder,
                      user: string, replyTo: string, prompt: string)
    requires complete(Prompt(admin, HistoryOf(context, user), prompt)).None?
    ensures Act(admin, context, Ask(user, replyTo, prompt), complete)
      == Handled(context[user := HistoryOf(context, user)], [], Some(ResponderFailed))
  {
    var h := Act(admin, context, Ask(user, replyTo, prompt), complete);
    assert h.context == context[user := HistoryOf(context, user)];
    assert h.sends == [];
    assert h.fault == Some(ResponderFailed);
  }

  /** The responder replied: the exchange is stored and the reply sent. */
  lemma ActAnswered(admin: string, context: map<string, seq<Message>>, complete: Responder,
                    user: string, replyTo: string, prompt: string, reply: string)
    requires complete(Prompt(admin, HistoryOf(context, user), prompt)) == Some(reply)
    ensures Act(admin, context, Ask(user, replyTo, prompt), complete)
      == Handled(Converse(context, user, prompt, reply), [ReplyLine(replyTo, user, reply)], None)
  {
    var history := HistoryOf(context, user);
    match complete(Prompt(admin, history, prompt))
    case Some(r) =>
      assert r == reply;
      var c := Converse(context, user, prompt, reply);
      var s := [ReplyLine(replyTo, user, reply)];
      assert Act(admin, context, Ask(user, replyTo, prompt), complete) == Handled(c, s, None);
  }

  /** A line that asks the responder, when the responder raises: nothing is
      sent, but reading the history has created the sender's entry. */
  lemma HandleUnanswered(nickname: string, admin: string, context: map<string, seq<Message>>,
                         message: string, complete: Responder, user: string, replyTo: string, prompt: string)
    requires RouteMessage(nickname, message) == Ask(user, replyTo, prompt)
    requires complete(Prompt(admin, HistoryOf(context, user), prompt)).None?
    ensures Handle(nickname, admin, context, message, complete)
      == Handled(context[user := HistoryOf(context, user)], [], Some(ResponderFailed))
  {
    ActUnanswered(admin, context, complete, user, replyTo, prompt);
  }

  /** A line that asks the responder, when it replies: the exchange is
      stored under the sender and the one reply line is sent. */
  lemma HandleAnswered(nickname: string, admin: string, context: map<string, seq<Message>>,
                       message: string, complete: Responder, user: string, replyTo: string, prompt: string,
                       reply: string)
    requires RouteMessage(nickname, message) == Ask(user, replyTo, prompt)
    requires complete(Prompt(admin, HistoryOf(context, user), prompt)) == Some(reply)
    ensures Handle(nickname, admin, context, message, complete)
      == Handled(Converse(context, user, prompt, reply), [ReplyLine(replyTo, user, reply)], None)
  {
    ActAnswered(admin, context, complete, user, replyTo, prompt, reply);
  }

  /** A PRIVMSG addressed to the bot's nickname from `:sender!rest` is
      answered, on the channel or privately when sent to the bot itself,
      with the reply to the text after the nickname stripped, and the
      exchange is stored under the sender. */
  lemma AddressedIsAnswered(nickname: string, admin: string, context: map<string, seq<Message>>,
                            sender: string, rest: string, target: string,
                            gap: string, core: string, trail: string, complete: Responder, reply: string)
    requires nickname != [] && ' ' !in sender && '!' !in sender && ' ' !in rest && ' ' !in target
    requires AllSpace(gap) && AllSpace(trail)
    requires core == [] || (!IsSpace(core[0]) && !IsSpace(core[|core| - 1]))
    requires complete(Prompt(admin, HistoryOf(context, sender), core)) == Some(reply)
    ensures Handle(nickname, admin, context,
                   ":" + sender + "!" + rest + " PRIVMSG " + target + " :" + nickname + (gap + core + trail),
                   complete)
      == Handled(Converse(context, sender, core, reply),
                 [ReplyLine(if target == nickname then sender else target, sender, reply)], None)
  {
    var prefix := ":" + sender + "!" + rest;
    assert ' ' !in prefix by {
      assert prefix == [':'] + sender + ['!'] + rest;
    }
    NickOf(sender, rest);
    PromptOf(nickname, prefix, target, gap, core, trail);
    HandleAnswered(nickname, admin, context, prefix + " PRIVMSG " + target + " :" + nickname + (gap + core + trail),
                   complete, sender, if target == nickname then sender else target, core, reply);
  }

  /** A PRIVMSG whose text does not start with the nickname is not answered
      and leaves the memory alone, whatever the service would say. */
  lemma UnaddressedIsIgnored(nickname: string, admin: string, context: map<string, seq<Message>>,
                             message: string, complete: Responder)
    requires ParsePrivmsg(message).Some? && !StartsWith(ParsePrivmsg(message).value.text, nickname)
    ensures Handle(nickname, admin, context, message, complete) == Handled(context, [], None)
  {
    assert RouteMessage(nickname, message) == Ignore;
  }

  // ---------------------------------------------------------------------
  // One pass of the read loop in listen

  /** The state the read loop carries between reads: the unframed remainder,
      the loop variable `line` (None while never bound) and the per-user
      memory. */
  datatype Listener = Listener(buffer: string, line: Option<string>, context: map<string, seq<Message>>)

  datatype Outcome = Completed | Aborted(fault: Fault)

  datatype StepResult = StepResult(next: Listener, sends: seq<string>, outcome: Outcome)

  /** One pass of the `while True` body after a read returned `chunk`: the
      buffer is split and its remainder kept before anything can raise;
      each complete line may raise or send a JOIN; then handle_message runs
      once, on whatever `line` holds. */
  function ListenStep(nickname: string, admin: string, st: Listener, chunk: string, complete: Responder)
    : (r: StepResult)
    ensures !Contains(r.next.buffer, CRLF)
    ensures Frames(SplitLines(st.buffer + chunk).lines) + r.next.buffer == st.buffer + chunk
  {
    var f := SplitLines(st.buffer + chunk);
    var run := RunLines(f.lines);
    var line := if run.visited == 0 then st.line else Some(f.lines[run.visited - 1]);
    if run.fault.Some? then StepResult(Listener(f.rest, line, st.context), run.joins, Aborted(run.fault.value))
    else if line.None? then StepResult(Listener(f.rest, line, st.context), run.joins, Aborted(LineUnbound))
    else
      var h := Handle(nickname, admin, st.context, line.value, complete);
      StepResult(Listener(f.rest, line, h.context), run.joins + h.sends,
                 if h.fault.None? then Completed else Aborted(h.fault.value))
  }

  /** The read loop over a series of reads: one pass per read, and since the
      exception handler is inside `while True`, the next pass starts
      whatever the outcome of the last one. */
  function Listen(nickname: string, admin: string, st: Listener, chunks: seq<string>, complete: Responder)
    : Listener
    decreases |chunks|
  {
    if chunks == [] then st
    else Listen(nickname, admin, ListenStep(nickname, admin, st, chunks[0], complete).next, chunks[1..], complete)
  }

  /** Over any series of reads, the read loop is left with the buffer that
      `Feed` computes for the same reads, whatever the lines did. */
  lemma {:induction false} ListenBufferIsFeed(nickname: string, admin: string, st: Listener,
                                              chunks: seq<string>, complete: Responder)
    ensures Listen(nickname, admin, st, chunks, complete).buffer == Feed(st.buffer, chunks).rest
    decreases |chunks|
  {
    if chunks != [] {
      var next := ListenStep(nickname, admin, st, chunks[0], complete).next;
      assert next.buffer == SplitLines(st.buffer + chunks[0]).rest;
      ListenBufferIsFeed(nickname, admin, next, chunks[1..], complete);
    }
  }

  /** Hence the buffer after any series of reads is the unframed remainder
      of the whole stream. */
  lemma ListenBufferOfStream(nickname: string, admin: string, st: Listener,
                             chunks: seq<string>, complete: Responder)
    requires !Contains(st.buffer, CRLF)
    ensures Listen(nickname, admin, st, chunks, complete).buffer == SplitLines(st.buffer + Concat(chunks)).rest
  {
    ListenBufferIsFeed(nickname, admin, st, chunks, complete);
    FeedAnyChunking(st.buffer, chunks);
  }

  /** A read that completes no line handles the previous line again: the
      last PRIVMSG is answered once more. */
  lemma PartialReadRepeatsLastLine(nickname: string, admin: string, st: Listener, chunk: string,
                                   complete: Responder)
    requires !Contains(st.buffer + chunk, CRLF) && st.line.Some?
    ensures ListenStep(nickname, admin, st, chunk, complete).next
      == Listener(st.buffer + chunk, st.line, Handle(nickname, admin, st.context, st.line.value, complete).context)
    ensures ListenStep(nickname, admin, st, chunk, complete).sends
      == Handle(nickname, admin, st.context, st.line.value, complete).sends
  {
    Unframe([], st.buffer + chunk);
    assert RunLines([]) == Run([], None, 0);
  }

  /** Before any complete line was ever read, a read that completes none
      raises, sending nothing. */
  lemma FirstPartialReadFails(nickname: string, admin: string, st: Listener, chunk: string,
                              complete: Responder)
    requires !Contains(st.buffer + chunk, CRLF) && st.line.None?
    ensures ListenStep(nickname, admin, st, chunk, complete)
      == StepResult(Listener(st.buffer + chunk, None, st.context), [], Aborted(LineUnbound))
  {
    Unframe([], st.buffer + chunk);
    assert RunLines([]) == Run([], None, 0);
  }

  /** Of several lines completed by one read, only the last reaches
      handle_message; the others only get their INVITEs acted on. */
  lemma OnlyLastLineHandled(nickname: string, admin: string, st: Listener, chunk: string,
                            lines: seq<string>, rest: string, complete: Responder)
    requires st.buffer + chunk == Frames(lines) + rest
    requires LinesFree(lines) && !Contains(rest, CRLF)
    requires lines != [] && forall k :: 0 <= k < |lines| ==> !LineEffect(lines[k]).Fail?
    ensures ListenStep(nickname, admin, st, chunk, complete).next
      == Listener(rest, Some(lines[|lines| - 1]), Handle(nickname, admin, st.context, lines[|lines| - 1], complete).context)
    ensures ListenStep(nickname, admin, st, chunk, complete).sends
      == JoinsOf(lines) + Handle(nickname, admin, st.context, lines[|lines| - 1], complete).sends
  {
    Unframe(lines, rest);
    CleanBatch(lines);
    var h := Handle(nickname, admin, st.context, lines[|lines| - 1], complete);
    assert ListenStep(nickname, admin, st, chunk, complete)
      == StepResult(Listener(rest, Some(lines[|lines| - 1]), h.context), JoinsOf(lines) + h.sends,
                    if h.fault.None? then Completed else Aborted(h.fault.value));
  }

  /** A PING line ends the pass: no PONG is sent, the lines after it are
      lost (the buffer has already moved past them), nothing is handled,
      and `line` keeps the PING line. */
  lemma PingAbortsPass(nickname: string, admin: string, st: Listener, chunk: string,
                       lines: seq<string>, rest: string, k: nat, complete: Responder)
    requires st.buffer + chunk == Frames(lines) + rest
    requires LinesFree(lines) && !Contains(rest, CRLF)
    requires k < |lines| && StartsWith(lines[k], "PING")
    requires forall j :: 0 <= j < k ==> !LineEffect(lines[j]).Fail?
    ensures ListenStep(nickname, admin, st, chunk, complete)
      == StepResult(Listener(rest, Some(lines[k]), st.context), JoinsOf(lines[..k]), Aborted(SendRawUndefined))
  {
    Unframe(lines, rest);
    PingStopsBatch(lines, k);
    assert lines[..k + 1][k] == lines[k];
    var r := ListenStep(nickname, admin, st, chunk, complete);
    assert r.next == Listener(rest, Some(lines[k]), st.context);
    assert r.sends == JoinsOf(lines[..k]);
    assert r.outcome == Aborted(SendRawUndefined);
  }
}
