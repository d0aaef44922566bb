/** chatbot.py's `IRCBot` as an object: the registration handshake, the
    framed send, `handle_message` and one pass of the read loop in `listen`,
    each proved against its function in Dispatch or Protocol. */
module Bot {
  import opened PyStr
  import opened Protocol
  import opened ChatGpt
  import opened Dispatch

  class IrcBot {
    const nickname: string
    const channels: seq<string>
    const password: Option<string>
    const chat: ChatGptBot
    /** The messages handed to `send` on the current connection, in order. */
    var sent: seq<string>
    /** `buffer` of listen. */
    var buffer: string
    /** The loop variable `line` of listen; None while unbound. */
    var line: Option<string>

    ghost predicate Valid()
      reads this, chat
    {
      !Contains(buffer, CRLF) && chat.Valid()
    }

    /** What has been written to the socket: each sent message and a CRLF. */
    ghost function Wire(): string
      reads this
    {
      Frames(sent)
    }

    ghost function State(): Listener
      reads this, chat
    {
      Listener(buffer, line, chat.userContext)
    }

    constructor(nickname: string, channels: seq<string>, password: Option<string>, adminPrompt: string)
      ensures this.nickname == nickname && this.channels == channels && this.password == password
      ensures fresh(chat) && chat.adminPrompt == adminPrompt && chat.userContext == map[]
      ensures sent == [] && buffer == "" && line == None
      ensures Valid()
    {
      this.nickname := nickname;
      this.channels := channels;
      this.password := password;
      chat := new ChatGptBot(adminPrompt);
      sent := [];
      buffer := "";
      line := None;
      new;
      MissingCharNotContained("", CRLF);
    }

    /** send(message): the message and a CRLF go out. */
    method Send(message: string)
      modifies this
      ensures sent == old(sent) + [message]
      ensures Wire() == old(Wire()) + message + CRLF
      ensures buffer == old(buffer) && line == old(line)
    {
      FramesAppend(sent, [message]);
      sent := sent + [message];
    }

    /** connect: on a fresh connection, PASS when a password is set, NICK,
        USER, then one JOIN per configured channel. */
    method Connect()
      modifies this
      ensures sent == Handshake(nickname, password, channels)
      ensures buffer == old(buffer) && line == old(line)
    {
      sent := [];
      if HasPassword(password) {
        Send("PASS " + password.value);
      }
      Send("NICK " + nickname);
      Send("USER " + nickname + " 0 * :" + nickname);
      assert sent == Handshake(nickname, password, channels[..0]);
      for i := 0 to |channels|
        invariant sent == Handshake(nickname, password, channels[..i])
        invariant buffer == old(buffer) && line == old(line)
      {
        Send("JOIN " + channels[i]);
        HandshakeSnoc(nickname, password, channels, i);
      }
      assert channels[..|channels|] == channels;
    }

    /** The start of listen: an empty buffer and `line` not yet bound. */
    method BeginListen()
      modifies this
      ensures buffer == "" && line == None && sent == old(sent)
      ensures chat.Valid() ==> Valid()
    {
      buffer := "";
      line := None;
      MissingCharNotContained("", CRLF);
    }

    /** handle_message(message). */
    method HandleMessage(message: string, complete: Responder) returns (fault: Option<Fault>)
      requires Valid()
      modifies this, chat
      ensures Valid()
      ensures sent == old(sent) + Handle(nickname, chat.adminPrompt, old(chat.userContext), message, complete).sends
      ensures chat.userContext == Handle(nickname, chat.adminPrompt, old(chat.userContext), message, complete).context
      ensures fault == Handle(nickname, chat.adminPrompt, old(chat.userContext), message, complete).fault
      ensures buffer == old(buffer) && line == old(line)
    {
      var route := RouteMessage(nickname, message);
      ghost var h := Handle(nickname, chat.adminPrompt, chat.userContext, message, complete);
      assert h == Act(chat.adminPrompt, chat.userContext, route, complete);
      fault := None;
      match route
      case Ignore =>
      case Invalid =>
        fault := Some(EmptySeparator);
      case Ask(user, replyTo, prompt) =>
        var response := chat.Respond(user, prompt, complete);
        if response.Some? {
          Send(ReplyLine(replyTo, user, response.value));
        } else {
          fault := Some(ResponderFailed);
        }
        assert buffer == old(buffer);
        assert !Contains(buffer, CRLF);
        assert chat.Valid();
    }

    /** The body of listen's `for line in lines` loop for one line: a PING
        line raises (there is no `send_raw`), an INVITE line with fewer
        than four words raises, any other INVITE line sends a JOIN. */
    method CheckLine(l: string) returns (fault: Option<Fault>)
      modifies this
      ensures fault == if LineEffect(l).Fail? then Some(LineEffect(l).fault) else None
      ensures sent == old(sent) + EffectJoins(LineEffect(l))
      ensures buffer == old(buffer) && line == old(line)
    {
      if StartsWith(l, "PING") {
        return Some(SendRawUndefined);
      }
      if Contains(l, "INVITE") {
        var parts := Words(l);
        if |parts| < 4 {
          return Some(InviteTooShort);
        }
        Send("JOIN " + Tail(parts[3]));
      }
      return None;
    }

    /** The `for line in lines` loop of listen: each line binds `line` and
        is checked; the first line that raises ends the loop. */
    method RunBatch(lines: seq<string>) returns (fault: Option<Fault>)
      modifies this
      ensures fault == RunLines(lines).fault
      ensures sent == old(sent) + RunLines(lines).joins
      ensures line == if RunLines(lines).visited == 0 then old(line) else Some(lines[RunLines(lines).visited - 1])
      ensures buffer == old(buffer)
    {
      var i := 0;
      ResumeStart(lines);
      while i < |lines|
        invariant 0 <= i <= |lines|
        invariant RunLines(lines) == Resume(lines, i)
        invariant sent == old(sent) + JoinsOf(lines[..i])
        invariant line == if i == 0 then old(line) else Some(lines[i - 1])
        invariant buffer == old(buffer)
      {
        line := Some(lines[i]);
        fault := CheckLine(lines[i]);
        ResumeStep(lines, i);
        if fault.Some? {
          return;
        }
        JoinsSnoc(lines, i);
        ConcatAssoc(old(sent), JoinsOf(lines[..i]), EffectJoins(LineEffect(lines[i])));
        i := i + 1;
      }
      ResumeEnd(lines);
      return None;
    }

    /** One pass of listen's `while True` body after a read returned
        `chunk`. The exception handler ends the pass; it is `outcome`. */
    method Step(chunk: string, complete: Responder) returns (outcome: Outcome)
      requires Valid()
      modifies this, chat
      ensures Valid()
      ensures State() == ListenStep(nickname, chat.adminPrompt, old(State()), chunk, complete).next
      ensures sent == old(sent) + ListenStep(nickname, chat.adminPrompt, old(State()), chunk, complete).sends
      ensures outcome == ListenStep(nickname, chat.adminPrompt, old(State()), chunk, complete).outcome
    {
      ghost var r := ListenStep(nickname, chat.adminPrompt, State(), chunk, complete);
      var f := SplitLines(buffer + chunk);
      buffer := f.rest;
      var fault := RunBatch(f.lines);
      if fault.Some? {
        outcome := Aborted(fault.value);
      } else if line.None? {
        outcome := Aborted(LineUnbound);
      } else {
        fault := HandleMessage(line.value, complete);
        outcome := if fault.None? then Completed else Aborted(fault.value);
        ghost var h := Handle(nickname, chat.adminPrompt, old(chat.userContext), line.value, complete);
        assert r.sends == RunLines(f.lines).joins + h.sends;
        ConcatAssoc(old(sent), RunLines(f.lines).joins, h.sends);
      }
    }
  }
}
