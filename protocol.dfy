/** The text-level IRC machinery of chatbot.py: CRLF framing of what is
    sent and received, the registration handshake, the per-line PING/INVITE
    checks of the read loop and the PRIVMSG parser of handle_message. */
module Protocol {
  import opened PyStr

  const CRLF: string := "\r\n"

  // ---------------------------------------------------------------------
  // Framing

  /** What `IRCBot.send` writes for one message. */
  function Frame(message: string): string
  {
    message + CRLF
  }

  /** What a sequence of `send` calls writes, in order. */
  function Frames(messages: seq<string>): string
  {
    if messages == [] then [] else Frame(messages[0]) + Frames(messages[1..])
  }

  datatype Framed = Framed(lines: seq<string>, rest: string)

  lemma CrlfUnbordered()
    ensures CRLF != [] && Unbordered(CRLF)
  {
    assert CRLF[1..] == "\n";
    assert CRLF[..1] == "\r";
  }

  lemma {:induction false} FramesAppend(a: seq<string>, b: seq<string>)
    ensures Frames(a + b) == Frames(a) + Frames(b)
  {
    if a != [] {
      assert (a + b)[1..] == a[1..] + b;
      FramesAppend(a[1..], b);
    } else {
      assert a + b == b;
    }
  }

  lemma {:induction false} FramesJoin(lines: seq<string>, rest: string)
    ensures Frames(lines) + rest == Join(lines + [rest], CRLF)
  {
    if lines != [] {
      FramesJoin(lines[1..], rest);
      assert (lines + [rest])[1..] == lines[1..] + [rest];
    }
  }

  /** No line holds a CRLF (stated recursively so that it unfolds only on
      demand). */
  predicate LinesFree(lines: seq<string>)
  {
    lines == [] || (!Contains(lines[0], CRLF) && LinesFree(lines[1..]))
  }

  lemma {:induction false} LinesFreeAt(lines: seq<string>, k: nat)
    requires LinesFree(lines) && k < |lines|
    ensures !Contains(lines[k], CRLF)
  {
    if k > 0 {
      LinesFreeAt(lines[1..], k - 1);
    }
  }

  /** Lines without a CR hold no CRLF. */
  lemma {:induction false} NoCrLinesFree(lines: seq<string>)
    requires forall k :: 0 <= k < |lines| ==> '\r' !in lines[k]
    ensures LinesFree(lines)
  {
    if lines != [] {
      MissingCharNotContained(lines[0], CRLF);
      var tail := lines[1..];
      assert forall k :: 0 <= k < |tail| ==> tail[k] == lines[k + 1];
      NoCrLinesFree(tail);
    }
  }

  lemma {:induction false} LinesFreeAll(lines: seq<string>)
    requires forall k :: 0 <= k < |lines| ==> !Contains(lines[k], CRLF)
    ensures LinesFree(lines)
  {
    if lines != [] {
      var tail := lines[1..];
      assert forall k :: 0 <= k < |tail| ==> tail[k] == lines[k + 1];
      LinesFreeAll(tail);
    }
  }

  /** One read of the loop in `listen`: `buffer.split("\r\n")`, the last
      piece popped off as the new buffer. */
  function SplitLines(data: string): (f: Framed)
    ensures Frames(f.lines) + f.rest == data
    ensures !Contains(f.rest, CRLF)
    ensures LinesFree(f.lines)
  {
    var parts := Split(data, CRLF, -1);
    SplitJoin(data, CRLF, -1);
    SplitPieces(data, CRLF, -1);
    var f := Framed(parts[..|parts| - 1], parts[|parts| - 1]);
    LinesFreeAll(f.lines);
    FramesJoin(f.lines, f.rest);
    assert f.lines + [f.rest] == parts;
    f
  }

  lemma {:induction false} SplitNegative(s: string, sep: string, m: int, m': int)
    requires sep != [] && m < 0 && m' < 0
    ensures Split(s, sep, m) == Split(s, sep, m')
    decreases |s|
  {
    match Find(s, sep)
    case None =>
    case Some(i) =>
      SplitStep(s, sep, m, i);
      SplitStep(s, sep, m', i);
      SplitNegative(s[i + |sep|..], sep, m - 1, m' - 1);
  }

  lemma ConcatAssoc<T>(a: seq<T>, b: seq<T>, c: seq<T>)
    ensures a + (b + c) == a + b + c
  {
  }

  lemma ConcatDropLast<T>(a: seq<T>, b: seq<T>)
    requires b != []
    ensures (a + b)[..|a + b| - 1] == a + b[..|b| - 1]
    ensures (a + b)[|a + b| - 1] == b[|b| - 1]
  {
  }

  lemma SplitFramesStep(first: string, tail: seq<string>, y: string)
    requires !Contains(first, CRLF)
    requires Split(Frames(tail) + y, CRLF, -1) == tail + Split(y, CRLF, -1)
    ensures Split(Frames([first] + tail) + y, CRLF, -1) == [first] + tail + Split(y, CRLF, -1)
  {
    var z := Frames(tail) + y;
    var s := first + CRLF + z;
    assert Frames([first] + tail) + y == s by {
      assert ([first] + tail)[1..] == tail;
    }
    CrlfUnbordered();
    SplitAfterPiece(first, z, CRLF, -1);
    SplitNegative(z, CRLF, -2, -1);
    var rest := Split(y, CRLF, -1);
    assert Split(s, CRLF, -1) == [first] + (tail + rest);
    ConcatAssoc([first], tail, rest);
  }

  lemma {:induction false} SplitFrames(lines: seq<string>, y: string)
    requires LinesFree(lines)
    ensures Split(Frames(lines) + y, CRLF, -1) == lines + Split(y, CRLF, -1)
  {
    if lines != [] {
      var tail := lines[1..];
      SplitFrames(tail, y);
      SplitFramesStep(lines[0], tail, y);
      assert lines == [lines[0]] + tail;
    } else {
      assert Frames(lines) + y == y;
    }
  }

  /** Complete lines at the front of the data come out first, unchanged,
      whatever follows them. */
  lemma FramesThen(lines: seq<string>, y: string)
    requires LinesFree(lines)
    ensures SplitLines(Frames(lines) + y) == Framed(lines + SplitLines(y).lines, SplitLines(y).rest)
  {
    SplitFrames(lines, y);
    var p := Split(y, CRLF, -1);
    ConcatDropLast(lines, p);
  }

  /** Round trip: framing CRLF-free lines and a CRLF-free remainder, then
      splitting again, gives back the lines and the remainder. */
  lemma Unframe(lines: seq<string>, rest: string)
    requires LinesFree(lines)
    requires !Contains(rest, CRLF)
    ensures SplitLines(Frames(lines) + rest) == Framed(lines, rest)
  {
    FramesThen(lines, rest);
    SplitWhole(rest, CRLF, -1);
    assert lines + [] == lines;
  }

  /** A single sent message is read back as that one line exactly when it
      has no CRLF of its own. */
  lemma FrameReadBack(message: string)
    ensures SplitLines(Frame(message)) == Framed([message], "") <==> !Contains(message, CRLF)
  {
    assert Frames([message]) + "" == Frame(message);
    if !Contains(message, CRLF) {
      MissingCharNotContained("", CRLF);
      Unframe([message], "");
    }
  }

  /** Splitting `a + b` is splitting `a`, then splitting its remainder
      followed by `b`: concatenation before splitting finds a CRLF that
      straddles two reads. */
  lemma FrameConcat(a: string, b: string)
    ensures var fa := SplitLines(a);
      var fb := SplitLines(fa.rest + b);
      SplitLines(a + b) == Framed(fa.lines + fb.lines, fb.rest)
  {
    var fa := SplitLines(a);
    assert a + b == Frames(fa.lines) + (fa.rest + b);
    FramesThen(fa.lines, fa.rest + b);
  }

  function Concat(chunks: seq<string>): string
  {
    if chunks == [] then [] else chunks[0] + Concat(chunks[1..])
  }

  /** The lines the read loop frames over a series of reads, and the buffer
      it is left with. */
  function Feed(buffer: string, chunks: seq<string>): Framed
    decreases |chunks|
  {
    if chunks == [] then Framed([], buffer)
    else
      var f := SplitLines(buffer + chunks[0]);
      var g := Feed(f.rest, chunks[1..]);
      Framed(f.lines + g.lines, g.rest)
  }

  /** However the byte stream is cut into reads, the framed lines (in order)
      and the final buffer are those of the whole stream at once. */
  lemma {:induction false} FeedAnyChunking(buffer: string, chunks: seq<string>)
    requires !Contains(buffer, CRLF)
    ensures Feed(buffer, chunks) == SplitLines(buffer + Concat(chunks))
    decreases |chunks|
  {
    if chunks == [] {
      Unframe([], buffer);
      assert buffer + [] == buffer;
    } else {
      var tail := Concat(chunks[1..]);
      var f := SplitLines(buffer + chunks[0]);
      var g := Feed(f.rest, chunks[1..]);
      assert Feed(buffer, chunks) == Framed(f.lines + g.lines, g.rest);
      FeedAnyChunking(f.rest, chunks[1..]);
      assert g == SplitLines(f.rest + tail);
      FrameConcat(buffer + chunks[0], tail);
      assert Concat(chunks) == chunks[0] + tail;
      ConcatAssoc(buffer, chunks[0], tail);
    }
  }

  // ---------------------------------------------------------------------
  // Registration handshake (IRCBot.connect)

  /** Python truthiness of `config.get("password")`: absent or empty is false. */
  predicate HasPassword(password: Option<string>)
  {
    password.Some? && password.value != []
  }

  function JoinAll(channels: seq<string>): (cmds: seq<string>)
    ensures |cmds| == |channels|
    ensures forall i :: 0 <= i < |channels| ==> cmds[i] == "JOIN " + channels[i]
  {
    seq(|channels|, i requires 0 <= i < |channels| => "JOIN " + channels[i])
  }

  /** The commands `connect` sends after the transport is up. */
  function Handshake(nickname: string, password: Option<string>, channels: seq<string>): (cmds: seq<string>)
    ensures var head := if HasPassword(password) then 1 else 0;
      && |cmds| == head + 2 + |channels|
      && (HasPassword(password) ==> cmds[0] == "PASS " + password.value)
      && cmds[head] == "NICK " + nickname
      && cmds[head + 1] == "USER " + nickname + " 0 * :" + nickname
      && forall i :: 0 <= i < |channels| ==> cmds[head + 2 + i] == "JOIN " + channels[i]
  {
    (if HasPassword(password) then ["PASS " + password.value] else [])
      + ["NICK " + nickname, "USER " + nickname + " 0 * :" + nickname]
      + JoinAll(channels)
  }

  /** Only the first handshake command, and only with a password set, is a
      PASS command. */
  lemma PassOnlyWithPassword(nickname: string, password: Option<string>, channels: seq<string>)
    ensures var cmds := Handshake(nickname, password, channels);
      forall k :: 0 <= k < |cmds| && StartsWith(cmds[k], "PASS ") ==> HasPassword(password) && k == 0
  {
    var cmds := Handshake(nickname, password, channels);
    var head := if HasPassword(password) then 1 else 0;
    forall k | head <= k < |cmds|
      ensures !StartsWith(cmds[k], "PASS ")
    {
      if k >= head + 2 {
        assert cmds[k] == "JOIN " + channels[k - head - 2];
      }
      FirstCharDiffers(cmds[k], "PASS ");
    }
  }

  /** With no CR in the nickname, password and channel names, the server
      reads back exactly the handshake commands, one per line, and nothing
      is left over. */
  lemma HandshakeReadBack(nickname: string, password: Option<string>, channels: seq<string>)
    requires '\r' !in nickname
    requires password.Some? ==> '\r' !in password.value
    requires forall i :: 0 <= i < |channels| ==> '\r' !in channels[i]
    ensures var cmds := Handshake(nickname, password, channels);
      SplitLines(Frames(cmds)) == Framed(cmds, "")
  {
    var cmds := Handshake(nickname, password, channels);
    var head := if HasPassword(password) then 1 else 0;
    forall k | 0 <= k < |cmds|
      ensures '\r' !in cmds[k]
    {
      if k >= head + 2 {
        var c := channels[k - head - 2];
        assert cmds[k] == "JOIN " + c;
      }
    }
    NoCrLinesFree(cmds);
    MissingCharNotContained("", CRLF);
    Unframe(cmds, "");
    assert Frames(cmds) + "" == Frames(cmds);
  }

  /** The handshake for one more channel ends with that channel's JOIN. */
  lemma HandshakeSnoc(nickname: string, password: Option<string>, channels: seq<string>, i: nat)
    requires i < |channels|
    ensures Handshake(nickname, password, channels[..i + 1])
      == Handshake(nickname, password, channels[..i]) + ["JOIN " + channels[i]]
  {
    assert JoinAll(channels[..i + 1]) == JoinAll(channels[..i]) + ["JOIN " + channels[i]];
  }

  // ---------------------------------------------------------------------
  // Per-line checks of the read loop (IRCBot.listen)

  /** The exceptions that end one pass of the read loop. */
  datatype Fault =
    | SendRawUndefined   // a PING line: `self.send_raw` does not exist
    | InviteTooShort     // an INVITE line with fewer than four words
    | LineUnbound        // `line` read before any complete line arrived
    | EmptySeparator     // `split` on an empty nickname
    | ResponderFailed    // the completion call raised

  datatype Effect = Quiet | JoinChannel(channel: string) | Fail(fault: Fault)

  /** What the body of the `for line in lines` loop does with one line. */
  function LineEffect(line: string): Effect
  {
    if StartsWith(line, "PING") then Fail(SendRawUndefined)
    else if Contains(line, "INVITE") then
      var parts := Words(line);
      if |parts| < 4 then Fail(InviteTooShort) else JoinChannel(Tail(parts[3]))
    else Quiet
  }

  /** The JOIN command the loop body sends for one line, if any. */
  function EffectJoins(e: Effect): seq<string>
  {
    match e
    case JoinChannel(c) => ["JOIN " + c]
    case _ => []
  }

  /** The JOIN commands the loop body sends for `lines`, in order. */
  function JoinsOf(lines: seq<string>): seq<string>
  {
    if lines == [] then [] else EffectJoins(LineEffect(lines[0])) + JoinsOf(lines[1..])
  }

  lemma {:induction false} JoinsOfAppend(a: seq<string>, b: seq<string>)
    ensures JoinsOf(a + b) == JoinsOf(a) + JoinsOf(b)
  {
    if a == [] {
      assert a + b == b;
    } else {
      assert (a + b)[1..] == a[1..] + b;
      JoinsOfAppend(a[1..], b);
    }
  }

  /** One more line adds that line's JOIN, if any, at the end. */
  lemma JoinsSnoc(lines: seq<string>, i: nat)
    requires i < |lines|
    ensures JoinsOf(lines[..i + 1]) == JoinsOf(lines[..i]) + EffectJoins(LineEffect(lines[i]))
  {
    assert lines[..i + 1] == lines[..i] + [lines[i]];
    JoinsOfAppend(lines[..i], [lines[i]]);
    assert JoinsOf([lines[i]]) == EffectJoins(LineEffect(lines[i])) + JoinsOf([]);
  }

  /** The JOINs for the first `n + 1` lines: the first line's, then those
      for the next `n`. */
  lemma JoinsCons(lines: seq<string>, n: nat)
    requires n < |lines|
    ensures JoinsOf(lines[..n + 1]) == EffectJoins(LineEffect(lines[0])) + JoinsOf(lines[1..][..n])
  {
    assert lines[..n + 1][0] == lines[0];
    assert lines[..n + 1][1..] == lines[1..][..n];
  }

  /** Outcome of the `for` loop over one batch: the JOINs sent, the
      exception that stopped it if any, and how many lines `line` was bound
      to (the faulting line included). */
  datatype Run = Run(joins: seq<string>, fault: Option<Fault>, visited: nat)

  function RunLines(lines: seq<string>): (r: Run)
    ensures r.visited <= |lines|
    ensures r.fault.None? ==>
      r.visited == |lines| && forall k :: 0 <= k < |lines| ==> !LineEffect(lines[k]).Fail?
    ensures r.fault.Some? ==>
      && 0 < r.visited && LineEffect(lines[r.visited - 1]) == Fail(r.fault.value)
      && forall k :: 0 <= k < r.visited - 1 ==> !LineEffect(lines[k]).Fail?
    ensures r.joins == JoinsOf(lines[..r.visited])
  {
    if lines == [] then Run([], None, 0)
    else
      var e := LineEffect(lines[0]);
      if e.Fail? then
        assert lines[..1] == [lines[0]];
        Run([], Some(e.fault), 1)
      else
        var r := RunLines(lines[1..]);
        JoinsCons(lines, r.visited);
        Run(EffectJoins(e) + r.joins, r.fault, r.visited + 1)
  }

  /** A batch in which no line raises is looked at in full. */
  lemma CleanBatch(lines: seq<string>)
    requires forall k :: 0 <= k < |lines| ==> !LineEffect(lines[k]).Fail?
    ensures RunLines(lines) == Run(JoinsOf(lines), None, |lines|)
  {
    assert lines[..|lines|] == lines;
  }

  /** A line holding "INVITE" always has a first word, so `parts[0]` never
      raises; only `parts[3]` can. */
  lemma InviteLineHasWord(line: string)
    requires Contains(line, "INVITE")
    ensures Words(line) != []
  {
    var j := Find(line, "INVITE").value;
    assert line[j..j + 6][0] == line[j];
    WordsEmptyIff(line);
  }

  lemma InviteIsWord()
    ensures IsWord("INVITE")
  {
    assert "INVITE" == ['I', 'N', 'V', 'I', 'T', 'E'];
  }

  lemma ContainsMiddle(x: string, sub: string, y: string)
    ensures Contains(x + sub + y, sub)
  {
    assert (x + sub + y)[|x|..|x| + |sub|] == sub;
    assert OccursAt(x + sub + y, sub, |x|);
  }

  lemma FirstCharDiffers(s: string, p: string)
    requires s != [] && p != [] && s[0] != p[0]
    ensures !StartsWith(s, p)
  {
    if |p| <= |s| {
      assert s[..|p|][0] == s[0];
    }
  }

  lemma InviteLayout(ws: seq<string>)
    requires |ws| >= 2
    ensures Join(ws, " ") == ws[0] + " " + ws[1] + (if |ws| == 2 then [] else " " + Join(ws[2..], " "))
  {
    if |ws| > 2 {
      assert ws[1..][1..] == ws[2..];
      assert Join(ws[1..], " ") == ws[1] + " " + Join(ws[2..], " ");
    } else {
      assert Join(ws[1..], " ") == ws[1];
    }
  }

  /** Four words in front of a list of words make a list of words. */
  lemma AllWordsFour(a: string, b: string, c: string, d: string, more: seq<string>)
    requires IsWord(a) && IsWord(b) && IsWord(c) && IsWord(d) && AllWords(more)
    ensures AllWords([a, b, c, d] + more)
  {
    var ws := [a, b, c, d] + more;
    AllWordsIndexed(more);
    forall k | 0 <= k < |ws|
      ensures IsWord(ws[k])
    {
      if k >= 4 {
        assert ws[k] == more[k - 4];
      }
    }
    AllWordsIndexed(ws);
  }

  /** An INVITE as servers send it (`:nick!user@host INVITE bot :#channel`)
      makes the bot join the channel named by the fourth word, minus its
      first character. */
  lemma InviteJoins(inviter: string, nick: string, channel: string, more: seq<string>)
    requires IsWord(inviter) && inviter[0] == ':' && IsWord(nick) && IsWord(channel)
    requires AllWords(more)
    ensures LineEffect(Join([inviter, "INVITE", nick, channel] + more, " ")) == JoinChannel(Tail(channel))
  {
    var ws := [inviter, "INVITE", nick, channel] + more;
    var line := Join(ws, " ");
    InviteIsWord();
    AllWordsFour(inviter, "INVITE", nick, channel, more);
    WordsJoin(ws);
    InviteLayout(ws);
    var after := " " + Join(ws[2..], " ");
    assert line == inviter + " " + "INVITE" + after;
    ContainsMiddle(inviter + " ", "INVITE", after);
    assert line[0] == ':';
    FirstCharDiffers(line, "PING");
    assert Words(line)[3] == channel;
  }

  /** The first line that raises stops the batch: the lines before it are
      processed, it is the last line bound, and no line after it is looked
      at. */
  lemma FaultStopsBatch(lines: seq<string>, k: nat)
    requires k < |lines| && LineEffect(lines[k]).Fail?
    requires forall j :: 0 <= j < k ==> !LineEffect(lines[j]).Fail?
    ensures RunLines(lines) == Run(JoinsOf(lines[..k]), Some(LineEffect(lines[k]).fault), k + 1)
  {
    ResumeStart(lines);
    ResumeToFault(lines, 0, k);
  }

  /** In particular a PING line, since `send_raw` does not exist. */
  lemma PingStopsBatch(lines: seq<string>, k: nat)
    requires k < |lines| && StartsWith(lines[k], "PING")
    requires forall j :: 0 <= j < k ==> !LineEffect(lines[j]).Fail?
    ensures RunLines(lines) == Run(JoinsOf(lines[..k]), Some(SendRawUndefined), k + 1)
  {
    FaultStopsBatch(lines, k);
  }

  /** The batch seen from line `i` on, when the lines before it went through:
      their JOINs and their count ahead of the run of the rest. */
  function Resume(lines: seq<string>, i: nat): Run
    requires i <= |lines|
  {
    var r := RunLines(lines[i..]);
    Run(JoinsOf(lines[..i]) + r.joins, r.fault, i + r.visited)
  }

  lemma ResumeStart(lines: seq<string>)
    ensures Resume(lines, 0) == RunLines(lines)
  {
    assert lines[0..] == lines;
    assert JoinsOf(lines[..0]) == [];
  }

  lemma ResumeEnd(lines: seq<string>)
    ensures Resume(lines, |lines|) == Run(JoinsOf(lines), None, |lines|)
  {
    assert lines[|lines|..] == [];
    assert lines[..|lines|] == lines;
  }

  /** Line `i` either ends the batch with its exception or adds its JOIN and
      hands on to line `i + 1`. */
  lemma ResumeStep(lines: seq<string>, i: nat)
    requires i < |lines|
    ensures LineEffect(lines[i]).Fail? ==>
      Resume(lines, i) == Run(JoinsOf(lines[..i]), Some(LineEffect(lines[i]).fault), i + 1)
    ensures !LineEffect(lines[i]).Fail? ==> Resume(lines, i) == Resume(lines, i + 1)
  {
    var t := lines[i..];
    assert t[0] == lines[i];
    assert t[1..] == lines[i + 1..];
    var e := LineEffect(lines[i]);
    if e.Fail? {
      assert RunLines(t) == Run([], Some(e.fault), 1);
      assert JoinsOf(lines[..i]) + [] == JoinsOf(lines[..i]);
    } else {
      var r := RunLines(lines[i + 1..]);
      assert RunLines(t) == Run(EffectJoins(e) + r.joins, r.fault, r.visited + 1);
      JoinsSnoc(lines, i);
      ConcatAssoc(JoinsOf(lines[..i]), EffectJoins(e), r.joins);
    }
  }

  /** From line `j` on, the batch runs up to the first line that raises. */
  lemma {:induction false} ResumeToFault(lines: seq<string>, j: nat, k: nat)
    requires j <= k < |lines| && LineEffect(lines[k]).Fail?
    requires forall i :: j <= i < k ==> !LineEffect(lines[i]).Fail?
    ensures Resume(lines, j) == Run(JoinsOf(lines[..k]), Some(LineEffect(lines[k]).fault), k + 1)
    decreases k - j
  {
    ResumeStep(lines, j);
    if j < k {
      ResumeToFault(lines, j + 1, k);
    }
  }

  // ---------------------------------------------------------------------
  // PRIVMSG parsing and routing (IRCBot.handle_message)

  datatype Privmsg = Privmsg(sender: string, target: string, text: string)

  /** `prefix.split("!")[0][1:]`: the nickname in `:nick!user@host`. */
  function Nick(prefix: string): string
  {
    Tail(Split(prefix, "!", -1)[0])
  }

  lemma NickOf(n: string, rest: string)
    requires '!' !in n
    ensures Nick(":" + n + "!" + rest) == n
    ensures Nick(":" + n) == n
  {
    assert Unbordered("!");
    assert ":" + n == [':'] + n;
    MissingCharNotContained(":" + n, "!");
    SplitAfterPiece(":" + n, rest, "!", -1);
    SplitWhole(":" + n, "!", -1);
  }

  /** `message.split(" ", 3)`, kept only when it has four parts and the
      second is exactly "PRIVMSG". */
  function ParsePrivmsg(message: string): Option<Privmsg>
  {
    var parts := Split(message, " ", 3);
    if |parts| < 4 || parts[1] != "PRIVMSG" then None
    else Some(Privmsg(Nick(parts[0]), parts[2], Tail(parts[3])))
  }

  lemma NoSpaceNotContained(s: string)
    requires ' ' !in s
    ensures !Contains(s, " ")
  {
    MissingCharNotContained(s, " ");
  }

  lemma PrivmsgLayout(prefix: string, target: string, rest: string)
    ensures prefix + " PRIVMSG " + target + " " + rest
      == prefix + " " + ("PRIVMSG" + " " + (target + " " + rest))
  {
  }

  lemma JoinFour(parts: seq<string>, sep: string)
    requires |parts| == 4
    ensures Join(parts, sep) == parts[0] + sep + (parts[1] + sep + (parts[2] + sep + parts[3]))
  {
    assert parts[1..][1..] == parts[2..];
    assert parts[2..][1..] == parts[3..];
    assert Join(parts[3..], sep) == parts[3];
    assert Join(parts[2..], sep) == parts[2] + sep + Join(parts[3..], sep);
    assert Join(parts[1..], sep) == parts[1] + sep + Join(parts[2..], sep);
  }

  /** `split(" ", 3)` of four pieces, the first three without a space, is
      those four pieces. */
  lemma SplitFour(p0: string, p1: string, p2: string, p3: string)
    requires ' ' !in p0 && ' ' !in p1 && ' ' !in p2
    ensures Split(p0 + " " + (p1 + " " + (p2 + " " + p3)), " ", 3) == [p0, p1, p2, p3]
  {
    assert Unbordered(" ");
    NoSpaceNotContained(p0);
    NoSpaceNotContained(p1);
    NoSpaceNotContained(p2);
    var t2 := p2 + " " + p3;
    var t1 := p1 + " " + t2;
    calc {
      Split(p0 + " " + t1, " ", 3);
      { SplitAfterPiece(p0, t1, " ", 3); }
      [p0] + Split(t1, " ", 2);
      { SplitAfterPiece(p1, t2, " ", 2); }
      [p0] + ([p1] + Split(t2, " ", 1));
      { SplitAfterPiece(p2, p3, " ", 1); }
      [p0] + ([p1] + ([p2] + Split(p3, " ", 0)));
      [p0, p1, p2, p3];
    }
  }

  /** A PRIVMSG line with a space-free prefix and target parses into the
      sender's nickname, the target and the trailing text minus its first
      character, with every further space kept. */
  lemma PrivmsgOf(prefix: string, target: string, rest: string)
    requires ' ' !in prefix && ' ' !in target
    ensures ParsePrivmsg(prefix + " PRIVMSG " + target + " " + rest)
      == Some(Privmsg(Nick(prefix), target, Tail(rest)))
  {
    assert ' ' !in "PRIVMSG";
    PrivmsgLayout(prefix, target, rest);
    SplitFour(prefix, "PRIVMSG", target, rest);
  }

  lemma NotContainedNoSpace(s: string)
    requires !Contains(s, " ")
    ensures ' ' !in s
  {
    if ' ' in s {
      var j :| 0 <= j < |s| && s[j] == ' ';
      assert s[j..j + 1] == " ";
      assert OccursAt(s, " ", j);
    }
  }

  /** Converse of PrivmsgOf: every line that parses as a PRIVMSG has that
      shape. */
  lemma PrivmsgShape(message: string)
    requires ParsePrivmsg(message).Some?
    ensures var p := ParsePrivmsg(message).value;
      exists prefix, rest :: ' ' !in prefix && ' ' !in p.target
        && message == prefix + " PRIVMSG " + p.target + " " + rest
        && p.sender == Nick(prefix) && p.text == Tail(rest)
  {
    var parts := Split(message, " ", 3);
    SplitJoin(message, " ", 3);
    SplitPieces(message, " ", 3);
    NotContainedNoSpace(parts[0]);
    NotContainedNoSpace(parts[2]);
    JoinFour(parts, " ");
    PrivmsgLayout(parts[0], parts[2], parts[3]);
    assert message == parts[0] + " PRIVMSG " + parts[2] + " " + parts[3];
  }

  /** What handle_message decides for one line. */
  datatype Route = Ignore | Invalid | Ask(user: string, replyTo: string, prompt: string)

  /** A PRIVMSG whose text starts with the nickname (case-sensitive) asks
      the responder; the reply goes to the sender when the message was sent
      to the bot's own nickname and to the target otherwise; the prompt is
      the text after the nickname, stripped. An empty nickname matches
      every text and then `split` raises. */
  function RouteMessage(nickname: string, message: string): (r: Route)
    ensures ParsePrivmsg(message).None? ==> r == Ignore
    ensures ParsePrivmsg(message).Some? ==>
      var p := ParsePrivmsg(message).value;
      && (r.Invalid? <==> nickname == [])
      && (r.Ask? <==> nickname != [] && StartsWith(p.text, nickname))
      && (r.Ask? ==> r.user == p.sender
                     && r.replyTo == (if p.target == nickname then p.sender else p.target)
                     && r.prompt == Strip(p.text[|nickname|..]))
  {
    match ParsePrivmsg(message)
    case None => Ignore
    case Some(p) =>
      if !StartsWith(p.text, nickname) then Ignore
      else if nickname == [] then Invalid
      else
        SplitAtPrefix(p.text, nickname);
        Ask(p.sender, if p.target == nickname then p.sender else p.target,
            Strip(Split(p.text, nickname, 1)[1]))
  }

  lemma PromptLayout(prefix: string, target: string, nickname: string, after: string)
    ensures prefix + " PRIVMSG " + target + " :" + nickname + after
      == prefix + " PRIVMSG " + target + " " + (":" + (nickname + after))
  {
  }

  /** The prompt is what follows the nickname with surrounding whitespace
      removed; anything else after the nickname (a colon, say) is kept. */
  lemma PromptOf(nickname: string, prefix: string, target: string, gap: string, core: string, trail: string)
    requires nickname != [] && ' ' !in prefix && ' ' !in target
    requires AllSpace(gap) && AllSpace(trail)
    requires core == [] || (!IsSpace(core[0]) && !IsSpace(core[|core| - 1]))
    ensures RouteMessage(nickname, prefix + " PRIVMSG " + target + " :" + nickname + (gap + core + trail))
        == Ask(Nick(prefix), if target == nickname then Nick(prefix) else target, core)
  {
    var after := gap + core + trail;
    var text := nickname + after;
    PromptLayout(prefix, target, nickname, after);
    PrivmsgOf(prefix, target, ":" + text);
    assert Tail(":" + text) == text;
    assert text[..|nickname|] == nickname;
    assert text[|nickname|..] == after;
    StripOf(gap, core, trail);
  }

  /** The line handle_message sends with the responder's reply. */
  function ReplyLine(replyTo: string, user: string, reply: string): string
  {
    "PRIVMSG " + replyTo + " :" + user + ": " + reply
  }

  /** Read back by a client (with the server's prefix added), the reply is a
      PRIVMSG to `replyTo` whose text is `user: reply`. */
  lemma ReplyReadBack(prefix: string, replyTo: string, user: string, reply: string)
    requires ' ' !in prefix && ' ' !in replyTo
    ensures ParsePrivmsg(prefix + " " + ReplyLine(replyTo, user, reply))
      == Some(Privmsg(Nick(prefix), replyTo, user + ": " + reply))
  {
    var text := user + ": " + reply;
    ReplyLayout(prefix, replyTo, user, reply);
    PrivmsgOf(prefix, replyTo, ":" + text);
    assert Tail(":" + text) == text;
  }

  lemma ReplyLayout(prefix: string, replyTo: string, user: string, reply: string)
    ensures prefix + " " + ReplyLine(replyTo, user, reply)
      == prefix + " PRIVMSG " + replyTo + " " + (":" + (user + ": " + reply))
  {
  }

  lemma ContainsInSuffix(x: string, y: string, sub: string)
    requires Contains(y, sub)
    ensures Contains(x + y, sub)
  {
    var j := Find(y, sub).value;
    assert (x + y)[|x| + j..|x| + j + |sub|] == y[j..j + |sub|];
    assert OccursAt(x + y, sub, |x| + j);
  }

  /** The reply text is sent as is: a reply holding CRLF is not read back
      by the server as the single reply line. */
  lemma ReplyWithCrlfSplits(replyTo: string, user: string, reply: string)
    requires Contains(reply, CRLF)
    ensures SplitLines(Frame(ReplyLine(replyTo, user, reply))).lines != [ReplyLine(replyTo, user, reply)]
  {
    ContainsInSuffix("PRIVMSG " + replyTo + " :" + user + ": ", reply, CRLF);
  }
}
