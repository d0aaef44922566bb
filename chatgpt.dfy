/** The per-user conversation memory of chatbot.py's `ChatGPTBot`: every
    completion request carries the administrative prompt, the user's stored
    history and the new message; a successful reply appends the exchange
    and trims the history back when it grows past twenty entries. */
module ChatGpt {
  import opened PyStr

  datatype Role = System | User | Assistant

  datatype Message = Message(role: Role, content: string)

  /** The history length above which it is trimmed. */
  const MaxHistory: nat := 20
  /** How many of the latest entries a trim keeps. */
  const KeptHistory: nat := 19

  /** The trim after an exchange: more than twenty entries are cut back to
      the latest nineteen. */
  function Capped(h: seq<Message>): (r: seq<Message>)
    ensures |r| <= MaxHistory
    ensures |h| <= MaxHistory ==> r == h
    ensures |h| > MaxHistory ==> |r| == KeptHistory
    ensures |r| <= |h| && r == h[|h| - |r|..]
  {
    if |h| > MaxHistory then h[|h| - KeptHistory..] else h
  }

  /** The history a stored conversation has after one successful reply. */
  function Exchange(history: seq<Message>, message: string, reply: string): (r: seq<Message>)
    ensures |r| <= MaxHistory
    ensures 2 <= |r| && r[|r| - 2..] == [Message(User, message), Message(Assistant, reply)]
    ensures |history| + 2 <= MaxHistory ==> r == history + r[|r| - 2..]
  {
    Capped(history + [Message(User, message), Message(Assistant, reply)])
  }

  /** `self.user_context[user]`, where a missing key reads as the empty list. */
  function HistoryOf(context: map<string, seq<Message>>, user: string): seq<Message>
  {
    if user in context then context[user] else []
  }

  /** The message list of the completion request: the administrative prompt
      first, then the stored history, then the new message. */
  function Prompt(admin: string, history: seq<Message>, message: string): (c: seq<Message>)
    ensures |c| == |history| + 2
    ensures c[0] == Message(System, admin) && c[|c| - 1] == Message(User, message)
    ensures c[1..|c| - 1] == history
  {
    [Message(System, admin)] + history + [Message(User, message)]
  }

  /** The whole memory after `user` was answered. */
  function Converse(context: map<string, seq<Message>>, user: string, message: string, reply: string)
    : (r: map<string, seq<Message>>)
    ensures r.Keys == context.Keys + {user}
    ensures forall u :: u in context && u != user ==> r[u] == context[u]
    ensures r[user] == Exchange(HistoryOf(context, user), message, reply)
  {
    context[user := Exchange(HistoryOf(context, user), message, reply)]
  }

  /** The role entry `i` of a history of length `n` has: counting back from
      the end, assistant and user alternate, the last being the assistant. */
  function TurnRole(n: nat, i: nat): Role
  {
    if (n - i) % 2 == 1 then Assistant else User
  }

  /** A stored history: at most twenty entries, none from the system, and
      alternating so that it always ends with the assistant's reply. */
  predicate Stored(h: seq<Message>)
  {
    |h| <= MaxHistory && forall i :: 0 <= i < |h| ==> h[i].role == TurnRole(|h|, i)
  }

  /** Every stored history in a memory is well formed. */
  predicate AllStored(context: map<string, seq<Message>>)
  {
    forall u :: u in context ==> Stored(context[u])
  }

  lemma StoredHasNoSystem(h: seq<Message>)
    requires Stored(h)
    ensures forall i :: 0 <= i < |h| ==> h[i].role != System
  {
  }

  /** Two more entries at the end leave the role of an earlier one as it was. */
  lemma TurnRoleGrow(n: nat, i: nat)
    requires i <= n
    ensures TurnRole(n + 2, i) == TurnRole(n, i)
  {
  }

  /** Dropping `d` entries from the front leaves each role as it was. */
  lemma TurnRoleDrop(n: nat, i: nat, d: nat)
    requires i <= n
    ensures TurnRole(n + d, i + d) == TurnRole(n, i)
  {
  }

  /** Appending a message and its reply keeps the roles alternating. */
  lemma AppendTurnAlternates(history: seq<Message>, message: string, reply: string)
    requires forall i :: 0 <= i < |history| ==> history[i].role == TurnRole(|history|, i)
    ensures var full := history + [Message(User, message), Message(Assistant, reply)];
      forall i :: 0 <= i < |full| ==> full[i].role == TurnRole(|full|, i)
  {
    var full := history + [Message(User, message), Message(Assistant, reply)];
    forall i | 0 <= i < |full|
      ensures full[i].role == TurnRole(|full|, i)
    {
      if i < |history| {
        assert full[i] == history[i];
        TurnRoleGrow(|history|, i);
      } else if i == |history| {
        assert full[i] == Message(User, message);
      } else {
        assert full[i] == Message(Assistant, reply);
      }
    }
  }

  /** Any suffix of an alternating history alternates too. */
  lemma SuffixAlternates(h: seq<Message>, d: nat)
    requires d <= |h|
    requires forall i :: 0 <= i < |h| ==> h[i].role == TurnRole(|h|, i)
    ensures forall i :: 0 <= i < |h[d..]| ==> h[d..][i].role == TurnRole(|h[d..]|, i)
  {
    forall i | 0 <= i < |h[d..]|
      ensures h[d..][i].role == TurnRole(|h[d..]|, i)
    {
      assert h[d..][i] == h[d + i];
      TurnRoleDrop(|h[d..]|, i, d);
    }
  }

  /** An exchange keeps a stored history stored, even when the trim leaves
      an odd number of entries that starts with a reply. */
  lemma ExchangeStored(history: seq<Message>, message: string, reply: string)
    requires Stored(history)
    ensures Stored(Exchange(history, message, reply))
  {
    var full := history + [Message(User, message), Message(Assistant, reply)];
    AppendTurnAlternates(history, message, reply);
    var r := Exchange(history, message, reply);
    assert r == Capped(full);
    SuffixAlternates(full, |full| - |r|);
    assert r == full[|full| - |r|..];
  }

  lemma ConverseStored(context: map<string, seq<Message>>, user: string, message: string, reply: string)
    requires AllStored(context)
    ensures AllStored(Converse(context, user, message, reply))
  {
    ExchangeStored(HistoryOf(context, user), message, reply);
  }

  /** The exchanges a user had, oldest first, flattened into one log. */
  function Log(exchanges: seq<(string, string)>): (l: seq<Message>)
    ensures |l| == 2 * |exchanges|
  {
    if exchanges == [] then []
    else [Message(User, exchanges[0].0), Message(Assistant, exchanges[0].1)] + Log(exchanges[1..])
  }

  /** The stored history after answering `exchanges` one at a time. */
  function Replay(history: seq<Message>, exchanges: seq<(string, string)>): (r: seq<Message>)
    decreases exchanges
    ensures |history| <= MaxHistory ==> |r| <= MaxHistory
  {
    if exchanges == [] then history
    else Replay(Exchange(history, exchanges[0].0, exchanges[0].1), exchanges[1..])
  }

  /** Trimming twice is trimming once, as long as what came in between is
      not a single entry. */
  lemma SuffixThen<T>(x: seq<T>, y: seq<T>, k: nat)
    requires k <= |x|
    ensures x[k..] + y == (x + y)[k..]
  {
  }

  lemma DropDrop<T>(s: seq<T>, a: nat, b: nat)
    requires a + b <= |s|
    ensures s[a..][b..] == s[a + b..]
  {
  }

  lemma CappedAbsorbs(x: seq<Message>, y: seq<Message>)
    requires |y| != 1
    ensures Capped(Capped(x) + y) == Capped(x + y)
  {
    if |x| > MaxHistory {
      var k := |x| - KeptHistory;
      if y == [] {
        assert Capped(x) + y == Capped(x);
        assert x + y == x;
      } else {
        calc {
          Capped(Capped(x) + y);
          Capped(x[k..] + y);
          { SuffixThen(x, y, k); }
          Capped((x + y)[k..]);
          (x + y)[k..][|y|..];
          { DropDrop(x + y, k, |y|); }
          (x + y)[k + |y|..];
          Capped(x + y);
        }
      }
    }
  }

  /** Trimming after every exchange keeps exactly what one trim of the whole
      log would: the complete log while it has at most twenty entries, its
      latest nineteen afterwards. */
  lemma {:induction false} ReplayIsCappedLog(history: seq<Message>, exchanges: seq<(string, string)>)
    requires |history| <= MaxHistory
    ensures Replay(history, exchanges) == Capped(history + Log(exchanges))
    decreases exchanges
  {
    if exchanges == [] {
      assert Log(exchanges) == [];
      assert history + Log(exchanges) == history;
      assert Capped(history) == history;
    } else {
      var pair := [Message(User, exchanges[0].0), Message(Assistant, exchanges[0].1)];
      var next := Exchange(history, exchanges[0].0, exchanges[0].1);
      var later := Log(exchanges[1..]);
      assert Log(exchanges) == pair + later;
      assert history + Log(exchanges) == (history + pair) + later;
      ReplayIsCappedLog(next, exchanges[1..]);
      CappedAbsorbs(history + pair, later);
      calc {
        Replay(history, exchanges);
        Replay(next, exchanges[1..]);
        Capped(next + later);
        Capped(Capped(history + pair) + later);
        Capped((history + pair) + later);
      }
    }
  }

  /** From an empty history: after `n` exchanges it holds `2n` entries while
      that is at most twenty and nineteen entries ever after. */
  lemma ReplayLength(exchanges: seq<(string, string)>)
    ensures |Replay([], exchanges)| == if 2 * |exchanges| <= MaxHistory then 2 * |exchanges| else KeptHistory
  {
    ReplayIsCappedLog([], exchanges);
    assert [] + Log(exchanges) == Log(exchanges);
  }

  /** Reading `user_context[user]` of the defaultdict stores the empty
      list under a missing key and changes nothing else. */
  lemma ReadCreates(context: map<string, seq<Message>>, user: string)
    requires AllStored(context)
    ensures (if user in context then context else context[user := []]) == context[user := HistoryOf(context, user)]
    ensures AllStored(context[user := HistoryOf(context, user)])
  {
  }

  lemma StoreAfterRead(context: map<string, seq<Message>>, user: string, read: seq<Message>, stored: seq<Message>)
    ensures context[user := read][user := stored] == context[user := stored]
  {
  }

  lemma PairAppend(h: seq<Message>, x: Message, y: Message)
    ensures h + [x] + [y] == h + [x, y]
  {
  }

  /** ChatGPTBot: the administrative prompt and the per-user history. */
  class ChatGptBot {
    const adminPrompt: string
    var userContext: map<string, seq<Message>>

    ghost predicate Valid()
      reads this
    {
      AllStored(userContext)
    }

    constructor(adminPrompt: string)
      ensures this.adminPrompt == adminPrompt
      ensures userContext == map[]
      ensures Valid()
    {
      this.adminPrompt := adminPrompt;
      userContext := map[];
    }

    /** respond(user, message). The completion service is `complete`: it is
        given the request's message list and returns the reply, or None when
        the call raises. Reading the history creates the user's entry; only
        a reply stores the exchange. */
    method Respond(user: string, message: string, complete: seq<Message> -> Option<string>)
      returns (reply: Option<string>)
      requires Valid()
      modifies this
      ensures Valid()
      ensures reply == complete(Prompt(adminPrompt, HistoryOf(old(userContext), user), message))
      ensures reply.None? ==> userContext == old(userContext)[user := HistoryOf(old(userContext), user)]
      ensures reply.Some? ==> userContext == Converse(old(userContext), user, message, reply.value)
    {
      ghost var before := userContext;
      if user !in userContext {
        userContext := userContext[user := []];
      }
      ReadCreates(before, user);
      var history := userContext[user];
      var context := [Message(System, adminPrompt)] + history;
      context := context + [Message(User, message)];
      assert context == Prompt(adminPrompt, HistoryOf(before, user), message);
      reply := complete(context);
      if reply.Some? {
        ghost var grown := HistoryOf(before, user) + [Message(User, message), Message(Assistant, reply.value)];
        history := history + [Message(User, message)];
        history := history + [Message(Assistant, reply.value)];
        PairAppend(HistoryOf(before, user), Message(User, message), Message(Assistant, reply.value));
        assert history == grown;
        if |history| > MaxHistory {
          history := history[|history| - KeptHistory..];
        }
        assert history == Capped(grown);
        userContext := userContext[user := history];
        StoreAfterRead(before, user, HistoryOf(before, user), history);
        ConverseStored(before, user, message, reply.value);
      }
    }
  }
}
