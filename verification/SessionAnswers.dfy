/** How a session answers: one message per command that wants one, in the order of the commands. */
module SessionAnswers {
  import opened Buffers
  import opened SessionSpec
  import opened SessionTheorems

  /** The messages among the calls made. */
  function Messages(log: seq<Event>): seq<string> {
    if log == [] then []
    else
      var last := log[|log| - 1];
      Messages(log[..|log| - 1]) + (if last.Sent? then [last.msg] else [])
  }

  lemma MessagesStep(log: seq<Event>, e: Event)
    ensures Messages(log + [e]) == Messages(log) + (if e.Sent? then [e.msg] else [])
  {
    assert (log + [e])[..|log|] == log;
  }

  /** One more message than before, or none when silence is asked for. */
  ghost predicate Answered(c: Core, c': Core, silent: bool) {
    c'.connected == c.connected &&
    var before, after := Messages(c.log), Messages(c'.log);
    if silent then after == before else |after| == |before| + 1 && after[..|before|] == before
  }

  lemma ReplyAnswers(c: Core, noreply: bool, msg: string)
    requires c.connected
    ensures Answered(c, Reply(c, noreply, msg), noreply)
  {
    MessagesStep(c.log, Sent(msg));
  }

  lemma UpdateAnswers(c: Core, policy: Policy, ws: seq<string>, noreply: bool, block: string)
    requires StoreValid(c.items) && c.connected
    requires var r := StartUpdate(c, policy, ws, noreply); !r.Crash? && |block| == BlockLength(r)
    ensures Answered(c, WithBlock(StartUpdate(c, policy, ws, noreply), block), noreply)
  {
    var r := StartUpdate(c, policy, ws, noreply);
    match r
    case Done(d) =>
      assert d == Reply(c, noreply, BAD_LINE);
      ReplyAnswers(c, noreply, BAD_LINE);
    case Skip(d, _, _) =>
      assert d == DeleteKey(Reply(c, noreply, TOO_LARGE), ws[0]);
      TooLargeAnswers(c, ws[0], noreply);
    case Block(d, item, _, _) =>
      assert d == c && r.noreply == noreply;
      BlockAnswers(c, item.(value := block), r.policy, noreply);
  }

  lemma TooLargeAnswers(c: Core, key: string, noreply: bool)
    requires c.connected
    ensures Answered(c, DeleteKey(Reply(c, noreply, TOO_LARGE), key), noreply)
  {
    ReplyAnswers(c, noreply, TOO_LARGE);
    MessagesStep(Reply(c, noreply, TOO_LARGE).log, Deleted(key));
  }

  lemma BlockAnswers(c: Core, item: Item, policy: Policy, noreply: bool)
    requires c.connected
    ensures Answered(c, FinishBlock(c, item, policy, noreply), noreply)
  {
    if EndsWithCrlf(item.value) {
      MessagesStep(c.log, Stored(item, policy));
      var (d, stored, present) := StoreItem(c.(log := c.log + [Stored(item, policy)]), item, policy);
      ReplyAnswers(d, noreply, StoreAnswer(policy, stored, present));
    } else {
      ReplyAnswers(c, noreply, "CLIENT_ERROR bad data chunk\r\n");
    }
  }

  lemma {:induction false} FetchSilently(c: Core, keys: seq<string>, needCas: bool)
    requires StoreValid(c.items)
    ensures Messages(FetchAll(c, keys, needCas).0.log) == Messages(c.log)
    ensures FetchAll(c, keys, needCas).1 <==> forall k :: k in keys ==> |k| <= LONGEST_KEY
    decreases keys
  {
    if keys != [] && |keys[0]| <= LONGEST_KEY {
      MessagesStep(c.log, Fetched(keys[0]));
      var d := c.(log := c.log + [Fetched(keys[0])]);
      FetchSilently(if keys[0] in c.items then d.(out := d.out + Output(c.items[keys[0]], needCas)) else d, keys[1..], needCas);
    }
  }

  lemma GetAnswers(c: Core, keys: seq<string>, needCas: bool, noreply: bool)
    requires StoreValid(c.items) && c.connected
    ensures Answered(c, Get(c, keys, needCas, noreply), noreply && !(forall k :: k in keys ==> |k| <= LONGEST_KEY))
  {
    FetchSilently(c, keys, needCas);
    var (d, good) := FetchAll(c, keys, needCas);
    if good {
      MessagesStep(d.log, Sent(d.out + "END\r\n"));
    } else {
      ReplyAnswers(d, noreply, BAD_LINE);
    }
  }

  lemma DeleteAnswers(c: Core, ws: seq<string>, noreply: bool)
    requires StoreValid(c.items) && c.connected && ws != []
    ensures Delete(c, ws, noreply).Done? && Answered(c, Delete(c, ws, noreply).core, noreply)
  {
    if |ws[0]| > LONGEST_KEY {
      ReplyAnswers(c, noreply, BAD_LINE);
    } else if |ws| > 1 && ws[1] != "0" {
      ReplyAnswers(c, noreply, "CLIENT_ERROR bad command line format.  Usage: delete <key> [noreply]\r\n");
    } else {
      MessagesStep(c.log, Deleted(ws[0]));
      ReplyAnswers(DeleteKey(c, ws[0]), noreply, if ws[0] in c.items then "DELETED\r\n" else "NOT_FOUND\r\n");
    }
  }

  /** Silence is asked for, and the command is not one that answers all the same: a `get` of keys that are not too long. */
  predicate IsSilent(ws: seq<string>, noreply: bool) {
    noreply && !(VerbOf(ws).Retrieval? && forall k :: k in ws[1..] ==> |k| <= LONGEST_KEY)
  }

  lemma WordsAnswered(c: Core, ws: seq<string>, noreply: bool, block: string)
    requires StoreValid(c.items) && c.connected && !IsClosing(ws)
    requires var r := StartCommand(c, ws, noreply); !r.Crash? && |block| == BlockLength(r)
    ensures Answered(c, WithBlock(StartCommand(c, ws, noreply), block), IsSilent(ws, noreply))
  {
    match VerbOf(ws)
    case Update(policy) => UpdateAnswers(c, policy, ws[1..], noreply, block);
    case Retrieval(needCas) => GetAnswers(c, ws[1..], needCas, noreply);
    case Deletion => DeleteAnswers(c, ws[1..], noreply);
    case Version => ReplyAnswers(c, noreply, "VERSION 0.01 muduo\r\n");
    case _ => ReplyAnswers(c, noreply, "ERROR\r\n");
  }

  predicate Closing(u: Unit) {
    IsClosing(CommandWords(u.line))
  }

  predicate Silent(u: Unit) {
    IsSilent(CommandWords(u.line), EndsWithNoreply(u.line))
  }

  /** Every complete command other than `quit` and `shutdown` is answered exactly once, unless it asks for silence. */
  lemma CommandAnswers(c: Core, u: Unit)
    requires StoreValid(c.items) && c.connected && Complete(u) && !Closing(u)
    ensures Answered(c, Perform(c, u), Silent(u))
  {
    hide CommandWords, Unchecked, OwnBytes, EndsWithNoreply;
    LineStarts(c, u.line);
    var d, r := c.(processed := c.processed + 1), StartLine(c, u.line);
    assert r == StartCommand(d, CommandWords(u.line), EndsWithNoreply(u.line));
    WordsAnswered(d, CommandWords(u.line), EndsWithNoreply(u.line), u.block);
    assert Answered(d, WithBlock(r, u.block), Silent(u));
  }

  // ---------- runs of commands ----------

  function Texts(us: seq<Unit>): string {
    if us == [] then "" else Text(us[0]) + Texts(us[1..])
  }

  ghost predicate AllComplete(us: seq<Unit>) {
    forall i :: 0 <= i < |us| ==> Complete(us[i])
  }

  function PerformAll(c: Core, us: seq<Unit>): (c': Core)
    requires StoreValid(c.items) && AllComplete(us)
    ensures StoreValid(c'.items)
    decreases us
  {
    if us == [] then c else PerformAll(Perform(c, us[0]), us[1..])
  }

  /** A stream made of complete commands is served by performing them one after the other. */
  lemma {:induction false} ServeAll(c: Core, us: seq<Unit>, tail: string)
    requires StoreValid(c.items) && AllComplete(us)
    ensures Serve(c, Texts(us) + tail) == Serve(PerformAll(c, us), tail)
    decreases us
  {
    hide StartLine, FinishBlock, CommandWords, Complete;
    if us == [] {
      assert Texts(us) + tail == tail;
    } else {
      assert Texts(us) + tail == Text(us[0]) + (Texts(us[1..]) + tail);
      ServeUnit(c, us[0], Texts(us[1..]) + tail);
      ServeAll(Perform(c, us[0]), us[1..], tail);
    }
  }

  function Loud(us: seq<Unit>): nat {
    if us == [] then 0 else (if Silent(us[0]) then 0 else 1) + Loud(us[1..])
  }

  /** As many answers as commands that want one, after those given before. */
  lemma {:induction false} AnswersInOrder(c: Core, us: seq<Unit>)
    requires StoreValid(c.items) && c.connected && AllComplete(us)
    requires forall u :: u in us ==> !Closing(u)
    ensures var c' := PerformAll(c, us);
            c'.connected && |Messages(c'.log)| == |Messages(c.log)| + Loud(us) &&
            Messages(c'.log)[..|Messages(c.log)|] == Messages(c.log)
    decreases us
  {
    hide StartLine, FinishBlock, CommandWords, Complete;
    if us != [] {
      CommandAnswers(c, us[0]);
      AnswersInOrder(Perform(c, us[0]), us[1..]);
    }
  }

  /** A line that may be cut anywhere. */
  predicate ShortLine(u: Unit) {
    |u.line| <= LONGEST_LINE || Closing(u)
  }

  lemma BlockShort(r: Start, block: string, tail: string)
    requires Sound(r) && !r.Crash? && |block| == BlockLength(r) && LinesShort(WithBlock(r, block), tail)
    ensures LinesShortFrom(Enter(r), block + tail)
  {
    hide FinishBlock, LinesShort, StoreValid;
    assert (block + tail)[|block|..] == tail && (block + tail)[..|block|] == block;
    if r.Block? { assert r.item.(value := r.item.value + block) == r.item.(value := block); }
  }

  lemma LineShort(c: Core, line: string, rest: string)
    requires StoreValid(c.items) && FindCrlf(line + "\r\n", 0) == |line| && !StartLine(c, line).Crash?
    requires |line| <= LONGEST_LINE || IsClosing(CommandWords(line))
    requires LinesShortFrom(Enter(StartLine(c, line)), rest)
    ensures LinesShort(c, line + "\r\n" + rest)
  {
    hide StartLine, CommandWords, IsClosing, LinesShortFrom, FindCrlf, StoreValid, Enter;
    LineAhead(line, rest);
  }

  lemma UnitShort(c: Core, u: Unit, tail: string)
    requires StoreValid(c.items) && Complete(u) && ShortLine(u) && LinesShort(Perform(c, u), tail)
    ensures LinesShort(c, Text(u) + tail)
  {
    TextSplit(u, tail);
    hide Text, StartLine, CommandWords, Unchecked, OwnBytes, IsClosing, LinesShort, LinesShortFrom, WithBlock, FindCrlf, StoreValid, Enter;
    LineStarts(c, u.line);
    BlockShort(StartLine(c, u.line), u.block, tail);
    LineShort(c, u.line, u.block + tail);
  }

  lemma {:induction false} UnitsShort(c: Core, us: seq<Unit>)
    requires StoreValid(c.items) && AllComplete(us)
    requires forall u :: u in us ==> ShortLine(u)
    ensures LinesShort(c, Texts(us))
    decreases us
  {
    hide StartLine, FinishBlock, CommandWords, Complete;
    if us == [] {
      assert FindCrlf("", 0) == -1;
    } else {
      UnitsShort(Perform(c, us[0]), us[1..]);
      UnitShort(c, us[0], Texts(us[1..]));
    }
  }

  /** Commands with their data blocks, cut into deliveries in any way, are performed one after the other, and nothing is left. */
  lemma CommandsInPieces(c: Core, us: seq<Unit>, chunks: seq<string>)
    requires StoreValid(c.items) && AllComplete(us) && Concat(chunks) == Texts(us)
    requires forall u :: u in us ==> ShortLine(u)
    ensures Deliver(Machine(c, Idle), "", chunks) == (Machine(PerformAll(c, us), Idle), "")
  {
    hide StartLine, FinishBlock, CommandWords, Complete;
    var m := Machine(c, Idle);
    Exhausted(m, "");
    UnitsShort(c, us);
    assert "" + Concat(chunks) == Texts(us) && Texts(us) + "" == Texts(us);
    FragmentationFree(m, "", chunks);
    ServeAll(c, us, "");
    Exhausted(Machine(PerformAll(c, us), Idle), "");
  }
}
