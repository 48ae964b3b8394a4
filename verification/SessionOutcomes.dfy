/**
 What each command does to the store and tells the client, over the text of its line and the bytes of
 its block: which verbs store, what a block must end with, what is removed, and every other answer.
 */
module SessionOutcomes {
  import opened Numerals
  import opened Buffers
  import opened SessionSpec
  import opened SessionTheorems
  import opened SessionLines

  /** What the client is told, unless it has asked for silence or is gone. */
  function Told(c: Core, silent: bool, msg: string): seq<Event> {
    if c.connected && !silent then [Sent(msg)] else []
  }

  /** The command goes into the count, the store is as it was, and this is told. */
  ghost predicate OnlyTells(c: Core, c': Core, silent: bool, msg: string) {
    c' == c.(processed := c.processed + 1, log := c.log + Told(c, silent, msg))
  }

  // ---------- updates ----------

  /** The verbs that store, and when. */
  predicate Stores(verb: string, present: bool) {
    verb == "set" || (verb == "add" && !present)
  }

  predicate IsWhole(block: string) {
    |block| >= 2 && block[|block| - 2] == '\r' && block[|block| - 1] == '\n'
  }

  /** The policy a verb stands for. */
  predicate Names(verb: string, policy: Policy) {
    (policy == Set <==> verb == "set") && (policy == Add <==> verb == "add") && (policy == Replace <==> verb == "replace") &&
    (policy == Append <==> verb == "append") && (policy == Prepend <==> verb == "prepend") && (policy == Cas <==> verb == "cas")
  }

  /** The answer to a whole block. */
  function WholeAnswer(verb: string, present: bool): string {
    if verb == "add" && present then "NOT_STORED\r\n" else "STORED\r\n"
  }

  /** What an update with its block leads to. */
  ghost predicate Updated(c: Core, c': Core, ws: seq<string>, block: string, silent: bool)
    requires |ws| > 1
  {
    if OwnBytes(ws) == 0 then OnlyTells(c, c', silent, "CLIENT_ERROR bad command line format\r\n")
    else BlockEffect(c, c', ws[0], ws[1], block, silent)
  }

  /** What the block of an accepted update leads to. */
  ghost predicate BlockEffect(c: Core, c': Core, verb: string, key: string, block: string, silent: bool) {
    if |block| > 1024 * 1024 + 2 then
      c' == c.(processed := c.processed + 1, items := c.items - {key},
               log := c.log + Told(c, silent, "SERVER_ERROR object too large for cache\r\n") + [Deleted(key)])
    else if !IsWhole(block) then OnlyTells(c, c', silent, "CLIENT_ERROR bad data chunk\r\n")
    else Whole(c, c', verb, key, block, silent)
  }

  /** What a whole block leads to. */
  ghost predicate Whole(c: Core, c': Core, verb: string, key: string, block: string, silent: bool) {
    var present := key in c.items;
    c'.processed == c.processed + 1 && c'.connected == c.connected && c'.out == c.out && c'.startTime == c.startTime &&
    |c'.log| > |c.log| && c'.log[|c.log|].Stored? && Names(verb, c'.log[|c.log|].policy) &&
    c'.log == c.log + [c'.log[|c.log|]] + Told(c, silent, WholeAnswer(verb, present)) &&
    var item := c'.log[|c.log|].item;
    item.key == key && item.value == block && item.valueLen == |block| &&
    if Stores(verb, present) then
      c'.lastCas == c.lastCas + 1 && c'.items == c.items[key := item.(cas := c.lastCas + 1)]
    else c'.lastCas == c.lastCas && c'.items == c.items
  }

  lemma VerbText(ws: seq<string>)
    requires ws != []
    ensures VerbOf(ws).Update? <==> ws[0] in VERBS
    ensures VerbOf(ws).Update? ==> VerbOf(ws).policy != Invalid && Names(ws[0], VerbOf(ws).policy)
  {
  }

  lemma WholeOutcome(c: Core, item: Item, policy: Policy, verb: string, silent: bool)
    requires policy != Invalid && Names(verb, policy)
    requires item.valueLen == |item.value| && EndsWithCrlf(item.value)
    ensures Whole(c, FinishBlock(c.(processed := c.processed + 1), item, policy, silent), verb, item.key, item.value, silent)
  {
    hide EndsWithCrlf;
    assert c.log + [Stored(item, policy)] + [] == c.log + [Stored(item, policy)];
  }

  lemma BlockOutcome(c: Core, item: Item, policy: Policy, verb: string, silent: bool)
    requires policy != Invalid && Names(verb, policy)
    requires item.valueLen == |item.value|
    ensures var d := c.(processed := c.processed + 1);
            if IsWhole(item.value) then Whole(c, FinishBlock(d, item, policy, silent), verb, item.key, item.value, silent)
            else OnlyTells(c, FinishBlock(d, item, policy, silent), silent, "CLIENT_ERROR bad data chunk\r\n")
  {
    hide Names, Whole;
    if IsWhole(item.value) { WholeOutcome(c, item, policy, verb, silent); }
    assert c.log + [] == c.log;
  }

  lemma WordsOutcome(c: Core, ws: seq<string>, silent: bool, block: string)
    requires StoreValid(c.items) && |ws| > 1 && ws[0] in VERBS && !Unchecked(ws)
    requires var r := StartCommand(c.(processed := c.processed + 1), ws, silent); |block| == BlockLength(r) == OwnBytes(ws)
    ensures Updated(c, WithBlock(StartCommand(c.(processed := c.processed + 1), ws, silent), block), ws, block, silent)
  {
    VerbText(ws);
    var d, policy := c.(processed := c.processed + 1), VerbOf(ws).policy;
    var r := StartUpdate(d, policy, ws[1..], silent);
    hide VerbOf, ReadUpdateArgs, RelativeExptime, FinishBlock, Whole, Names;
    assert c.log + [] == c.log;
    if r.Block? { BlockOutcome(c, r.item.(value := block), policy, ws[0], silent); }
  }

  /** Performing a command is taking its words and its block. */
  lemma Performed(c: Core, u: Unit)
    requires StoreValid(c.items) && Complete(u)
    ensures var r := StartCommand(c.(processed := c.processed + 1), CommandWords(u.line), EndsWithNoreply(u.line));
            Sound(r) && !r.Crash? && |u.block| == BlockLength(r) == OwnBytes(CommandWords(u.line)) &&
            Perform(c, u) == WithBlock(r, u.block)
  {
    hide CommandWords, EndsWithNoreply, StartCommand, Unchecked, OwnBytes, FindCrlf, FinishBlock;
    LineStarts(c, u.line);
  }

  lemma HasKey(ws: seq<string>)
    requires ws != [] && !Unchecked(ws) && (ws[0] in VERBS || ws[0] == "delete")
    ensures |ws| > 1
  {
    if ws[0] != "delete" { VerbText(ws); }
  }

  /** The outcome of every update, over the words of its line and the bytes of its block. */
  lemma UpdateOutcome(c: Core, u: Unit)
    requires StoreValid(c.items) && Complete(u)
    requires var ws := CommandWords(u.line); ws != [] && ws[0] in VERBS
    ensures |CommandWords(u.line)| > 1 && Updated(c, Perform(c, u), CommandWords(u.line), u.block, EndsWithNoreply(u.line))
  {
    var ws := CommandWords(u.line);
    HasKey(ws);
    hide CommandWords, EndsWithNoreply, StartCommand, Unchecked, OwnBytes, Updated, Perform, WithBlock, BlockLength, FindCrlf;
    Performed(c, u);
    WordsOutcome(c, ws, EndsWithNoreply(u.line), u.block);
  }

  /** The numbers an update needs are there: flags, expiry time and length, and for `cas` one more. */
  ghost predicate HasNumbers(ws: seq<string>, four: bool) {
    |ws| >= 5 && IsNumber(ws[2]) && IsNumber(ws[3]) && IsNumber(ws[4]) && (four ==> |ws| >= 6 && IsNumber(ws[5]))
  }

  /** An update is accepted exactly when its key is short enough and all its numbers are there. */
  lemma AcceptedExactly(ws: seq<string>)
    requires |ws| > 1 && ws[0] in VERBS && !Unchecked(ws)
    ensures OwnBytes(ws) > 0 <==> |ws[1]| <= 250 && HasNumbers(ws, ws[0] == "cas")
  {
    VerbText(ws);
    hide HasNumbers, VerbOf, ReadUpdateArgs;
    NumbersThere(VerbOf(ws).policy, ws);
  }

  lemma NumbersThere(policy: Policy, ws: seq<string>)
    requires |ws| > 1
    ensures ReadUpdateArgs(policy, ws[1..]).UpdateArgs? <==> HasNumbers(ws, policy == Cas)
  {
    var args := ws[1..];
    NumberThere(ws, 1);
    NumberThere(ws, 2);
    NumberThere(ws, 3);
    NumberThere(ws, 4);
    hide IsNumber, NumberAt;
  }

  lemma NumberThere(ws: seq<string>, i: nat)
    requires |ws| > 1
    ensures NumberAt(ws[1..], i).Some? <==> |ws| > i + 1 && IsNumber(ws[i + 1])
  {
    if i < |ws| - 1 { NumbersOnly(ws[i + 1]); }
    hide IsNumber, ReadUnsigned;
  }

  /**
   Storing, exactly: an update stores its block if and only if the verb is `set`, or `add` with a key not yet
   present, the declared length is not too large, and the block ends in CRLF. Apart from that only an update
   that is too large changes the store, and what it changes is that the key is gone.
   */
  lemma StoresExactly(c: Core, u: Unit)
    requires StoreValid(c.items) && Complete(u)
    requires var ws := CommandWords(u.line); ws != [] && ws[0] in VERBS
    ensures var ws, d := CommandWords(u.line), Perform(c, u);
            var n, key := OwnBytes(ws), if |ws| > 1 then ws[1] else "";
            var stores := Stores(ws[0], key in c.items) && 0 < n <= 1024 * 1024 + 2 && IsWhole(u.block);
            (d.lastCas != c.lastCas <==> stores) &&
            (stores ==> key in d.items && d.items[key].value == u.block && d.items - {key} == c.items - {key}) &&
            (!stores ==> d.items == if n > 1024 * 1024 + 2 then c.items - {key} else c.items)
  {
    hide CommandWords, EndsWithNoreply, OwnBytes, Unchecked, Perform, FindCrlf, BlockEffect, IsWhole, Stores;
    UpdateOutcome(c, u);
    var ws, d := CommandWords(u.line), Perform(c, u);
    if OwnBytes(ws) > 0 { EffectStores(c, d, ws[0], ws[1], u.block, EndsWithNoreply(u.line)); }
  }

  lemma EffectStores(c: Core, d: Core, verb: string, key: string, block: string, silent: bool)
    requires BlockEffect(c, d, verb, key, block, silent)
    ensures var stores := Stores(verb, key in c.items) && |block| <= 1024 * 1024 + 2 && IsWhole(block);
            (d.lastCas != c.lastCas <==> stores) &&
            (stores ==> key in d.items && d.items[key].value == block && d.items - {key} == c.items - {key}) &&
            (!stores ==> d.items == if |block| > 1024 * 1024 + 2 then c.items - {key} else c.items)
  {
    hide IsWhole, Stores, WholeAnswer, Names;
  }

  /** The words of a written update say how many bytes are its own. */
  lemma WrittenWords(verb: string, key: string, flags: nat, exptime: nat, length: nat, unique: nat, silent: bool)
    requires verb in VERBS && IsKey(key) && NoCrlf(key)
    requires flags < TWO32 && exptime < TWO64 / 2 && length + 2 < TWO32 / 2 && unique < TWO64
    ensures var ws := UpdateWords(verb, key, flags, exptime, length, unique);
            var line := LineOf(ws, silent);
            FindCrlf(line + "\r\n", 0) == |line| && CommandWords(line) == ws && EndsWithNoreply(line) == silent &&
            |ws| > 1 && ws[0] == verb && ws[1] == key && !Unchecked(ws) && OwnBytes(ws) == length + 2
  {
    var ws := UpdateWritten(verb, key, flags, exptime, length, unique);
    LineRead(ws, silent);
    VerbText(ws);
    assert VerbOf(ws).Update? && VerbOf(ws).policy == PolicyOf(verb);
    hide LineOf, CommandWords, EndsWithNoreply, ReadUpdateArgs, VerbOf, PolicyOf, AreWords, UpdateWords, FindCrlf;
  }

  /** The outcome of a written update, whatever its verb and its block. */
  lemma WrittenOutcome(c: Core, verb: string, key: string, flags: nat, exptime: nat, unique: nat, block: string, silent: bool)
    requires StoreValid(c.items) && verb in VERBS && IsKey(key) && NoCrlf(key)
    requires flags < TWO32 && exptime < TWO64 / 2 && unique < TWO64 && 2 <= |block| < TWO32 / 2
    ensures var u := Unit(LineOf(UpdateWords(verb, key, flags, exptime, |block| - 2, unique), silent), block);
            Complete(u) && BlockEffect(c, Perform(c, u), verb, key, block, silent)
  {
    WrittenWords(verb, key, flags, exptime, |block| - 2, unique, silent);
    var ws := UpdateWords(verb, key, flags, exptime, |block| - 2, unique);
    var u := Unit(LineOf(ws, silent), block);
    hide LineOf, UpdateWords, CommandWords, EndsWithNoreply, OwnBytes, Unchecked, Perform, FindCrlf, BlockEffect, OnlyTells;
    UpdateOutcome(c, u);
  }

  // ---------- deletions ----------

  /** The outcome of every `delete`: only a short key, alone or with the old protocol's zero behind it, is deleted. */
  lemma DeleteOutcome(c: Core, u: Unit)
    requires StoreValid(c.items) && Complete(u)
    requires var ws := CommandWords(u.line); ws != [] && ws[0] == "delete"
    ensures var ws, d, silent := CommandWords(u.line), Perform(c, u), EndsWithNoreply(u.line);
            |ws| > 1 &&
            var key, answer := ws[1], if ws[1] in c.items then "DELETED\r\n" else "NOT_FOUND\r\n";
            (|key| > 250 ==> OnlyTells(c, d, silent, "CLIENT_ERROR bad command line format\r\n")) &&
            (|key| <= 250 && |ws| > 2 && ws[2] != "0" ==>
               OnlyTells(c, d, silent, "CLIENT_ERROR bad command line format.  Usage: delete <key> [noreply]\r\n")) &&
            (|key| <= 250 && (|ws| == 2 || ws[2] == "0") ==>
               d == c.(processed := c.processed + 1, items := c.items - {key},
                       log := c.log + [Deleted(key)] + Told(c, silent, answer)))
  {
    var ws := CommandWords(u.line);
    HasKey(ws);
    assert VerbOf(ws) == Deletion;
    hide CommandWords, EndsWithNoreply, VerbOf, OwnBytes, Unchecked, FindCrlf;
    LineStarts(c, u.line);
    assert c.log + [] == c.log && c.log + [Deleted(ws[1])] + [] == c.log + [Deleted(ws[1])];
  }

  /** A written `delete` with a third word: `0` deletes, anything else deletes nothing. */
  lemma DeleteWithThird(c: Core, key: string, third: string, silent: bool)
    requires StoreValid(c.items) && IsKey(key) && NoCrlf(key) && IsWord(third) && NoCrlf(third)
    requires silent || third != "noreply"
    ensures var u := Unit(LineOf(["delete", key, third], silent), "");
            Complete(u) && var d := Perform(c, u);
            if third == "0" then
              d == c.(processed := c.processed + 1, items := c.items - {key},
                      log := c.log + [Deleted(key)] +
                             Told(c, silent, if key in c.items then "DELETED\r\n" else "NOT_FOUND\r\n"))
            else OnlyTells(c, d, silent, "CLIENT_ERROR bad command line format.  Usage: delete <key> [noreply]\r\n")
  {
    var ws := ["delete", key, third];
    VerbIsWord("delete");
    assert AreWords(ws) && !(!silent && Silenced(ws));
    assert VerbOf(ws) == Deletion && |ws| == 3 && ws[1] == key && ws[2] == third;
    assert !Unchecked(ws) && OwnBytes(ws) == 0;
    LineRead(ws, silent);
    hide LineOf, AreWords, CommandWords, EndsWithNoreply, FindCrlf, OwnBytes, Unchecked, Perform, IsWord, NoCrlf, OnlyTells, VerbOf;
    DeleteOutcome(c, Unit(LineOf(ws, silent), ""));
  }

  // ---------- the other commands ----------

  /** The words that begin a command with a meaning of its own. */
  const COMMANDS := VERBS + ["get", "gets", "delete", "version", "quit", "shutdown"]

  /** The commands that ask for nothing in the store, and every line that is no command. */
  lemma OtherOutcome(c: Core, u: Unit)
    requires StoreValid(c.items) && Complete(u)
    ensures var ws, d, silent := CommandWords(u.line), Perform(c, u), EndsWithNoreply(u.line);
            var closed := if c.connected then [Shutdown] else [];
            (ws == [] || ws[0] !in COMMANDS ==> OnlyTells(c, d, silent, "ERROR\r\n")) &&
            (ws != [] && ws[0] == "version" ==> OnlyTells(c, d, silent, "VERSION 0.01 muduo\r\n")) &&
            (ws != [] && ws[0] == "quit" ==>
               d == c.(processed := c.processed + 1, connected := false, log := c.log + closed)) &&
            (ws != [] && ws[0] == "shutdown" ==>
               d == c.(processed := c.processed + 1, connected := false, log := c.log + closed + [Stop]))
  {
    var ws := CommandWords(u.line);
    OtherVerbs(ws);
    hide CommandWords, EndsWithNoreply, VerbOf, OwnBytes, Unchecked, FindCrlf;
    LineStarts(c, u.line);
    assert c.log + [] == c.log;
  }

  lemma OtherVerbs(ws: seq<string>)
    ensures ws == [] ==> VerbOf(ws) == Nothing
    ensures ws != [] ==> (ws[0] !in COMMANDS <==> VerbOf(ws) == Unknown) && (ws[0] == "version" <==> VerbOf(ws) == Version)
    ensures ws != [] ==> (ws[0] == "quit" <==> VerbOf(ws) == Quit) && (ws[0] == "shutdown" <==> VerbOf(ws) == StopServer)
  {
  }
}
