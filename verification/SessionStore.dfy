/**
 What a client gets back: a value stored by one command is returned by a later one byte for byte,
 whatever other commands come between and however the stream is cut; and when it comes alone.
 */
module SessionStore {
  import opened Numerals
  import opened Buffers
  import opened SessionSpec
  import opened SessionTheorems
  import opened SessionAnswers
  import opened SessionLines

  // ---------- storing ----------

  /** The block is stored under its key, with the next number of the `cas` counter. */
  ghost predicate HasStored(c: Core, c': Core, item: Item) {
    c'.items == c.items[item.key := item.(cas := c.lastCas + 1)] && c'.lastCas == c.lastCas + 1
  }

  /** A whole data block: stored and reported as such by `set`, and by `add` for a new key. */
  lemma BlockStored(c: Core, item: Item, policy: Policy, silent: bool)
    requires EndsWithCrlf(item.value) && (policy == Set || (policy == Add && item.key !in c.items))
    ensures var c' := FinishBlock(c, item, policy, silent);
            HasStored(c, c', item) && c'.connected == c.connected && c'.out == c.out &&
            c'.log == c.log + [Stored(item, policy)] + (if c.connected && !silent then [Sent("STORED\r\n")] else [])
  {
  }

  /**
   What the answer to a data block is worth. For `set` and `add` it says STORED exactly when the block
   was stored; the other four verbs say so too, and store nothing.
   */
  lemma AnswerIsTrue(c: Core, item: Item, policy: Policy)
    requires c.connected && EndsWithCrlf(item.value) && policy != Invalid
    ensures var c' := FinishBlock(c, item, policy, false);
            var told := c'.log == c.log + [Stored(item, policy), Sent("STORED\r\n")];
            (told <==> policy != Add || item.key !in c.items) &&
            (HasStored(c, c', item) <==> policy == Set || (policy == Add && item.key !in c.items)) &&
            ((told <==> HasStored(c, c', item)) <==> policy == Set || policy == Add)
  {
    var c' := FinishBlock(c, item, policy, false);
    var (d, stored, present) := StoreItem(c.(log := c.log + [Stored(item, policy)]), item, policy);
    assert c'.log == c.log + [Stored(item, policy), Sent(StoreAnswer(policy, stored, present))];
    assert c'.log[|c.log| + 1] == Sent(StoreAnswer(policy, stored, present));
    assert (c.log + [Stored(item, policy), Sent("STORED\r\n")])[|c.log| + 1] == Sent("STORED\r\n");
    assert "NOT_STORED\r\n"[0] != "STORED\r\n"[0];
  }

  // ---------- keeping ----------

  function At(items: map<string, Item>, key: string): Option<Item> {
    if key in items then Some(items[key]) else None
  }

  /** A command that may change what is stored under `key`. */
  predicate Touches(u: Unit, key: string) {
    var ws := CommandWords(u.line);
    (VerbOf(ws).Update? || VerbOf(ws) == Deletion) && |ws| > 1 && ws[1] == key
  }

  lemma WordsKeep(c: Core, ws: seq<string>, noreply: bool, block: string, key: string)
    requires StoreValid(c.items)
    requires var r := StartCommand(c, ws, noreply); !r.Crash? && |block| == BlockLength(r)
    requires (VerbOf(ws).Update? || VerbOf(ws) == Deletion) && |ws| > 1 ==> ws[1] != key
    ensures At(WithBlock(StartCommand(c, ws, noreply), block).items, key) == At(c.items, key)
  {
    hide ReadUpdateArgs, RelativeExptime, FetchAll, EndsWithCrlf, StoreAnswer, PolicyOf, StoreValid;
  }

  lemma OthersKeep(c: Core, u: Unit, key: string)
    requires StoreValid(c.items) && Complete(u) && !Touches(u, key)
    ensures At(Perform(c, u).items, key) == At(c.items, key)
  {
    hide StartCommand, FinishBlock, CommandWords, Unchecked, OwnBytes, EndsWithNoreply;
    LineStarts(c, u.line);
    WordsKeep(c.(processed := c.processed + 1), CommandWords(u.line), EndsWithNoreply(u.line), u.block, key);
  }

  /** Whatever is done to other keys, what is stored under this one stays. */
  lemma {:induction false} RunKeeps(c: Core, us: seq<Unit>, key: string)
    requires StoreValid(c.items) && AllComplete(us) && forall u :: u in us ==> !Touches(u, key)
    ensures At(PerformAll(c, us).items, key) == At(c.items, key)
    decreases us
  {
    hide Perform, Touches, Complete;
    if us != [] {
      OthersKeep(c, us[0], key);
      RunKeeps(Perform(c, us[0]), us[1..], key);
    }
  }

  // ---------- fetching ----------

  function Outputs(items: map<string, Item>, keys: seq<string>, needCas: bool): string
    requires StoreValid(items)
  {
    if keys == [] then ""
    else (if keys[0] in items then Output(items[keys[0]], needCas) else "") + Outputs(items, keys[1..], needCas)
  }

  function Fetches(keys: seq<string>): seq<Event> {
    if keys == [] then [] else [Fetched(keys[0])] + Fetches(keys[1..])
  }

  /** The index of the first key that is too long, or the number of keys. */
  function FirstLong(keys: seq<string>): (i: nat)
    ensures i <= |keys| && (i < |keys| ==> |keys[i]| > LONGEST_KEY)
    ensures forall k :: 0 <= k < i ==> |keys[k]| <= LONGEST_KEY
  {
    if keys == [] || |keys[0]| > LONGEST_KEY then 0 else 1 + FirstLong(keys[1..])
  }

  lemma {:induction false} FetchOutputs(c: Core, keys: seq<string>, needCas: bool)
    requires StoreValid(c.items)
    ensures var fetched := keys[..FirstLong(keys)];
            FetchAll(c, keys, needCas) == (c.(out := c.out + Outputs(c.items, fetched, needCas), log := c.log + Fetches(fetched)),
                                           fetched == keys)
    decreases keys
  {
    hide Output;
    assert c.out + "" == c.out && c.log + [] == c.log;
    if keys != [] && |keys[0]| <= LONGEST_KEY {
      var text := if keys[0] in c.items then Output(c.items[keys[0]], needCas) else "";
      var fetched, more := keys[..FirstLong(keys)], keys[1..][..FirstLong(keys[1..])];
      FetchOutputs(c.(out := c.out + text, log := c.log + [Fetched(keys[0])]), keys[1..], needCas);
      assert fetched == [keys[0]] + more && keys == [keys[0]] + keys[1..];
      OneMoreFetched(c, keys[0], more, needCas);
    }
  }

  lemma OneMoreFetched(c: Core, key: string, more: seq<string>, needCas: bool)
    requires StoreValid(c.items)
    ensures var text, fetched := if key in c.items then Output(c.items[key], needCas) else "", [key] + more;
            c.out + text + Outputs(c.items, more, needCas) == c.out + Outputs(c.items, fetched, needCas) &&
            c.log + [Fetched(key)] + Fetches(more) == c.log + Fetches(fetched)
  {
    hide Output;
    assert ([key] + more)[1..] == more;
  }

  /** What a `get` does on a live connection: all is sent at once, or a key is too long and what was fetched stays behind. */
  function AfterGet(c: Core, keys: seq<string>, needCas: bool, noreply: bool): Core
    requires StoreValid(c.items)
  {
    var i := FirstLong(keys);
    if i == |keys| then
      c.(out := "", log := c.log + Fetches(keys) + [Sent(c.out + Outputs(c.items, keys, needCas) + "END\r\n")])
    else
      c.(out := c.out + Outputs(c.items, keys[..i], needCas),
         log := c.log + Fetches(keys[..i]) + if noreply then [] else [Sent(BAD_LINE)])
  }

  lemma GetMeaning(c: Core, keys: seq<string>, needCas: bool, noreply: bool)
    requires StoreValid(c.items) && c.connected
    ensures Get(c, keys, needCas, noreply) == AfterGet(c, keys, needCas, noreply)
  {
    hide Outputs, Fetches, FetchAll;
    FetchOutputs(c, keys, needCas);
    var fetched := keys[..FirstLong(keys)];
    assert c.log + Fetches(fetched) + [] == c.log + Fetches(fetched);
    if FirstLong(keys) == |keys| { assert fetched == keys; } else { assert |fetched| < |keys|; }
  }

  lemma {:induction false} NothingShown(items: map<string, Item>, keys: seq<string>, needCas: bool)
    requires StoreValid(items)
    ensures Outputs(items, keys, needCas) == "" <==> forall k :: k in keys ==> k !in items
    decreases keys
  {
    if keys != [] {
      NothingShown(items, keys[1..], needCas);
      if keys[0] in items { OutputShows(items[keys[0]], needCas); }
      hide Output;
    }
  }

  lemma OutputShows(item: Item, needCas: bool)
    requires item.valueLen >= 2
    ensures |Output(item, needCas)| >= 2
  {
  }

  /** A `get` whose keys are all short enough: it sends all there is, and leaves nothing behind. */
  predicate Sends(ws: seq<string>) {
    VerbOf(ws).Retrieval? && FirstLong(ws[1..]) == |ws| - 1
  }

  /** A `get` that is rejected for a key after one that is stored. */
  predicate Leaves(items: map<string, Item>, ws: seq<string>) {
    VerbOf(ws).Retrieval? && var keys := ws[1..];
    FirstLong(keys) < |keys| && exists k :: k in keys[..FirstLong(keys)] && k in items
  }

  /** With nothing left over before, a `get` leaves nothing behind if and only if no stored key stands before one too long. */
  lemma GetClean(c: Core, ws: seq<string>, needCas: bool, noreply: bool)
    requires StoreValid(c.items) && c.connected && VerbOf(ws) == Retrieval(needCas)
    ensures Get(c, ws[1..], needCas, noreply).out == "" <==> Sends(ws) || (c.out == "" && !Leaves(c.items, ws))
  {
    hide VerbOf, Get, Fetches, Outputs, StoreValid;
    var keys := ws[1..];
    GetMeaning(c, keys, needCas, noreply);
    var fetched := keys[..FirstLong(keys)];
    NothingShown(c.items, fetched, needCas);
    NothingInFront(c.out, Outputs(c.items, fetched, needCas));
  }

  lemma NothingInFront(a: string, b: string)
    ensures a + b == "" <==> a == "" && b == ""
    ensures a + b == b <==> a == ""
  {
    assert |a + b| == |a| + |b|;
  }

  /** The words of a `get`, or of a `gets`, which shows the `cas` numbers too. */
  function GetWords(keys: seq<string>, needCas: bool): seq<string> {
    [if needCas then "gets" else "get"] + keys
  }

  /** The keys the session finds: a last one is lost if it is taken for the request for silence. */
  function KeysRead(keys: seq<string>, silent: bool): seq<string> {
    if !silent && keys != [] && keys[|keys| - 1] == "noreply" then keys[..|keys| - 1] else keys
  }

  /** A written `get`, whatever its keys, and whether silence is asked for or not. */
  lemma GetSends(c: Core, keys: seq<string>, needCas: bool, silent: bool)
    requires StoreValid(c.items) && c.connected
    requires forall i :: 0 <= i < |keys| ==> IsWord(keys[i]) && NoCrlf(keys[i])
    ensures var u, quiet := Unit(LineOf(GetWords(keys, needCas), silent), ""), silent || KeysRead(keys, silent) != keys;
            Complete(u) && !Closing(u) &&
            Perform(c, u) == AfterGet(c.(processed := c.processed + 1), KeysRead(keys, silent), needCas, quiet)
  {
    var ws := GetWords(keys, needCas);
    var read := GetRead(keys, needCas, silent);
    hide AfterGet, LineOf, AreWords, GetWords, WordsRead, KeysRead, Silenced, VerbOf, Perform, Complete, IsWord, NoCrlf, Get;
    var d := c.(processed := c.processed + 1);
    GetMeaning(d, KeysRead(keys, silent), needCas, silent || Silenced(ws));
    LineAlonePerformed(c, ws, silent, Get(d, read[1..], needCas, silent || Silenced(ws)));
  }

  lemma GetRead(keys: seq<string>, needCas: bool, silent: bool) returns (read: seq<string>)
    requires forall i :: 0 <= i < |keys| ==> IsWord(keys[i]) && NoCrlf(keys[i])
    ensures var ws := GetWords(keys, needCas);
            AreWords(ws) && read == WordsRead(ws, silent) && VerbOf(read) == Retrieval(needCas) &&
            read != [] && read[1..] == KeysRead(keys, silent) &&
            (silent || Silenced(ws) <==> silent || KeysRead(keys, silent) != keys)
  {
    var ws := GetWords(keys, needCas);
    VerbIsWord(ws[0]);
    hide IsWord, NoCrlf;
    read := WordsRead(ws, silent);
    assert read[0] == ws[0] && read[1..] == KeysRead(keys, silent);
    assert Silenced(ws) ==> |keys[..|keys| - 1]| != |keys|;
  }

  /** A command that needs no data block. */
  lemma LineAlonePerformed(c: Core, ws: seq<string>, silent: bool, d: Core)
    requires StoreValid(c.items) && AreWords(ws)
    requires StartCommand(c.(processed := c.processed + 1), WordsRead(ws, silent), silent || Silenced(ws)) == Done(d)
    ensures var u := Unit(LineOf(ws, silent), "");
            Complete(u) && Perform(c, u) == d && (Closing(u) <==> IsClosing(WordsRead(ws, silent)))
  {
    hide LineOf, CommandWords, EndsWithNoreply, FindCrlf, AreWords, WordsRead, Silenced, StartCommand, IsClosing, Unchecked, OwnBytes;
    LineRead(ws, silent);
    LineStarts(c, LineOf(ws, silent));
  }

  /**
   After a written `delete` there is nothing under the key, and the answer says whether there was. Only
   for the key `noreply`, written without the request for silence, the process stops.
   */
  lemma DeleteForgets(c: Core, key: string, silent: bool)
    requires StoreValid(c.items) && IsKey(key) && NoCrlf(key)
    ensures var u, answer := Unit(LineOf(["delete", key], silent), ""), if key in c.items then "DELETED\r\n" else "NOT_FOUND\r\n";
            var deleted := c.(processed := c.processed + 1, items := c.items - {key}, log := c.log + [Deleted(key)]);
            (StartLine(c, u.line).Crash? <==> !silent && key == "noreply") &&
            (silent || key != "noreply" ==> Complete(u) && !Closing(u) && Perform(c, u) == Reply(deleted, silent, answer))
  {
    var ws, d := ["delete", key], c.(processed := c.processed + 1);
    VerbIsWord("delete");
    assert AreWords(ws) && VerbOf(["delete"]) == VerbOf(ws) == Deletion && ws[1..] == [key] && ws[..1] == ["delete"];
    hide LineOf, AreWords, VerbOf, Perform, Complete, IsWord, StartLine, NoCrlf, IsClosing;
    DeleteClosesNot(ws);
    WordsStart(c, ws, silent);
    if silent || key != "noreply" {
      LineAlonePerformed(c, ws, silent, StartCommand(d, ws, silent).core);
    }
  }

  lemma DeleteClosesNot(ws: seq<string>)
    requires VerbOf(ws) == Deletion
    ensures !IsClosing(ws)
  {
  }

  // ---------- what is left behind ----------

  lemma WordsLeave(c: Core, ws: seq<string>, noreply: bool, block: string)
    requires StoreValid(c.items) && c.connected
    requires var r := StartCommand(c, ws, noreply); !r.Crash? && |block| == BlockLength(r)
    ensures WithBlock(StartCommand(c, ws, noreply), block).out == "" <==> Sends(ws) || (c.out == "" && !Leaves(c.items, ws))
  {
    hide ReadUpdateArgs, RelativeExptime, EndsWithCrlf, StoreAnswer, PolicyOf, StoreValid, FirstLong, Get;
    match VerbOf(ws)
    case Retrieval(needCas) => GetClean(c, ws, needCas, noreply);
    case _ =>
  }

  lemma UnitLeaves(c: Core, u: Unit)
    requires StoreValid(c.items) && c.connected && Complete(u)
    ensures var ws := CommandWords(u.line); Perform(c, u).out == "" <==> Sends(ws) || (c.out == "" && !Leaves(c.items, ws))
  {
    hide StartCommand, FinishBlock, CommandWords, Unchecked, OwnBytes, EndsWithNoreply, Sends, Leaves;
    LineStarts(c, u.line);
    WordsLeave(c.(processed := c.processed + 1), CommandWords(u.line), EndsWithNoreply(u.line), u.block);
  }

  /** Nothing is left over after these commands: since the last `get` that sent, or from the start, none has left anything. */
  ghost predicate Clean(c: Core, us: seq<Unit>)
    requires StoreValid(c.items) && AllComplete(us)
    decreases |us|
  {
    if us == [] then c.out == ""
    else
      var front, ws := us[..|us| - 1], CommandWords(us[|us| - 1].line);
      Sends(ws) || (Clean(c, front) && !Leaves(PerformAll(c, front).items, ws))
  }

  lemma {:induction false} RunLeaves(c: Core, us: seq<Unit>)
    requires StoreValid(c.items) && c.connected && AllComplete(us) && forall u :: u in us ==> !Closing(u)
    ensures PerformAll(c, us).out == "" <==> Clean(c, us)
    decreases |us|
  {
    hide Complete, Perform, Closing, Sends, Leaves;
    if us != [] {
      var front, last := us[..|us| - 1], us[|us| - 1];
      RunLeaves(c, front);
      AnswersInOrder(c, front);
      assert us == front + [last];
      RunsJoin(c, front, [last]);
      RunOfOne(PerformAll(c, front), last);
      UnitLeaves(PerformAll(c, front), last);
    }
  }

  /** A client that never asks for a key that is too long never leaves anything behind. */
  lemma {:induction false} PoliteRun(c: Core, us: seq<Unit>)
    requires StoreValid(c.items) && AllComplete(us) && c.out == ""
    requires forall u :: u in us ==> VerbOf(CommandWords(u.line)).Retrieval? ==> Sends(CommandWords(u.line))
    ensures Clean(c, us)
    decreases |us|
  {
    hide Complete, Perform, VerbOf;
    if us != [] { PoliteRun(c, us[..|us| - 1]); }
  }

  lemma {:induction false} RunsJoin(c: Core, us: seq<Unit>, vs: seq<Unit>)
    requires StoreValid(c.items) && AllComplete(us) && AllComplete(vs)
    ensures AllComplete(us + vs) && PerformAll(c, us + vs) == PerformAll(PerformAll(c, us), vs)
    decreases us
  {
    hide Complete, Perform;
    if us == [] {
      assert us + vs == vs;
    } else {
      assert (us + vs)[1..] == us[1..] + vs && (us + vs)[0] == us[0];
      RunsJoin(Perform(c, us[0]), us[1..], vs);
    }
  }

  lemma RunOfOne(c: Core, u: Unit)
    requires StoreValid(c.items) && Complete(u)
    ensures AllComplete([u]) && PerformAll(c, [u]) == Perform(c, u)
  {
    hide Complete, Perform;
    assert [u][1..] == [];
  }

  // ---------- a value comes back ----------

  /** An update command with its data block; `data` is what the client wants to keep. */
  function UpdateUnit(verb: string, key: string, flags: nat, exptime: nat, data: string, silent: bool): Unit {
    Unit(LineOf(UpdateWords(verb, key, flags, exptime, |data|, 0), silent), data + "\r\n")
  }

  /** A `get` of one key; asking for silence does not silence it, but protects a key `noreply`. */
  function GetUnit(key: string, needCas: bool, quiet: bool): Unit {
    Unit(LineOf(GetWords([key], needCas), quiet), "")
  }

  predicate Keepable(key: string, flags: nat, exptime: nat, data: string) {
    IsKey(key) && flags < TWO32 && exptime < TWO64 / 2 && |data| <= LARGEST_VALUE
  }

  /** `set`, and `add` for a new key, keep the data, whatever bytes it consists of. */
  lemma UpdateKeeps(c: Core, verb: string, key: string, flags: nat, exptime: nat, data: string, silent: bool) returns (item: Item)
    requires StoreValid(c.items) && Keepable(key, flags, exptime, data) && NoCrlf(key)
    requires verb == "set" || (verb == "add" && key !in c.items)
    ensures var u := UpdateUnit(verb, key, flags, exptime, data, silent);
            Complete(u) && HasStored(c, Perform(c, u), item) && Perform(c, u).connected == c.connected && Perform(c, u).out == c.out
    ensures item.key == key && item.flags == flags && item.value == data + "\r\n" && item.valueLen == |data| + 2
  {
    item := NewItem(c, verb, key, flags, exptime, 0, data + "\r\n");
    hide HasStored, Complete, Perform, LineOf, UpdateWords, RelativeExptime;
    BlockKept(c, verb, key, flags, exptime, data + "\r\n", silent);
  }

  lemma BlockKept(c: Core, verb: string, key: string, flags: nat, exptime: nat, value: string, silent: bool)
    requires StoreValid(c.items) && EndsWithCrlf(value) && Keepable(key, flags, exptime, value[..|value| - 2]) && NoCrlf(key)
    requires verb == "set" || (verb == "add" && key !in c.items)
    ensures var u := Unit(LineOf(UpdateWords(verb, key, flags, exptime, |value| - 2, 0), silent), value);
            Complete(u) && HasStored(c, Perform(c, u), NewItem(c, verb, key, flags, exptime, 0, value)) &&
            Perform(c, u).connected == c.connected && Perform(c, u).out == c.out
  {
    UpdateStarts(c, verb, key, flags, exptime, 0, value, silent);
    var item, d, policy := NewItem(c, verb, key, flags, exptime, 0, value), c.(processed := c.processed + 1), PolicyOf(verb);
    var u := Unit(LineOf(UpdateWords(verb, key, flags, exptime, |value| - 2, 0), silent), value);
    assert policy == Set || (policy == Add && key !in c.items);
    hide LineOf, UpdateWords, StartLine, FinishBlock, FindCrlf, EndsWithCrlf, RelativeExptime, Perform, Complete, PolicyOf, HasStored;
    BlockStored(d, item, policy, silent);
    BlockPerformed(c, u, d, item, policy, silent);
    SameStore(c, d, Perform(c, u), item);
  }

  lemma SameStore(c: Core, d: Core, c': Core, item: Item)
    requires d.items == c.items && d.lastCas == c.lastCas && HasStored(d, c', item)
    ensures HasStored(c, c', item)
  {
  }

  lemma BlockPerformed(c: Core, u: Unit, d: Core, item: Item, policy: Policy, silent: bool)
    requires StoreValid(c.items) && FindCrlf(u.line + "\r\n", 0) == |u.line|
    requires StartLine(c, u.line) == Block(d, item.(value := ""), policy, silent)
    requires item.value == u.block && |u.block| == item.valueLen
    ensures Complete(u) && Perform(c, u) == FinishBlock(d, item, policy, silent)
  {
    hide StartLine, FinishBlock, FindCrlf, CommandWords, Unchecked, OwnBytes;
    LineStarts(c, u.line);
    assert item.(value := "").(value := u.block) == item;
  }

  lemma StoredAt(c: Core, c': Core, item: Item)
    requires HasStored(c, c', item)
    ensures At(c'.items, item.key) == Some(item.(cas := c.lastCas + 1))
  {
  }

  /** The item under one key, as `get` shows it, or with its number, as `gets` does. */
  function Shown(key: string, flags: nat, data: string, needCas: bool, cas: nat): string {
    "VALUE " + key + " " + Decimal(flags) + " " + Decimal(|data|) + (if needCas then " " + Decimal(cas) else "") +
    "\r\n" + data + "\r\n" + "END\r\n"
  }

  lemma ShownIsSent(items: map<string, Item>, item: Item, cas: nat, data: string, needCas: bool)
    requires StoreValid(items) && At(items, item.key) == Some(item.(cas := cas))
    requires item.value == data + "\r\n" && item.valueLen == |data| + 2
    ensures Outputs(items, [item.key], needCas) + "END\r\n" == Shown(item.key, item.flags, data, needCas, cas)
  {
    var text := Output(items[item.key], needCas);
    assert [item.key][1..] == [] && Outputs(items, [], needCas) == "";
    assert Outputs(items, [item.key], needCas) == text + "";
    hide Decimal;
    var head := "VALUE " + item.key + " " + Decimal(item.flags) + " " + Decimal(|data|);
    var unique := if needCas then " " + Decimal(cas) else "";
    assert text == head + unique + "\r\n" + (data + "\r\n");
    Regroup(head + unique, data);
  }

  lemma Regroup(head: string, data: string)
    ensures head + "\r\n" + (data + "\r\n") + "" + "END\r\n" == head + "\r\n" + data + "\r\n" + "END\r\n"
  {
  }

  /** An item alone, as one `get` shows it, after what was left behind. */
  lemma FetchShows(c: Core, item: Item, cas: nat, data: string, needCas: bool, quiet: bool)
    requires StoreValid(c.items) && c.connected && IsKey(item.key) && NoCrlf(item.key) && (quiet || item.key != "noreply")
    requires At(c.items, item.key) == Some(item.(cas := cas)) && item.value == data + "\r\n" && item.valueLen == |data| + 2
    ensures var get := GetUnit(item.key, needCas, quiet);
            Complete(get) && !Closing(get) &&
            Perform(c, get).log == c.log + [Fetched(item.key), Sent(c.out + Shown(item.key, item.flags, data, needCas, cas))]
  {
    var keys := [item.key];
    assert KeysRead(keys, quiet) == keys && FirstLong(keys) == |keys|;
    assert Fetches(keys) == [Fetched(item.key)] + Fetches([]);
    hide Complete, Perform, LineOf, GetWords, Shown, Outputs, IsKey, IsWord, NoCrlf, Closing, Fetches, KeysRead, FirstLong;
    GetSends(c, keys, needCas, quiet);
    ShownIsSent(c.items, item, cas, data, needCas);
    var text := Outputs(c.items, keys, needCas);
    assert c.out + text + "END\r\n" == c.out + (text + "END\r\n");
    assert c.log + ([Fetched(item.key)] + []) + [Sent(c.out + text + "END\r\n")]
        == c.log + [Fetched(item.key), Sent(c.out + text + "END\r\n")];
  }

  /** Without the protection the key `noreply` is never asked for, whatever is stored under it. */
  lemma NoreplyIsNotFetched(c: Core, needCas: bool)
    requires StoreValid(c.items) && c.connected
    ensures var get := GetUnit("noreply", needCas, false);
            Complete(get) && Perform(c, get).log == c.log + [Sent(c.out + "END\r\n")]
  {
    var keys := ["noreply"];
    assert '\r' !in "noreply" && KeysRead(keys, false) == [];
    assert FirstLong([]) == 0 && Fetches([]) == [] && Outputs(c.items, [], needCas) == "";
    assert c.log + [] == c.log && c.out + "" == c.out;
    hide Complete, Perform, LineOf, GetWords, Closing, KeysRead;
    GetSends(c, keys, needCas, false);
  }

  /** The last message is the value alone if and only if nothing stood before it. */
  lemma AloneExactly(log: seq<Event>, key: string, front: string, shown: string)
    ensures log + [Fetched(key), Sent(front + shown)] == log + [Fetched(key), Sent(shown)] <==> front == ""
  {
    NothingInFront(front, shown);
    assert (log + [Fetched(key), Sent(front + shown)])[|log| + 1] == Sent(front + shown);
    assert (log + [Fetched(key), Sent(shown)])[|log| + 1] == Sent(shown);
  }

  lemma {:induction false} StillStored(c: Core, store: Unit, others: seq<Unit>, item: Item)
    requires StoreValid(c.items) && c.connected && Complete(store) && AllComplete(others)
    requires HasStored(c, Perform(c, store), item) && Perform(c, store).connected
    requires forall u :: u in others ==> !Touches(u, item.key) && !Closing(u)
    ensures AllComplete([store] + others)
    ensures var d := PerformAll(c, [store] + others);
            StoreValid(d.items) && d.connected && At(d.items, item.key) == Some(item.(cas := c.lastCas + 1))
  {
    hide Complete, Perform, Touches, Closing, HasStored;
    var d := Perform(c, store);
    StoredAt(c, d, item);
    RunOfOne(c, store);
    RunsJoin(c, [store], others);
    RunKeeps(d, others, item.key);
    AnswersInOrder(d, others);
  }

  /**
   What is stored comes back. After `set`, or after `add` of a new key, and any run of complete commands
   that neither update nor delete this key nor close the connection, `get` answers with exactly the flags,
   the length and the bytes that were stored, `gets` with the number given to them too; and with nothing before them if and only if no rejected `get`
   has left anything behind since the last one that was answered.
   */
  lemma ValueComesBack(c: Core, verb: string, key: string, flags: nat, exptime: nat, data: string, silent: bool,
                       others: seq<Unit>, needCas: bool, quiet: bool)
    requires StoreValid(c.items) && c.connected && Keepable(key, flags, exptime, data) && NoCrlf(key) && (quiet || key != "noreply")
    requires verb == "set" || (verb == "add" && key !in c.items)
    requires AllComplete(others) && forall u :: u in others ==> !Touches(u, key) && !Closing(u)
    ensures var us, shown := [UpdateUnit(verb, key, flags, exptime, data, silent)] + others, Shown(key, flags, data, needCas, c.lastCas + 1);
            AllComplete(us) && AllComplete(us + [GetUnit(key, needCas, quiet)]) &&
            var d, e := PerformAll(c, us), PerformAll(c, us + [GetUnit(key, needCas, quiet)]);
            e.log == d.log + [Fetched(key), Sent(d.out + shown)] &&
            (e.log == d.log + [Fetched(key), Sent(shown)] <==> Clean(c, us))
  {
    var store := UpdateUnit(verb, key, flags, exptime, data, silent);
    var item := UpdateKeeps(c, verb, key, flags, exptime, data, silent);
    UpdateClosesNot(c, store);
    assert IsKey(key);
    hide Complete, Perform, Touches, Closing, UpdateUnit, HasStored, IsKey, NoCrlf, Shown, GetUnit, Clean, Keepable;
    StillStored(c, store, others, item);
    var us := [store] + others;
    var d := PerformAll(c, us);
    FetchShows(d, item, c.lastCas + 1, data, needCas, quiet);
    RunOfOne(d, GetUnit(key, needCas, quiet));
    RunsJoin(c, us, [GetUnit(key, needCas, quiet)]);
    RunLeaves(c, us);
    AloneExactly(d.log, key, d.out, Shown(key, flags, data, needCas, c.lastCas + 1));
  }

  lemma UpdateClosesNot(c: Core, u: Unit)
    requires StoreValid(c.items) && c.connected && Complete(u) && Perform(c, u).connected
    ensures !Closing(u)
  {
    hide CommandWords, FinishBlock;
    ClosingLine(c, u.line);
  }

  /** With nothing in between there is nothing to ask of other commands. */
  lemma ValueComesBackAtOnce(c: Core, verb: string, key: string, flags: nat, exptime: nat, data: string, silent: bool,
                             needCas: bool, quiet: bool)
    requires StoreValid(c.items) && c.connected && Keepable(key, flags, exptime, data) && NoCrlf(key) && (quiet || key != "noreply")
    requires verb == "set" || (verb == "add" && key !in c.items)
    ensures var u, shown := UpdateUnit(verb, key, flags, exptime, data, silent), Shown(key, flags, data, needCas, c.lastCas + 1);
            Complete(u) && Complete(GetUnit(key, needCas, quiet)) &&
            var d, e := Perform(c, u), Perform(Perform(c, u), GetUnit(key, needCas, quiet));
            e.log == d.log + [Fetched(key), Sent(c.out + shown)] &&
            (e.log == d.log + [Fetched(key), Sent(shown)] <==> c.out == "")
  {
    var item := UpdateKeeps(c, verb, key, flags, exptime, data, silent);
    assert IsKey(key);
    hide Complete, Perform, UpdateUnit, IsKey, NoCrlf, Shown, GetUnit, HasStored, At, Keepable;
    var d := Perform(c, UpdateUnit(verb, key, flags, exptime, data, silent));
    StoredAt(c, d, item);
    FetchShows(d, item, c.lastCas + 1, data, needCas, quiet);
    AloneExactly(d.log, key, c.out, Shown(key, flags, data, needCas, c.lastCas + 1));
  }

  /** A `get` of a stored key and a key that is too long. */
  function RejectedUnit(key: string, long: string): Unit {
    Unit(LineOf(GetWords([key, long], false), false), "")
  }

  lemma RejectedLeaves(c: Core, key: string, long: string) returns (d: Core)
    requires StoreValid(c.items) && c.connected && IsKey(key) && NoCrlf(key)
    requires IsWord(long) && NoCrlf(long) && |long| > LONGEST_KEY
    ensures Complete(RejectedUnit(key, long)) && !Closing(RejectedUnit(key, long)) && d == Perform(c, RejectedUnit(key, long))
    ensures d.items == c.items && d.lastCas == c.lastCas && d.connected && d.out == c.out + Outputs(c.items, [key], false)
  {
    var keys := [key, long];
    assert |"noreply"| == 7 && keys[|keys| - 1] == long;
    assert keys[1..][0] == long && FirstLong(keys) == 1 && keys[..1] == [key];
    hide LineOf, GetWords, Complete, Perform, Closing, Outputs, Fetches, IsKey, NoCrlf, FirstLong;
    GetSends(c, keys, false, false);
    d := Perform(c, RejectedUnit(key, long));
  }

  lemma OneOutput(items: map<string, Item>, key: string)
    requires StoreValid(items) && key in items
    ensures Outputs(items, [key], false) == Output(items[key], false)
  {
    assert [key][1..] == [];
    hide Output;
    assert Outputs(items, [key], false) == Output(items[key], false) + "";
  }

  /**
   A run that is not clean. Nothing is left over at the start; a rejected `get` leaves the old item behind;
   after a new value has been stored, `get` sends the old item first.
   */
  lemma OldValueComesFirst(c: Core, key: string, long: string, flags: nat, exptime: nat, data: string,
                           needCas: bool, quiet: bool)
    requires StoreValid(c.items) && c.connected && c.out == "" && key in c.items
    requires Keepable(key, flags, exptime, data) && NoCrlf(key) && (quiet || key != "noreply")
    requires IsWord(long) && NoCrlf(long) && |long| > LONGEST_KEY
    ensures var get, store := RejectedUnit(key, long), UpdateUnit("set", key, flags, exptime, data, false);
            Complete(get) && Complete(store) && Complete(GetUnit(key, needCas, quiet)) &&
            var d := Perform(Perform(c, get), store);
            var old', new' := Output(c.items[key], false), Shown(key, flags, data, needCas, c.lastCas + 1);
            old' != "" && Perform(d, GetUnit(key, needCas, quiet)).log == d.log + [Fetched(key), Sent(old' + new')]
  {
    var old' := Output(c.items[key], false);
    assert IsKey(key);
    hide StoreValid, Complete, Perform, RejectedUnit, UpdateUnit, GetUnit, Shown, Output, Outputs, IsKey, IsWord, NoCrlf, Keepable;
    OutputShows(c.items[key], false);
    OneOutput(c.items, key);
    NothingInFront(c.out, old');
    var d := RejectedLeaves(c, key, long);
    ValueComesBackAtOnce(d, "set", key, flags, exptime, data, false, needCas, quiet);
  }

  /** The same over the wire: however the bytes of the conversation are cut, they lead to this answer, and none is left. */
  lemma ValueComesBackInPieces(c: Core, verb: string, key: string, flags: nat, exptime: nat, data: string, silent: bool,
                               others: seq<Unit>, needCas: bool, quiet: bool, chunks: seq<string>)
    requires StoreValid(c.items) && c.connected && Keepable(key, flags, exptime, data) && NoCrlf(key) && (quiet || key != "noreply")
    requires verb == "set" || (verb == "add" && key !in c.items)
    requires AllComplete(others) && forall u :: u in others ==> !Touches(u, key) && !Closing(u)
    requires var us := [UpdateUnit(verb, key, flags, exptime, data, silent)] + others + [GetUnit(key, needCas, quiet)];
             Concat(chunks) == Texts(us) && forall u :: u in us ==> ShortLine(u)
    ensures var us, shown := [UpdateUnit(verb, key, flags, exptime, data, silent)] + others, Shown(key, flags, data, needCas, c.lastCas + 1);
            var (m, left) := Deliver(Machine(c, Idle), "", chunks);
            left == "" && m.phase == Idle && AllComplete(us) &&
            var d := PerformAll(c, us);
            m.core.log == d.log + [Fetched(key), Sent(d.out + shown)] &&
            (m.core.log == d.log + [Fetched(key), Sent(shown)] <==> Clean(c, us))
  {
    hide Complete, Perform, Touches, Closing, UpdateUnit, Shown, GetUnit, Keepable, NoCrlf, Deliver, Clean;
    ValueComesBack(c, verb, key, flags, exptime, data, silent, others, needCas, quiet);
    var us := [UpdateUnit(verb, key, flags, exptime, data, silent)] + others + [GetUnit(key, needCas, quiet)];
    CommandsInPieces(c, us, chunks);
  }
}
