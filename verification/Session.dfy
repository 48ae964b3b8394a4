/**
 The memcached session: an incremental machine over an input buffer. Its methods change fields in
 place; their contracts tie the new state to the meaning of the bytes in `SessionSpec`.
 */
module Sessions {
  import opened Buffers
  import opened SessionSpec
  import opened SessionTheorems

  class MemcacheServer {
    const startTime: int
    var items: map<string, Item>
    var lastCas: nat

    constructor (startTime: int)
      ensures items == map[] && lastCas == 0 && this.startTime == startTime
    {
      this.startTime := startTime;
      items, lastCas := map[], 0;
    }

    method StoreItem(item: Item, policy: Policy) returns (stored: bool, present: bool)
      modifies `items, `lastCas
      ensures present == (item.key in old(items))
      ensures stored == !(policy == Add && present)
      ensures if policy == Set || (policy == Add && !present) then
                lastCas == old(lastCas) + 1 && items == old(items)[item.key := item.(cas := lastCas)]
              else items == old(items) && lastCas == old(lastCas)
    {
      present := item.key in items;
      if policy == Set {
        lastCas := lastCas + 1;
        if present {
          items := items - {item.key};
        }
        items := items[item.key := item.(cas := lastCas)];
      } else if policy == Add {
        if present {
          return false, present;
        }
        lastCas := lastCas + 1;
        items := items[item.key := item.(cas := lastCas)];
      }
      stored := true;
    }

    method GetItem(key: string) returns (item: Option<Item>)
      ensures item == if key in items then Some(items[key]) else None
    {
      item := if key in items then Some(items[key]) else None;
    }

    method DeleteItem(key: string) returns (erased: bool)
      modifies `items
      ensures erased == (key in old(items)) && items == old(items) - {key}
    {
      erased := key in items;
      items := items - {key};
    }
  }

  /** The connection, as far as the session uses it: what is sent after a shutdown goes nowhere. */
  class TcpConnection {
    var connected: bool

    constructor ()
      ensures connected
    {
      connected := true;
    }

    method Send(msg: string) returns (accepted: bool)
      ensures accepted == connected
    {
      accepted := connected;
    }

    method Shutdown() returns (first: bool)
      modifies this
      ensures first == old(connected) && !connected
    {
      first := connected;
      connected := false;
    }
  }

  datatype State = NewCommand | ReceiveValue | DiscardValue

  class Session {
    const owner: MemcacheServer
    const conn: TcpConnection
    var state: State

    // the current request
    var command: string
    var noreply: bool
    var policy: Policy
    var currItem: Option<Item>
    var bytesToDiscard: nat

    var outputBuf: string
    var bytesRead: nat
    var requestsProcessed: nat

    /** A command the session does not check has stopped the process, or made its further course undefined. */
    var aborted: bool

    /** The calls made so far. */
    ghost var log: seq<Event>

    ghost function Core(): Core
      reads this, owner, conn
    {
      SessionSpec.Core(owner.items, owner.lastCas, owner.startTime, conn.connected, log, outputBuf, requestsProcessed)
    }

    ghost predicate RequestReset()
      reads this
    {
      command == "" && !noreply && policy == Invalid && currItem == None && bytesToDiscard == 0
    }

    /** What holds between two steps of the loop. */
    ghost predicate Valid()
      reads this, owner, conn
    {
      StoreValid(owner.items) &&
      (!aborted ==>
         match state
         case NewCommand => RequestReset()
         case ReceiveValue =>
           currItem.Some? && currItem.value.valueLen >= 2 && |currItem.value.value| < currItem.value.valueLen && bytesToDiscard == 0
         case DiscardValue => currItem == None && bytesToDiscard > 0)
    }

    ghost function Phase(): Phase
      requires Valid()
      reads this, owner, conn
    {
      if aborted then Dead
      else match state
        case NewCommand => Idle
        case ReceiveValue => Receiving(currItem.value, policy, noreply)
        case DiscardValue => Discarding(bytesToDiscard, noreply)
    }

    ghost function Machine(): (m: Machine)
      requires Valid()
      reads this, owner, conn
      ensures MachineValid(m)
    {
      SessionSpec.Machine(Core(), Phase())
    }

    constructor (owner: MemcacheServer, conn: TcpConnection)
      requires StoreValid(owner.items)
      ensures this.owner == owner && this.conn == conn && Valid()
      ensures log == [] && outputBuf == "" && bytesRead == 0 && requestsProcessed == 0
      ensures Phase() == Idle
    {
      this.owner, this.conn := owner, conn;
      state := NewCommand;
      command, noreply, policy, currItem, bytesToDiscard := "", false, Invalid, None, 0;
      outputBuf, bytesRead, requestsProcessed, aborted, log := "", 0, 0, false, [];
    }

    method SendBytes(msg: string) returns (accepted: bool)
      modifies `log
      ensures Core() == SessionSpec.Send(old(Core()), msg) && accepted == conn.connected
    {
      accepted := conn.Send(msg);
      if accepted {
        log := log + [Sent(msg)];
      }
    }

    method Reply(msg: string)
      modifies `log
      ensures Core() == SessionSpec.Reply(old(Core()), noreply, msg)
    {
      if !noreply {
        var _ := SendBytes(msg);
      }
    }

    method ShutDown()
      modifies `log, conn
      ensures Core() == SessionSpec.ShutDown(old(Core()))
    {
      var first := conn.Shutdown();
      if first {
        log := log + [Shutdown];
      }
    }

    method DeleteKey(key: string) returns (erased: bool)
      modifies `log, owner`items
      ensures Core() == SessionSpec.DeleteKey(old(Core()), key) && erased == (key in old(owner.items))
    {
      erased := owner.DeleteItem(key);
      log := log + [Deleted(key)];
    }

    method ResetRequest()
      modifies `command, `noreply, `policy, `currItem, `bytesToDiscard
      ensures RequestReset()
    {
      command, noreply, policy, currItem, bytesToDiscard := "", false, Invalid, None, 0;
    }

    /** More of the data block; with its last byte the item is stored and the request is over. */
    method ReceiveValue(buf: Buffer)
      requires Valid() && !aborted && state == State.ReceiveValue && buf.bytes != ""
      modifies this, owner`items, owner`lastCas, buf
      ensures Valid() && bytesRead == old(bytesRead) && Steps(old(Machine()), old(buf.bytes), Machine(), buf.bytes)
    {
      assert currItem.Some?;
      var item := currItem.value;
      var needed := item.valueLen - |item.value|;
      var avail := if |buf.bytes| < needed then |buf.bytes| else needed;
      item := item.(value := item.value + buf.bytes[..avail]);
      currItem := Some(item);
      buf.Retrieve(avail);
      if |item.value| == item.valueLen {
        FinishValue(item);
      }
    }

    method FinishValue(item: Item)
      requires StoreValid(owner.items) && !aborted && item.valueLen >= 2 && |item.value| == item.valueLen
      modifies this, owner`items, owner`lastCas
      ensures Valid() && Phase() == Idle && bytesRead == old(bytesRead)
      ensures Core() == FinishBlock(old(Core()), item, old(policy), old(noreply))
    {
      StoreReceived(item);
      ResetRequest();
      state := NewCommand;
    }

    method StoreReceived(item: Item)
      requires StoreValid(owner.items) && item.valueLen >= 2 && |item.value| == item.valueLen
      modifies `log, owner`items, owner`lastCas
      ensures Core() == FinishBlock(old(Core()), item, policy, noreply)
    {
      if EndsWithCrlf(item.value) {
        var stored, present := owner.StoreItem(item, policy);
        log := log + [Stored(item, policy)];
        Reply(StoreAnswer(policy, stored, present));
      } else {
        Reply("CLIENT_ERROR bad data chunk\r\n");
      }
    }

    /** More of a data block that is thrown away. */
    method DiscardValue(buf: Buffer)
      requires Valid() && !aborted && state == State.DiscardValue && buf.bytes != ""
      modifies this, buf
      ensures Valid() && bytesRead == old(bytesRead) && Steps(old(Machine()), old(buf.bytes), Machine(), buf.bytes)
    {
      assert currItem == None;
      if |buf.bytes| < bytesToDiscard {
        bytesToDiscard := bytesToDiscard - |buf.bytes|;
        buf.Retrieve(|buf.bytes|);
      } else {
        buf.Retrieve(bytesToDiscard);
        bytesToDiscard := 0;
        ResetRequest();
        state := NewCommand;
      }
    }

    /** `SpaceSeparator`: the next word of the line at or after `next`. */
    static method NextWord(line: string, start: nat) returns (found: bool, word: string, next: nat)
      requires start <= |line|
      ensures next <= |line| && (found ==> start < next)
      ensures Words(line, start) == if found then [word] + Words(line, next) else []
    {
      next := start;
      while next < |line| && line[next] == ' '
        invariant start <= next <= |line| && SkipSpaces(line, next) == SkipSpaces(line, start)
      {
        next := next + 1;
      }
      if next == |line| {
        return false, "", next;
      }
      var from := next;
      while next < |line| && line[next] != ' '
        invariant from <= next <= |line| && SkipWord(line, next) == SkipWord(line, from)
      {
        next := next + 1;
      }
      found, word := true, line[from..next];
    }

    static method Tokenize(line: string) returns (words: seq<string>)
      ensures words == Words(line, 0)
    {
      words := [];
      var found, word, next := true, "", 0;
      while found
        invariant next <= |line| && Words(line, 0) == words + (if found then Words(line, next) else [])
        decreases found, |line| - next
      {
        found, word, next := NextWord(line, next);
        if found {
          words := words + [word];
        }
      }
    }

    /** What a command line does to the session. */
    ghost predicate Follows(r: Start, finished: bool)
      reads this, owner, conn
    {
      Core() == r.core && aborted == r.Crash? && (!aborted ==> finished == r.Done?) &&
      match r
      case Done(_) => state == NewCommand
      case Crash(_) => true
      case Skip(_, n, silent) => state == State.DiscardValue && currItem == None && bytesToDiscard == n && noreply == silent
      case Block(_, item, p, silent) =>
        state == State.ReceiveValue && currItem == Some(item) && bytesToDiscard == 0 && policy == p && noreply == silent
    }

    method DoUpdate(args: seq<string>, kind: Policy) returns (finished: bool)
      requires !aborted && state == NewCommand && currItem == None && bytesToDiscard == 0
      modifies this, owner`items
      ensures Follows(StartUpdate(old(Core()), kind, args, old(noreply)), finished) && bytesRead == old(bytesRead)
    {
      hide ReadUpdateArgs, RelativeExptime, StoreValid;
      policy := kind;
      finished := true;
      if args == [] {
        aborted := true;
        return;
      }
      var key := args[0];
      var numbers := ReadUpdateArgs(policy, args);
      if |key| > LONGEST_KEY || numbers.BadArgs? {
        Reply(BAD_LINE);
        return;
      }
      var exptime := RelativeExptime(numbers.exptime, owner.startTime);
      if numbers.bytes > LARGEST_VALUE {
        Reply(TOO_LARGE);
        var _ := DeleteKey(key);
        if numbers.bytes + 2 >= 0x8000_0000 {
          aborted := true;
          return;
        }
        bytesToDiscard := numbers.bytes + 2;
        state := State.DiscardValue;
        finished := false;
      } else {
        if numbers.bytes < 0 {
          aborted := true;
          return;
        }
        currItem := Some(Item(key, numbers.flags, exptime, numbers.bytes + 2, numbers.cas, ""));
        state := State.ReceiveValue;
        finished := false;
      }
    }

    method DoDelete(args: seq<string>)
      requires !aborted && state == NewCommand
      modifies this, owner`items
      ensures Follows(Delete(old(Core()), args, old(noreply)), true) && bytesRead == old(bytesRead)
    {
      if args == [] {
        aborted := true;
        return;
      }
      if |args[0]| > LONGEST_KEY {
        Reply(BAD_LINE);
      } else if |args| > 1 && args[1] != "0" {
        Reply("CLIENT_ERROR bad command line format.  Usage: delete <key> [noreply]\r\n");
      } else {
        var erased := DeleteKey(args[0]);
        if erased {
          Reply("DELETED\r\n");
        } else {
          Reply("NOT_FOUND\r\n");
        }
      }
    }

    method DoGet(keys: seq<string>, needCas: bool)
      requires StoreValid(owner.items)
      modifies `log, `outputBuf
      ensures Core() == Get(old(Core()), keys, needCas, noreply)
    {
      var i := 0;
      while i < |keys|
        invariant 0 <= i <= |keys| && StoreValid(owner.items)
        invariant FetchAll(old(Core()), keys, needCas) == FetchAll(Core(), keys[i..], needCas)
      {
        if |keys[i]| > LONGEST_KEY {
          Reply(BAD_LINE);
          return;
        }
        var item := owner.GetItem(keys[i]);
        log := log + [Fetched(keys[i])];
        if item.Some? {
          outputBuf := outputBuf + Output(item.value, needCas);
        }
        i := i + 1;
      }
      outputBuf := outputBuf + "END\r\n";
      var accepted := SendBytes(outputBuf);
      if accepted {
        outputBuf := "";
      }
    }

    /** Answers whether the request is finished, that is, whether no data block follows. */
    method ProcessRequest(line: string) returns (finished: bool)
      requires Valid() && !aborted && state == NewCommand
      modifies this, owner`items, conn
      ensures Follows(StartLine(old(Core()), line), finished) && bytesRead == old(bytesRead)
    {
      assert RequestReset();
      ghost var r := StartLine(Core(), line);
      requestsProcessed := requestsProcessed + 1;
      var words := ReadWords(line);
      assert r == StartCommand(Core(), words, noreply);
      finished := RunCommand(words);
    }

    /** The words of the line, after a request for silence at its end has been noted and removed. */
    method ReadWords(line: string) returns (words: seq<string>)
      requires !noreply
      modifies `noreply
      ensures words == CommandWords(line) && noreply == EndsWithNoreply(line)
    {
      var request := line;
      if |request| >= 8 && request[|request| - 8..] == " noreply" {
        noreply := true;
        request := request[..|request| - 8];
      }
      words := Tokenize(request);
    }

    method RunCommand(words: seq<string>) returns (finished: bool)
      requires StoreValid(owner.items) && !aborted && state == NewCommand && currItem == None && bytesToDiscard == 0
      modifies this, owner`items, conn
      ensures Follows(StartCommand(old(Core()), words, old(noreply)), finished) && bytesRead == old(bytesRead)
    {
      finished := true;
      if words != [] {
        command := words[0];
      }
      match VerbOf(words) {
        case Update(kind) => finished := DoUpdate(words[1..], kind);
        case Retrieval(needCas) => DoGet(words[1..], needCas);
        case Deletion => DoDelete(words[1..]);
        case Version => Reply("VERSION 0.01 muduo\r\n");
        case Quit => ShutDown();
        case StopServer =>
          ShutDown();
          log := log + [Stop];
        case _ => Reply("ERROR\r\n");
      }
    }

    /** One command line, if its end has come. */
    method NextLine(buf: Buffer) returns (stuck: bool)
      requires Valid() && !aborted && state == NewCommand
      modifies this, owner`items, conn, buf
      ensures Valid() && bytesRead == old(bytesRead) && Steps(old(Machine()), old(buf.bytes), Machine(), buf.bytes)
      ensures stuck == (FindCrlf(old(buf.bytes), 0) == -1)
    {
      var crlf := buf.FindCRLF(0);
      if crlf == -1 {
        if |buf.bytes| > LONGEST_PENDING {
          ShutDown();
        }
        return true;
      }
      var finished := ProcessRequest(buf.bytes[..crlf]);
      stuck := false;
      if aborted {
        return;
      }
      if finished {
        ResetRequest();
      }
      buf.Retrieve(crlf + 2);
    }

    /** One round of the loop. */
    method Step(buf: Buffer) returns (stuck: bool)
      requires Valid() && !aborted && buf.bytes != ""
      modifies this, owner`items, owner`lastCas, conn, buf
      ensures Valid() && bytesRead == old(bytesRead) && Steps(old(Machine()), old(buf.bytes), Machine(), buf.bytes)
      ensures stuck == (old(state) == NewCommand && FindCrlf(old(buf.bytes), 0) == -1)
    {
      stuck := false;
      match state {
        case NewCommand => stuck := NextLine(buf);
        case ReceiveValue => ReceiveValue(buf);
        case DiscardValue => DiscardValue(buf);
      }
    }

    /** The message callback: reads what it can of the buffer. */
    method OnMessage(buf: Buffer)
      requires Valid()
      modifies this, owner`items, owner`lastCas, conn, buf
      ensures Valid()
      ensures (Machine(), buf.bytes) == old(Resume(Machine(), buf.bytes))
      ensures !aborted ==> !old(aborted) && bytesRead + |buf.bytes| == old(bytesRead + |buf.bytes|)
    {
      var initialReadable := |buf.bytes|;
      var stuck := false;
      while buf.bytes != "" && !aborted
        invariant Valid() && bytesRead == old(bytesRead) && |buf.bytes| <= initialReadable && (old(aborted) ==> aborted)
        invariant Resume(Machine(), buf.bytes) == old(Resume(Machine(), buf.bytes))
        decreases |buf.bytes|, !aborted
      {
        ghost var m, s := Machine(), buf.bytes;
        stuck := Step(buf);
        ghost var m', s' := Machine(), buf.bytes;
        StepKeepsMeaning(m, s, m', s');
        if stuck {
          break;
        }
      }
      ghost var m := Machine();
      if !stuck { Exhausted(m, buf.bytes); }
      if aborted {
        return;
      }
      bytesRead := bytesRead + (initialReadable - |buf.bytes|);
    }

    /** The connection's part: each delivery is appended to the buffer, and the callback is called. */
    method OnDeliveries(buf: Buffer, chunks: seq<string>)
      requires Valid()
      modifies this, owner`items, owner`lastCas, conn, buf
      ensures Valid()
      ensures (Machine(), buf.bytes) == old(Deliver(Machine(), buf.bytes, chunks))
      ensures !aborted ==> bytesRead + |buf.bytes| == old(bytesRead + |buf.bytes|) + |Concat(chunks)|
    {
      hide Deliver, Resume, Concat;
      var i := 0;
      Deliveries(Machine(), buf.bytes, chunks);
      while i < |chunks|
        invariant 0 <= i <= |chunks| && Valid()
        invariant Deliver(Machine(), buf.bytes, chunks[i..]) == old(Deliver(Machine(), buf.bytes, chunks))
        invariant !aborted ==>
                    bytesRead + |buf.bytes| + |Concat(chunks[i..])| == old(bytesRead + |buf.bytes|) + |Concat(chunks)|
      {
        NextDelivery(Machine(), buf.bytes, chunks, i);
        buf.Append(chunks[i]);
        OnMessage(buf);
        i := i + 1;
      }
      Deliveries(Machine(), buf.bytes, chunks);
    }
  }

  lemma Deliveries(m: SessionSpec.Machine, pending: string, chunks: seq<string>)
    requires MachineValid(m)
    ensures chunks[0..] == chunks && chunks[|chunks|..] == [] && Deliver(m, pending, []) == (m, pending) && Concat([]) == ""
  {
  }

  lemma NextDelivery(m: SessionSpec.Machine, pending: string, chunks: seq<string>, i: nat)
    requires MachineValid(m) && i < |chunks|
    ensures MachineValid(Resume(m, pending + chunks[i]).0)
    ensures var (m', left) := Resume(m, pending + chunks[i]);
            Deliver(m, pending, chunks[i..]) == Deliver(m', left, chunks[i + 1..])
    ensures Concat(chunks[i..]) == chunks[i] + Concat(chunks[i + 1..])
  {
    hide Resume;
    ResumeValid(m, pending + chunks[i]);
    assert chunks[i..][0] == chunks[i] && chunks[i..][1..] == chunks[i + 1..];
  }
}
