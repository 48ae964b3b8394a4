/**
 What a memcached session does, as values: the meaning of a command line, of a data block, and of a
 whole byte stream.
 */
module SessionSpec {
  import opened Numerals
  import opened Buffers

  datatype Option<T> = None | Some(value: T)

  datatype Policy = Invalid | Set | Add | Replace | Append | Prepend | Cas

  /** A stored or arriving item; `value` holds the bytes of the data block received so far. */
  datatype Item = Item(key: string, flags: nat, exptime: int, valueLen: nat, cas: nat, value: string)

  /** The calls a session makes, in order. Bytes handed to a closed connection are not sent. */
  datatype Event = Sent(msg: string) | Shutdown | Stop | Stored(item: Item, policy: Policy) | Fetched(key: string) | Deleted(key: string)

  /** Everything a session acts upon, apart from the request it is in the middle of. */
  datatype Core = Core(
    items: map<string, Item>, lastCas: nat, startTime: int,
    connected: bool, log: seq<Event>, out: string, processed: nat)

  // ---------- reading a command line ----------

  /** Where the run of spaces starting at `i` ends. */
  function SkipSpaces(s: string, i: nat): (r: nat)
    requires i <= |s|
    ensures i <= r <= |s| && (r < |s| ==> s[r] != ' ') && forall k :: i <= k < r ==> s[k] == ' '
    decreases |s| - i
  {
    if i < |s| && s[i] == ' ' then SkipSpaces(s, i + 1) else i
  }

  /** Where the run of other characters starting at `i` ends. */
  function SkipWord(s: string, i: nat): (r: nat)
    requires i <= |s|
    ensures i <= r <= |s| && (r < |s| ==> s[r] == ' ') && forall k :: i <= k < r ==> s[k] != ' '
    decreases |s| - i
  {
    if i < |s| && s[i] != ' ' then SkipWord(s, i + 1) else i
  }

  /** The words of a line from `i` on. */
  function Words(s: string, i: nat): (ws: seq<string>)
    requires i <= |s|
    ensures forall w :: w in ws ==> w != "" && ' ' !in w
    decreases |s| - i
  {
    var b := SkipSpaces(s, i);
    if b == |s| then [] else var e := SkipWord(s, b); [s[b..e]] + Words(s, e)
  }

  const TWO32: nat := 0x1_0000_0000
  const TWO64: nat := 0x1_0000_0000_0000_0000

  /** `strtoull` in base ten, when it consumes the whole word; it saturates, and a minus sign negates modulo 2^64. */
  function ReadUnsigned(w: string): (r: Option<nat>)
    ensures r.Some? ==> r.value < TWO64
    decreases w
  {
    if w == "" then None
    else if IsSpace(w[0]) then ReadUnsigned(w[1..])
    else
      var digits := if w[0] == '+' || w[0] == '-' then w[1..] else w;
      if digits == "" || !IsDigits(digits, Ten) then None
      else
        var n := ValueOf(digits, Ten);
        Some(if n >= TWO64 then TWO64 - 1 else if w[0] == '-' then (TWO64 - n) % TWO64 else n)
  }

  /** `static_cast<int>` of a 64-bit value. */
  function ToInt32(x: int): (r: int)
    ensures -0x8000_0000 <= r < 0x8000_0000
    ensures (r - x) % TWO32 == 0
  {
    var y := x % TWO32;
    if y >= 0x8000_0000 then y - TWO32 else y
  }

  function ToInt64(x: nat): (r: int)
    ensures -0x8000_0000_0000_0000 <= r < 0x8000_0000_0000_0000
    ensures (r - x) % TWO64 == 0
  {
    var y := x % TWO64;
    if y >= 0x8000_0000_0000_0000 then y - TWO64 else y
  }

  /** Times beyond thirty days are absolute. */
  function RelativeExptime(exptime: int, startTime: int): (r: int)
    ensures -0x8000_0000 <= exptime <= 2592000 ==> r == exptime
    ensures 2592000 < exptime && 0 < exptime - startTime < 0x8000_0000 ==> r == exptime - startTime
    ensures 2592000 < exptime && -0x8000_0000 <= exptime - startTime <= 0 ==> r == 1
  {
    if exptime > 60 * 60 * 24 * 30 then
      var rel := ToInt32(exptime - startTime);
      if rel < 1 then 1 else rel
    else ToInt32(exptime)
  }

  function NumberAt(ws: seq<string>, i: nat): Option<nat> {
    if i < |ws| then ReadUnsigned(ws[i]) else None
  }

  /** The arguments of an update command after the key; the fourth number belongs to `cas` alone. */
  datatype UpdateArgs = BadArgs | UpdateArgs(flags: nat, exptime: int, bytes: int, cas: nat)

  function ReadUpdateArgs(policy: Policy, ws: seq<string>): UpdateArgs {
    match (NumberAt(ws, 1), NumberAt(ws, 2), NumberAt(ws, 3))
    case (Some(f), Some(e), Some(b)) =>
      if policy == Cas then
        match NumberAt(ws, 4)
        case None => BadArgs
        case Some(c) => UpdateArgs(f % TWO32, ToInt64(e), ToInt32(b), c)
      else UpdateArgs(f % TWO32, ToInt64(e), ToInt32(b), 0)
    case _ => BadArgs
  }

  function PolicyOf(command: string): Policy {
    if command == "set" then Set
    else if command == "add" then Add
    else if command == "replace" then Replace
    else if command == "append" then Append
    else if command == "prepend" then Prepend
    else if command == "cas" then Cas
    else Invalid
  }

  predicate EndsWithNoreply(line: string) {
    |line| >= 8 && line[|line| - 8..] == " noreply"
  }

  // ---------- the store and the connection ----------

  const LONGEST_KEY: nat := 250
  const LARGEST_VALUE: int := 1024 * 1024

  predicate StoreValid(items: map<string, Item>) {
    forall k :: k in items ==> items[k].key == k && items[k].valueLen >= 2 && |items[k].value| == items[k].valueLen
  }

  /** `storeItem`: only `set` and `add` store; the other policies report success and store nothing. */
  function StoreItem(c: Core, item: Item, policy: Policy): (Core, bool, bool) {
    var present := item.key in c.items;
    if policy == Set || (policy == Add && !present) then
      var cas := c.lastCas + 1;
      (c.(items := c.items[item.key := item.(cas := cas)], lastCas := cas), true, present)
    else (c, policy != Add, present)
  }

  function Send(c: Core, msg: string): Core {
    if c.connected then c.(log := c.log + [Sent(msg)]) else c
  }

  function Reply(c: Core, noreply: bool, msg: string): Core {
    if noreply then c else Send(c, msg)
  }

  function ShutDown(c: Core): Core {
    if c.connected then c.(connected := false, log := c.log + [Shutdown]) else c
  }

  function DeleteKey(c: Core, key: string): Core {
    c.(items := c.items - {key}, log := c.log + [Deleted(key)])
  }

  function Output(item: Item, needCas: bool): string
    requires item.valueLen >= 2
  {
    "VALUE " + item.key + " " + Decimal(item.flags) + " " + Decimal(item.valueLen - 2) +
    (if needCas then " " + Decimal(item.cas) else "") + "\r\n" + item.value
  }

  // ---------- commands ----------

  /** What a command line leads to. */
  datatype Start =
    | Done(core: Core)
    | Block(core: Core, item: Item, policy: Policy, noreply: bool)
    | Skip(core: Core, count: nat, noreply: bool)
    | Crash(core: Core)

  /** The store stays valid, an item still needs its whole block, and there is something to skip. */
  ghost predicate Sound(r: Start) {
    StoreValid(r.core.items) && (r.Block? ==> r.item.valueLen >= 2 && r.item.value == "") && (r.Skip? ==> r.count > 2)
  }

  const BAD_LINE := "CLIENT_ERROR bad command line format\r\n"
  const TOO_LARGE := "SERVER_ERROR object too large for cache\r\n"

  /**
   An update command. Without a key, or with a negative length, an assertion of the tokenizer or of the item
   stops the process. Two more than the largest lengths is no `int`: that sum has no defined value, and the
   session is given up as well.
   */
  function StartUpdate(c: Core, policy: Policy, ws: seq<string>, noreply: bool): (r: Start)
    ensures StoreValid(c.items) ==> Sound(r)
    ensures r.core.connected == c.connected
  {
    if ws == [] then Crash(c)
    else
      var key, args := ws[0], ReadUpdateArgs(policy, ws);
      if |key| > LONGEST_KEY || args.BadArgs? then Done(Reply(c, noreply, BAD_LINE))
      else if args.bytes > LARGEST_VALUE then
        var c := DeleteKey(Reply(c, noreply, TOO_LARGE), key);
        if args.bytes + 2 >= 0x8000_0000 then Crash(c) else Skip(c, args.bytes + 2, noreply)
      else if args.bytes < 0 then Crash(c)
      else
        var item := Item(key, args.flags, RelativeExptime(args.exptime, c.startTime), args.bytes + 2, args.cas, "");
        Block(c, item, policy, noreply)
  }

  /** The keys of a `get`, fetched in turn into the output buffer, up to the first key that is too long. */
  function FetchAll(c: Core, keys: seq<string>, needCas: bool): (r: (Core, bool))
    requires StoreValid(c.items)
    ensures r.0.items == c.items && r.0.connected == c.connected && r.0.processed == c.processed
    decreases keys
  {
    if keys == [] then (c, true)
    else if |keys[0]| > LONGEST_KEY then (c, false)
    else
      var c := c.(log := c.log + [Fetched(keys[0])]);
      FetchAll(if keys[0] in c.items then c.(out := c.out + Output(c.items[keys[0]], needCas)) else c, keys[1..], needCas)
  }

  function Get(c: Core, keys: seq<string>, needCas: bool, noreply: bool): (r: Core)
    requires StoreValid(c.items)
    ensures r.items == c.items && r.connected == c.connected
  {
    var (c, good) := FetchAll(c, keys, needCas);
    if !good then Reply(c, noreply, BAD_LINE)
    else
      var c := c.(out := c.out + "END\r\n");
      if c.connected then Send(c, c.out).(out := "") else c
  }

  function Delete(c: Core, ws: seq<string>, noreply: bool): (r: Start)
    ensures StoreValid(c.items) ==> Sound(r)
    ensures r.core.connected == c.connected
  {
    if ws == [] then Crash(c)
    else if |ws[0]| > LONGEST_KEY then Done(Reply(c, noreply, BAD_LINE))
    else if |ws| > 1 && ws[1] != "0" then
      Done(Reply(c, noreply, "CLIENT_ERROR bad command line format.  Usage: delete <key> [noreply]\r\n"))
    else Done(Reply(DeleteKey(c, ws[0]), noreply, if ws[0] in c.items then "DELETED\r\n" else "NOT_FOUND\r\n"))
  }

  /** The words of a command line, without the trailing request for silence. */
  function CommandWords(line: string): seq<string> {
    Words(if EndsWithNoreply(line) then line[..|line| - 8] else line, 0)
  }

  datatype Verb = Nothing | Update(policy: Policy) | Retrieval(needCas: bool) | Deletion | Version | Quit | StopServer | Unknown

  function VerbOf(ws: seq<string>): (v: Verb)
    ensures v == Nothing <==> ws == []
    ensures v.Update? ==> v.policy != Invalid
  {
    if ws == [] then Nothing
    else
      var command := ws[0];
      if PolicyOf(command) != Invalid then Update(PolicyOf(command))
      else if command == "get" || command == "gets" then Retrieval(command == "gets")
      else if command == "delete" then Deletion
      else if command == "version" then Version
      else if command == "quit" then Quit
      else if command == "shutdown" then StopServer
      else Unknown
  }

  /** The commands that close the connection. */
  predicate IsClosing(ws: seq<string>) {
    VerbOf(ws) == Quit || VerbOf(ws) == StopServer
  }

  /** The meaning of one command line. */
  function StartLine(c: Core, line: string): (r: Start)
    requires StoreValid(c.items)
    ensures Sound(r) && (!c.connected ==> !r.core.connected)
  {
    StartCommand(c.(processed := c.processed + 1), CommandWords(line), EndsWithNoreply(line))
  }

  function StartCommand(c: Core, ws: seq<string>, noreply: bool): (r: Start)
    requires StoreValid(c.items)
    ensures Sound(r) && (!c.connected ==> !r.core.connected)
  {
    match VerbOf(ws)
    case Update(policy) => StartUpdate(c, policy, ws[1..], noreply)
    case Retrieval(needCas) => Done(Get(c, ws[1..], needCas, noreply))
    case Deletion => Delete(c, ws[1..], noreply)
    case Version => Done(Reply(c, noreply, "VERSION 0.01 muduo\r\n"))
    case Quit => Done(ShutDown(c))
    case StopServer => var c := ShutDown(c); Done(c.(log := c.log + [Stop]))
    case _ => Done(Reply(c, noreply, "ERROR\r\n"))
  }

  predicate EndsWithCrlf(s: string) {
    |s| >= 2 && s[|s| - 2] == '\r' && s[|s| - 1] == '\n'
  }

  function StoreAnswer(policy: Policy, stored: bool, present: bool): string {
    if stored then "STORED\r\n"
    else if policy == Cas then (if present then "EXISTS\r\n" else "NOT_FOUND\r\n")
    else "NOT_STORED\r\n"
  }

  /** The meaning of a complete data block. */
  function FinishBlock(c: Core, item: Item, policy: Policy, noreply: bool): (r: Core)
    ensures StoreValid(c.items) && item.valueLen >= 2 && |item.value| == item.valueLen ==> StoreValid(r.items)
  {
    if !EndsWithCrlf(item.value) then Reply(c, noreply, "CLIENT_ERROR bad data chunk\r\n")
    else
      var (c, stored, present) := StoreItem(c.(log := c.log + [Stored(item, policy)]), item, policy);
      Reply(c, noreply, StoreAnswer(policy, stored, present))
  }

  /** Where a session stands between two deliveries of bytes. */
  datatype Phase =
    | Idle
    | Receiving(item: Item, policy: Policy, noreply: bool)
    | Discarding(left: nat, noreply: bool)
    | Dead

  datatype Machine = Machine(core: Core, phase: Phase)

  /** Commands waiting for a line end with more than this many bytes close the connection. */
  const LONGEST_PENDING: nat := 1024

  ghost predicate MachineValid(m: Machine) {
    StoreValid(m.core.items) &&
    match m.phase
    case Receiving(item, _, _) => item.valueLen >= 2 && |item.value| < item.valueLen
    case Discarding(left, _) => left > 0
    case _ => true
  }

  /** Where a session stands right after a command line. */
  function Enter(r: Start): (m: Machine)
    ensures Sound(r) ==> MachineValid(m)
  {
    match r
    case Done(c) => Machine(c, Idle)
    case Crash(c) => Machine(c, Dead)
    case Skip(c, n, noreply) => Machine(c, Discarding(n, noreply))
    case Block(c, item, policy, noreply) => Machine(c, Receiving(item, policy, noreply))
  }

  /** A stream of commands and data blocks, read from the front in one pass; what remains unread comes with the result. */
  function Serve(c: Core, s: string): (Machine, string)
    requires StoreValid(c.items)
    decreases |s|, 0
  {
    var crlf := FindCrlf(s, 0);
    if crlf == -1 then (Machine(if |s| > LONGEST_PENDING then ShutDown(c) else c, Idle), s)
    else
      var r := StartLine(c, s[..crlf]);
      if r.Crash? then (Enter(r), s) else Resume(Enter(r), s[crlf + 2..])
  }

  /** The same for a session that may be in the middle of a request: a data block is taken whole, or kept as far as it came. */
  function Resume(m: Machine, s: string): (Machine, string)
    requires MachineValid(m)
    decreases |s|, 1
  {
    match m.phase
    case Idle => Serve(m.core, s)
    case Dead => (m, s)
    case Discarding(left, noreply) =>
      if |s| < left then (Machine(m.core, Discarding(left - |s|, noreply)), "") else Serve(m.core, s[left..])
    case Receiving(item, policy, noreply) =>
      var needed := item.valueLen - |item.value|;
      if |s| < needed then (Machine(m.core, Receiving(item.(value := item.value + s), policy, noreply)), "")
      else Serve(FinishBlock(m.core, item.(value := item.value + s[..needed]), policy, noreply), s[needed..])
  }
}
