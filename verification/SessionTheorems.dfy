/**
 What the meaning of a stream promises: it does not depend on how the bytes are cut into deliveries,
 every update takes up its declared length, and every command is answered as it asks to be.
 */
module SessionTheorems {
  import opened Buffers
  import opened SessionSpec

  lemma {:induction false} ServeValid(c: Core, s: string)
    requires StoreValid(c.items)
    ensures MachineValid(Serve(c, s).0)
    decreases |s|, 0
  {
    hide StartLine, FinishBlock, CommandWords;
    var crlf := FindCrlf(s, 0);
    if crlf >= 0 && !StartLine(c, s[..crlf]).Crash? {
      ResumeValid(Enter(StartLine(c, s[..crlf])), s[crlf + 2..]);
    }
  }

  lemma {:induction false} ResumeValid(m: Machine, s: string)
    requires MachineValid(m)
    ensures MachineValid(Resume(m, s).0)
    decreases |s|, 1
  {
    hide StartLine, FinishBlock, CommandWords;
    match m.phase
    case Idle => ServeValid(m.core, s);
    case Dead =>
    case Discarding(left, _) => if |s| >= left { ServeValid(m.core, s[left..]); }
    case Receiving(item, policy, noreply) =>
      var needed := item.valueLen - |item.value|;
      if |s| >= needed {
        ServeValid(FinishBlock(m.core, item.(value := item.value + s[..needed]), policy, noreply), s[needed..]);
      }
  }

  /** One round of the session's loop, from unread bytes `s` to unread bytes `s'`. */
  ghost predicate Steps(m: Machine, s: string, m': Machine, s': string)
    requires MachineValid(m)
  {
    match m.phase
    case Idle =>
      var crlf := FindCrlf(s, 0);
      if crlf == -1 then m' == Machine(if |s| > LONGEST_PENDING then ShutDown(m.core) else m.core, Idle) && s' == s
      else var r := StartLine(m.core, s[..crlf]); m' == Enter(r) && s' == if r.Crash? then s else s[crlf + 2..]
    case Dead => false
    case Discarding(left, noreply) =>
      if |s| < left then m' == Machine(m.core, Discarding(left - |s|, noreply)) && s' == ""
      else m' == Machine(m.core, Idle) && s' == s[left..]
    case Receiving(item, policy, noreply) =>
      var needed := item.valueLen - |item.value|;
      if |s| < needed then m' == Machine(m.core, Receiving(item.(value := item.value + s), policy, noreply)) && s' == ""
      else m' == Machine(FinishBlock(m.core, item.(value := item.value + s[..needed]), policy, noreply), Idle) && s' == s[needed..]
  }

  /** A round leaves the meaning of machine and unread bytes together as it was. */
  lemma StepKeepsMeaning(m: Machine, s: string, m': Machine, s': string)
    requires MachineValid(m) && MachineValid(m') && Steps(m, s, m', s')
    ensures Resume(m', s') == Resume(m, s)
    ensures m.phase.Idle? && FindCrlf(s, 0) == -1 ==> Resume(m', s') == (m', s')
    ensures |s'| <= |s|
    ensures |s'| < |s| || m'.phase.Dead? || (m.phase.Idle? && FindCrlf(s, 0) == -1) || s == ""
  {
    hide StartLine, FinishBlock, CommandWords;
    match m.phase
    case Idle =>
      if FindCrlf(s, 0) == -1 {
        ServeStable(m.core, s);
        assert s + "" == s;
      }
    case Discarding(left, noreply) => if |s| < left { Exhausted(m', s'); }
    case Receiving(item, policy, noreply) => if |s| < item.valueLen - |item.value| { Exhausted(m', s'); }
  }

  lemma Exhausted(m: Machine, s: string)
    requires MachineValid(m) && (s == "" || m.phase.Dead?)
    ensures Resume(m, s) == (m, s)
  {
    if m.phase.Receiving? { assert m.phase.item.value + "" == m.phase.item.value; }
  }

  // ---------- fragmentation ----------

  const LONGEST_LINE: nat := 1023

  /** Every complete command line of the stream has at most 1023 bytes, closes the connection, or comes when it is closed. */
  ghost predicate LinesShort(c: Core, s: string)
    requires StoreValid(c.items)
    decreases |s|, 0
  {
    var crlf := FindCrlf(s, 0);
    crlf == -1 ||
    ((crlf <= LONGEST_LINE || !c.connected || IsClosing(CommandWords(s[..crlf]))) &&
     var r := StartLine(c, s[..crlf]); r.Crash? || LinesShortFrom(Enter(r), s[crlf + 2..]))
  }

  ghost predicate LinesShortFrom(m: Machine, s: string)
    requires MachineValid(m)
    decreases |s|, 1
  {
    match m.phase
    case Idle => LinesShort(m.core, s)
    case Dead => true
    case Discarding(left, _) => |s| < left || LinesShort(m.core, s[left..])
    case Receiving(item, policy, noreply) =>
      var needed := item.valueLen - |item.value|;
      |s| < needed || LinesShort(FinishBlock(m.core, item.(value := item.value + s[..needed]), policy, noreply), s[needed..])
  }

  /** Bytes `b` after whatever an earlier delivery has left unread. */
  function Then(r: (Machine, string), b: string): (Machine, string)
    requires MachineValid(r.0)
  {
    Resume(r.0, r.1 + b)
  }

  /** Until its end has come, a line stays where it is; one too long to wait for is ruled out. */
  lemma LinePending(c: Core, a: string, b: string)
    requires StoreValid(c.items) && LinesShort(c, a + b) && FindCrlf(a, 0) == -1
    ensures Serve(c, a) == (Machine(if |a| > LONGEST_PENDING then ShutDown(c) else c, Idle), a)
    ensures Serve(c, a + b) == Serve(Serve(c, a).0.core, a + b) && LinesShort(Serve(c, a).0.core, a + b)
  {
    hide StartLine, FinishBlock, CommandWords, IsClosing;
    FindCrlfGrows(a, b, 0);
    if |a| > LONGEST_PENDING && c.connected {
      var crlf := FindCrlf(a + b, 0);
      if crlf >= 0 { ClosingTwice(c, (a + b)[..crlf]); }
      assert ShutDown(ShutDown(c)) == ShutDown(c);
    }
  }

  /** A command closes a connection that is up exactly when it is `quit` or `shutdown`. */
  lemma ClosingLine(c: Core, line: string)
    requires StoreValid(c.items) && c.connected
    ensures !StartLine(c, line).core.connected <==> IsClosing(CommandWords(line))
  {
    hide CommandWords, ReadUpdateArgs, EndsWithNoreply;
  }

  /** To such a command it makes no difference that the connection is down already. */
  lemma ClosingTwice(c: Core, line: string)
    requires StoreValid(c.items) && IsClosing(CommandWords(line))
    ensures c.connected ==> StartLine(ShutDown(c), line) == StartLine(c, line)
  {
    hide CommandWords, EndsWithNoreply, VerbOf;
  }

  lemma PastLine(c: Core, a: string, b: string) returns (r: Start, rest: string)
    requires StoreValid(c.items) && FindCrlf(a, 0) >= 0
    ensures Sound(r) && |rest| < |a|
    ensures r.Crash? ==> Serve(c, a) == (Machine(r.core, Dead), a) && Serve(c, a + b) == (Machine(r.core, Dead), a + b)
    ensures !r.Crash? ==> Serve(c, a) == Resume(Enter(r), rest) && Serve(c, a + b) == Resume(Enter(r), rest + b)
    ensures !r.Crash? && LinesShort(c, a + b) ==> LinesShortFrom(Enter(r), rest + b)
  {
    hide StartLine, FinishBlock, CommandWords;
    FindCrlfGrows(a, b, 0);
    var crlf := FindCrlf(a, 0);
    r, rest := StartLine(c, a[..crlf]), a[crlf + 2..];
    assert (a + b)[crlf + 2..] == rest + b && (a + b)[..crlf] == a[..crlf];
  }

  lemma {:induction false} ServeSplit(c: Core, a: string, b: string)
    requires StoreValid(c.items) && LinesShort(c, a + b)
    ensures MachineValid(Serve(c, a).0) && Serve(c, a + b) == Then(Serve(c, a), b)
    ensures LinesShortFrom(Serve(c, a).0, Serve(c, a).1 + b)
    decreases |a|, 0
  {
    if FindCrlf(a, 0) == -1 {
      LinePending(c, a, b);
    } else {
      var r, rest := PastLine(c, a, b);
      if !r.Crash? { ResumeSplit(Enter(r), rest, b); }
    }
  }

  lemma {:induction false} ResumeSplit(m: Machine, a: string, b: string)
    requires MachineValid(m) && LinesShortFrom(m, a + b)
    ensures MachineValid(Resume(m, a).0) && Resume(m, a + b) == Then(Resume(m, a), b)
    ensures LinesShortFrom(Resume(m, a).0, Resume(m, a).1 + b)
    decreases |a|, 1
  {
    match m.phase
    case Idle => ServeSplit(m.core, a, b);
    case Dead =>
    case Discarding(left, _) =>
      if |a| >= left {
        var c, rest := PastDiscarding(m, a, b);
        ServeSplit(c, rest, b);
      } else {
        StillDiscarding(m, a, b);
      }
    case Receiving(item, _, _) =>
      if |a| >= item.valueLen - |item.value| {
        var c, rest := PastReceiving(m, a, b);
        ServeSplit(c, rest, b);
      } else {
        StillReceiving(m, a, b);
      }
  }

  lemma PastDiscarding(m: Machine, a: string, b: string) returns (c: Core, rest: string)
    requires MachineValid(m) && m.phase.Discarding? && |a| >= m.phase.left
    ensures StoreValid(c.items) && |rest| < |a| && Resume(m, a) == Serve(c, rest) && Resume(m, a + b) == Serve(c, rest + b)
    ensures LinesShortFrom(m, a + b) == LinesShort(c, rest + b)
  {
    c, rest := m.core, a[m.phase.left..];
    assert (a + b)[m.phase.left..] == rest + b;
  }

  lemma PastReceiving(m: Machine, a: string, b: string) returns (c: Core, rest: string)
    requires MachineValid(m) && m.phase.Receiving? && |a| >= m.phase.item.valueLen - |m.phase.item.value|
    ensures StoreValid(c.items) && |rest| < |a| && Resume(m, a) == Serve(c, rest) && Resume(m, a + b) == Serve(c, rest + b)
    ensures LinesShortFrom(m, a + b) == LinesShort(c, rest + b)
  {
    hide StartLine, FinishBlock, CommandWords;
    var Receiving(item, policy, noreply) := m.phase;
    var n := item.valueLen - |item.value|;
    assert (a + b)[n..] == a[n..] + b && (a + b)[..n] == a[..n];
    c, rest := FinishBlock(m.core, item.(value := item.value + a[..n]), policy, noreply), a[n..];
  }

  lemma StillDiscarding(m: Machine, a: string, b: string)
    requires MachineValid(m) && m.phase.Discarding? && |a| < m.phase.left && LinesShortFrom(m, a + b)
    ensures MachineValid(Resume(m, a).0) && Resume(m, a + b) == Then(Resume(m, a), b)
    ensures LinesShortFrom(Resume(m, a).0, Resume(m, a).1 + b)
  {
    hide StartLine, FinishBlock, CommandWords, FindCrlf, IsClosing, LinesShort, Serve, StoreValid;
    var left := m.phase.left;
    assert Resume(m, a) == (Machine(m.core, Discarding(left - |a|, m.phase.noreply)), "");
    assert "" + b == b;
    if |a + b| >= left { assert (a + b)[left..] == b[left - |a|..]; }
  }

  lemma StillReceiving(m: Machine, a: string, b: string)
    requires MachineValid(m) && m.phase.Receiving? && |a| < m.phase.item.valueLen - |m.phase.item.value| && LinesShortFrom(m, a + b)
    ensures MachineValid(Resume(m, a).0) && Resume(m, a + b) == Then(Resume(m, a), b)
    ensures LinesShortFrom(Resume(m, a).0, Resume(m, a).1 + b)
  {
    hide StartLine, FinishBlock, CommandWords, FindCrlf, IsClosing, LinesShort, Serve, StoreValid;
    var Receiving(item, policy, noreply) := m.phase;
    var needed := item.valueLen - |item.value|;
    var part := item.(value := item.value + a);
    Pieces(item.value, a, b, needed);
    assert Resume(m, a) == (Machine(m.core, Receiving(part, policy, noreply)), "");
    var s := a + b;
    if |s| < needed {
      assert Then(Resume(m, a), b) == (Machine(m.core, Receiving(part.(value := part.value + b), policy, noreply)), "");
    } else {
      var full, full' := item.(value := item.value + s[..needed]), part.(value := part.value + b[..needed - |a|]);
      assert full == full';
    }
  }

  lemma Pieces(v: string, a: string, b: string, n: nat)
    requires |a| < n
    ensures "" + b == b && v + (a + b) == v + a + b
    ensures n <= |a + b| ==> (a + b)[n..] == b[n - |a|..] && v + (a + b)[..n] == v + a + b[..n - |a|]
  {
  }

  /** A session that has read what it can stays put until more bytes come. */
  lemma {:induction false} ServeStable(c: Core, s: string)
    requires StoreValid(c.items)
    ensures MachineValid(Serve(c, s).0) && Then(Serve(c, s), "") == Serve(c, s)
    decreases |s|, 0
  {
    hide StartLine, FinishBlock, CommandWords;
    ServeValid(c, s);
    var crlf := FindCrlf(s, 0);
    if crlf == -1 {
      var c' := if |s| > LONGEST_PENDING then ShutDown(c) else c;
      assert s + "" == s && (|s| > LONGEST_PENDING ==> ShutDown(c') == c');
      assert Serve(c', s) == (Machine(c', Idle), s);
    } else {
      var r := StartLine(c, s[..crlf]);
      if r.Crash? { assert s + "" == s; } else { ResumeStable(Enter(r), s[crlf + 2..]); }
    }
  }

  lemma {:induction false} ResumeStable(m: Machine, s: string)
    requires MachineValid(m)
    ensures MachineValid(Resume(m, s).0) && Then(Resume(m, s), "") == Resume(m, s)
    decreases |s|, 1
  {
    hide StartLine, FinishBlock, CommandWords;
    ResumeValid(m, s);
    match m.phase
    case Idle => ServeStable(m.core, s);
    case Dead => assert s + "" == s;
    case Discarding(left, _) => if |s| >= left { ServeStable(m.core, s[left..]); } else { assert "" + "" == ""; }
    case Receiving(item, policy, noreply) =>
      var needed := item.valueLen - |item.value|;
      if |s| >= needed {
        ServeStable(FinishBlock(m.core, item.(value := item.value + s[..needed]), policy, noreply), s[needed..]);
      } else {
        assert "" + "" == "" && item.value + s + "" == item.value + s;
      }
  }

  /** The deliveries one after the other, starting with `pending` bytes unread. */
  function Deliver(m: Machine, pending: string, chunks: seq<string>): (Machine, string)
    requires MachineValid(m)
    decreases chunks
  {
    if chunks == [] then (m, pending)
    else
      ResumeValid(m, pending + chunks[0]);
      var (m', rest) := Resume(m, pending + chunks[0]);
      Deliver(m', rest, chunks[1..])
  }

  /**
   The fragmentation theorem: however a stream is cut, the calls made, the store, the state of the
   session and the unread bytes are those of reading the whole stream in one pass.
   */
  lemma {:induction false} FragmentationFree(m: Machine, pending: string, chunks: seq<string>)
    requires MachineValid(m) && Resume(m, pending) == (m, pending)
    requires LinesShortFrom(m, pending + Concat(chunks))
    ensures Deliver(m, pending, chunks) == Resume(m, pending + Concat(chunks))
    decreases chunks
  {
    if chunks == [] {
      assert pending + Concat(chunks) == pending;
    } else {
      var a, b := pending + chunks[0], Concat(chunks[1..]);
      assert pending + Concat(chunks) == a + b;
      ResumeSplit(m, a, b);
      ResumeStable(m, a);
      var (m', rest) := Resume(m, a);
      assert rest + "" == rest;
      FragmentationFree(m', rest, chunks[1..]);
    }
  }

  // ---------- the one line the cut of which matters ----------

  /** A line and its end, with nothing after it, end as they start: the connection is as the command left it. */
  lemma LineAlone(c: Core, line: string)
    requires StoreValid(c.items) && FindCrlf(line + "\r\n", 0) == |line|
    ensures Serve(c, line + "\r\n").0.core == StartLine(c, line).core
  {
    var s := line + "\r\n";
    assert s[..|line|] == line && s[|line| + 2..] == "";
    assert FindCrlf("", 0) == -1;
  }

  lemma LineCutAt(c: Core, line: string, k: nat)
    requires StoreValid(c.items) && FindCrlf(line + "\r\n", 0) == |line| && k < |line| + 2
    ensures var s := line + "\r\n";
            MachineValid(Serve(c, s[..k]).0) &&
            Then(Serve(c, s[..k]), s[k..]) == Serve(if k > LONGEST_PENDING then ShutDown(c) else c, s)
  {
    var s := line + "\r\n";
    var a, b := s[..k], s[k..];
    assert a + b == s;
    FindCrlfGrows(a, b, 0);
    assert FindCrlf(a, 0) == -1;
  }

  /**
   On a live connection a command line may be cut anywhere without effect exactly when it has at most
   1023 bytes or closes the connection itself.
   */
  lemma LineCut(c: Core, line: string)
    requires StoreValid(c.items) && c.connected && FindCrlf(line + "\r\n", 0) == |line|
    ensures var s := line + "\r\n";
            (forall k :: 0 <= k < |s| ==> MachineValid(Serve(c, s[..k]).0) && Then(Serve(c, s[..k]), s[k..]) == Serve(c, s))
            <==> |line| <= LONGEST_LINE || IsClosing(CommandWords(line))
  {
    hide CommandWords, IsClosing;
    var s := line + "\r\n";
    LineAlone(c, line);
    LineAlone(ShutDown(c), line);
    forall k | 0 <= k < |s|
      ensures MachineValid(Serve(c, s[..k]).0) &&
              Then(Serve(c, s[..k]), s[k..]) == Serve(if k > LONGEST_PENDING then ShutDown(c) else c, s)
    {
      LineCutAt(c, line, k);
    }
    if |line| > LONGEST_LINE {
      ClosingLine(c, line);
      if IsClosing(CommandWords(line)) {
        ClosingTwice(c, line);
        assert s[..|line|] == line;
        assert Serve(ShutDown(c), s) == Serve(c, s);
      } else {
        var k := |line| + 1;
        assert Then(Serve(c, s[..k]), s[k..]) == Serve(ShutDown(c), s);
      }
    }
  }

  // ---------- commands with their data blocks ----------

  /** A command line together with the bytes that belong to it. */
  datatype Unit = Unit(line: string, block: string)

  function Text(u: Unit): string {
    u.line + "\r\n" + u.block
  }

  /** How many bytes after the line belong to the command. */
  function BlockLength(r: Start): nat {
    match r
    case Skip(_, n, _) => n
    case Block(_, item, _, _) => item.valueLen
    case _ => 0
  }

  lemma TextSplit(u: Unit, tail: string)
    ensures Text(u) + tail == u.line + "\r\n" + (u.block + tail)
  {
  }

  /** A line the session does not check: no key, or a declared length that no item and no count can have. */
  predicate Unchecked(ws: seq<string>) {
    var verb := VerbOf(ws);
    if |ws| == 1 then verb.Update? || verb == Deletion
    else
      verb.Update? && |ws[1]| <= LONGEST_KEY &&
      var args := ReadUpdateArgs(verb.policy, ws[1..]);
      args.UpdateArgs? && (args.bytes < 0 || args.bytes + 2 >= 0x8000_0000)
  }

  /** How many bytes after the line belong to the command: two more than an accepted update declares. */
  function OwnBytes(ws: seq<string>): nat {
    var verb := VerbOf(ws);
    if verb.Update? && |ws| > 1 && |ws[1]| <= LONGEST_KEY then
      var args := ReadUpdateArgs(verb.policy, ws[1..]);
      if args.UpdateArgs? && args.bytes >= 0 then args.bytes + 2 else 0
    else 0
  }

  /** What a line leads to, told from its words alone. */
  lemma LineStarts(c: Core, line: string)
    requires StoreValid(c.items)
    ensures var r, ws := StartLine(c, line), CommandWords(line);
            (r.Crash? <==> Unchecked(ws)) && (!r.Crash? ==> BlockLength(r) == OwnBytes(ws)) &&
            (r.Block? <==> !r.Crash? && 0 < OwnBytes(ws) <= LARGEST_VALUE + 2) &&
            (r.Skip? <==> !r.Crash? && OwnBytes(ws) > LARGEST_VALUE + 2)
  {
    hide CommandWords, ReadUpdateArgs, RelativeExptime, EndsWithNoreply, FetchAll, PolicyOf;
  }

  ghost predicate Complete(u: Unit) {
    var ws := CommandWords(u.line);
    FindCrlf(u.line + "\r\n", 0) == |u.line| && !Unchecked(ws) && |u.block| == OwnBytes(ws)
  }

  /** The effect of the data block, if the command has one. */
  function WithBlock(r: Start, block: string): (c: Core)
    requires Sound(r) && |block| == BlockLength(r)
    ensures StoreValid(c.items)
  {
    if r.Block? then FinishBlock(r.core, r.item.(value := block), r.policy, r.noreply) else r.core
  }

  /** The effect of one complete command. */
  function Perform(c: Core, u: Unit): (c': Core)
    requires StoreValid(c.items) && Complete(u)
    ensures StoreValid(c'.items)
  {
    LineStarts(c, u.line);
    WithBlock(StartLine(c, u.line), u.block)
  }

  lemma ServeLine(c: Core, line: string, rest: string)
    requires StoreValid(c.items) && FindCrlf(line + "\r\n", 0) == |line| && !StartLine(c, line).Crash?
    ensures Serve(c, line + "\r\n" + rest) == Resume(Enter(StartLine(c, line)), rest)
  {
    hide StartLine, FinishBlock, CommandWords, FindCrlf;
    LineAhead(line, rest);
  }

  lemma LineAhead(line: string, rest: string)
    requires FindCrlf(line + "\r\n", 0) == |line|
    ensures var s := line + "\r\n" + rest; FindCrlf(s, 0) == |line| && s[..|line|] == line && s[|line| + 2..] == rest
  {
    FindCrlfGrows(line + "\r\n", rest, 0);
  }

  /** A complete command takes up its line and its block; the next one begins at the very next byte. */
  lemma ServeUnit(c: Core, u: Unit, tail: string)
    requires StoreValid(c.items) && Complete(u)
    ensures Serve(c, Text(u) + tail) == Serve(Perform(c, u), tail)
  {
    hide StartLine, FinishBlock, CommandWords, Unchecked, OwnBytes;
    LineStarts(c, u.line);
    TextSplit(u, tail);
    ServeLine(c, u.line, u.block + tail);
    BlockTaken(StartLine(c, u.line), u.block, tail);
  }

  lemma BlockTaken(r: Start, block: string, tail: string)
    requires Sound(r) && !r.Crash? && |block| == BlockLength(r)
    ensures Resume(Enter(r), block + tail) == Serve(WithBlock(r, block), tail)
  {
    var n := |block|;
    assert (block + tail)[n..] == tail && (block + tail)[..n] == block;
    if r.Block? { assert r.item.(value := r.item.value + block) == r.item.(value := block); }
  }

  /** An update accepted with a declared length owns exactly two bytes more, whether it is stored or too large. */
  lemma DeclaredLength(c: Core, line: string)
    requires StoreValid(c.items)
    ensures var ws, r := CommandWords(line), StartLine(c, line);
            r.Block? || r.Skip? ==>
              |ws| > 1 && VerbOf(ws).Update? && |ws[1]| <= LONGEST_KEY &&
              var args := ReadUpdateArgs(VerbOf(ws).policy, ws[1..]);
              args.UpdateArgs? && 0 <= args.bytes && BlockLength(r) == args.bytes + 2 &&
              (r.Skip? <==> args.bytes > LARGEST_VALUE)
  {
    var ws := CommandWords(line);
    if VerbOf(ws).Update? {
      UpdateLength(c.(processed := c.processed + 1), VerbOf(ws).policy, ws[1..], EndsWithNoreply(line));
    }
  }

  lemma UpdateLength(c: Core, policy: Policy, ws: seq<string>, noreply: bool)
    ensures var r := StartUpdate(c, policy, ws, noreply);
            r.Block? || r.Skip? ==>
              ws != [] && |ws[0]| <= LONGEST_KEY &&
              var args := ReadUpdateArgs(policy, ws);
              args.UpdateArgs? && 0 <= args.bytes && BlockLength(r) == args.bytes + 2 &&
              (r.Skip? <==> args.bytes > LARGEST_VALUE)
  {
  }
}
