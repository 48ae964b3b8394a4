/** The publish/subscribe hub: the message codec, the printers of the client, and its loop over the input. */
module Hub {
  import opened Buffers

  datatype ParseResult = Error | Success | Continue

  datatype Message = Message(cmd: string, topic: string, content: string)

  datatype Parsed = Bad | Incomplete | Complete(message: Message, rest: string)

  datatype Line = NoSpace | Plain(cmd: string, topic: string) | Publish(topic: string)

  function ParseLine(line: string): Line {
    var space := Find(line, ' ');
    if space == |line| then NoSpace
    else
      var cmd, topic := line[..space], line[space + 1..];
      if cmd == "pub" then Publish(topic) else Plain(cmd, topic)
  }

  /** One message at the front of the stream. */
  function Parse(s: string): (r: Parsed)
    ensures r.Complete? ==> |r.rest| < |s|
  {
    var crlf := FindCrlf(s, 0);
    if crlf == -1 then Incomplete
    else match ParseLine(s[..crlf])
      case NoSpace => Bad
      case Plain(cmd, topic) => Complete(Message(cmd, topic, ""), s[crlf + 2..])
      case Publish(topic) =>
        var end := FindCrlf(s, crlf + 2);
        if end == -1 then Incomplete else Complete(Message("pub", topic, s[crlf + 2..end]), s[end + 2..])
  }

  /** `parseMessage`: only a complete message is taken from the buffer. */
  method ParseMessage(buf: Buffer) returns (result: ParseResult, cmd: string, topic: string, content: string)
    modifies buf
    ensures match Parse(old(buf.bytes))
            case Bad => result == Error && buf.bytes == old(buf.bytes)
            case Incomplete => result == Continue && buf.bytes == old(buf.bytes)
            case Complete(m, rest) => result == Success && Message(cmd, topic, content) == m && buf.bytes == rest
  {
    result, cmd, topic, content := Error, "", "", "";
    var crlf := buf.FindCRLF(0);
    if crlf != -1 {
      var space := Find(buf.bytes[..crlf], ' ');
      if space != crlf {
        cmd, topic := buf.bytes[..crlf][..space], buf.bytes[..crlf][space + 1..];
        if cmd == "pub" {
          var start := crlf + 2;
          crlf := buf.FindCRLF(start);
          if crlf != -1 {
            content := buf.bytes[start..crlf];
            buf.Retrieve(crlf + 2);
            result := Success;
          } else {
            result := Continue;
          }
        } else {
          buf.Retrieve(crlf + 2);
          result := Success;
        }
      } else {
        result := Error;
      }
    } else {
      result := Continue;
    }
  }

  /** All messages at the front of the stream, what is left, and whether a bad line stopped the reading. */
  function Drain(s: string): (seq<Message>, string, bool)
    decreases |s|
  {
    match Parse(s)
    case Bad => ([], s, true)
    case Incomplete => ([], s, false)
    case Complete(m, rest) => var (ms, left, bad) := Drain(rest); ([m] + ms, left, bad)
  }

  // ---------- fragmentation ----------

  /** A verdict on the front of a stream stands, whatever follows. */
  lemma ParseGrows(a: string, b: string)
    ensures match Parse(a)
            case Bad => Parse(a + b) == Bad
            case Incomplete => true
            case Complete(m, rest) => Parse(a + b) == Complete(m, rest + b)
  {
    hide ParseLine, FindCrlf;
    FindCrlfGrows(a, b, 0);
    var crlf := FindCrlf(a, 0);
    if crlf >= 0 {
      FindCrlfGrows(a, b, crlf + 2);
      Inside(a, b, 0, crlf);
      var end := FindCrlf(a, crlf + 2);
      if end >= 0 { Inside(a, b, crlf + 2, end); }
    }
  }

  lemma Inside(a: string, b: string, i: nat, j: nat)
    requires i <= j <= |a| - 2
    ensures (a + b)[i..j] == a[i..j] && (a + b)[j + 2..] == a[j + 2..] + b
  {
  }

  /** Reading in two deliveries gives the messages of reading at once, in the same order, and leaves the same bytes. */
  lemma {:induction false} DrainSplit(a: string, b: string)
    ensures var (ms, left, bad) := Drain(a);
            var (ms', left', bad') := Drain(left + b);
            Drain(a + b) == (ms + ms', left', bad') && (bad ==> bad' && ms' == [] && left' == left + b)
    decreases |a|
  {
    ParseGrows(a, b);
    match Parse(a)
    case Bad => assert [] + Drain(a + b).0 == Drain(a + b).0;
    case Incomplete => assert [] + Drain(a + b).0 == Drain(a + b).0;
    case Complete(m, rest) =>
      DrainSplit(rest, b);
      var (ms, left, bad) := Drain(rest);
      assert [m] + (ms + Drain(left + b).0) == [m] + ms + Drain(left + b).0;
  }

  function Deliver(pending: string, chunks: seq<string>): (seq<Message>, string)
    decreases chunks
  {
    if chunks == [] then ([], pending)
    else
      var (ms, left, _) := Drain(pending + chunks[0]);
      var (ms', left') := Deliver(left, chunks[1..]);
      (ms + ms', left')
  }

  lemma {:induction false} FragmentationFree(pending: string, chunks: seq<string>)
    requires Drain(pending).0 == []
    ensures var (ms, left, _) := Drain(pending + Concat(chunks)); Deliver(pending, chunks) == (ms, left)
    decreases chunks
  {
    if chunks == [] {
      assert pending + Concat(chunks) == pending;
    } else {
      var a, b := pending + chunks[0], Concat(chunks[1..]);
      assert pending + Concat(chunks) == a + b;
      DrainSplit(a, b);
      DrainSplit(a, "");
      var (ms, left, _) := Drain(a);
      assert a + "" == a && left + "" == left;
      assert |ms + Drain(left).0| == |ms|;
      FragmentationFree(left, chunks[1..]);
    }
  }

  // ---------- printing ----------

  /** The text of `subscribe`, `unsubscribe` and `publish`. */
  function Print(m: Message): string {
    if m.cmd == "pub" then "pub " + m.topic + "\r\n" + m.content + "\r\n" else m.cmd + " " + m.topic + "\r\n"
  }

  /** A message a client can ask for; only `publish` has a content. */
  ghost predicate IsMessage(m: Message) {
    m.cmd == "pub" || ((m.cmd == "sub" || m.cmd == "unsub") && m.content == "")
  }

  ghost predicate Sendable(m: Message) {
    IsMessage(m) && NoCrlf(m.topic) && NoCrlf(m.content)
  }

  lemma LinePrinted(cmd: string, topic: string)
    requires cmd == "pub" || cmd == "sub" || cmd == "unsub"
    ensures ParseLine(cmd + " " + topic) == if cmd == "pub" then Publish(topic) else Plain(cmd, topic)
    ensures NoCrlf(topic) ==> NoCrlf(cmd + " " + topic)
  {
    var line := cmd + " " + topic;
    assert line[|cmd|] == ' ' && forall k :: 0 <= k < |cmd| ==> line[k] == cmd[k] && line[k] != ' ';
    assert Find(line, ' ') == |cmd|;
    assert line[..|cmd|] == cmd && line[|cmd| + 1..] == topic;
    if NoCrlf(topic) {
      forall i ensures !CrlfAt(line, i) {
        if i > |cmd| { assert CrlfAt(line, i) ==> CrlfAt(topic, i - |cmd| - 1); }
      }
    }
  }

  /** A printed message is read back, and nothing of what follows is touched. */
  lemma ParsePrinted(m: Message, tail: string)
    requires Sendable(m)
    ensures Parse(Print(m) + tail) == Complete(m, tail)
  {
    if m.cmd == "pub" { PublicationPrinted(m, tail); } else { SubscriptionPrinted(m, tail); }
  }

  lemma PublicationPrinted(m: Message, tail: string)
    requires Sendable(m) && m.cmd == "pub"
    ensures Parse(Print(m) + tail) == Complete(m, tail)
  {
    LinePrinted("pub", m.topic);
    hide ParseLine;
    var line, rest, s := "pub " + m.topic, m.content + "\r\n" + tail, Print(m) + tail;
    var head := line + "\r\n";
    assert line == "pub" + " " + m.topic;
    assert s == line + "\r\n" + rest && s == head + m.content + "\r\n" + tail;
    FirstLine(s, line, rest);
    FirstEnd(head, m.content, tail);
    hide FindCrlf, CrlfAt, Print;
  }

  lemma SubscriptionPrinted(m: Message, tail: string)
    requires Sendable(m) && m.cmd != "pub"
    ensures Parse(Print(m) + tail) == Complete(m, tail)
  {
    LinePrinted(m.cmd, m.topic);
    hide ParseLine;
    var line, s := m.cmd + " " + m.topic, Print(m) + tail;
    assert s == line + "\r\n" + tail;
    FirstLine(s, line, tail);
  }

  /** And no other message survives: one with a CRLF inside is cut there. */
  lemma OnlySendable(m: Message)
    requires IsMessage(m) && Parse(Print(m)) == Complete(m, "")
    ensures Sendable(m)
  {
    var s, crlf := Print(m), FindCrlf(Print(m), 0);
    var line, n := s[..crlf], |m.cmd| + 1;
    hide Print;
    assert ParseLine(line) == if m.cmd == "pub" then Publish(m.topic) else Plain(m.cmd, m.topic);
    assert line[n..] == m.topic && |line| == n + |m.topic|;
    forall i ensures !CrlfAt(m.topic, i) {
      assert CrlfAt(m.topic, i) ==> CrlfAt(line, n + i) && CrlfAt(s, n + i);
    }
    if m.cmd == "pub" {
      var end := FindCrlf(s, crlf + 2);
      assert m.content == s[crlf + 2..end];
      forall i ensures !CrlfAt(m.content, i) {
        assert CrlfAt(m.content, i) ==> CrlfAt(s, crlf + 2 + i);
      }
    }
  }

  /** A message comes back from the codec as it was printed exactly when neither its topic nor its content holds a CRLF. */
  lemma ReadBackExactly(m: Message)
    requires IsMessage(m)
    ensures (forall tail :: Parse(Print(m) + tail) == Complete(m, tail)) <==> NoCrlf(m.topic) && NoCrlf(m.content)
  {
    hide Parse, Print;
    if forall tail :: Parse(Print(m) + tail) == Complete(m, tail) {
      assert Print(m) + "" == Print(m);
      OnlySendable(m);
    }
    if Sendable(m) {
      forall tail ensures Parse(Print(m) + tail) == Complete(m, tail) {
        ParsePrinted(m, tail);
      }
    }
  }

  // ---------- the three verdicts ----------

  /** A line is refused exactly when it is complete and has no space; the parser sees nothing else wrong. */
  lemma BadExactly(s: string)
    ensures Parse(s).Bad? <==> FindCrlf(s, 0) >= 0 && ' ' !in s[..FindCrlf(s, 0)]
  {
  }

  /** More bytes are waited for exactly when the line has no end yet, or is a publication whose content has none. */
  lemma IncompleteExactly(s: string)
    ensures var n := FindCrlf(s, 0);
            Parse(s).Incomplete? <==> n == -1 || (n >= 4 && s[..4] == "pub " && FindCrlf(s, n + 2) == -1)
  {
    var n := FindCrlf(s, 0);
    if n >= 0 { PublicationLine(s[..n]); }
    if n >= 4 { assert s[..n][..4] == s[..4]; }
    hide ParseLine;
  }

  lemma PublicationLine(line: string)
    ensures ParseLine(line).Publish? <==> |line| >= 4 && line[..4] == "pub "
  {
    var space := Find(line, ' ');
    if |line| >= 4 && line[..4] == "pub " {
      assert forall k :: 0 <= k < 4 ==> line[k] == line[..4][k] == "pub "[k];
      assert space == 3;
      assert line[..3] == "pub";
    }
    if space < |line| && line[..space] == "pub" {
      assert line[..4] == line[..3] + [line[3]];
    }
  }

  /** Any other line with a space is a message without content, whatever its command. */
  lemma AnyCommand(cmd: string, topic: string, rest: string)
    requires ' ' !in cmd && cmd != "pub" && NoCrlf(cmd + " " + topic)
    ensures Parse(cmd + " " + topic + "\r\n" + rest) == Complete(Message(cmd, topic, ""), rest)
  {
    var line := cmd + " " + topic;
    assert line[|cmd|] == ' ' && forall k :: 0 <= k < |cmd| ==> line[k] == cmd[k] && line[k] != ' ';
    assert Find(line, ' ') == |cmd|;
    assert line[..|cmd|] == cmd && line[|cmd| + 1..] == topic;
    FirstLine(line + "\r\n" + rest, line, rest);
    hide FindCrlf, Find;
  }

  // ---------- whole streams ----------

  function PrintAll(ms: seq<Message>): string {
    if ms == [] then "" else Print(ms[0]) + PrintAll(ms[1..])
  }

  lemma {:induction false} MorePrinted(seen: seq<Message>, ms: seq<Message>, tail: string)
    requires forall m :: m in ms ==> Sendable(m)
    ensures After(seen, PrintAll(ms) + tail) == After(seen + ms, tail)
    decreases ms
  {
    hide Parse, Print, After;
    if ms == [] {
      assert "" + tail == tail && seen + ms == seen;
    } else {
      var rest := PrintAll(ms[1..]) + tail;
      assert PrintAll(ms) + tail == Print(ms[0]) + rest;
      ParsePrinted(ms[0], rest);
      OneMore(seen, Print(ms[0]) + rest);
      MorePrinted(seen + [ms[0]], ms[1..], tail);
      assert seen + [ms[0]] + ms[1..] == seen + ms;
    }
  }

  /** Printed messages are read first, and then what follows them. */
  lemma DrainPrinted(ms: seq<Message>, tail: string)
    requires forall m :: m in ms ==> Sendable(m)
    ensures Drain(PrintAll(ms) + tail) == After(ms, tail)
  {
    MorePrinted([], ms, tail);
    NothingSeen(PrintAll(ms) + tail);
    assert [] + ms == ms;
  }

  /** Printed messages arrive as they were sent, however the stream is cut. */
  lemma RoundTrip(ms: seq<Message>, chunks: seq<string>)
    requires (forall m :: m in ms ==> Sendable(m)) && Concat(chunks) == PrintAll(ms)
    ensures Deliver("", chunks) == (ms, "")
  {
    DrainPrinted(ms, "");
    DrainPrinted([], "");
    NothingHere();
    FragmentationFree("", chunks);
    assert "" + Concat(chunks) == Concat(chunks) && PrintAll(ms) + "" == PrintAll(ms) && ms + [] == ms;
  }

  lemma NothingHere()
    ensures Drain("") == ([], "", false)
  {
    assert FindCrlf("", 0) == -1;
  }

  /** A bad line after printed messages: they arrive, the reading stops in front of it, and it is reported. */
  lemma StopsAtBadLine(ms: seq<Message>, line: string, rest: string)
    requires (forall m :: m in ms ==> Sendable(m)) && NoCrlf(line) && ' ' !in line
    ensures Drain(PrintAll(ms) + (line + "\r\n" + rest)) == (ms, line + "\r\n" + rest, true)
  {
    var tail := line + "\r\n" + rest;
    DrainPrinted(ms, tail);
    FirstLine(tail, line, rest);
    BadExactly(tail);
    hide Parse;
    assert ms + [] == ms;
  }

  /** The same in any fragmentation. */
  lemma StopsAtBadLineInPieces(ms: seq<Message>, line: string, rest: string, chunks: seq<string>)
    requires (forall m :: m in ms ==> Sendable(m)) && NoCrlf(line) && ' ' !in line
    requires Concat(chunks) == PrintAll(ms) + (line + "\r\n" + rest)
    ensures Deliver("", chunks) == (ms, line + "\r\n" + rest)
  {
    StopsAtBadLine(ms, line, rest);
    NothingHere();
    FragmentationFree("", chunks);
    assert "" + Concat(chunks) == Concat(chunks);
  }

  // ---------- the client ----------

  class PubSubClient {
    /** Whether there is a connection, and it is up. */
    var connected: bool
    var subscribed: bool

    /** What has been handed to the connection, and to the subscriber's callback. */
    ghost var sent: string
    ghost var received: seq<Message>

    method Send(message: string) returns (succeed: bool)
      modifies `sent
      ensures succeed == connected && sent == if connected then old(sent) + message else old(sent)
    {
      succeed := false;
      if connected {
        sent := sent + message;
        succeed := true;
      }
    }

    method Subscribe(topic: string) returns (succeed: bool)
      modifies this
      ensures subscribed && connected == old(connected) && succeed == connected && received == old(received)
      ensures sent == if connected then old(sent) + Print(Message("sub", topic, "")) else old(sent)
    {
      var message := "sub " + topic + "\r\n";
      subscribed := true;
      succeed := Send(message);
    }

    method Unsubscribe(topic: string)
      modifies this`sent
      ensures sent == if connected then old(sent) + Print(Message("unsub", topic, "")) else old(sent)
    {
      var message := "unsub " + topic + "\r\n";
      var _ := Send(message);
    }

    method Publish(topic: string, content: string) returns (succeed: bool)
      modifies this`sent
      ensures succeed == connected
      ensures sent == if connected then old(sent) + Print(Message("pub", topic, content)) else old(sent)
    {
      var message := "pub " + topic + "\r\n" + content + "\r\n";
      succeed := Send(message);
    }

    /** The drain loop: publications go to the callback; a bad line shuts the connection down. */
    method OnMessage(buf: Buffer)
      modifies this, buf
      ensures var (ms, left, bad) := Drain(old(buf.bytes));
              buf.bytes == left && connected == (old(connected) && !bad) &&
              received == old(received) + (if subscribed then Publications(ms) else [])
      ensures subscribed == old(subscribed) && sent == old(sent)
    {
      hide Parse, Publications;
      var result := Success;
      ghost var seen: seq<Message>, whole := [], Drain(buf.bytes);
      NothingSeen(buf.bytes);
      while result == Success
        invariant subscribed == old(subscribed) && sent == old(sent)
        invariant result == Success ==> connected == old(connected) && After(seen, buf.bytes) == whole
        invariant result != Success ==>
                    (seen, buf.bytes, result == Error) == whole && connected == (old(connected) && result != Error)
        invariant received == old(received) + (if subscribed then Publications(seen) else [])
        decreases result == Success, |buf.bytes|
      {
        var cmd, topic, content;
        OneMore(seen, buf.bytes);
        result, cmd, topic, content := ParseMessage(buf);
        if result == Success {
          ghost var m := Message(cmd, topic, content);
          PublicationsSnoc(seen, m);
          if cmd == "pub" && subscribed {
            received := received + [m];
          }
          seen := seen + [m];
        } else if result == Error {
          connected := false;
        }
      }
    }
  }

  /** The outcome of draining `s` after the messages `seen`. */
  ghost function After(seen: seq<Message>, s: string): (seq<Message>, string, bool) {
    var (ms, left, bad) := Drain(s);
    (seen + ms, left, bad)
  }

  lemma NothingSeen(s: string)
    ensures After([], s) == Drain(s) && Publications([]) == []
  {
    assert [] + Drain(s).0 == Drain(s).0;
  }

  lemma OneMore(seen: seq<Message>, s: string)
    ensures match Parse(s)
            case Bad => After(seen, s) == (seen, s, true)
            case Incomplete => After(seen, s) == (seen, s, false)
            case Complete(m, rest) => After(seen, s) == After(seen + [m], rest)
  {
    match Parse(s)
    case Complete(m, rest) => assert seen + ([m] + Drain(rest).0) == seen + [m] + Drain(rest).0;
    case _ => assert seen + [] == seen;
  }

  function Publications(ms: seq<Message>): seq<Message> {
    if ms == [] then [] else (if ms[0].cmd == "pub" then [ms[0]] else []) + Publications(ms[1..])
  }

  lemma {:induction false} PublicationsSnoc(ms: seq<Message>, m: Message)
    ensures Publications(ms + [m]) == Publications(ms) + (if m.cmd == "pub" then [m] else [])
  {
    if ms == [] {
      assert ([] + [m])[1..] == [];
    } else {
      assert (ms + [m])[1..] == ms[1..] + [m] && (ms + [m])[0] == ms[0];
      PublicationsSnoc(ms[1..], m);
    }
  }
}
