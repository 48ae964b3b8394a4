/**
 Command lines as a client writes them, and what the session reads: words joined by spaces, numbers,
 and the request for silence, which takes the last word when that is `noreply`.
 */
module SessionLines {
  import opened Numerals
  import opened Buffers
  import opened SessionSpec
  import opened SessionTheorems

  // ---------- writing a command line ----------

  predicate IsWord(w: string) {
    w != "" && ' ' !in w
  }

  function Join(ws: seq<string>): string {
    if ws == [] then "" else if |ws| == 1 then ws[0] else ws[0] + " " + Join(ws[1..])
  }

  lemma NoSpaceFirst(s: string, i: nat)
    requires i < |s| && s[i] == ' '
    ensures Words(s, i) == Words(s, i + 1)
  {
    assert SkipSpaces(s, i) == SkipSpaces(s, i + 1);
  }

  lemma WordFirst(s: string, i: nat, w: string, after: string)
    requires i <= |s| && IsWord(w) && s[i..] == w + after && (after == "" || after[0] == ' ')
    ensures i + |w| <= |s| && s[i + |w|..] == after && Words(s, i) == [w] + Words(s, i + |w|)
  {
    Suffix(s, i, w, after);
    var e := i + |w|;
    assert forall k :: i <= k < e ==> s[k] != ' ';
    assert e < |s| ==> s[e] == ' ';
    assert SkipSpaces(s, i) == i && SkipWord(s, i) == e;
  }

  lemma Suffix(s: string, i: nat, w: string, after: string)
    requires i <= |s| && s[i..] == w + after
    ensures var e := i + |w|; e <= |s| && s[e..] == after && s[i..e] == w && (after != "" ==> s[e] == after[0])
    ensures forall k :: i <= k < i + |w| ==> s[k] == w[k - i]
  {
    var e := i + |w|;
    assert s[i..][|w|..] == after && s[i..][..|w|] == w;
    assert s[i..][|w|..] == s[e..] && s[i..][..|w|] == s[i..e];
    assert after != "" ==> s[e..][0] == after[0];
    assert forall k :: i <= k < e ==> s[k] == s[i..e][k - i];
  }

  /** Words joined by spaces are the words the tokenizer finds. */
  lemma {:induction false} WordsOfJoined(s: string, i: nat, ws: seq<string>)
    requires i <= |s| && s[i..] == Join(ws)
    requires forall i :: 0 <= i < |ws| ==> IsWord(ws[i])
    ensures Words(s, i) == ws
    decreases |ws|
  {
    hide Words;
    if ws == [] {
      NoWords(s);
    } else if |ws| == 1 {
      assert Join(ws) == ws[0] + "";
      WordFirst(s, i, ws[0], "");
      NoWords(s);
    } else {
      var rest, e := Join(ws[1..]), i + |ws[0]|;
      assert Join(ws) == ws[0] + (" " + rest);
      WordFirst(s, i, ws[0], " " + rest);
      Suffix(s, e, " ", rest);
      NoSpaceFirst(s, e);
      WordsOfJoined(s, e + 1, ws[1..]);
    }
  }

  lemma NoWords(s: string)
    ensures Words(s, |s|) == []
  {
  }

  lemma {:induction false} JoinedIsLine(ws: seq<string>)
    requires forall i :: 0 <= i < |ws| ==> NoCrlf(ws[i])
    ensures NoCrlf(Join(ws))
    decreases |ws|
  {
    if |ws| > 1 {
      JoinedIsLine(ws[1..]);
      SpacedIsLine(ws[0], Join(ws[1..]));
    } else if |ws| == 1 {
      assert Join(ws) == ws[0];
    }
  }

  lemma SpacedIsLine(a: string, b: string)
    requires NoCrlf(a) && NoCrlf(b)
    ensures NoCrlf(a + " " + b)
  {
    var s := a + " " + b;
    forall i ensures !CrlfAt(s, i) {
      assert CrlfAt(s, i) && i < |a| ==> CrlfAt(a, i);
      assert CrlfAt(s, i) && i > |a| ==> CrlfAt(b, i - |a| - 1);
    }
  }

  /** A number's text is a word in one line, and is read back as the number. */
  lemma NumeralRead(n: nat)
    requires n < TWO64
    ensures var w := Numeral(n, Ten); IsWord(w) && NoCrlf(w) && w != "noreply" && ReadUnsigned(w) == Some(n)
  {
    var w := Numeral(n, Ten);
    ValueOfNumeral(n, Ten);
    assert DigitValue(' ') == -1 && DigitValue('\r') == -1;
    assert 0 <= DigitValue(w[0]) && DigitValue("noreply"[0]) == -1;
  }

  /** Signs and size: a minus sign counts back from 2^64, and what is too large becomes the largest number. */
  lemma SignedRead(w: string)
    requires w != "" && IsDigits(w, Ten)
    ensures var n := ValueOf(w, Ten);
            ReadUnsigned(w) == Some(if n < TWO64 then n else TWO64 - 1) &&
            ReadUnsigned(['+'] + w) == ReadUnsigned(w) &&
            ReadUnsigned(['-'] + w) == Some(if n == 0 then 0 else if n < TWO64 then TWO64 - n else TWO64 - 1)
  {
    assert 0 <= DigitValue(w[0]);
    hide ValueOf, IsDigits;
    SignDropped('+', w);
    SignDropped('-', w);
  }

  lemma SignDropped(sign: char, w: string)
    ensures ([sign] + w)[0] == sign && ([sign] + w)[1..] == w
  {
  }

  /** A word that is read as a number: white space, at most one sign, and digits to the end. */
  ghost predicate IsNumber(w: string) {
    exists blank: nat :: blank < |w| && (forall i :: 0 <= i < blank ==> IsSpace(w[i])) && IsSigned(w[blank..])
  }

  ghost predicate IsSigned(s: string) {
    (s != "" && IsDigits(s, Ten)) || (|s| > 1 && (s[0] == '+' || s[0] == '-') && IsDigits(s[1..], Ten))
  }

  /** Nothing but such words is read as a number. */
  lemma {:induction false} NumbersOnly(w: string)
    ensures ReadUnsigned(w).Some? <==> IsNumber(w)
    decreases w
  {
    if w != "" && IsSpace(w[0]) {
      NumbersOnly(w[1..]);
      BlankFirst(w);
    } else if w != "" {
      if IsSigned(w) { assert w[0..] == w; }
      if IsNumber(w) { NoBlank(w); }
      SignedExactly(w);
    }
  }

  lemma SignedExactly(w: string)
    requires w != "" && !IsSpace(w[0])
    ensures ReadUnsigned(w).Some? <==> IsSigned(w)
  {
    assert DigitValue('+') == -1 && DigitValue('-') == -1;
    hide ValueOf;
  }

  lemma NoBlank(w: string)
    requires w != "" && !IsSpace(w[0]) && IsNumber(w)
    ensures IsSigned(w)
  {
    var blank: nat :| blank < |w| && (forall i :: 0 <= i < blank ==> IsSpace(w[i])) && IsSigned(w[blank..]);
    assert blank == 0 && w[0..] == w;
  }

  lemma BlankFirst(w: string)
    requires w != "" && IsSpace(w[0])
    ensures IsNumber(w) <==> IsNumber(w[1..])
  {
    if IsNumber(w) {
      var blank: nat :| blank < |w| && (forall i :: 0 <= i < blank ==> IsSpace(w[i])) && IsSigned(w[blank..]);
      if blank == 0 { SpaceStartsNone(w); }
      assert w[blank..] == w[1..][blank - 1..];
    }
    if IsNumber(w[1..]) {
      var blank: nat :| blank < |w[1..]| && (forall i :: 0 <= i < blank ==> IsSpace(w[1..][i])) && IsSigned(w[1..][blank..]);
      assert w[1..][blank..] == w[blank + 1..];
      assert forall i :: 1 <= i < blank + 1 ==> w[i] == w[1..][i - 1];
    }
  }

  lemma SpaceStartsNone(w: string)
    requires w != "" && IsSpace(w[0])
    ensures !IsSigned(w[0..])
  {
    assert w[0..] == w && DigitValue(w[0]) == -1;
  }

  // ---------- the request for silence ----------

  ghost predicate AreWords(ws: seq<string>) {
    ws != [] && forall i :: 0 <= i < |ws| ==> IsWord(ws[i]) && NoCrlf(ws[i])
  }

  /** A command line of these words, with or without the request for silence. */
  function LineOf(ws: seq<string>, silent: bool): string {
    Join(ws) + if silent then " noreply" else ""
  }

  /** The last word is `noreply`, and not the only one: written without the request, it is taken for it. */
  predicate Silenced(ws: seq<string>) {
    |ws| > 1 && ws[|ws| - 1] == "noreply"
  }

  /** The words the session finds in the line. */
  function WordsRead(ws: seq<string>, silent: bool): seq<string> {
    if !silent && Silenced(ws) then ws[..|ws| - 1] else ws
  }

  lemma {:induction false} LastWord(ws: seq<string>) returns (front: string)
    requires ws != []
    ensures Join(ws) == front + ws[|ws| - 1] && (front != "" ==> front[|front| - 1] == ' ')
    decreases |ws|
  {
    front := "";
    if |ws| > 1 {
      var more := LastWord(ws[1..]);
      front := ws[0] + " " + more;
    }
  }

  lemma SilentEnd(s: string, front: string, last: string)
    requires s == front + last && IsWord(last) && (front != "" ==> front[|front| - 1] == ' ') && EndsWithNoreply(s)
    ensures last == "noreply"
  {
    var n := |s| - 8;
    assert forall k :: n <= k < |s| ==> s[k] == s[n..][k - n] == " noreply"[k - n];
    assert s[n] == ' ' && forall k :: n < k < |s| ==> s[k] != ' ';
    assert forall k :: 0 <= k < |last| ==> s[|front| + k] == last[k];
    assert front != "" ==> s[|front| - 1] == ' ';
    assert |front| == n + 1;
    assert last == s[n..][1..];
  }

  lemma {:induction false} JoinSnoc(ws: seq<string>)
    requires |ws| > 1
    ensures Join(ws) == Join(ws[..|ws| - 1]) + " " + ws[|ws| - 1]
    decreases |ws|
  {
    if |ws| > 2 {
      JoinSnoc(ws[1..]);
      assert ws[1..][..|ws| - 2] == ws[..|ws| - 1][1..];
    }
  }

  lemma SilentRead(ws: seq<string>)
    requires AreWords(ws)
    ensures var line := LineOf(ws, true); CommandWords(line) == ws && EndsWithNoreply(line) && NoCrlf(line)
  {
    hide Join, Words;
    var line := LineOf(ws, true);
    WordsOfJoined(Join(ws), 0, ws);
    JoinedIsLine(ws);
    assert Join(ws)[0..] == Join(ws) && line[|line| - 8..] == " noreply" && line[..|line| - 8] == Join(ws);
    SpacedIsLine(Join(ws), "noreply");
    assert line == Join(ws) + " " + "noreply";
  }

  lemma PlainRead(ws: seq<string>)
    requires AreWords(ws) && !Silenced(ws)
    ensures var line := LineOf(ws, false); CommandWords(line) == ws && !EndsWithNoreply(line) && NoCrlf(line)
  {
    var front := LastWord(ws);
    hide Join, Words;
    WordsOfJoined(Join(ws), 0, ws);
    JoinedIsLine(ws);
    assert LineOf(ws, false) == Join(ws) == Join(ws)[0..];
    if EndsWithNoreply(Join(ws)) {
      SilentEnd(Join(ws), front, ws[|ws| - 1]);
    }
  }

  lemma SilencedLine(ws: seq<string>)
    requires AreWords(ws) && Silenced(ws)
    ensures LineOf(ws, false) == LineOf(ws[..|ws| - 1], true)
  {
    JoinSnoc(ws);
  }

  /** How a written line is read. Its words are found, except for a last word taken for the request for silence. */
  lemma LineRead(ws: seq<string>, silent: bool)
    requires AreWords(ws)
    ensures var line := LineOf(ws, silent);
            CommandWords(line) == WordsRead(ws, silent) && EndsWithNoreply(line) == (silent || Silenced(ws)) &&
            FindCrlf(line + "\r\n", 0) == |line|
  {
    hide Join, LineOf, CommandWords, EndsWithNoreply, IsWord, NoCrlf;
    var line := LineOf(ws, silent);
    if silent {
      SilentRead(ws);
    } else if Silenced(ws) {
      SilencedLine(ws);
      SilentRead(ws[..|ws| - 1]);
    } else {
      PlainRead(ws);
    }
    FirstLine(line + "\r\n", line, "");
  }

  /** Without the request for silence, a line is read as it was written if and only if its last word is not `noreply`. */
  lemma ReadAsWritten(ws: seq<string>)
    requires AreWords(ws) && |ws| > 1
    ensures CommandWords(Join(ws)) == ws <==> ws[|ws| - 1] != "noreply"
    ensures ws[|ws| - 1] == "noreply" ==> CommandWords(Join(ws)) == ws[..|ws| - 1] && EndsWithNoreply(Join(ws))
  {
    LineRead(ws, false);
    hide Join, CommandWords, EndsWithNoreply;
    assert LineOf(ws, false) == Join(ws);
  }

  /** What becomes of a written line. */
  lemma WordsStart(c: Core, ws: seq<string>, silent: bool)
    requires StoreValid(c.items) && AreWords(ws)
    ensures var line := LineOf(ws, silent);
            FindCrlf(line + "\r\n", 0) == |line| &&
            StartLine(c, line) ==
            StartCommand(c.(processed := c.processed + 1), WordsRead(ws, silent), silent || Silenced(ws))
  {
    hide LineOf, StartCommand, FindCrlf, CommandWords, EndsWithNoreply, WordsRead;
    LineRead(ws, silent);
  }

  /** A `get` loses a key by it. */
  lemma GetLosesNoreply()
    ensures CommandWords("get a noreply") == ["get", "a"]
  {
    var ws := ["get", "a", "noreply"];
    VerbIsWord("get");
    assert '\r' !in "noreply" && '\r' !in "a";
    assert ws[1..] == ["a", "noreply"] && ["a", "noreply"][1..] == ["noreply"] && ws[..2] == ["get", "a"];
    assert Join(ws) == "get a noreply";
    hide Join, CommandWords;
    ReadAsWritten(ws);
  }

  /** A `delete` is left without its key, and that stops the process. */
  lemma DeleteNoreplyStops(c: Core)
    requires StoreValid(c.items)
    ensures StartLine(c, "delete noreply").Crash?
  {
    var ws := ["delete", "noreply"];
    VerbIsWord("delete");
    assert '\r' !in "noreply";
    assert ws[1..] == ["noreply"] && ws[..1] == ["delete"];
    assert Join(ws) == "delete noreply";
    ReadAsWritten(ws);
    LineStarts(c, Join(ws));
    assert VerbOf(["delete"]) == Deletion;
    hide Join, CommandWords, StartLine, VerbOf;
  }

  // ---------- update commands ----------

  const VERBS := ["set", "add", "replace", "append", "prepend", "cas"]

  predicate IsKey(key: string) {
    IsWord(key) && |key| <= LONGEST_KEY
  }

  /** The words of an update command; `unique` is the fifth number, which belongs to `cas` alone. */
  function UpdateWords(verb: string, key: string, flags: nat, exptime: nat, length: nat, unique: nat): seq<string> {
    [verb, key, Numeral(flags, Ten), Numeral(exptime, Ten), Numeral(length, Ten)] +
    if verb == "cas" then [Numeral(unique, Ten)] else []
  }

  function NewItem(c: Core, verb: string, key: string, flags: nat, exptime: nat, unique: nat, value: string): Item {
    Item(key, flags, RelativeExptime(exptime, c.startTime), |value|, if verb == "cas" then unique else 0, value)
  }

  lemma VerbIsWord(verb: string)
    requires verb in VERBS + ["get", "gets", "delete"]
    ensures IsWord(verb) && NoCrlf(verb)
  {
    assert '\r' !in verb;
  }

  lemma SmallNumbers(flags: nat, exptime: nat, length: nat)
    requires flags < TWO32 && exptime < TWO64 / 2 && length < TWO32 / 2
    ensures flags % TWO32 == flags && ToInt64(exptime) == exptime && ToInt32(length) == length
  {
  }

  lemma UpdateArgsRead(verb: string, key: string, flags: nat, exptime: nat, length: nat, unique: nat)
    requires verb in VERBS && flags < TWO32 && exptime < TWO64 / 2 && length < TWO32 / 2 && unique < TWO64
    ensures ReadUpdateArgs(PolicyOf(verb), UpdateWords(verb, key, flags, exptime, length, unique)[1..])
         == UpdateArgs(flags, exptime, length, if verb == "cas" then unique else 0)
  {
    NumeralRead(flags);
    NumeralRead(exptime);
    NumeralRead(length);
    NumeralRead(unique);
    SmallNumbers(flags, exptime, length);
    hide ReadUnsigned, Numeral, ToInt32, ToInt64, IsWord, NoCrlf;
    var ws := UpdateWords(verb, key, flags, exptime, length, unique)[1..];
    assert NumberAt(ws, 1) == Some(flags) && NumberAt(ws, 2) == Some(exptime) && NumberAt(ws, 3) == Some(length);
    assert verb == "cas" ==> NumberAt(ws, 4) == Some(unique);
    OnlyCas(verb);
    hide PolicyOf, UpdateWords, NumberAt;
  }

  lemma OnlyCas(verb: string)
    requires verb in VERBS
    ensures PolicyOf(verb) == Cas <==> verb == "cas"
  {
  }

  lemma FiveWords(a: string, b: string, c: string, d: string, e: string, more: seq<string>)
    requires IsWord(a) && IsWord(b) && IsWord(c) && IsWord(d) && IsWord(e) && e != "noreply"
    requires NoCrlf(a) && NoCrlf(b) && NoCrlf(c) && NoCrlf(d) && NoCrlf(e)
    requires more == [] || (|more| == 1 && IsWord(more[0]) && NoCrlf(more[0]) && more[0] != "noreply")
    ensures AreWords([a, b, c, d, e] + more) && !Silenced([a, b, c, d, e] + more)
  {
    hide IsWord, NoCrlf;
  }

  lemma UpdateWritten(verb: string, key: string, flags: nat, exptime: nat, length: nat, unique: nat) returns (ws: seq<string>)
    requires verb in VERBS && IsKey(key) && NoCrlf(key)
    requires flags < TWO32 && exptime < TWO64 / 2 && length < TWO32 / 2 && unique < TWO64
    ensures ws == UpdateWords(verb, key, flags, exptime, length, unique) && |ws| > 1 && ws[0] == verb && ws[1] == key
    ensures AreWords(ws) && !Silenced(ws)
    ensures ReadUpdateArgs(PolicyOf(verb), ws[1..]) == UpdateArgs(flags, exptime, length, if verb == "cas" then unique else 0)
  {
    ws := UpdateWords(verb, key, flags, exptime, length, unique);
    NumeralRead(flags);
    NumeralRead(exptime);
    NumeralRead(length);
    NumeralRead(unique);
    VerbIsWord(verb);
    hide ReadUpdateArgs, Numeral, AreWords, Silenced, IsWord, NoCrlf, ReadUnsigned;
    FiveWords(verb, key, Numeral(flags, Ten), Numeral(exptime, Ten), Numeral(length, Ten),
              if verb == "cas" then [Numeral(unique, Ten)] else []);
    UpdateArgsRead(verb, key, flags, exptime, length, unique);
  }

  lemma UpdateAccepted(c: Core, ws: seq<string>, args: UpdateArgs, silent: bool)
    requires StoreValid(c.items) && |ws| > 1 && ws[0] in VERBS && IsKey(ws[1])
    requires ReadUpdateArgs(PolicyOf(ws[0]), ws[1..]) == args && args.UpdateArgs? && 0 <= args.bytes <= LARGEST_VALUE
    ensures StartCommand(c, ws, silent)
         == Block(c, Item(ws[1], args.flags, RelativeExptime(args.exptime, c.startTime), args.bytes + 2, args.cas, ""),
                  PolicyOf(ws[0]), silent)
  {
    hide ReadUpdateArgs, RelativeExptime;
    assert PolicyOf(ws[0]) != Invalid && VerbOf(ws) == Update(PolicyOf(ws[0]));
  }

  /** A written update command makes the session wait for a block of the declared length and two bytes. */
  lemma UpdateStarts(c: Core, verb: string, key: string, flags: nat, exptime: nat, unique: nat, value: string, silent: bool)
    requires StoreValid(c.items) && verb in VERBS && IsKey(key) && NoCrlf(key) && unique < TWO64
    requires flags < TWO32 && exptime < TWO64 / 2 && 2 <= |value| && |value| - 2 <= LARGEST_VALUE
    ensures var line := LineOf(UpdateWords(verb, key, flags, exptime, |value| - 2, unique), silent);
            FindCrlf(line + "\r\n", 0) == |line| &&
            StartLine(c, line) == Block(c.(processed := c.processed + 1),
                                        NewItem(c, verb, key, flags, exptime, unique, value).(value := ""), PolicyOf(verb), silent)
  {
    hide LineOf, StartLine, StartCommand, ReadUpdateArgs, FindCrlf, AreWords, UpdateWords, RelativeExptime, PolicyOf, Silenced;
    var ws := UpdateWritten(verb, key, flags, exptime, |value| - 2, unique);
    WordsStart(c, ws, silent);
    UpdateAccepted(c.(processed := c.processed + 1), ws, ReadUpdateArgs(PolicyOf(verb), ws[1..]), silent);
  }
}
