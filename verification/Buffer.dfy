/** The input buffer: a byte sequence that is read at the front and appended to at the end. */
module Buffers {

  predicate CrlfAt(s: string, i: int) {
    0 <= i < |s| - 1 && s[i] == '\r' && s[i + 1] == '\n'
  }

  /** The index of the first CRLF at or after `from`, or -1. */
  function FindCrlf(s: string, from: nat): (r: int)
    requires from <= |s|
    ensures r == -1 || (from <= r && CrlfAt(s, r))
    ensures forall i :: from <= i && (i < r || r == -1) ==> !CrlfAt(s, i)
    decreases |s| - from
  {
    if CrlfAt(s, from) then from else if from == |s| then -1 else FindCrlf(s, from + 1)
  }

  /** The first CRLF is where it is, whatever follows; and none before new bytes means it ends among them. */
  lemma FindCrlfGrows(a: string, b: string, from: nat)
    requires from <= |a|
    ensures FindCrlf(a, from) >= 0 ==> FindCrlf(a + b, from) == FindCrlf(a, from)
    ensures FindCrlf(a, from) == -1 && FindCrlf(a + b, from) >= 0 ==> FindCrlf(a + b, from) + 2 > |a|
  {
    assert forall i :: i + 2 <= |a| ==> (CrlfAt(a + b, i) <==> CrlfAt(a, i));
  }

  ghost predicate NoCrlf(s: string) {
    forall i :: !CrlfAt(s, i)
  }

  /** A stretch without CRLF, ended by one: that is where the search from its start stops. */
  lemma FirstEnd(before: string, s: string, tail: string)
    requires NoCrlf(s)
    ensures var t, n := before + s + "\r\n" + tail, |before| + |s|;
            FindCrlf(t, |before|) == n && t[|before|..n] == s && t[n + 2..] == tail
  {
    Parts(before, s, tail);
    hide FindCrlf;
    EndAt(before + s + "\r\n" + tail, |before|, s);
  }

  lemma Parts(before: string, s: string, tail: string)
    ensures var t, n := before + s + "\r\n" + tail, |before| + |s|; t[|before|..n] == s && t[n + 2..] == tail && CrlfAt(t, n)
  {
  }

  lemma EndAt(t: string, from: nat, s: string)
    requires NoCrlf(s) && from + |s| <= |t| && t[from..from + |s|] == s && CrlfAt(t, from + |s|)
    ensures FindCrlf(t, from) == from + |s|
  {
    forall i | from <= i < from + |s| ensures !CrlfAt(t, i) {
      assert !CrlfAt(s, i - from) && t[i] == s[i - from];
    }
  }

  lemma FirstLine(s: string, line: string, rest: string)
    requires NoCrlf(line) && s == line + "\r\n" + rest
    ensures FindCrlf(s, 0) == |line| && s[..|line|] == line && s[|line| + 2..] == rest
  {
    FirstEnd("", line, rest);
    assert "" + line + "\r\n" + rest == s;
  }

  /** The index of the first `c` in `s`, or its length. */
  function Find(s: string, c: char): (i: nat)
    ensures i <= |s| && (i < |s| ==> s[i] == c) && forall k :: 0 <= k < i ==> s[k] != c
  {
    if s == "" || s[0] == c then 0 else 1 + Find(s[1..], c)
  }

  /** `isspace` of the C locale. */
  predicate IsSpace(c: char) {
    c == ' ' || c == '\t' || c == '\n' || c == '\r' || c == 11 as char || c == 12 as char
  }

  /** Deliveries put together. */
  function Concat(chunks: seq<string>): string {
    if chunks == [] then "" else chunks[0] + Concat(chunks[1..])
  }

  class Buffer {
    var bytes: string

    constructor ()
      ensures bytes == ""
    {
      bytes := "";
    }

    method Append(data: string)
      modifies this
      ensures bytes == old(bytes) + data
    {
      bytes := bytes + data;
    }

    /** The search for CRLF from an offset into the readable bytes. */
    method FindCRLF(from: nat) returns (crlf: int)
      requires from <= |bytes|
      ensures crlf == FindCrlf(bytes, from)
    {
      crlf := from;
      while crlf < |bytes|
        invariant from <= crlf <= |bytes| && FindCrlf(bytes, from) == FindCrlf(bytes, crlf)
      {
        if crlf + 1 < |bytes| && bytes[crlf] == '\r' && bytes[crlf + 1] == '\n' {
          return;
        }
        crlf := crlf + 1;
      }
      crlf := -1;
    }

    method Retrieve(len: nat)
      requires len <= |bytes|
      modifies this
      ensures bytes == old(bytes)[len..]
    {
      bytes := bytes[len..];
    }
  }
}
