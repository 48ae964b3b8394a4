/** Number printing of the log stream: digits are produced backwards into the buffer and reversed in place. */
module LogStreams {
  import opened Numerals

  // ---------- C++ arithmetic ----------

  /** Division of C++, which truncates towards zero. */
  function TruncDiv(a: int, b: int): int
    requires b > 0
  {
    if a >= 0 then a / b else -((-a) / b)
  }

  function TruncMod(a: int, b: int): int
    requires b > 0
  {
    a - b * TruncDiv(a, b)
  }

  /** The digits on both sides of zero, so that a negative remainder finds its digit too. */
  const DIGITS := "9876543210123456789"
  const ZERO := 9

  const HEX_DIGITS := "0123456789ABCDEF"

  function Abs(v: int): nat {
    if v < 0 then -v else v
  }

  function Reversed(s: string): (r: string)
    ensures |r| == |s|
  {
    if s == "" then "" else Reversed(s[1..]) + [s[0]]
  }

  lemma {:induction false} ReversedAt(s: string, k: nat)
    requires k < |s|
    ensures Reversed(s)[k] == s[|s| - 1 - k]
  {
    if k < |s| - 1 {
      ReversedAt(s[1..], k);
    }
  }

  lemma {:induction false} ReversedSnoc(s: string, c: char)
    ensures Reversed(s + [c]) == [c] + Reversed(s)
  {
    if s == "" {
      assert s + [c] == [c];
      assert Reversed([c]) == Reversed([c][1..]) + [c] && [c][1..] == "";
    } else {
      assert (s + [c])[1..] == s[1..] + [c] && (s + [c])[0] == s[0];
      ReversedSnoc(s[1..], c);
    }
  }

  /** `std::reverse`: each end of the stretch is swapped with the other, inwards. */
  method SwapEnds(buf: array<char>, from: nat, to: nat)
    requires from <= to <= buf.Length
    modifies buf
    ensures forall k :: 0 <= k < buf.Length && !(from <= k < to) ==> buf[k] == old(buf[k])
    ensures forall k :: from <= k < to ==> buf[k] == old(buf[from + to - 1 - k])
  {
    var lo, hi := from, to;
    while lo < hi && lo < hi - 1
      invariant from <= lo <= hi <= to && lo - from == to - hi
      invariant forall k :: 0 <= k < buf.Length && !(from <= k < lo) && !(hi <= k < to) ==> buf[k] == old(buf[k])
      invariant forall k :: from <= k < lo || hi <= k < to ==> buf[k] == old(buf[from + to - 1 - k])
      decreases hi - lo
    {
      hi := hi - 1;
      buf[lo], buf[hi] := buf[hi], buf[lo];
      lo := lo + 1;
    }
  }

  method ReverseInPlace(buf: array<char>, from: nat, to: nat)
    requires from <= to <= buf.Length
    modifies buf
    ensures buf[from..to] == Reversed(old(buf[from..to]))
    ensures Elsewhere(buf[..], old(buf[..]), from, to)
  {
    ghost var was := buf[from..to];
    SwapEnds(buf, from, to);
    forall k | 0 <= k < to - from ensures buf[from..to][k] == Reversed(was)[k] {
      ReversedAt(was, k);
    }
  }

  /** A numeral is its front part and the last digit, produced first. */
  lemma DigitStep(n: nat, b: Base, sign: string)
    ensures sign + Numeral(n, b) == sign + (if b.Quotient(n) == 0 then "" else Numeral(b.Quotient(n), b)) + [Digit(b.Rest(n))]
  {
    if n < b.Value() {
      assert sign + [Digit(n)] == sign + "" + [Digit(n)];
    } else {
      assert sign + (Numeral(b.Quotient(n), b) + [Digit(b.Rest(n))]) == sign + Numeral(b.Quotient(n), b) + [Digit(b.Rest(n))];
    }
  }

  lemma SignedDigit(i: int)
    ensures -9 <= TruncMod(i, 10) <= 9 && DIGITS[ZERO + TruncMod(i, 10)] == Digit(Ten.Rest(Abs(i)))
    ensures Abs(TruncDiv(i, 10)) == Ten.Quotient(Abs(i)) && (TruncDiv(i, 10) == 0 <==> Ten.Quotient(Abs(i)) == 0)
  {
  }

  /** Outside the stretch from `from` to `to` the buffer is as it was. */
  ghost predicate Elsewhere(now: string, was: string, from: nat, to: nat) {
    |now| == |was| && from <= to && forall k :: 0 <= k < |now| && !(from <= k < to) ==> now[k] == was[k]
  }

  /** A text grows backwards from `start` to `p`; `pending` is what has still to come in front of it. */
  ghost predicate Growing(now: string, was: string, start: nat, p: nat, pending: string, whole: string) {
    Elsewhere(now, was, start, p) && p <= |now| && pending + Reversed(now[start..p]) == whole
  }

  /** `*p++ = c`. */
  method Put(buf: array<char>, start: nat, p: nat, c: char, ghost was: string, ghost pending: string, ghost whole: string)
    requires p < buf.Length && Growing(buf[..], was, start, p, pending + [c], whole)
    modifies buf
    ensures Growing(buf[..], was, start, p + 1, pending, whole)
  {
    ghost var before := buf[start..p];
    buf[p] := c;
    assert buf[..][start..p + 1] == before + [c];
    ReversedSnoc(before, c);
    assert pending + ([c] + Reversed(before)) == pending + [c] + Reversed(before);
  }

  /** What the digit loop has still to produce. */
  ghost function Unwritten(first: bool, n: nat, b: Base): string {
    if first || n != 0 then Numeral(n, b) else ""
  }

  method PutDecimal(buf: array<char>, start: nat, value: int, ghost was: string, ghost sign: string) returns (p: nat)
    requires start + |Numeral(Abs(value), Ten)| < buf.Length && buf[..] == was
    modifies buf
    ensures p == start + |Numeral(Abs(value), Ten)|
    ensures Growing(buf[..], was, start, p, sign, sign + Numeral(Abs(value), Ten))
  {
    ghost var digitCount, whole := |Numeral(Abs(value), Ten)|, sign + Numeral(Abs(value), Ten);
    var i, first := value, true;
    p := start;
    assert whole + Reversed("") == whole;
    while first || i != 0
      invariant p - start + |Unwritten(first, Abs(i), Ten)| == digitCount
      invariant Growing(buf[..], was, start, p, sign + Unwritten(first, Abs(i), Ten), whole)
      decreases first, Abs(i)
    {
      SignedDigit(i);
      ghost var pending := Unwritten(false, Ten.Quotient(Abs(i)), Ten);
      DigitStep(Abs(i), Ten, sign);
      var lsd := TruncMod(i, 10);
      i := TruncDiv(i, 10);
      Put(buf, start, p, DIGITS[ZERO + lsd], was, sign + pending, whole);
      p := p + 1;
      first := false;
    }
  }

  method PutHex(buf: array<char>, start: nat, value: nat, ghost was: string) returns (p: nat)
    requires start + |Numeral(value, Sixteen)| < buf.Length && buf[..] == was
    modifies buf
    ensures p == start + |Numeral(value, Sixteen)|
    ensures Growing(buf[..], was, start, p, "", Numeral(value, Sixteen))
  {
    ghost var whole := Numeral(value, Sixteen);
    var i, first := value, true;
    p := start;
    assert whole + Reversed("") == whole && "" + whole == whole;
    while first || i != 0
      invariant p - start + |Unwritten(first, i, Sixteen)| == |whole|
      invariant Growing(buf[..], was, start, p, "" + Unwritten(first, i, Sixteen), whole)
      decreases first, i
    {
      ghost var pending := Unwritten(false, Sixteen.Quotient(i), Sixteen);
      DigitStep(i, Sixteen, "");
      var lsd := i % 16;
      i := i / 16;
      Put(buf, start, p, HEX_DIGITS[lsd], was, "" + pending, whole);
      p := p + 1;
      first := false;
    }
  }

  method PutSigned(buf: array<char>, start: nat, value: int, ghost was: string) returns (p: nat)
    requires start + |Decimal(value)| < buf.Length && buf[..] == was
    modifies buf
    ensures p == start + |Decimal(value)| && Growing(buf[..], was, start, p, "", Decimal(value))
  {
    ghost var sign := if value < 0 then "-" else "";
    p := PutDecimal(buf, start, value, was, sign);
    assert sign + Numeral(Abs(value), Ten) == Decimal(value);
    if value < 0 {
      assert sign == "" + ['-'];
      Put(buf, start, p, '-', was, "", Decimal(value));
      p := p + 1;
    }
  }

  /** The text stands at `start`, a NUL follows, and the rest of the buffer is as before. */
  ghost predicate Written(now: string, was: string, start: nat, text: string) {
    var to := start + |text|;
    to < |now| && now[start..to] == text && now[to] == 0 as char && Elsewhere(now, was, start, to + 1)
  }

  /** A NUL after the text, and the text the right way round. */
  method Finish(buf: array<char>, start: nat, p: nat, ghost was: string, ghost text: string) returns (len: nat)
    requires p < buf.Length && Growing(buf[..], was, start, p, "", text)
    modifies buf
    ensures len == |text| && Written(buf[..], was, start, text)
  {
    assert buf[..][start..p] == buf[start..p] && "" + Reversed(buf[start..p]) == Reversed(buf[start..p]);
    buf[p] := 0 as char;
    ghost var before := buf[..];
    ReverseInPlace(buf, start, p);
    len := p - start;
  }

  /** `convert`: the decimal text, starting at `start`. */
  method Convert(buf: array<char>, start: nat, value: int) returns (len: nat)
    requires start + |Decimal(value)| < buf.Length
    modifies buf
    ensures len == |Decimal(value)| && Written(buf[..], old(buf[..]), start, Decimal(value))
  {
    ghost var was := buf[..];
    var p := PutSigned(buf, start, value, was);
    len := Finish(buf, start, p, was, Decimal(value));
  }

  /** `convertHex`. */
  method ConvertHex(buf: array<char>, start: nat, value: nat) returns (len: nat)
    requires start + |Numeral(value, Sixteen)| < buf.Length
    modifies buf
    ensures len == |Numeral(value, Sixteen)| && Written(buf[..], old(buf[..]), start, Numeral(value, Sixteen))
  {
    ghost var was := buf[..];
    var p := PutHex(buf, start, value, was);
    len := Finish(buf, start, p, was, Numeral(value, Sixteen));
  }

  /** A pointer: two characters and the hexadecimal text after them. */
  method ConvertPointer(buf: array<char>, start: nat, value: nat) returns (len: nat)
    requires start + 2 + |Numeral(value, Sixteen)| < buf.Length
    modifies buf
    ensures len == 2 + |Numeral(value, Sixteen)| && Written(buf[..], old(buf[..]), start, "0x" + Numeral(value, Sixteen))
  {
    buf[start] := '0';
    buf[start + 1] := 'x';
    ghost var between := buf[..];
    len := ConvertHex(buf, start + 2, value);
    Prefixed(buf[..], between, old(buf[..]), start, Numeral(value, Sixteen));
    len := len + 2;
  }

  lemma Prefixed(now: string, between: string, was: string, start: nat, text: string)
    requires Written(now, between, start + 2, text) && Elsewhere(between, was, start, start + 2)
    requires between[start] == '0' && between[start + 1] == 'x'
    ensures Written(now, was, start, "0x" + text)
  {
    var to := start + 2 + |text|;
    assert now[start] == '0' && now[start + 1] == 'x';
    assert now[start..to] == now[start..start + 2] + now[start + 2..to];
    assert now[start..start + 2] == "0x";
  }

  // ---------- the stream ----------

  const MAX_NUMERIC_SIZE := 32

  /** Integers of the widths the stream prints, signed and unsigned, and pointers. */
  predicate Fits64(v: int) {
    -0x8000_0000_0000_0000 <= v < 0x1_0000_0000_0000_0000
  }

  /** How long the texts get: twenty characters, and sixteen for a hexadecimal one. */
  lemma TextLength(v: int)
    requires Fits64(v)
    ensures |Decimal(v)| <= 20 && (v >= 0 ==> |Numeral(v, Sixteen)| <= 16)
  {
    Powers();
    if v < 0 {
      NumeralLength(-v, Ten, 19);
    } else {
      NumeralLength(v, Ten, 20);
      NumeralLength(v, Sixteen, 16);
    }
  }

  /** The decimal digits a 64-bit integer always keeps. */
  const DIGITS10 := 18

  /** Whatever size passes the compile-time check has room for every number with its NUL, and for every pointer. */
  lemma StaticCheckSuffices(size: int, v: int)
    requires size - 10 > DIGITS10 && Fits64(v)
    ensures |Decimal(v)| + 1 <= size && (v >= 0 ==> 2 + |Numeral(v, Sixteen)| + 1 <= size)
  {
    TextLength(v);
  }

  const SMALL_BUFFER := 4000

  class LogStream {
    const data: array<char>
    var cur: nat

    ghost predicate Valid()
      reads this
    {
      data.Length == SMALL_BUFFER && cur <= data.Length
    }

    ghost function Contents(): string
      requires Valid()
      reads this, data
    {
      data[..cur]
    }

    constructor ()
      ensures Valid() && fresh(data) && Contents() == ""
    {
      data := new char[SMALL_BUFFER];
      cur := 0;
    }

    function Avail(): int
      requires Valid()
      reads this
    {
      data.Length - cur
    }

    /** A number is printed whole, or not at all when the buffer may be too short for it. */
    method FormatInteger(v: int)
      requires Valid() && Fits64(v)
      modifies this, data
      ensures Valid() && Contents() == old(Contents()) + if old(Avail()) >= MAX_NUMERIC_SIZE then Decimal(v) else ""
    {
      if Avail() >= MAX_NUMERIC_SIZE {
        TextLength(v);
        var len := Convert(data, cur, v);
        Extended(data[..], old(data[..]), cur, Decimal(v));
        cur := cur + len;
      }
    }

    /** A pointer is printed as `0x` and its hexadecimal digits. */
    method FormatPointer(v: nat)
      requires Valid() && Fits64(v)
      modifies this, data
      ensures Valid()
      ensures Contents() == old(Contents()) + if old(Avail()) >= MAX_NUMERIC_SIZE then "0x" + Numeral(v, Sixteen) else ""
    {
      if Avail() >= MAX_NUMERIC_SIZE {
        TextLength(v);
        var len := ConvertPointer(data, cur, v);
        Extended(data[..], old(data[..]), cur, "0x" + Numeral(v, Sixteen));
        cur := cur + len;
      }
    }
  }

  lemma Extended(now: string, was: string, start: nat, text: string)
    requires Written(now, was, start, text)
    ensures now[..start + |text|] == was[..start] + text
  {
  }
}
