/** The whitespace-separated decimal text the tensors serialize to, and a model
    of the formatted extraction (`stream >> x`) that reads it back: skip leading
    whitespace, take an optional sign and the longest run of decimal digits; a
    read that finds no digit fails, stores 0 and leaves the stream failed, so
    every later read fails too. */
module Text {

  predicate IsSpace(c: char)
  {
    c == ' ' || c == '\t' || c == '\n' || c == '\r' || c == '\U{000B}' || c == '\U{000C}'
  }

  predicate IsDigit(c: char)
  {
    '0' <= c <= '9'
  }

  predicate AllSpace(s: string)
  {
    forall i :: 0 <= i < |s| ==> IsSpace(s[i])
  }

  predicate AllDigits(s: string)
  {
    forall i :: 0 <= i < |s| ==> IsDigit(s[i])
  }

  // ---------------------------------------------------------------------------
  // Writing: what `out << x << " "` appends
  // ---------------------------------------------------------------------------

  function Digit(d: nat): (c: char)
    requires d < 10
  {
    ('0' as int + d) as char
  }

  /** Decimal text of a natural number, most significant digit first, no leading zeros. */
  function NatText(n: nat): (s: string)
    decreases n
  {
    if n < 10 then [Digit(n)] else NatText(n / 10) + [Digit(n % 10)]
  }

  /** Decimal text of an integer: a minus sign before the digits of a negative one. */
  function IntText(i: int): (s: string)
  {
    if i < 0 then "-" + NatText(-i) else NatText(i)
  }

  /** Each number followed by one space, in order. */
  function NatsText(s: seq<nat>): string
  {
    if |s| == 0 then "" else NatText(s[0]) + " " + NatsText(s[1..])
  }

  function IntsText(s: seq<int>): string
  {
    if |s| == 0 then "" else IntText(s[0]) + " " + IntsText(s[1..])
  }

  /** The text form both tensor classes write: the rank, each dim, then each element,
      every number followed by one space. */
  function TensorText(dims: seq<nat>, data: seq<int>): string
  {
    NatText(|dims|) + " " + NatsText(dims) + IntsText(data)
  }

  // ---------------------------------------------------------------------------
  // Reading: what `in >> x` extracts
  // ---------------------------------------------------------------------------

  /** The unread text and whether the stream is still good. */
  datatype Stream = Stream(rest: string, good: bool)

  function SkipSpace(s: string): (r: string)
    ensures |r| <= |s|
    ensures |r| > 0 ==> !IsSpace(r[0])
  {
    if |s| > 0 && IsSpace(s[0]) then SkipSpace(s[1..]) else s
  }

  /** Length of the longest prefix made of decimal digits. */
  function DigitRun(s: string): (k: nat)
    ensures k <= |s| && AllDigits(s[..k])
    ensures k < |s| ==> !IsDigit(s[k])
  {
    if |s| > 0 && IsDigit(s[0]) then 1 + DigitRun(s[1..]) else 0
  }

  /** Value of a run of decimal digits, read most significant first. */
  function DigitsValue(s: string): nat
    requires AllDigits(s)
  {
    if |s| == 0 then 0 else DigitsValue(s[..|s| - 1]) * 10 + (s[|s| - 1] as int - '0' as int)
  }

  /** Reads the magnitude after an optional sign: the longest digit run, failing when there is none. */
  function ReadDigits(s: string): (r: (Stream, nat))
    ensures r.0.good ==> |r.0.rest| < |s|
  {
    var k := DigitRun(s);
    if k == 0 then (Stream(s, false), 0) else (Stream(s[k..], true), DigitsValue(s[..k]))
  }

  /** `in >> n` for an unsigned field (a dim or the rank): an optional plus sign, then
      digits. Anything else, a minus sign included, is a failed read giving 0; the
      standard extraction would instead accept a minus sign and wrap the value modulo
      2^64, which this model does not follow. */
  function ReadNat(st: Stream): (r: (Stream, nat))
    ensures r.0.good ==> st.good && |r.0.rest| < |st.rest|
  {
    if !st.good then (st, 0)
    else
      var s := SkipSpace(st.rest);
      if |s| > 0 && s[0] == '+' then ReadDigits(s[1..]) else ReadDigits(s)
  }

  /** `in >> i` for a signed integer field: an optional sign, then digits. The value is
      unbounded: the failure of `>>` on a numeral outside the range of `int` is not
      modelled. */
  function ReadInt(st: Stream): (r: (Stream, int))
    ensures r.0.good ==> st.good && |r.0.rest| < |st.rest|
  {
    if !st.good then (st, 0) else ReadSigned(SkipSpace(st.rest))
  }

  /** The signed read once leading whitespace is gone. */
  function ReadSigned(s: string): (r: (Stream, int))
    ensures r.0.good ==> |r.0.rest| < |s|
  {
    if |s| > 0 && s[0] == '-' then Negated(ReadDigits(s[1..]))
    else if |s| > 0 && s[0] == '+' then ReadDigits(s[1..])
    else ReadDigits(s)
  }

  /** A magnitude read after a minus sign; a failed read stores 0. */
  function Negated(r: (Stream, nat)): (n: (Stream, int))
    ensures n.0 == r.0
  {
    (r.0, if r.0.good then -(r.1 as int) else 0)
  }

  /** `count` successive unsigned reads into zero-initialised slots. */
  function ReadNats(st: Stream, count: nat): (r: (Stream, seq<nat>))
    ensures |r.1| == count
    decreases count
  {
    if count == 0 then (st, [])
    else
      var (st', x) := ReadNat(st);
      var (st'', xs) := ReadNats(st', count - 1);
      (st'', [x] + xs)
  }

  /** `count` successive signed reads into zero-initialised slots. */
  function ReadIntsExactly(st: Stream, count: nat): (r: (Stream, seq<int>))
    ensures |r.1| == count
    decreases count
  {
    if count == 0 then (st, [])
    else
      var (st', x) := ReadInt(st);
      var (st'', xs) := ReadIntsExactly(st', count - 1);
      (st'', [x] + xs)
  }

  /** `while (in >> v) out.push_back(v)`: the values read before the first failure. */
  function ReadIntsWhileGood(st: Stream): seq<int>
    decreases |st.rest|, st.good
  {
    if !st.good then []
    else
      var (st', x) := ReadInt(st);
      if st'.good then [x] + ReadIntsWhileGood(st') else []
  }

  // ---------------------------------------------------------------------------
  // Reading back what was written
  // ---------------------------------------------------------------------------

  lemma {:induction false} NatTextDigits(n: nat)
    ensures |NatText(n)| > 0 && AllDigits(NatText(n))
    ensures DigitsValue(NatText(n)) == n
    decreases n
  {
    var t := NatText(n);
    if n >= 10 {
      NatTextDigits(n / 10);
      assert t[..|t| - 1] == NatText(n / 10);
    }
  }

  /** Reading digits stops at the first non-digit, so the space after a number ends it. */
  lemma ReadDigitsText(n: nat, rest: string)
    ensures ReadDigits(NatText(n) + " " + rest) == (Stream(" " + rest, true), n)
  {
    var t := NatText(n);
    var s := t + " " + rest;
    NatTextDigits(n);
    DigitRunPrefix(t, " " + rest);
    assert s == t + (" " + rest);
    assert s[..|t|] == t && s[|t|..] == " " + rest;
  }

  lemma {:induction false} DigitRunPrefix(t: string, u: string)
    requires AllDigits(t) && (|u| > 0 ==> !IsDigit(u[0]))
    ensures DigitRun(t + u) == |t|
  {
    if |t| > 0 {
      assert (t + u)[1..] == t[1..] + u;
      DigitRunPrefix(t[1..], u);
    } else {
      assert t + u == u;
    }
  }

  lemma {:induction false} SkipSpacePrefix(pre: string, s: string)
    requires AllSpace(pre) && (|s| > 0 ==> !IsSpace(s[0]))
    ensures SkipSpace(pre + s) == s
  {
    if |pre| > 0 {
      assert (pre + s)[1..] == pre[1..] + s;
      SkipSpacePrefix(pre[1..], s);
    } else {
      assert pre + s == s;
    }
  }

  /** An unsigned read after any whitespace returns the number `<<` wrote. */
  lemma ReadNatText(pre: string, n: nat, rest: string)
    requires AllSpace(pre)
    ensures ReadNat(Stream(pre + NatText(n) + " " + rest, true)) == (Stream(" " + rest, true), n)
  {
    NatTextDigits(n);
    assert pre + NatText(n) + " " + rest == pre + (NatText(n) + " " + rest);
    SkipSpacePrefix(pre, NatText(n) + " " + rest);
    ReadDigitsText(n, rest);
  }

  /** A signed read after any whitespace returns the integer `<<` wrote. */
  lemma ReadIntText(pre: string, i: int, rest: string)
    requires AllSpace(pre)
    ensures ReadInt(Stream(pre + IntText(i) + " " + rest, true)) == (Stream(" " + rest, true), i)
  {
    if i < 0 {
      var m: nat := -i;
      assert -(m as int) == i;
      ReadNegativeText(pre, m, rest);
    } else {
      ReadNonNegativeText(pre, i, rest);
    }
  }

  lemma ReadNegativeText(pre: string, m: nat, rest: string)
    requires AllSpace(pre) && m > 0
    ensures ReadInt(Stream(pre + IntText(-(m as int)) + " " + rest, true)) == (Stream(" " + rest, true), -(m as int))
  {
    var n := NatText(m);
    var body := n + " " + rest;
    var t := pre + IntText(-(m as int)) + " " + rest;
    SignAssoc(pre, n, rest);
    assert t == pre + ("-" + body);
    SkipSpacePrefix(pre, "-" + body);
    assert ReadInt(Stream(t, true)) == ReadSigned("-" + body);
    ReadSignedMinus(body);
    ReadDigitsText(m, rest);
    assert ReadDigits(body) == (Stream(" " + rest, true), m);
  }

  /** A minus sign followed by digits reads as their negated value. */
  lemma ReadSignedMinus(body: string)
    ensures ReadSigned("-" + body) == Negated(ReadDigits(body))
  {
    assert ("-" + body)[1..] == body;
  }

  /** Regrouping the text around a minus sign. */
  lemma SignAssoc(pre: string, n: string, rest: string)
    ensures pre + ("-" + n) + " " + rest == pre + ("-" + (n + " " + rest))
  {
  }

  lemma ReadNonNegativeText(pre: string, m: nat, rest: string)
    requires AllSpace(pre)
    ensures ReadInt(Stream(pre + IntText(m) + " " + rest, true)) == (Stream(" " + rest, true), m)
  {
    NatTextDigits(m);
    var body := NatText(m) + " " + rest;
    assert pre + IntText(m) + " " + rest == pre + body;
    SkipSpacePrefix(pre, body);
    assert IsDigit(body[0]);
    ReadDigitsText(m, rest);
  }

  /** Regrouping the text around the first written number. */
  lemma Regroup(pre: string, first: string, others: string, rest: string)
    ensures pre + (first + " " + others) + rest == pre + first + " " + (others + rest)
    ensures " " + (others + rest) == " " + others + rest
  {
  }

  /** Reading as many unsigned values as were written returns them all and stops right
      after the last one (before its trailing space). */
  lemma {:induction false} ReadNatsText(pre: string, s: seq<nat>, rest: string)
    requires AllSpace(pre)
    ensures ReadNats(Stream(pre + NatsText(s) + rest, true), |s|)
         == (Stream(if |s| == 0 then pre + rest else " " + rest, true), s)
    decreases |s|
  {
    var t := pre + NatsText(s) + rest;
    if |s| > 0 {
      ReadFirstNat(pre, s, rest);
      assert AllSpace(" ");
      ReadNatsText(" ", s[1..], rest);
      assert [s[0]] + s[1..] == s;
    } else {
      assert t == pre + rest;
    }
  }

  /** The first unsigned read of a written list takes its first number and stops before
      the space that follows it. */
  lemma ReadFirstNat(pre: string, s: seq<nat>, rest: string)
    requires AllSpace(pre) && |s| > 0
    ensures ReadNat(Stream(pre + NatsText(s) + rest, true)) == (Stream(" " + NatsText(s[1..]) + rest, true), s[0])
  {
    var others := NatsText(s[1..]);
    Regroup(pre, NatText(s[0]), others, rest);
    ReadNatText(pre, s[0], others + rest);
  }

  /** Reading a header written as the rank followed by each dim gives back the dims and
      leaves the stream just before the space after the last number. */
  lemma ReadHeaderText(shape: seq<nat>, rest: string)
    ensures ReadNat(Stream(NatText(|shape|) + " " + NatsText(shape) + rest, true)) == (Stream(" " + NatsText(shape) + rest, true), |shape|)
    ensures ReadNats(Stream(" " + NatsText(shape) + rest, true), |shape|) == (Stream(" " + rest, true), shape)
  {
    ReadRankText(shape, rest);
    ReadDimsText(shape, rest);
  }

  lemma ReadRankText(shape: seq<nat>, rest: string)
    ensures ReadNat(Stream(NatText(|shape|) + " " + NatsText(shape) + rest, true)) == (Stream(" " + NatsText(shape) + rest, true), |shape|)
  {
    var dims := NatsText(shape);
    HeaderAssoc(NatText(|shape|), dims, rest);
    ReadNatText("", |shape|, dims + rest);
  }

  lemma ReadDimsText(shape: seq<nat>, rest: string)
    ensures ReadNats(Stream(" " + NatsText(shape) + rest, true), |shape|) == (Stream(" " + rest, true), shape)
  {
    assert AllSpace(" ");
    ReadNatsText(" ", shape, rest);
  }

  lemma HeaderAssoc(rank: string, dims: string, rest: string)
    ensures rank + " " + dims + rest == "" + rank + " " + (dims + rest)
    ensures " " + (dims + rest) == " " + dims + rest
  {
  }

  /** Reading exactly as many signed values as were written returns them all. */
  lemma {:induction false} ReadIntsExactlyText(pre: string, s: seq<int>, rest: string)
    requires AllSpace(pre)
    ensures ReadIntsExactly(Stream(pre + IntsText(s) + rest, true), |s|).1 == s
    decreases |s|
  {
    if |s| > 0 {
      ReadFirstInt(pre, s, rest);
      assert AllSpace(" ");
      ReadIntsExactlyText(" ", s[1..], rest);
      assert [s[0]] + s[1..] == s;
    }
  }

  /** The first signed read of a written list takes its first number and stops before
      the space that follows it. */
  lemma ReadFirstInt(pre: string, s: seq<int>, rest: string)
    requires AllSpace(pre) && |s| > 0
    ensures ReadInt(Stream(pre + IntsText(s) + rest, true)) == (Stream(" " + IntsText(s[1..]) + rest, true), s[0])
  {
    var others := IntsText(s[1..]);
    Regroup(pre, IntText(s[0]), others, rest);
    ReadIntText(pre, s[0], others + rest);
  }

  /** Reading signed values until a read fails returns exactly those written, when only
      whitespace follows them. */
  lemma {:induction false} ReadIntsWhileGoodText(pre: string, s: seq<int>, rest: string)
    requires AllSpace(pre) && AllSpace(rest)
    ensures ReadIntsWhileGood(Stream(pre + IntsText(s) + rest, true)) == s
    decreases |s|
  {
    var t := pre + IntsText(s) + rest;
    if |s| > 0 {
      ReadFirstInt(pre, s, rest);
      assert AllSpace(" ");
      ReadIntsWhileGoodText(" ", s[1..], rest);
      assert [s[0]] + s[1..] == s;
    } else {
      assert t == pre + rest;
      NothingToRead(pre + rest);
    }
  }

  /** Only whitespace left: a signed read fails. */
  lemma NothingToRead(s: string)
    requires AllSpace(s)
    ensures !ReadInt(Stream(s, true)).0.good
  {
    SkipSpacePrefix(s, "");
    assert s + "" == s;
  }

  // ---------------------------------------------------------------------------
  // Bytes: the text as the byte vector the stride-caching tensor deserializes
  // ---------------------------------------------------------------------------

  newtype byte = b: int | 0 <= b < 256

  /** Every character fits in one byte. */
  predicate IsByteText(s: string)
  {
    forall i :: 0 <= i < |s| ==> s[i] as int < 256
  }

  /** `std::string(bytes.begin(), bytes.end())`: one character per byte. */
  function TextOfBytes(bytes: seq<byte>): (s: string)
    ensures |s| == |bytes| && IsByteText(s)
  {
    seq(|bytes|, i requires 0 <= i < |bytes| => bytes[i] as int as char)
  }

  /** The bytes of a text whose characters all fit in one byte. */
  function BytesOfText(s: string): (bytes: seq<byte>)
    requires IsByteText(s)
    ensures TextOfBytes(bytes) == s
  {
    seq(|s|, i requires 0 <= i < |s| => s[i] as int as byte)
  }

  /** The decimal texts are made of digits, spaces and minus signs, all single bytes. */
  lemma {:induction false} NatTextIsByteText(n: nat)
    ensures IsByteText(NatText(n))
    decreases n
  {
    if n >= 10 {
      NatTextIsByteText(n / 10);
    }
  }

  lemma {:induction false} NatsTextIsByteText(s: seq<nat>)
    ensures IsByteText(NatsText(s))
    decreases |s|
  {
    if |s| > 0 {
      NatTextIsByteText(s[0]);
      NatsTextIsByteText(s[1..]);
    }
  }

  lemma {:induction false} IntsTextIsByteText(s: seq<int>)
    ensures IsByteText(IntsText(s))
    decreases |s|
  {
    if |s| > 0 {
      NatTextIsByteText(if s[0] < 0 then -s[0] else s[0]);
      IntsTextIsByteText(s[1..]);
    }
  }
}
