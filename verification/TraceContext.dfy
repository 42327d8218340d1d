/**
 The `traceparent` header (desktop_otlp.rs, `parse_traceparent` and `header_value`), version
 00 of section 3.2 of W3C Trace Context.
 */
module TraceContext {
  import opened Identifiers
  import opened Outcomes

  datatype TraceParent = TraceParent(traceId: string, parentSpanId: string, flags: int)

  // --------------------------------------------------------------- hexadecimal

  predicate IsHex(c: char) {
    '0' <= c <= '9' || 'a' <= c <= 'f'
  }

  predicate AllHex(s: string) {
    forall i | 0 <= i < |s| :: IsHex(s[i])
  }

  function HexValue(c: char): int
    requires IsHex(c)
  {
    if c <= '9' then c as int - '0' as int else c as int - 'a' as int + 10
  }

  function HexDigit(n: int): char
    requires 0 <= n < 16
  {
    if n < 10 then (n + '0' as int) as char else (n - 10 + 'a' as int) as char
  }

  /** A byte as two lower-case digits. */
  function ByteToHex(n: int): string
    requires 0 <= n < 256
  {
    [HexDigit(n / 16), HexDigit(n % 16)]
  }

  function HexToByte(s: string): int
    requires |s| == 2 && AllHex(s)
  {
    HexValue(s[0]) * 16 + HexValue(s[1])
  }

  lemma DigitOfValue(c: char)
    requires IsHex(c)
    ensures 0 <= HexValue(c) < 16 && HexDigit(HexValue(c)) == c
  {
  }

  lemma ValueOfDigit(n: int)
    requires 0 <= n < 16
    ensures IsHex(HexDigit(n)) && HexValue(HexDigit(n)) == n
  {
  }

  lemma HexOfByte(s: string)
    requires |s| == 2 && AllHex(s)
    ensures 0 <= HexToByte(s) < 256 && ByteToHex(HexToByte(s)) == s
  {
    DigitOfValue(s[0]);
    DigitOfValue(s[1]);
  }

  lemma ByteOfHex(n: int)
    requires 0 <= n < 256
    ensures |ByteToHex(n)| == 2 && AllHex(ByteToHex(n)) && HexToByte(ByteToHex(n)) == n
  {
    ValueOfDigit(n / 16);
    ValueOfDigit(n % 16);
  }

  /** Lengths are taken in bytes; hexadecimal text has one byte a character. */
  lemma {:induction false} HexByteLength(s: string)
    requires AllHex(s)
    ensures ByteLength(s) == |s|
  {
    if s != "" {
      HexByteLength(s[1..]);
    }
  }

  // ------------------------------------------------------------ parse and print

  const VERSION := "00"
  const ZERO_TRACE := "00000000000000000000000000000000"
  const ZERO_SPAN := "0000000000000000"

  /** `header_value`. */
  function HeaderValue(t: TraceParent): string
    requires 0 <= t.flags < 256
  {
    "00-" + t.traceId + "-" + t.parentSpanId + "-" + ByteToHex(t.flags)
  }

  /** `parse_traceparent`. */
  function Parse(value: string): Option<TraceParent> {
    var parts := Split(value, '-');
    if && |parts| == 4
       && parts[0] == VERSION
       && ByteLength(parts[1]) == 32 && parts[1] != ZERO_TRACE
       && ByteLength(parts[2]) == 16 && parts[2] != ZERO_SPAN
       && ByteLength(parts[3]) == 2
       && forall i | 0 <= i < 4 :: AllHex(parts[i])
    then
      HexByteLength(parts[3]);
      Some(TraceParent(parts[1], parts[2], HexToByte(parts[3])))
    else None
  }

  predicate IsId(s: string, length: nat, zero: string) {
    |s| == length && AllHex(s) && s != zero
  }

  /** Section 3.2.2.2 to 3.2.2.5: lower-case identifiers that are not all zero, and eight flag bits. */
  predicate ValidContext(t: TraceParent) {
    && IsId(t.traceId, 32, ZERO_TRACE)
    && IsId(t.parentSpanId, 16, ZERO_SPAN)
    && 0 <= t.flags < 256
  }

  lemma HexHasNoDash(s: string)
    requires AllHex(s)
    ensures '-' !in s
  {
  }

  lemma SplitOfHeader(a: string, b: string, c: string, d: string)
    requires AllHex(a) && AllHex(b) && AllHex(c) && AllHex(d)
    ensures Split(a + "-" + (b + "-" + (c + "-" + d)), '-') == [a, b, c, d]
  {
    HexHasNoDash(a);
    HexHasNoDash(b);
    HexHasNoDash(c);
    HexHasNoDash(d);
    SplitFront(a, b + "-" + (c + "-" + d), '-');
    SplitFront(b, c + "-" + d, '-');
    SplitFront(c, d, '-');
    SplitWithout(d, '-');
  }

  lemma JoinOfFour(a: string, b: string, c: string, d: string)
    ensures Join([a, b, c, d], '-') == a + "-" + (b + "-" + (c + "-" + d))
  {
    assert [a, b, c, d][1..] == [b, c, d] && [b, c, d][1..] == [c, d] && [c, d][1..] == [d];
    assert Join([d], '-') == d;
    assert Join([c, d], '-') == c + "-" + d;
    assert Join([b, c, d], '-') == b + "-" + (c + "-" + d);
  }

  lemma HeaderShape(t: TraceParent)
    requires 0 <= t.flags < 256
    ensures HeaderValue(t) == VERSION + "-" + (t.traceId + "-" + (t.parentSpanId + "-" + ByteToHex(t.flags)))
  {
  }

  /** Every accepted header is a valid context that prints back to the same text. */
  lemma ParsedPrintsBack(value: string)
    requires Parse(value).Some?
    ensures ValidContext(Parse(value).value)
    ensures HeaderValue(Parse(value).value) == value
  {
    var parts, t := Split(value, '-'), Parse(value).value;
    HexByteLength(parts[1]);
    HexByteLength(parts[2]);
    HexByteLength(parts[3]);
    HexOfByte(parts[3]);
    JoinOfSplit(value, '-');
    JoinOfFour(parts[0], parts[1], parts[2], parts[3]);
    assert parts == [parts[0], parts[1], parts[2], parts[3]];
    HeaderShape(t);
  }

  /** Every valid context is read back from its header unchanged. */
  lemma PrintedParsesBack(t: TraceParent)
    requires ValidContext(t)
    ensures Parse(HeaderValue(t)) == Some(t)
  {
    HeaderShape(t);
    ByteOfHex(t.flags);
    assert AllHex(VERSION);
    SplitOfHeader(VERSION, t.traceId, t.parentSpanId, ByteToHex(t.flags));
    HexByteLength(t.traceId);
    HexByteLength(t.parentSpanId);
    HexByteLength(ByteToHex(t.flags));
  }

  /** The grammar of version 00, position by position. */
  predicate Grammar(value: string) {
    && |value| == 55
    && value[..2] == VERSION && value[2] == '-'
    && IsId(value[3..35], 32, ZERO_TRACE) && value[35] == '-'
    && IsId(value[36..52], 16, ZERO_SPAN) && value[52] == '-'
    && AllHex(value[53..])
  }

  lemma HeaderMatchesGrammar(t: TraceParent)
    requires ValidContext(t)
    ensures Grammar(HeaderValue(t))
  {
    ByteOfHex(t.flags);
    var value := HeaderValue(t);
    assert value[..2] == VERSION;
    assert value[3..35] == t.traceId;
    assert value[36..52] == t.parentSpanId;
    assert value[53..] == ByteToHex(t.flags);
  }

  /** A lower-case digit stands for its place in the list of digits. */
  lemma HexDigitsInOrder(c: char)
    requires IsHex(c)
    ensures 0 <= HexValue(c) < 16 && "0123456789abcdef"[HexValue(c)] == c
  {
  }

  lemma OddDigit(c: char)
    requires IsHex(c)
    ensures HexValue(c) % 2 == 1 <==> c in "13579bdf"
  {
  }

  lemma ByteHalves(s: string)
    requires |s| == 2 && AllHex(s)
    ensures HexToByte(s) / 16 == HexValue(s[0]) && HexToByte(s) % 16 == HexValue(s[1])
    ensures HexToByte(s) % 2 == HexValue(s[1]) % 2
  {
    DigitOfValue(s[0]);
    DigitOfValue(s[1]);
  }

  /** A header of the grammar is read field by field. */
  lemma GrammarParses(value: string)
    requires Grammar(value)
    ensures Parse(value) == Some(TraceParent(value[3..35], value[36..52], HexToByte(value[53..])))
  {
    var t := TraceParent(value[3..35], value[36..52], HexToByte(value[53..]));
    HexOfByte(value[53..]);
    assert HeaderValue(t) == value;
    PrintedParsesBack(t);
  }

  /** The parser accepts exactly the grammar. */
  lemma AcceptsExactlyGrammar(value: string)
    ensures Parse(value).Some? <==> Grammar(value)
  {
    if Parse(value).Some? {
      ParsedPrintsBack(value);
      HeaderMatchesGrammar(Parse(value).value);
    }
    if Grammar(value) {
      GrammarParses(value);
    }
  }

  /**
   What is read out of a header: the two identifiers, and the eight flags, of which the first
   digit holds the higher four and the last digit the lower four with the sampled flag.
   */
  lemma HeaderFields(value: string)
    requires Parse(value).Some?
    ensures |value| == 55 && IsHex(value[53]) && IsHex(value[54])
    ensures var t := Parse(value).value;
            && t.traceId == value[3..35] && t.parentSpanId == value[36..52]
            && t.flags / 16 == HexValue(value[53]) && t.flags % 16 == HexValue(value[54])
            && (t.flags % 2 == 1 <==> value[54] in "13579bdf")
  {
    AcceptsExactlyGrammar(value);
    GrammarParses(value);
    assert value[53..][0] == value[53] && value[53..][1] == value[54];
    ByteHalves(value[53..]);
    OddDigit(value[54]);
  }

  /** No two valid contexts share a header. */
  lemma HeaderInjective(t: TraceParent, u: TraceParent)
    requires ValidContext(t) && ValidContext(u) && HeaderValue(t) == HeaderValue(u)
    ensures t == u
  {
    PrintedParsesBack(t);
    PrintedParsesBack(u);
  }
}
