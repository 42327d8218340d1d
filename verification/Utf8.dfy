/** UTF-8 (section 3.9 of the Unicode Standard) and the lossy conversion of file names to text. */
module Utf8 {
  import opened Sequences

  /** U+FFFD. */
  const REPLACEMENT: Bytes := [0xEF, 0xBF, 0xBD]

  predicate IsTrail(b: Byte) {
    0x80 <= b <= 0xBF
  }

  /** The second byte that may follow a first byte of a longer character (table 3-7). */
  predicate MayFollow(first: Byte, second: Byte) {
    || (0xC2 <= first <= 0xDF && IsTrail(second))
    || (first == 0xE0 && 0xA0 <= second <= 0xBF)
    || ((0xE1 <= first <= 0xEC || 0xEE <= first <= 0xEF) && IsTrail(second))
    || (first == 0xED && 0x80 <= second <= 0x9F)
    || (first == 0xF0 && 0x90 <= second <= 0xBF)
    || (0xF1 <= first <= 0xF3 && IsTrail(second))
    || (first == 0xF4 && 0x80 <= second <= 0x8F)
  }

  /** The encoding of one character. */
  predicate IsCharacter(c: Bytes) {
    || (|c| == 1 && c[0] <= 0x7F)
    || (|c| == 2 && c[0] <= 0xDF && MayFollow(c[0], c[1]))
    || (|c| == 3 && 0xE0 <= c[0] <= 0xEF && MayFollow(c[0], c[1]) && IsTrail(c[2]))
    || (|c| == 4 && 0xF0 <= c[0] && MayFollow(c[0], c[1]) && IsTrail(c[2]) && IsTrail(c[3]))
  }

  /** The length of the character at the front, or none. */
  function FrontLength(x: Bytes): (n: nat)
    ensures n <= |x| && n <= 4
    ensures n > 0 ==> IsCharacter(x[..n])
  {
    if |x| >= 1 && IsCharacter(x[..1]) then 1
    else if |x| >= 2 && IsCharacter(x[..2]) then 2
    else if |x| >= 3 && IsCharacter(x[..3]) then 3
    else if |x| >= 4 && IsCharacter(x[..4]) then 4
    else 0
  }

  predicate WellFormed(x: Bytes) {
    x == [] || (FrontLength(x) > 0 && WellFormed(x[FrontLength(x)..]))
  }

  /** The bytes that one replacement stands for: as many as could still begin a character. */
  function BrokenLength(x: Bytes): (n: nat)
    requires x != []
    ensures 1 <= n <= |x|
  {
    if |x| >= 2 && x[0] >= 0xE0 && MayFollow(x[0], x[1]) then
      if |x| >= 3 && x[0] >= 0xF0 && IsTrail(x[2]) then 3 else 2
    else 1
  }

  /** `to_string_lossy`: every broken part becomes one replacement character. */
  function Lossy(x: Bytes): Bytes {
    if x == [] then []
    else
      var n := FrontLength(x);
      if n > 0 then x[..n] + Lossy(x[n..]) else REPLACEMENT + Lossy(x[BrokenLength(x)..])
  }

  /** The replacement character is one of the characters. */
  predicate Mentions(x: Bytes) {
    && FrontLength(x) > 0
    && (x[..FrontLength(x)] == REPLACEMENT || Mentions(x[FrontLength(x)..]))
  }

  /** No character is the beginning of another one. */
  lemma FrontOf(c: Bytes, rest: Bytes)
    requires IsCharacter(c)
    ensures FrontLength(c + rest) == |c| && (c + rest)[..|c|] == c && (c + rest)[|c|..] == rest
  {
    var x := c + rest;
    assert x[..|c|] == c;
    assert |c| > 1 ==> !IsCharacter(x[..1]);
    assert |c| > 2 ==> !IsCharacter(x[..2]);
    assert |c| > 3 ==> !IsCharacter(x[..3]);
  }

  lemma {:induction false} LossyIsWellFormed(x: Bytes)
    ensures WellFormed(Lossy(x))
  {
    if x != [] {
      var n := FrontLength(x);
      if n > 0 {
        LossyIsWellFormed(x[n..]);
        FrontOf(x[..n], Lossy(x[n..]));
      } else {
        LossyIsWellFormed(x[BrokenLength(x)..]);
        FrontOf(REPLACEMENT, Lossy(x[BrokenLength(x)..]));
      }
    }
  }

  lemma {:induction false} WellFormedStays(x: Bytes)
    requires WellFormed(x)
    ensures Lossy(x) == x
  {
    if x != [] {
      WellFormedStays(x[FrontLength(x)..]);
    }
  }

  /** The conversion changes nothing exactly when the name is UTF-8. */
  lemma LossyFixesExactly(x: Bytes)
    ensures Lossy(x) == x <==> WellFormed(x)
  {
    LossyIsWellFormed(x);
    if WellFormed(x) {
      WellFormedStays(x);
    }
  }

  lemma {:induction false} BrokenLeavesMark(x: Bytes)
    requires !WellFormed(x)
    ensures Mentions(Lossy(x))
  {
    var n := FrontLength(x);
    if n > 0 {
      BrokenLeavesMark(x[n..]);
      FrontOf(x[..n], Lossy(x[n..]));
    } else {
      FrontOf(REPLACEMENT, Lossy(x[BrokenLength(x)..]));
    }
  }

  /** The same text with a byte that is never UTF-8 in the place of its first replacement character. */
  function Broken(x: Bytes): Bytes {
    if !Mentions(x) then x
    else
      var n := FrontLength(x);
      if x[..n] == REPLACEMENT then [0xFF] + x[n..] else x[..n] + Broken(x[n..])
  }

  lemma {:induction false} BrokenLooksTheSame(x: Bytes)
    requires WellFormed(x) && Mentions(x)
    ensures Lossy(Broken(x)) == x && Broken(x) != x
  {
    var n := FrontLength(x);
    var rest := x[n..];
    assert x == x[..n] + rest;
    if x[..n] == REPLACEMENT {
      var y := [0xFF] + rest;
      assert FrontLength(y) == 0 && BrokenLength(y) == 1 && y[1..] == rest;
      WellFormedStays(rest);
    } else {
      BrokenLooksTheSame(rest);
      FrontOf(x[..n], Broken(rest));
    }
  }

  /** No other name is shown as `x` is. */
  ghost predicate Unambiguous(x: Bytes) {
    forall y: Bytes | Lossy(y) == Lossy(x) :: y == x
  }

  /** A name can be told from every other by its text exactly when it is UTF-8 without U+FFFD. */
  lemma UnambiguousExactly(x: Bytes)
    ensures Unambiguous(x) <==> WellFormed(x) && !Mentions(x)
  {
    LossyIsWellFormed(x);
    WellFormedStays(Lossy(x));
    if !WellFormed(x) {
      assert Lossy(Lossy(x)) == Lossy(x) && Lossy(x) != x;
    } else {
      WellFormedStays(x);
      if Mentions(x) {
        BrokenLooksTheSame(x);
      } else {
        forall y: Bytes | Lossy(y) == Lossy(x)
          ensures y == x
        {
          if WellFormed(y) {
            WellFormedStays(y);
          } else {
            BrokenLeavesMark(y);
          }
        }
      }
    }
  }

  lemma {:induction false} LossyHasNoZero(x: Bytes)
    requires 0 !in x
    ensures 0 !in Lossy(x)
  {
    if x != [] {
      var n := FrontLength(x);
      LossyHasNoZero(x[if n > 0 then n else BrokenLength(x)..]);
    }
  }
}
