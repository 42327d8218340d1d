/** The text grammars of the desktop protocol (protocol lib.rs). */
module Identifiers {

  predicate IsLetter(c: char) {
    'a' <= c <= 'z' || 'A' <= c <= 'Z'
  }

  predicate IsDigit(c: char) {
    '0' <= c <= '9'
  }

  /** `validate_identifier`: a letter, then at most 63 letters, digits, dots, dashes or underscores. */
  predicate ValidIdentifier(s: string) {
    && 1 <= |s| <= 64
    && IsLetter(s[0])
    && forall i | 1 <= i < |s| :: IsLetter(s[i]) || IsDigit(s[i]) || s[i] == '.' || s[i] == '_' || s[i] == '-'
  }

  /** Identifiers, built up one character at a time. */
  lemma IdentifierGrows(s: string, c: char)
    ensures !ValidIdentifier("")
    ensures ValidIdentifier([c]) <==> 'a' <= c <= 'z' || 'A' <= c <= 'Z'
    ensures s != "" ==>
              (ValidIdentifier(s + [c]) <==>
                 && ValidIdentifier(s) && |s| < 64
                 && ('a' <= c <= 'z' || 'A' <= c <= 'Z' || '0' <= c <= '9' || c == '.' || c == '_' || c == '-'))
  {
    if s != "" {
      assert (s + [c])[|s|] == c;
      assert forall i | 0 <= i < |s| :: (s + [c])[i] == s[i];
    }
  }

  /** `validate_version`: starts with a digit, at most 64 version characters. */
  predicate ValidVersion(s: string) {
    && 1 <= |s| <= 64
    && IsDigit(s[0])
    && forall i | 0 <= i < |s| ::
         IsLetter(s[i]) || IsDigit(s[i]) || s[i] == '.' || s[i] == '+' || s[i] == '-' || s[i] == '~'
  }

  /** Length of a character in UTF-8. */
  function Utf8Length(c: char): nat {
    if c as int < 0x80 then 1
    else if c as int < 0x800 then 2
    else if c as int < 0x10000 then 3
    else 4
  }

  function ByteLength(s: string): nat {
    if s == "" then 0 else Utf8Length(s[0]) + ByteLength(s[1..])
  }

  /** Unicode category Cc, which holds the line breaks too. */
  predicate IsControl(c: char) {
    c as int < 0x20 || 0x7F <= c as int < 0xA0
  }

  /** Unicode property White_Space. */
  predicate IsWhitespace(c: char) {
    var u := c as int;
    || 0x09 <= u <= 0x0D || u == 0x20 || u == 0x85 || u == 0xA0 || u == 0x1680
    || 0x2000 <= u <= 0x200A || u == 0x2028 || u == 0x2029 || u == 0x202F || u == 0x205F || u == 0x3000
  }

  /** `validate_text`. */
  predicate ValidText(s: string, maximumBytes: nat, allowEmpty: bool) {
    && (allowEmpty || exists i | 0 <= i < |s| :: !IsWhitespace(s[i]))
    && ByteLength(s) <= maximumBytes
    && forall i | 0 <= i < |s| :: !IsControl(s[i])
  }

  /** Versions, built up one character at a time. */
  lemma VersionGrows(s: string, c: char)
    ensures !ValidVersion("")
    ensures ValidVersion([c]) <==> '0' <= c <= '9'
    ensures s != "" ==>
              (ValidVersion(s + [c]) <==>
                 && ValidVersion(s) && |s| < 64
                 && ('a' <= c <= 'z' || 'A' <= c <= 'Z' || '0' <= c <= '9'
                     || c == '.' || c == '+' || c == '-' || c == '~'))
  {
    if s != "" {
      assert (s + [c])[|s|] == c;
      assert forall i | 0 <= i < |s| :: (s + [c])[i] == s[i];
    }
  }

  lemma {:induction false} ByteLengthAppend(s: string, c: char)
    ensures ByteLength(s + [c]) == ByteLength(s) + Utf8Length(c)
  {
    if s == "" {
      assert s + [c] == [c] && [c][1..] == "";
    } else {
      assert (s + [c])[1..] == s[1..] + [c];
      ByteLengthAppend(s[1..], c);
    }
  }

  /** Texts, built up one character at a time: no control characters, and a limit in bytes of UTF-8. */
  lemma TextGrows(s: string, c: char, maximumBytes: nat)
    ensures ValidText("", maximumBytes, true) && !ValidText("", maximumBytes, false)
    ensures ValidText(s + [c], maximumBytes, true) <==>
            && ValidText(s, maximumBytes, true)
            && !(c as int < 0x20 || 0x7F <= c as int < 0xA0)
            && ByteLength(s) + Utf8Length(c) <= maximumBytes
    ensures ValidText(s + [c], maximumBytes, false) <==>
            ValidText(s + [c], maximumBytes, true) && (ValidText(s, maximumBytes, false) || !IsWhitespace(c))
  {
    ByteLengthAppend(s, c);
    var t := s + [c];
    assert t[|s|] == c;
    assert forall i | 0 <= i < |s| :: t[i] == s[i];
  }

  /** The parts of `s` between occurrences of `separator`. */
  function Split(s: string, separator: char): (parts: seq<string>)
    ensures |parts| >= 1
  {
    if s == "" then [""]
    else
      var rest := Split(s[1..], separator);
      if s[0] == separator then [""] + rest else [[s[0]] + rest[0]] + rest[1..]
  }

  function Join(parts: seq<string>, separator: char): string
    requires parts != []
  {
    if |parts| == 1 then parts[0] else parts[0] + [separator] + Join(parts[1..], separator)
  }

  lemma {:induction false} JoinOfSplit(s: string, separator: char)
    ensures Join(Split(s, separator), separator) == s
  {
    if s != "" {
      var rest := Split(s[1..], separator);
      JoinOfSplit(s[1..], separator);
      if s[0] == separator {
        assert ([""] + rest)[1..] == rest;
        assert "" + [separator] + s[1..] == s;
      } else {
        var parts := [[s[0]] + rest[0]] + rest[1..];
        assert parts[1..] == rest[1..];
        assert parts[0] == [s[0]] + rest[0];
        assert [s[0]] + s[1..] == s;
        if |rest| > 1 {
          JoinedFront([s[0]], rest[0], [separator], Join(rest[1..], separator));
        }
      }
    }
  }

  lemma JoinedFront(a: string, b: string, c: string, d: string)
    ensures a + b + c + d == a + (b + c + d)
  {
  }

  lemma {:induction false} SplitWithout(s: string, separator: char)
    requires separator !in s
    ensures Split(s, separator) == [s]
  {
    if s != "" {
      assert separator !in s[1..];
      SplitWithout(s[1..], separator);
      assert [s[0]] + s[1..] == s;
    }
  }

  lemma {:induction false} SplitFront(s: string, rest: string, separator: char)
    requires separator !in s
    ensures Split(s + [separator] + rest, separator) == [s] + Split(rest, separator)
  {
    var all := s + [separator] + rest;
    if s == "" {
      assert all[0] == separator && all[1..] == rest;
    } else {
      assert separator !in s[1..];
      assert all[0] == s[0] && all[1..] == s[1..] + [separator] + rest;
      SplitFront(s[1..], rest, separator);
      assert [s[0]] + s[1..] == s;
    }
  }

  function Lower(c: char): char {
    if 'A' <= c <= 'Z' then c - 'A' + 'a' else c
  }

  function LowerText(s: string): string {
    seq(|s|, i requires 0 <= i < |s| => Lower(s[i]))
  }

  const MODIFIERS: set<string> :=
    {"alt", "ctrl", "control", "shift", "super", "cmd", "command", "cmdorctrl"}

  /** `validate_accelerator`: distinct modifiers and one alphanumeric key, joined by plus signs. */
  predicate ValidAccelerator(s: string) {
    && s != "" && ByteLength(s) <= 64
    && (forall i | 0 <= i < |s| :: !IsWhitespace(s[i]))
    && var tokens := Split(s, '+');
       var key := tokens[|tokens| - 1];
       && (forall i | 0 <= i < |tokens| :: tokens[i] != "")
       && (forall i | 0 <= i < |tokens| - 1 :: LowerText(tokens[i]) in MODIFIERS)
       && (forall i, j | 0 <= i < j < |tokens| - 1 :: LowerText(tokens[i]) != LowerText(tokens[j]))
       && |key| <= 24
       && forall i | 0 <= i < |key| :: IsLetter(key[i]) || IsDigit(key[i])
  }

  // ------------------------------------------------- accelerators in their own terms

  /** Distinct modifiers, in any case of letters, and a key of letters and digits. */
  ghost predicate Chord(modifiers: seq<string>, key: string) {
    && (forall i | 0 <= i < |modifiers| :: LowerText(modifiers[i]) in MODIFIERS)
    && (forall i, j | 0 <= i < j < |modifiers| :: LowerText(modifiers[i]) != LowerText(modifiers[j]))
    && 1 <= |key| <= 24
    && forall i | 0 <= i < |key| :: IsLetter(key[i]) || IsDigit(key[i])
  }

  /** Letters and digits only. */
  predicate IsWord(s: string) {
    forall i | 0 <= i < |s| :: IsLetter(s[i]) || IsDigit(s[i])
  }

  lemma WordIsPlain(s: string)
    requires IsWord(s)
    ensures '+' !in s && ByteLength(s) == |s| && forall i | 0 <= i < |s| :: !IsWhitespace(s[i])
  {
    PlainByteLength(s);
  }

  lemma {:induction false} PlainByteLength(s: string)
    requires forall i | 0 <= i < |s| :: s[i] as int < 0x80
    ensures ByteLength(s) == |s|
  {
    if s != "" {
      PlainByteLength(s[1..]);
    }
  }

  lemma ModifierIsWord(s: string)
    requires LowerText(s) in MODIFIERS
    ensures IsWord(s) && s != ""
  {
    forall i | 0 <= i < |s|
      ensures IsLetter(s[i])
    {
      assert LowerText(s)[i] == Lower(s[i]);
      assert forall m | m in MODIFIERS :: forall k | 0 <= k < |m| :: 'a' <= m[k] <= 'z';
    }
  }

  /** Splitting what was joined gives the parts again. */
  lemma {:induction false} SplitOfJoin(parts: seq<string>, separator: char)
    requires parts != [] && forall i | 0 <= i < |parts| :: separator !in parts[i]
    ensures Split(Join(parts, separator), separator) == parts
    decreases |parts|
  {
    if |parts| == 1 {
      SplitWithout(parts[0], separator);
    } else {
      SplitFront(parts[0], Join(parts[1..], separator), separator);
      SplitOfJoin(parts[1..], separator);
    }
  }

  lemma {:induction false} JoinIsPlain(parts: seq<string>)
    requires parts != [] && forall i | 0 <= i < |parts| :: IsWord(parts[i])
    ensures forall i | 0 <= i < |Join(parts, '+')| ::
              var c := Join(parts, '+')[i];
              c as int < 0x80 && !IsWhitespace(c)
    decreases |parts|
  {
    if |parts| > 1 {
      JoinIsPlain(parts[1..]);
    }
  }

  /** The accepted accelerators are exactly the chords, written with plus signs in at most 64 characters. */
  lemma AcceleratorsExactly(s: string)
    ensures ValidAccelerator(s) <==>
            |s| <= 64 && exists modifiers, key :: Chord(modifiers, key) && s == Join(modifiers + [key], '+')
  {
    if ValidAccelerator(s) {
      var tokens := Split(s, '+');
      var modifiers, key := tokens[..|tokens| - 1], tokens[|tokens| - 1];
      assert tokens == modifiers + [key];
      JoinOfSplit(s, '+');
      ChordIsPlain(modifiers, key);
      PlainByteLength(s);
      assert Chord(modifiers, key) && s == Join(modifiers + [key], '+');
    }
    if |s| <= 64 {
      if modifiers, key :| Chord(modifiers, key) && s == Join(modifiers + [key], '+') {
        ChordIsPlain(modifiers, key);
        PlainByteLength(s);
        SplitOfJoin(modifiers + [key], '+');
      }
    }
  }

  lemma ChordIsPlain(modifiers: seq<string>, key: string)
    requires Chord(modifiers, key)
    ensures var tokens := modifiers + [key];
            && (forall i | 0 <= i < |tokens| :: '+' !in tokens[i] && tokens[i] != "")
            && Join(tokens, '+') != ""
            && forall i | 0 <= i < |Join(tokens, '+')| ::
                 var c := Join(tokens, '+')[i];
                 c as int < 0x80 && !IsWhitespace(c)
  {
    var tokens := modifiers + [key];
    forall i | 0 <= i < |tokens|
      ensures IsWord(tokens[i]) && tokens[i] != "" && '+' !in tokens[i]
    {
      if i < |modifiers| {
        ModifierIsWord(modifiers[i]);
      }
      WordIsPlain(tokens[i]);
    }
    JoinIsPlain(tokens);
    assert |Join(tokens, '+')| >= |tokens[0]|;
  }
}
