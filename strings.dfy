/**
 * The PHP string builtins the installer relies on, over `seq<char>`:
 * trim, strtolower, strpos, a delimiter split standing in for the
 * character-class patterns given to preg_split, implode, and the decimal
 * rendering of an integer.
 */
module Strings {
  import opened Wrappers

  /** The characters PHP's trim() strips by default: " \t\n\r\0\x0B". */
  predicate IsTrimChar(c: char) {
    c == ' ' || c == '\t' || c == '\n' || c == '\r' || c == '\0' || c == '\U{B}'
  }

  /** A string with no trim character at either end. */
  predicate IsTrimmed(s: string) {
    s == [] || (!IsTrimChar(s[0]) && !IsTrimChar(s[|s| - 1]))
  }

  function TrimLeft(s: string): (r: string)
    ensures |r| <= |s|
    ensures r == [] || !IsTrimChar(r[0])
    ensures r != [] ==> r[|r| - 1] == s[|s| - 1]
  {
    if s != [] && IsTrimChar(s[0]) then TrimLeft(s[1..]) else s
  }

  function TrimRight(s: string): (r: string)
    ensures |r| <= |s|
    ensures r == [] || !IsTrimChar(r[|r| - 1])
    ensures r != [] ==> r[0] == s[0]
  {
    if s != [] && IsTrimChar(s[|s| - 1]) then TrimRight(s[..|s| - 1]) else s
  }

  /** PHP trim(): strips trim characters from both ends. */
  function Trim(s: string): (r: string)
    ensures IsTrimmed(r)
    ensures |r| <= |s|
  {
    TrimRight(TrimLeft(s))
  }

  lemma {:induction false} TrimLeftOfTrimmed(s: string)
    requires s == [] || !IsTrimChar(s[0])
    ensures TrimLeft(s) == s
  {
  }

  lemma {:induction false} TrimRightOfTrimmed(s: string)
    requires s == [] || !IsTrimChar(s[|s| - 1])
    ensures TrimRight(s) == s
  {
  }

  /** Trimming a string that is already trimmed changes nothing. */
  lemma {:induction false} TrimOfTrimmed(s: string)
    requires IsTrimmed(s)
    ensures Trim(s) == s
  {
    TrimLeftOfTrimmed(s);
    TrimRightOfTrimmed(s);
  }

  /** trim() is idempotent. */
  lemma TrimIdempotent(s: string)
    ensures Trim(Trim(s)) == Trim(s)
  {
    TrimOfTrimmed(Trim(s));
  }

  lemma {:induction false} TrimLeftIsSuffix(s: string)
    ensures TrimLeft(s) == s[|s| - |TrimLeft(s)|..]
    decreases |s|
  {
    if s != [] && IsTrimChar(s[0]) {
      TrimLeftIsSuffix(s[1..]);
      assert s[1..][|s| - 1 - |TrimLeft(s)|..] == s[|s| - |TrimLeft(s)|..];
    }
  }

  lemma {:induction false} TrimRightIsPrefix(s: string)
    ensures TrimRight(s) == s[..|TrimRight(s)|]
    decreases |s|
  {
    if s != [] && IsTrimChar(s[|s| - 1]) {
      TrimRightIsPrefix(s[..|s| - 1]);
      assert s[..|s| - 1][..|TrimRight(s)|] == s[..|TrimRight(s)|];
    }
  }

  /** trim() only removes characters, so a string free of some characters stays free of them. */
  lemma TrimKeepsNoneOf(s: string, delims: set<char>)
    requires NoneOf(s, delims)
    ensures NoneOf(Trim(s), delims)
  {
    var l := TrimLeft(s);
    TrimLeftIsSuffix(s);
    TrimRightIsPrefix(l);
    forall c | c in Trim(s) ensures c !in delims {
      var k :| 0 <= k < |Trim(s)| && Trim(s)[k] == c;
      assert l[k] == c;
      assert s[|s| - |l| + k] == c;
    }
  }

  /** PHP 8 strtolower(): ASCII letters only. */
  function LowerChar(c: char): (r: char)
    ensures 'A' <= c <= 'Z' ==> r as int == c as int + 32
    ensures !('A' <= c <= 'Z') ==> r == c
  {
    if 'A' <= c <= 'Z' then (c as int + 32) as char else c
  }

  function ToLower(s: string): (r: string)
    ensures |r| == |s|
    ensures forall i :: 0 <= i < |s| ==> r[i] == LowerChar(s[i])
  {
    if s == [] then [] else [LowerChar(s[0])] + ToLower(s[1..])
  }

  /** The number of bytes UTF-8 takes for one code point. */
  function Utf8Width(c: char): (r: nat)
    ensures 1 <= r <= 4
    ensures r == 1 <==> c as int < 0x80
  {
    if c as int < 0x80 then 1
    else if c as int < 0x800 then 2
    else if c as int < 0x10000 then 3
    else 4
  }

  /** PHP strlen(): the length of the UTF-8 encoding, in bytes. */
  function StrLen(s: string): (r: nat)
    ensures |s| <= r <= 4 * |s|
    ensures r == |s| <==> forall i :: 0 <= i < |s| ==> s[i] as int < 0x80
  {
    if s == [] then 0 else Utf8Width(s[0]) + StrLen(s[1..])
  }

  /** Four umlauts are eight bytes: strlen counts bytes, not characters. */
  lemma UmlautsAreTwoBytesEach()
    ensures |"\U{E4}\U{F6}\U{FC}\U{E4}"| == 4
    ensures StrLen("\U{E4}\U{F6}\U{FC}\U{E4}") == 8
  {
  }

  /** needle occurs in hay at offset j. */
  predicate OccursAt(hay: string, needle: string, j: nat) {
    j + |needle| <= |hay| && hay[j..j + |needle|] == needle
  }

  /** The first offset at or after from at which needle occurs. */
  function StrPosFrom(hay: string, needle: string, from: nat): (r: Option<nat>)
    ensures r.Some? ==> from <= r.value && OccursAt(hay, needle, r.value)
    ensures r.Some? ==> forall j :: from <= j < r.value ==> !OccursAt(hay, needle, j)
    ensures r.None? ==> forall j :: from <= j ==> !OccursAt(hay, needle, j)
    decreases |hay| - from
  {
    if from + |needle| > |hay| then None
    else if OccursAt(hay, needle, from) then Some(from)
    else StrPosFrom(hay, needle, from + 1)
  }

  /** PHP strpos($hay, $needle): the first offset at which needle occurs. */
  function StrPos(hay: string, needle: string): Option<nat> {
    StrPosFrom(hay, needle, 0)
  }

  /**
   * Splits s at every character of delims, keeping empty pieces, so that
   * joining the pieces with single delimiters gives back s.
   */
  function Split(s: string, delims: set<char>): (r: seq<string>)
    ensures |r| >= 1
    ensures forall i :: 0 <= i < |r| ==> NoneOf(r[i], delims)
    decreases |s|
  {
    if s == [] then [""]
    else if s[0] in delims then [""] + Split(s[1..], delims)
    else
      var rest := Split(s[1..], delims);
      [[s[0]] + rest[0]] + rest[1..]
  }

  /** PHP implode($sep, $parts). */
  function Join(parts: seq<string>, sep: string): string {
    if |parts| == 0 then ""
    else if |parts| == 1 then parts[0]
    else parts[0] + sep + Join(parts[1..], sep)
  }

  predicate NoneOf(s: string, delims: set<char>) {
    forall c :: c in s ==> c !in delims
  }

  /** A delimiter-free prefix is glued onto the first piece of what follows it. */
  lemma {:induction false} SplitPrefix(p: string, rest: string, delims: set<char>)
    requires NoneOf(p, delims)
    ensures Split(p + rest, delims) ==
            [p + Split(rest, delims)[0]] + Split(rest, delims)[1..]
    decreases |p|
  {
    if p != [] {
      assert (p + rest)[0] == p[0] && (p + rest)[1..] == p[1..] + rest;
      SplitPrefix(p[1..], rest, delims);
      assert [p[0]] + (p[1..] + Split(rest, delims)[0]) == p + Split(rest, delims)[0];
    } else {
      assert p + rest == rest;
      assert p + Split(rest, delims)[0] == Split(rest, delims)[0];
      assert Split(rest, delims) == [Split(rest, delims)[0]] + Split(rest, delims)[1..];
    }
  }

  /** Splitting a join on one of the delimiters gives back the pieces. */
  lemma {:induction false} SplitJoin(parts: seq<string>, c: char, delims: set<char>)
    requires |parts| >= 1 && c in delims
    requires forall i :: 0 <= i < |parts| ==> NoneOf(parts[i], delims)
    ensures Split(Join(parts, [c]), delims) == parts
  {
    if |parts| == 1 {
      SplitPrefix(parts[0], "", delims);
      assert parts[0] + "" == parts[0];
    } else {
      var tail := Join(parts[1..], [c]);
      assert Join(parts, [c]) == parts[0] + ([c] + tail);
      SplitPrefix(parts[0], [c] + tail, delims);
      assert ([c] + tail)[1..] == tail;
      SplitJoin(parts[1..], c, delims);
      assert Split([c] + tail, delims) == [""] + parts[1..];
      assert parts[0] + "" == parts[0];
      assert parts == [parts[0]] + parts[1..];
    }
  }

  /** The decimal digits of a natural number, no leading zeros. */
  function NatToString(n: nat): (r: string)
    ensures |r| >= 1
    ensures forall i :: 0 <= i < |r| ==> '0' <= r[i] <= '9'
    decreases n
  {
    if n < 10 then [('0' as int + n) as char]
    else NatToString(n / 10) + [('0' as int + n % 10) as char]
  }

  /** The value of a string of decimal digits. */
  function DigitsValue(s: string): nat
    requires forall i :: 0 <= i < |s| ==> '0' <= s[i] <= '9'
    decreases |s|
  {
    if s == [] then 0 else DigitsValue(s[..|s| - 1]) * 10 + (s[|s| - 1] as int - '0' as int)
  }

  /** Reading the rendered digits back gives the number. */
  lemma {:induction false} NatToStringValue(n: nat)
    ensures DigitsValue(NatToString(n)) == n
    decreases n
  {
    if n >= 10 {
      NatToStringValue(n / 10);
      var s := NatToString(n);
      assert s[..|s| - 1] == NatToString(n / 10);
    }
  }
}
