/**
 * Chart legend labels from driver ids (formatDriverId in
 * assets/js/hooks/gap_chart.js): snake_case to Title Case by splitting on '_',
 * upper-casing the first character of every piece and joining with spaces.
 */
module DriverLabel {

  /** `toUpperCase` on one character, for ASCII: only 'a'..'z' change. */
  function ToUpperAscii(c: char): (u: char)
    ensures !('a' <= u <= 'z')
    ensures u != c ==> 'a' <= c <= 'z' && u as int + 32 == c as int
    ensures 'a' <= c <= 'z' ==> u != c
  {
    if 'a' <= c <= 'z' then (c as int - 32) as char else c
  }

  /** `s.split(sep)` for a one-character separator: n separators give n + 1 pieces, empty ones included. */
  function Split(s: string, sep: char): (parts: seq<string>)
    ensures |parts| >= 1
    ensures forall i :: 0 <= i < |parts| ==> sep !in parts[i]
  {
    if s == [] then [[]]
    else
      var rest := Split(s[1..], sep);
      if s[0] == sep then [[]] + rest else [[s[0]] + rest[0]] + rest[1..]
  }

  /** `parts.join(sep)` for a one-character separator. */
  function Join(parts: seq<string>, sep: char): string {
    if parts == [] then []
    else if |parts| == 1 then parts[0]
    else parts[0] + [sep] + Join(parts[1..], sep)
  }

  /** `word.charAt(0).toUpperCase() + word.slice(1)`; the empty word stays empty. */
  function Capitalize(word: string): (r: string)
    ensures |r| == |word|
  {
    if word == [] then [] else [ToUpperAscii(word[0])] + word[1..]
  }

  function CapitalizeAll(words: seq<string>): seq<string> {
    seq(|words|, i requires 0 <= i < |words| => Capitalize(words[i]))
  }

  function FormatDriverId(driverId: string): string {
    Join(CapitalizeAll(Split(driverId, '_')), ' ')
  }

  /**
   * Reference definition, one character at a time: '_' becomes a space, a character
   * that starts a piece (atStart) is upper-cased, every other character is kept.
   */
  function TitleCase(s: string, atStart: bool): (r: string)
    ensures |r| == |s|
  {
    if s == [] then []
    else
      var c := if s[0] == '_' then ' ' else if atStart then ToUpperAscii(s[0]) else s[0];
      [c] + TitleCase(s[1..], s[0] == '_')
  }

  lemma JoinPrependToFirst(a: string, b: string, rest: seq<string>, sep: char)
    ensures Join([a + b] + rest, sep) == a + Join([b] + rest, sep)
  {
  }

  /** Joining the pieces of a split gives back the original string. */
  lemma {:induction false} JoinSplit(s: string, sep: char)
    ensures Join(Split(s, sep), sep) == s
  {
    if s != [] {
      var t := s[1..];
      var rest := Split(t, sep);
      JoinSplit(t, sep);
      if s[0] == sep {
        assert ([[]] + rest)[1..] == rest;
        assert s == [sep] + t;
      } else {
        JoinPrependToFirst([s[0]], rest[0], rest[1..], sep);
        assert [rest[0]] + rest[1..] == rest;
        assert s == [s[0]] + t;
      }
    }
  }

  /** The pieces of a split, the first capitalized only when atStart, rendered and joined. */
  function RenderPieces(parts: seq<string>, atStart: bool): string
    requires |parts| >= 1
  {
    Join([if atStart then Capitalize(parts[0]) else parts[0]] + CapitalizeAll(parts[1..]), ' ')
  }

  lemma CapitalizeAllCons(words: seq<string>)
    requires |words| >= 1
    ensures CapitalizeAll(words) == [Capitalize(words[0])] + CapitalizeAll(words[1..])
  {
  }

  /** A split that starts with a separator renders as a space and then the rest, capitalized. */
  lemma RenderAfterSeparator(rest: seq<string>, atStart: bool)
    requires |rest| >= 1
    ensures RenderPieces([[]] + rest, atStart) == " " + RenderPieces(rest, true)
  {
    var capped := CapitalizeAll(rest);
    CapitalizeAllCons(rest);
    assert ([[]] + rest)[1..] == rest;
    assert ([[]] + capped)[1..] == capped;
  }

  /** A split that starts with a character c renders as c (upper-cased when atStart) and then the rest. */
  lemma RenderAfterChar(c: char, rest: seq<string>, atStart: bool)
    requires |rest| >= 1
    ensures RenderPieces([[c] + rest[0]] + rest[1..], atStart)
      == [if atStart then ToUpperAscii(c) else c] + RenderPieces(rest, false)
  {
    var parts := [[c] + rest[0]] + rest[1..];
    assert parts[1..] == rest[1..];
    var first := if atStart then ToUpperAscii(c) else c;
    assert (if atStart then Capitalize(parts[0]) else parts[0]) == [first] + rest[0];
    JoinPrependToFirst([first], rest[0], CapitalizeAll(rest[1..]), ' ');
  }

  lemma {:induction false} RenderPiecesIsTitleCase(s: string, atStart: bool)
    ensures RenderPieces(Split(s, '_'), atStart) == TitleCase(s, atStart)
  {
    if s != [] {
      var t := s[1..];
      var rest := Split(t, '_');
      RenderPiecesIsTitleCase(t, s[0] == '_');
      if s[0] == '_' {
        assert Split(s, '_') == [[]] + rest;
        RenderAfterSeparator(rest, atStart);
      } else {
        assert Split(s, '_') == [[s[0]] + rest[0]] + rest[1..];
        RenderAfterChar(s[0], rest, atStart);
      }
    }
  }

  /** formatDriverId agrees with the character-by-character reference definition. */
  lemma FormatDriverIdIsTitleCase(driverId: string)
    ensures FormatDriverId(driverId) == TitleCase(driverId, true)
  {
    var parts := Split(driverId, '_');
    assert CapitalizeAll(parts) == [Capitalize(parts[0])] + CapitalizeAll(parts[1..]);
    RenderPiecesIsTitleCase(driverId, true);
  }

  /**
   * The label character expected at position i of s: a space for '_', upper-cased
   * where a piece starts (at 0 when atStart, or right after a '_'), otherwise unchanged.
   */
  function LabelCharAt(s: string, atStart: bool, i: nat): char
    requires i < |s|
  {
    if s[i] == '_' then ' '
    else if (i == 0 && atStart) || (i > 0 && s[i - 1] == '_') then ToUpperAscii(s[i])
    else s[i]
  }

  /** The reference definition gives the expected label character at every position. */
  lemma {:induction false} TitleCaseAt(s: string, atStart: bool, i: nat)
    requires i < |s|
    ensures TitleCase(s, atStart)[i] == LabelCharAt(s, atStart, i)
  {
    if i > 0 {
      TitleCaseAt(s[1..], s[0] == '_', i - 1);
    }
  }

  /**
   * The label has the id's length; each '_' becomes a space; the first character of
   * the id and every character right after a '_' is upper-cased; nothing else changes.
   */
  lemma FormatDriverIdPointwise(driverId: string)
    ensures |FormatDriverId(driverId)| == |driverId|
    ensures forall i :: 0 <= i < |driverId| ==> FormatDriverId(driverId)[i] == LabelCharAt(driverId, true, i)
  {
    FormatDriverIdIsTitleCase(driverId);
    forall i | 0 <= i < |driverId|
      ensures FormatDriverId(driverId)[i] == LabelCharAt(driverId, true, i)
    {
      TitleCaseAt(driverId, true, i);
    }
  }

  /** The reference output never contains '_'. */
  lemma {:induction false} TitleCaseNoUnderscore(s: string, atStart: bool)
    ensures '_' !in TitleCase(s, atStart)
  {
    if s != [] {
      TitleCaseNoUnderscore(s[1..], s[0] == '_');
    }
  }

  /** How many times c occurs in s. */
  function Occurrences(s: string, c: char): nat {
    if s == [] then 0 else (if s[0] == c then 1 else 0) + Occurrences(s[1..], c)
  }

  /** Every '_' becomes a space and every space stays one, so the output's spaces are the input's spaces and underscores. */
  lemma {:induction false} TitleCaseSpaces(s: string, atStart: bool)
    ensures Occurrences(TitleCase(s, atStart), ' ') == Occurrences(s, ' ') + Occurrences(s, '_')
  {
    if s != [] {
      TitleCaseSpaces(s[1..], s[0] == '_');
    }
  }

  /** The label has no '_', and its spaces are the id's spaces plus one per '_' of the id. */
  lemma FormatDriverIdCounts(driverId: string)
    ensures '_' !in FormatDriverId(driverId)
    ensures Occurrences(FormatDriverId(driverId), ' ') == Occurrences(driverId, ' ') + Occurrences(driverId, '_')
  {
    FormatDriverIdIsTitleCase(driverId);
    TitleCaseNoUnderscore(driverId, true);
    TitleCaseSpaces(driverId, true);
  }
}
