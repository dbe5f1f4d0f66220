/**
 * Line colours for the gap chart (generateColors in assets/js/hooks/gap_chart.js):
 * a fixed 20-colour team palette, extended with generated `hsl(...)` colours when
 * more drivers than that are charted.
 */
module Palette {
  import opened Decimal

  const BASE_COLORS: seq<string> := [
    "#FF0000", "#0600EF", "#00D2BE", "#FF8700", "#0090FF",
    "#2B4562", "#FFFFFF", "#C8C8C8", "#900000", "#005AFF",
    "#FFC0CB", "#800080", "#008000", "#FFD700", "#FFA500",
    "#A52A2A", "#00FFFF", "#FF00FF", "#000080", "#808080"
  ]

  /** x is a whole number of turns of 360 degrees. */
  predicate WholeTurns(x: real) {
    (x / 360.0).Floor as real * 360.0 == x
  }

  /**
   * The hue `(i * 137.5) % 360`: the remainder of i * 137.5 modulo 360, in [0, 360).
   * With t = (i * 275) % 720 it is t / 2 exactly.
   */
  function Hue(i: nat): (h: real)
    ensures 0.0 <= h < 360.0
    ensures WholeTurns(i as real * 137.5 - h)
  {
    var n := i * 275;
    var q, t := n / 720, n % 720;
    assert n as real == q as real * 720.0 + t as real;
    assert i as real * 137.5 - t as real / 2.0 == q as real * 360.0;
    t as real / 2.0
  }

  /** A hue text denotes h: digits whose value is h, or digits whose value is h - 0.5 followed by ".5". */
  predicate Denotes(r: string, h: real) {
    || (|r| >= 1 && IsDigits(r) && Value(r) as real == h)
    || (|r| > 2 && r[|r| - 2..] == ".5" && IsDigits(r[..|r| - 2]) && Value(r[..|r| - 2]) as real + 0.5 == h)
  }

  /**
   * The hue as JavaScript prints it: an integer when t = (i * 275) % 720 is even,
   * an integer and a half when odd.
   */
  function HueText(i: nat): (r: string)
    ensures Denotes(r, Hue(i))
  {
    var t := (i * 275) % 720;
    var digits := NatToString(t / 2);
    ValueOfNatToString(t / 2);
    if t % 2 == 0 then digits
    else
      assert (digits + ".5")[..|digits|] == digits;
      digits + ".5"
  }

  /** The colour generated for position i beyond the base palette. */
  function GeneratedColor(i: nat): (c: string)
    ensures |c| > 4 && c[..4] == "hsl("
  {
    "hsl(" + HueText(i) + ", 70%, 50%)"
  }

  /** The colour at position i of the (conceptually unbounded) extended palette. */
  function Entry(i: nat): string {
    if i < |BASE_COLORS| then BASE_COLORS[i] else GeneratedColor(i)
  }

  /** Generated colours are never mistaken for a base colour: those all start with '#'. */
  lemma GeneratedNotInBase(i: nat)
    ensures GeneratedColor(i) !in BASE_COLORS
  {
  }

  /** End index of `slice(0, end)` on an array of length len (a negative end counts from the back). */
  function SliceEnd(len: nat, end: int): (k: nat)
    ensures k <= len
    ensures 0 <= end <= len ==> k == end
  {
    if end < 0 then (if len + end < 0 then 0 else len + end)
    else if end > len then len
    else end
  }

  /** Position by position, s follows the extended palette. */
  predicate FollowsPalette(s: seq<string>) {
    forall k :: 0 <= k < |s| ==> s[k] == Entry(k)
  }

  /**
   * Any colour list that follows the extended palette position by position keeps the
   * base palette as it is: a prefix of it when short, all of it first when longer.
   */
  lemma {:induction false} PaletteKeepsBase(colors: seq<string>)
    requires FollowsPalette(colors)
    ensures |colors| <= |BASE_COLORS| ==> colors == BASE_COLORS[..|colors|]
    ensures |colors| > |BASE_COLORS| ==> colors[..|BASE_COLORS|] == BASE_COLORS
    ensures forall i :: |BASE_COLORS| <= i < |colors| ==> colors[i] !in BASE_COLORS
  {
    forall i | |BASE_COLORS| <= i < |colors|
      ensures colors[i] !in BASE_COLORS
    {
      GeneratedNotInBase(i);
    }
  }

  /** The base palette is the start of the extended palette. */
  lemma BaseFollowsPalette()
    ensures FollowsPalette(BASE_COLORS)
  {
  }

  /** Beyond the base palette, the extended palette is the generated colour. */
  lemma EntryBeyondBase(i: nat)
    requires i >= |BASE_COLORS|
    ensures Entry(i) == GeneratedColor(i)
  {
  }

  /** Appending the generated colour for the next position beyond the base palette keeps following it. */
  lemma AppendGenerated(s: seq<string>)
    requires FollowsPalette(s) && |s| >= |BASE_COLORS|
    ensures FollowsPalette(s + [GeneratedColor(|s|)])
  {
    var n := |s|;
    var t := s + [GeneratedColor(n)];
    EntryBeyondBase(n);
    assert t[n] == GeneratedColor(n);
    forall k | 0 <= k < |t|
      ensures t[k] == Entry(k)
    {
      if k < n {
        assert t[k] == s[k];
      } else {
        assert k == n;
      }
    }
  }

  /** Every prefix of a list that follows the extended palette follows it too. */
  lemma PrefixFollows(s: seq<string>, n: nat)
    requires FollowsPalette(s) && n <= |s|
    ensures FollowsPalette(s[..n])
  {
  }

  /**
   * Copies the base palette, appends generated colours up to position count - 1
   * and returns the first count entries. Its result follows the extended palette
   * position by position, so PaletteKeepsBase applies to it.
   */
  method GenerateColors(count: int) returns (colors: seq<string>)
    ensures count >= 0 ==> |colors| == count
    ensures count < 0 ==> |colors| == SliceEnd(|BASE_COLORS|, count)
    ensures FollowsPalette(colors)
  {
    var baseColors := BASE_COLORS;
    BaseFollowsPalette();
    if count > |baseColors| {
      var i := |baseColors|;
      while i < count
        invariant |BASE_COLORS| <= i <= count
        invariant |baseColors| == i
        invariant FollowsPalette(baseColors)
      {
        AppendGenerated(baseColors);
        baseColors := baseColors + [GeneratedColor(i)];
        i := i + 1;
      }
    }
    var n := SliceEnd(|baseColors|, count);
    PrefixFollows(baseColors, n);
    colors := baseColors[..n];
  }
}
