/** The birth-year choices offered to the user (the loop of
    `generateBirthYearGroups`, main.js:88-104).

    Counting down from the current year to 1950 in steps of five, each step
    offers the five birth years `[year - 4, year]`, valued `year` and labelled
    with the era in which the middle year `year - 2` turns 17. The current
    year is a parameter: the source reads it from the wall clock.
 */
module BirthYearGroups {
  import opened Decimal
  import opened Era
  import Parenthetical

  const StartYear: int := 1950

  /** One choice: birth years `lower..upper`; the option's value is `upper`. */
  datatype Bucket = Bucket(lower: int, upper: int)

  /** The era shown for a choice (main.js:96-100): `calculateEra` of the
      middle year `upper - 2`, with the bracketed Gregorian year removed
      (`ReplaceDropsYear` shows this is what the source's `replace` gives). */
  function Era17(b: Bucket): string {
    EraWithoutYear(b.upper - 2)
  }

  /** The option text (main.js:102), `1990年-1994年 (17歳は平成5年)`. */
  function OptionText(b: Bucket): string {
    RangeText(b) + Era17(b) + ")"
  }

  /** The part of the option text before the era: `1990年-1994年 (17歳は`. */
  function RangeText(b: Bucket): string {
    Show(b.lower) + "年-" + Show(b.upper) + "年 (17歳は"
  }

  /** A label with its Gregorian year dropped: the era name and era-relative
      year within an era, the whole label before Showa. */
  function EraWithoutYear(birthYear: int): string {
    var d := EraDateOf(birthYear);
    if d.InEra? then ShortLabel(d) else Render(d)
  }

  /** `calculateEra(birthYear).replace(/（.+?）/, '')` (main.js:98-100): for
      a year in a named era it leaves the era name and era-relative year
      alone; before Showa the label has no brackets and is kept whole. */
  lemma ReplaceDropsYear(birthYear: int)
    ensures EraDateOf(birthYear).InEra? ==>
              Parenthetical.RemoveFirst(CalculateEra(birthYear)) == ShortLabel(EraDateOf(birthYear))
    ensures EraDateOf(birthYear).Before? ==>
              Parenthetical.RemoveFirst(CalculateEra(birthYear)) == CalculateEra(birthYear)
    ensures Parenthetical.RemoveFirst(CalculateEra(birthYear)) == EraWithoutYear(birthYear)
  {
    var d := EraDateOf(birthYear);
    assert CalculateEra(birthYear) == Render(d);
    StripLabel(d);
  }

  /** What removing the bracketed segment leaves of a rendered era date. */
  lemma StripLabel(d: EraDate)
    requires d.InEra? ==> d.era != Taisho && d.number >= 0
    ensures d.InEra? ==> Parenthetical.RemoveFirst(Render(d)) == ShortLabel(d)
    ensures d.Before? ==> Parenthetical.RemoveFirst(Render(d)) == Render(d)
  {
    if d.InEra? {
      StripInEra(d);
    } else {
      StripBefore(d.year);
    }
  }

  /** A label within an era loses its bracketed Gregorian year. */
  lemma StripInEra(d: EraDate)
    requires d.InEra? && d.era != Taisho && d.number >= 0
    ensures Parenthetical.RemoveFirst(Render(d)) == ShortLabel(d)
  {
    var p := ShortLabel(d);
    var m := Show(d.year) + "年";
    assert Render(d) == p + [Parenthetical.Open] + m + [Parenthetical.Close];
    ShortLabelNoBracket(d);
    NoBracketInShow(d.year);
    assert forall k :: 0 <= k < |m| ==> !Parenthetical.IsLineTerminator(m[k]);
    Parenthetical.RemoveTrailing(p, m);
  }

  /** A label before Showa has no bracket and is kept whole. */
  lemma StripBefore(y: int)
    ensures Parenthetical.RemoveFirst(Render(Before(y))) == Render(Before(y))
  {
    NoBracketInShow(y);
    assert Render(Before(y)) == Show(y) + "年";
    assert Parenthetical.Open !in Render(Before(y));
    Parenthetical.RemoveNoOpen(Render(Before(y)));
  }

  /** Printed numbers contain neither bracket nor a line break. */
  lemma NoBracketInShow(i: int)
    ensures Parenthetical.Open !in Show(i) && Parenthetical.Close !in Show(i)
    ensures forall k :: 0 <= k < |Show(i)| ==> !Parenthetical.IsLineTerminator(Show(i)[k])
  {
    var s := Show(i);
    forall k | 0 <= k < |s|
      ensures s[k] != Parenthetical.Open && s[k] != Parenthetical.Close
      ensures !Parenthetical.IsLineTerminator(s[k])
    {
      if i < 0 && k > 0 {
        assert s[k] == s[1..][k - 1];
      }
    }
  }

  /** Number of choices offered in `currentYear`: one per step of five
      years down to 1950. */
  function BucketCount(currentYear: int): (n: nat)
    ensures currentYear < StartYear ==> n == 0
    decreases currentYear - StartYear + 5
  {
    if currentYear < StartYear then 0 else 1 + BucketCount(currentYear - 5)
  }

  /** In closed form, a year at or after 1950 offers one choice per full
      five years since 1950, plus one. */
  lemma {:induction false} BucketCountClosedForm(currentYear: int)
    requires currentYear >= StartYear
    ensures BucketCount(currentYear) == (currentYear - StartYear) / 5 + 1
    decreases currentYear - StartYear
  {
    if currentYear - 5 >= StartYear {
      BucketCountClosedForm(currentYear - 5);
    }
  }

  /** The loop of `generateBirthYearGroups` (main.js:88-104), collecting the
      choices in the order they are appended to the select box. */
  method GenerateBirthYearGroups(currentYear: int) returns (buckets: seq<Bucket>)
    // One choice per step from the current year down to 1950; none before 1950.
    ensures |buckets| == BucketCount(currentYear)
    ensures currentYear < StartYear <==> buckets == []
    // Upper bounds start at the current year and fall by five, staying at or above 1950;
    // the last is within five years of 1950.
    ensures forall i :: 0 <= i < |buckets| ==> buckets[i].upper == currentYear - 5 * i
    ensures forall i :: 0 <= i < |buckets| ==> buckets[i].upper >= StartYear
    ensures buckets != [] ==> buckets[|buckets| - 1].upper < StartYear + 5
    // Each choice spans five years, and consecutive choices meet without gap or overlap.
    ensures forall i :: 0 <= i < |buckets| ==> buckets[i].lower == buckets[i].upper - 4
    ensures forall i, j :: 0 <= i && j == i + 1 && j < |buckets| ==> buckets[j].upper == buckets[i].lower - 1
  {
    buckets := [];
    var year := currentYear;
    while year >= StartYear
      invariant year == currentYear - 5 * |buckets|
      invariant forall i :: 0 <= i < |buckets| ==> Placed(buckets[i], currentYear, i)
      invariant BucketCount(currentYear) == |buckets| + BucketCount(year)
      decreases year - StartYear + 5
    {
      buckets := buckets + [Bucket(year - 4, year)];
      year := year - 5;
    }
    forall i, j | 0 <= i && j == i + 1 && j < |buckets| ensures buckets[j].upper == buckets[i].lower - 1 {
      assert Placed(buckets[i], currentYear, i) && Placed(buckets[j], currentYear, j);
    }
  }

  /** `b` is the `i`-th choice offered in `currentYear`. */
  predicate Placed(b: Bucket, currentYear: int, i: int) {
    && b.upper == currentYear - 5 * i
    && b.upper >= StartYear
    && b.lower == b.upper - 4
  }

  /** Every offered choice is labelled with a named era (Showa or later) and
      its era-relative year alone: its middle year is at least 1948, which
      turns 17 in 1965 or later. */
  lemma OfferedLabelIsShort(b: Bucket)
    requires b.upper >= StartYear
    ensures EraOf(EraDateOf(b.upper - 2)) != Taisho
    ensures Era17(b) == ShortLabel(EraDateOf(b.upper - 2))
    ensures Parenthetical.Open !in Era17(b)
  {
    var d := EraDateOf(b.upper - 2);
    assert d.InEra? && d.era != Taisho;
    assert Era17(b) == ShortLabel(d);
    ShortLabelNoBracket(d);
  }

  /** A label without its Gregorian year has no bracket left in it. */
  lemma ShortLabelNoBracket(d: EraDate)
    requires d.InEra?
    ensures Parenthetical.Open !in ShortLabel(d) && Parenthetical.Close !in ShortLabel(d)
  {
    NoBracketInShow(d.number);
    assert ShortLabel(d) == Kanji(d.era) + Show(d.number) + "年";
  }

  /** The label of a choice names the era of its middle year, but choosing
      it stores the birth year `upper`, whose era is the one the track's
      label and its playlist header show. The two differ exactly for the
      choices whose upper year turns 17 in the first two years of Heisei or
      of Reiwa. */
  lemma OfferedEraVersusStored(b: Bucket)
    requires b.upper >= StartYear
    ensures EraOf(EraDateOf(b.upper - 2)) != EraOf(EraDateOf(b.upper)) <==>
              b.upper + AgeOffset in {HeiseiStart, HeiseiStart + 1, ReiwaStart, ReiwaStart + 1}
  {
  }

  /** The text of an offered choice (main.js:102) is its range followed by
      the short label of its middle year, which `ReplaceDropsYear` shows is
      what the source's `replace` leaves of `calculateEra`; no opening
      bracket is left in it. */
  lemma OptionTextOfOffered(b: Bucket)
    requires b.upper >= StartYear
    ensures OptionText(b) == RangeText(b) + ShortLabel(EraDateOf(b.upper - 2)) + ")"
    ensures Parenthetical.Open !in OptionText(b)
  {
    OfferedLabelIsShort(b);
    RangeTextNoBracket(b);
    NoOpenInJoin(RangeText(b), Era17(b));
  }

  /** The range part of an option text has no opening bracket. */
  lemma RangeTextNoBracket(b: Bucket)
    ensures Parenthetical.Open !in RangeText(b)
  {
    NoBracketInShow(b.lower);
    NoBracketInShow(b.upper);
  }

  /** Joining two bracket-free texts and a closing parenthesis opens no bracket. */
  lemma NoOpenInJoin(p: string, q: string)
    requires Parenthetical.Open !in p && Parenthetical.Open !in q
    ensures Parenthetical.Open !in p + q + ")"
  {
  }
}
