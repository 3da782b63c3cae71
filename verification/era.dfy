/** The Japanese calendar era in effect in the year a person turns 17
    (`getEraName` and `calculateEra` in main.js).

    Both functions add 17 to the birth year and compare the result against
    the first years of Reiwa (2019), Heisei (1989) and Showa (1926); a year
    on a boundary belongs to the newer era.
 */
module Era {
  import opened Options
  import opened Decimal

  /** The eras the source distinguishes. `Taisho` is the catch-all for every
      year before Showa, however early. */
  datatype Era = Taisho | Showa | Heisei | Reiwa

  /** The age at which the era is taken. */
  const AgeOffset: int := 17

  const ShowaStart: int := 1926
  const HeiseiStart: int := 1989
  const ReiwaStart: int := 2019

  /** Position of an era in time: later eras have larger ranks. */
  function Rank(e: Era): nat {
    match e
    case Taisho => 0
    case Showa => 1
    case Heisei => 2
    case Reiwa => 3
  }

  /** First Gregorian year of a named era. */
  function Start(e: Era): int
    requires e != Taisho
  {
    match e
    case Showa => ShowaStart
    case Heisei => HeiseiStart
    case Reiwa => ReiwaStart
  }

  /** The name-only label `getEraName` returns. */
  function EraName(e: Era): string {
    match e
    case Taisho => "大正 TAISHO"
    case Showa => "昭和 SHOWA"
    case Heisei => "平成 HEISEI"
    case Reiwa => "令和 REIWA"
  }

  /** The two-character era name `calculateEra` prefixes to the era year. */
  function Kanji(e: Era): (k: string)
    ensures |k| == 2
  {
    match e
    case Taisho => "大正"
    case Showa => "昭和"
    case Heisei => "平成"
    case Reiwa => "令和"
  }

  /** A year as `calculateEra` describes it: within a named era (with the
      era-relative year and the Gregorian year), or before Showa (the
      Gregorian year alone). */
  datatype EraDate = InEra(era: Era, number: int, year: int) | Before(year: int)

  /** The era a description names; a year before Showa is in the catch-all era. */
  function EraOf(d: EraDate): Era {
    match d
    case InEra(e, _, _) => e
    case Before(_) => Taisho
  }

  /** The Gregorian year a description denotes. */
  function Gregorian(d: EraDate): int
    requires d.InEra? ==> d.era != Taisho
  {
    match d
    case InEra(e, n, _) => Start(e) + n - 1
    case Before(y) => y
  }

  /** The classification of `calculateEra` (main.js:51-70): the year the
      person turns 17, placed in the latest era that has begun by then. */
  function EraDateOf(birthYear: int): (d: EraDate)
    // The year described is always the year of turning 17 ...
    ensures d.year == birthYear + AgeOffset
    // ... and it is given an era exactly when Showa has begun by then.
    ensures d.InEra? <==> birthYear + AgeOffset >= ShowaStart
    // The era is one that has begun, and no later era has.
    ensures d.InEra? ==> d.era != Taisho && Start(d.era) <= d.year
    ensures d.InEra? ==> forall e :: e != Taisho && Start(e) <= d.year ==> Rank(e) <= Rank(d.era)
    // The era-relative year counts from 1 and denotes the same Gregorian year.
    ensures d.InEra? ==> d.number >= 1 && Gregorian(d) == d.year
    ensures d.InEra? && d.era == Showa ==> d.number <= 63
    ensures d.InEra? && d.era == Heisei ==> d.number <= 30
  {
    var age17Year := birthYear + AgeOffset;
    if age17Year >= ReiwaStart then
      InEra(Reiwa, age17Year - ReiwaStart + 1, age17Year)
    else if age17Year >= HeiseiStart then
      InEra(Heisei, age17Year - HeiseiStart + 1, age17Year)
    else if age17Year >= ShowaStart then
      InEra(Showa, age17Year - ShowaStart + 1, age17Year)
    else
      Before(age17Year)
  }

  /** The text `calculateEra` builds from a description:
      `令和5年（2023年）` within an era, `1925年` before Showa. */
  function Render(d: EraDate): string {
    match d
    case InEra(e, n, y) => Kanji(e) + Show(n) + "年（" + Show(y) + "年）"
    case Before(y) => Show(y) + "年"
  }

  /** The label with its parenthesised Gregorian year dropped: `令和5年`. */
  function ShortLabel(d: EraDate): string
    requires d.InEra?
  {
    Kanji(d.era) + Show(d.number) + "年"
  }

  /** `calculateEra(birthYear)` (main.js:51-70). The label can be read back
      into the era date it was built from. */
  function CalculateEra(birthYear: int): (text: string)
    ensures ParseEraLabel(text) == Some(EraDateOf(birthYear))
  {
    var d := EraDateOf(birthYear);
    ParseRender(d);
    Render(d)
  }

  /** `getEraName(x)` (main.js:36-48), where `x` is `None` when the source
      passes `NaN` (`parseInt` of a non-numeric key): `NaN + 17` is `NaN`
      and every comparison with it is false, so it falls to the last branch.
      For a number it names the same era as `calculateEra`, by its own
      comparisons. */
  function GetEraName(birthYear: Option<int>): (name: string)
    ensures birthYear.Some? ==> name == EraName(EraOf(EraDateOf(birthYear.value)))
    ensures birthYear.None? ==> name == EraName(Taisho)
  {
    var age17Year := if birthYear.Some? then Some(birthYear.value + AgeOffset) else None;
    if AtLeast(age17Year, ReiwaStart) then "令和 REIWA"
    else if AtLeast(age17Year, HeiseiStart) then "平成 HEISEI"
    else if AtLeast(age17Year, ShowaStart) then "昭和 SHOWA"
    else "大正 TAISHO"
  }

  /** JavaScript's `x >= bound`, which is false when `x` is `NaN`. */
  predicate AtLeast(x: Option<int>, bound: int) {
    x.Some? && x.value >= bound
  }

  /** The era boundaries, both ways: the era is Reiwa from 2019, Heisei
      from 1989 and Showa from 1926 on (in the year of turning 17), and
      anything earlier is before Showa. */
  lemma EraBoundaries(b: int)
    ensures EraOf(EraDateOf(b)) == Reiwa <==> b + AgeOffset >= 2019
    ensures EraOf(EraDateOf(b)) == Heisei <==> 1989 <= b + AgeOffset < 2019
    ensures EraOf(EraDateOf(b)) == Showa <==> 1926 <= b + AgeOffset < 1989
    ensures EraOf(EraDateOf(b)) == Taisho <==> b + AgeOffset < 1926
  {
  }

  /** `getEraName` and `calculateEra` agree: the era named for a birth year
      is the era of the label `calculateEra` gives it. */
  lemma EraNameAgrees(b: int)
    ensures ParseEraLabel(CalculateEra(b)).Some?
    ensures GetEraName(Some(b)) == EraName(EraOf(ParseEraLabel(CalculateEra(b)).value))
  {
  }

  /** A later birth year never maps to an earlier era. */
  lemma EraMonotone(b1: int, b2: int)
    requires b1 <= b2
    ensures Rank(EraOf(EraDateOf(b1))) <= Rank(EraOf(EraDateOf(b2)))
  {
  }

  /** Within one era, the era-relative year moves in step with the birth year. */
  lemma EraNumberStep(b: int)
    requires EraDateOf(b).InEra?
    ensures EraOf(EraDateOf(b + 1)) == EraOf(EraDateOf(b)) ==>
              EraDateOf(b + 1).number == EraDateOf(b).number + 1
    ensures EraOf(EraDateOf(b + 1)) != EraOf(EraDateOf(b)) ==>
              EraDateOf(b + 1).number == 1 && Rank(EraOf(EraDateOf(b + 1))) == Rank(EraOf(EraDateOf(b))) + 1
  {
  }

  /** Two birth years with the same `calculateEra` label are the same year. */
  lemma CalculateEraInjective(b1: int, b2: int)
    ensures CalculateEra(b1) == CalculateEra(b2) ==> b1 == b2
  {
  }

  // ---------------------------------------------------------------------
  // Reading a label back: the inverse of `Render`.

  /** The era whose two-character name is `k`, if any. */
  function KanjiEra(k: string): (r: Option<Era>)
    ensures r.Some? ==> r.value != Taisho && Kanji(r.value) == k
  {
    if k == "令和" then Some(Reiwa)
    else if k == "平成" then Some(Heisei)
    else if k == "昭和" then Some(Showa)
    else None
  }

  /** Index of the first occurrence of `c` in `s`. */
  function FindChar(s: string, c: char): (r: Option<nat>)
    ensures r.Some? ==> r.value < |s| && s[r.value] == c && c !in s[..r.value]
    ensures r.None? ==> c !in s
  {
    if s == [] then None
    else if s[0] == c then Some(0)
    else
      match FindChar(s[1..], c)
      case None => None
      case Some(k) => assert s[1..][..k] == s[1..k + 1]; Some(k + 1)
  }

  /** Reads a label of either shape `calculateEra` produces. */
  function ParseEraLabel(s: string): Option<EraDate> {
    if |s| >= 1 && s[|s| - 1] == '年' then
      match Parse(s[..|s| - 1])
      case Some(y) => Some(Before(y))
      case None => None
    else if |s| >= 2 then
      match KanjiEra(s[..2])
      case Some(e) => ParseEraBody(e, s[2..])
      case None => None
    else None
  }

  /** Reads `<number>年（<year>年）`, what follows the era name. */
  function ParseEraBody(e: Era, t: string): Option<EraDate> {
    match FindChar(t, '年')
    case None => None
    case Some(k) =>
      var tail := t[k + 1..];
      if |tail| >= 3 && tail[0] == '（' && tail[|tail| - 2] == '年' && tail[|tail| - 1] == '）' then
        match (Parse(t[..k]), Parse(tail[1..|tail| - 2]))
        case (Some(n), Some(y)) => Some(InEra(e, n, y))
        case _ => None
      else None
  }

  /** Digits contain no `年`. */
  lemma NoYearCharInDigits(s: string)
    requires AllDigits(s)
    ensures '年' !in s
  {
  }

  /** Reading a rendered era date gives it back. */
  lemma ParseRender(d: EraDate)
    requires d.InEra? ==> d.era != Taisho && d.number >= 0 && d.year >= 0
    ensures ParseEraLabel(Render(d)) == Some(d)
  {
    match d
    case Before(y) =>
      var s := Render(d);
      assert s[..|s| - 1] == Show(y);
      ParseShow(y);
    case InEra(e, n, y) =>
      var body := Show(n) + "年（" + Show(y) + "年）";
      var s := Render(d);
      assert s == Kanji(e) + body;
      assert s[|s| - 1] == '）';
      assert s[..2] == Kanji(e) && s[2..] == body;
      assert KanjiEra(Kanji(e)) == Some(e);
      ParseBody(e, n, y);
  }

  /** Reading what follows the era name in a rendered label. */
  lemma ParseBody(e: Era, n: nat, y: nat)
    ensures ParseEraBody(e, Show(n) + "年（" + Show(y) + "年）") == Some(InEra(e, n, y))
  {
    var sn, sy := Show(n), Show(y);
    var t := sn + "年（" + sy + "年）";
    var rest := "（" + sy + "年）";
    assert t == sn + ['年'] + rest;
    NoYearCharInDigits(sn);
    FindFirstYearChar(sn, rest);
    assert t[..|sn|] == sn;
    assert t[|sn| + 1..] == rest;
    assert rest[1..|rest| - 2] == sy;
    ParseShow(n);
    ParseShow(y);
  }

  /** In `a + 年 + b` where `a` has no `年`, the first `年` is right after `a`. */
  lemma FindFirstYearChar(a: string, b: string)
    requires '年' !in a
    ensures FindChar(a + ['年'] + b, '年') == Some(|a|)
  {
    if a != [] {
      assert (a + ['年'] + b)[1..] == a[1..] + ['年'] + b;
      FindFirstYearChar(a[1..], b);
    }
  }
}
