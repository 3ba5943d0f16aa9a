/**
 * The time picker of src/feature/planner/components/modal/TimeSelector.tsx: reading an
 * initial "HH:MM" into a 12-hour hour, a minute and an AM/PM indicator, writing the three
 * back as "HH:MM", and the labels of the hour and minute wheels.
 */
module TimeSelector {
  import opened Wrappers
  import opened JsText

  /** The values `Number(...)` takes here: NaN or a non-negative integer. */
  datatype Num = NaN | Val(n: nat)

  datatype Indicator = AM | PM

  /** The picker state: hour (0..11 for in-range input), minute and indicator. */
  datatype TimeState = TimeState(hour: Num, minute: Num, indicator: Indicator)

  /** The index of the first ':' of s, or -1. */
  function ColonIndex(s: string): (r: int)
    ensures -1 <= r < |s|
    ensures r == -1 <==> ':' !in s
    ensures r >= 0 ==> s[r] == ':' && ':' !in s[..r]
  {
    if s == [] then -1
    else if s[0] == ':' then 0
    else
      var k := ColonIndex(s[1..]);
      assert s[1..][..if k >= 0 then k else 0] == s[1..if k >= 0 then k + 1 else 1];
      if k == -1 then -1 else k + 1
  }

  /** The first two parts of `s.split(':')`; the second is undefined when there is no ':'.
      The first part ends at the first ':' and the second at the next ':' or at the end. */
  function Segments(s: string): (r: (string, Option<string>))
    ensures ':' !in r.0
    ensures ':' !in s ==> r == (s, None)
    ensures ':' in s ==>
      && r.1.Some? && ':' !in r.1.value
      && |r.0| + 1 + |r.1.value| <= |s| && s[..|r.0| + 1 + |r.1.value|] == r.0 + ":" + r.1.value
      && (|r.0| + 1 + |r.1.value| < |s| ==> s[|r.0| + 1 + |r.1.value|] == ':')
  {
    var i := ColonIndex(s);
    if i == -1 then (s, None)
    else
      var rest := s[i + 1..];
      var j := ColonIndex(rest);
      var second := if j == -1 then rest else rest[..j];
      assert s[..i + 1 + |second|] == s[..i] + ":" + second;
      (s[..i], Some(second))
  }

  /** Splitting "a:b" with no ':' in a or b gives back a and b. */
  lemma SegmentsOfJoin(a: string, b: string)
    requires ':' !in a && ':' !in b
    ensures Segments(a + ":" + b) == (a, Some(b))
  {
    var s := a + ":" + b;
    assert s[|a|] == ':';
    var r := Segments(s);
    assert r.0 == s[..ColonIndex(s)];
    assert s[..|a|] == a;
    assert s[|a| + 1..] == b;
  }

  /** `Number(segment)`, for a missing segment, the empty string and decimal digit strings. */
  function Number(segment: Option<string>): Num {
    if segment.None? then NaN
    else if IsDigits(segment.value) then Val(DigitsValue(segment.value))
    else NaN
  }

  /** The initial-value effect: the hour folds onto 0..11 with the indicator PM from 12 on. */
  function ParseTime(initialTimeValue: string): TimeState {
    var parts := Segments(initialTimeValue);
    FoldHour(Number(Some(parts.0)), Number(parts.1))
  }

  /** The picker state for a read hour and minute: a 24-hour hour folds onto 0..11, with PM
      exactly from 12 on; the minute is kept. */
  function FoldHour(hour: Num, minute: Num): (r: TimeState)
    ensures r.minute == minute
    ensures hour.Val? && hour.n <= 23 ==>
      && r.hour.Val? && r.hour.n < 12
      && (r.indicator == PM <==> hour.n >= 12)
      && r.hour.n + (if r.indicator == PM then 12 else 0) == hour.n
    ensures hour.NaN? ==> r == TimeState(NaN, minute, AM)
  {
    var afternoon := hour.Val? && hour.n >= 12;
    TimeState(if afternoon then Val(hour.n - 12) else hour, minute, if afternoon then PM else AM)
  }

  /** `String(x)`. */
  function NumString(x: Num): string {
    match x
    case NaN => "NaN"
    case Val(n) => NatToString(n)
  }

  /** The 24-hour hour the onChange effect writes: 12 more than the hour in PM, except for 12. */
  function Hour24(st: TimeState): Num {
    if st.indicator == PM && st.hour != Val(12) then
      match st.hour
      case NaN => NaN
      case Val(h) => Val(h + 12)
    else st.hour
  }

  /** The onChange effect's value: both numbers padded to two characters, joined by ':'. */
  function FormatTime(st: TimeState): string {
    PadStart(NumString(Hour24(st)), 2, '0') + ":" + PadStart(NumString(st.minute), 2, '0')
  }

  /** The canonical "HH:MM" text of an hour and a minute. */
  function TimeString(h: nat, m: nat): string {
    Pad2(h) + ":" + Pad2(m)
  }

  /** A digit string holds no ':'. */
  lemma DigitsHaveNoColon(s: string)
    requires IsDigits(s)
    ensures ':' !in s
  {
  }

  /** Reading two colon-free strings joined by ':' reads each of them as a number. */
  lemma ParseJoin(a: string, b: string)
    requires ':' !in a && ':' !in b
    ensures ParseTime(a + ":" + b) == FoldHour(Number(Some(a)), Number(Some(b)))
  {
    SegmentsOfJoin(a, b);
  }

  /** The two-digit form of a number below 100 reads back as that number. */
  lemma NumberOfPad2(n: nat)
    requires n < 100
    ensures ':' !in Pad2(n) && Number(Some(Pad2(n))) == Val(n)
  {
    Pad2Digits(n);
    DigitsHaveNoColon(Pad2(n));
  }

  /** Reading "HH:MM" for a valid time reads H and M; with `FoldHour`, the hour comes back as
      H-12 from 12 on and H before, always below 12, with PM exactly from 12 on. */
  lemma ParseTimeString(h: nat, m: nat)
    requires h <= 23 && m <= 59
    ensures ParseTime(TimeString(h, m)) == FoldHour(Val(h), Val(m))
  {
    NumberOfPad2(h);
    NumberOfPad2(m);
    ParseJoin(Pad2(h), Pad2(m));
  }

  /** Two two-character strings joined by ':' have the ':' at index 2 and come apart again. */
  lemma JoinHalves(a: string, b: string)
    requires |a| == 2 && |b| == 2
    ensures var r := a + ":" + b; |r| == 5 && r[2] == ':' && r[..2] == a && r[3..] == b
  {
  }

  /** For a 24-hour hour and a minute below 100, the written value has five characters with ':'
      in the middle, and its two halves read back as that hour and that minute. */
  lemma FormatTimeFacts(h: nat, m: nat, ind: Indicator)
    requires Hour24(TimeState(Val(h), Val(m), ind)).n < 100 && m < 100
    ensures var r := FormatTime(TimeState(Val(h), Val(m), ind));
      && |r| == 5 && r[2] == ':'
      && IsDigits(r[..2]) && DigitsValue(r[..2]) == (if ind == PM && h != 12 then h + 12 else h)
      && IsDigits(r[3..]) && DigitsValue(r[3..]) == m
  {
    var h24 := Hour24(TimeState(Val(h), Val(m), ind)).n;
    assert FormatTime(TimeState(Val(h), Val(m), ind)) == Pad2(h24) + ":" + Pad2(m);
    Pad2Digits(h24);
    Pad2Digits(m);
    JoinHalves(Pad2(h24), Pad2(m));
  }

  /** Writing back a read valid time gives its "HH:MM" text. */
  lemma FormatFolded(h: nat, m: nat)
    requires h <= 23 && m <= 59
    ensures FormatTime(FoldHour(Val(h), Val(m))) == TimeString(h, m)
  {
    assert Hour24(FoldHour(Val(h), Val(m))) == Val(h);
  }

  /** Writing back what was read gives the same "HH:MM" for every valid time. */
  lemma RoundTrip(h: nat, m: nat)
    requires h <= 23 && m <= 59
    ensures FormatTime(ParseTime(TimeString(h, m))) == TimeString(h, m)
  {
    ParseTimeString(h, m);
    FormatFolded(h, m);
  }

  /** Without a ':' the minute reads as NaN, which is written back as "NaN". */
  lemma NoColonMinute(s: string)
    requires ':' !in s
    ensures ParseTime(s).minute == NaN
    ensures var r := FormatTime(ParseTime(s)); r[|r| - 3..] == "NaN"
  {
    var r := FormatTime(ParseTime(s));
    assert PadStart("NaN", 2, '0') == "NaN";
    assert r[|r| - 3..] == PadStart(NumString(ParseTime(s).minute), 2, '0');
  }

  /** The hour wheel's label: option 0 reads "12", every other option its own number. */
  function HourLabel(hourOption: nat): (r: string)
    ensures IsDigits(r) && DigitsValue(r) == if hourOption == 0 then 12 else hourOption
    ensures hourOption == 0 ==> r == "12"
  {
    var r := NatToString(if hourOption == 0 then 12 else hourOption);
    assert hourOption == 0 ==> r == "12" by {
      if hourOption == 0 {
        assert NatToString(1) == "1";
      }
    }
    r
  }

  /** The minute wheel's label: two digits that read back as the option. */
  function MinuteLabel(minuteOption: nat): (r: string)
    requires minuteOption < 100
    ensures |r| == 2 && IsDigits(r) && DigitsValue(r) == minuteOption
  {
    Pad2Digits(minuteOption);
    Pad2(minuteOption)
  }
}
