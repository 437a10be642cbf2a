/**
 * The cron matcher of the backup runner and the meaning of the schedules it is given.
 *
 * `MatchesCronExpression` works on text. `ScheduleMeans` gives the meaning of a syntax tree as sets of values; the
 * theorems relate the two on the printed text of a tree.
 */
module Cron {
  import opened Prelude
  import opened Text

  /** The UTC fields of a date; Sunday is 0. */
  datatype Time = Time(minute: nat, hour: nat, dayOfMonth: nat, month: nat, dayOfWeek: nat)

  predicate IsTime(t: Time) {
    t.minute <= 59 && t.hour <= 23 && 1 <= t.dayOfMonth <= 31 && 1 <= t.month <= 12 && t.dayOfWeek <= 6
  }

  // ---------------------------------------------------------------------------------------------------------------
  // The matcher
  // ---------------------------------------------------------------------------------------------------------------

  function NormalizeCronValue(value: nat, max: nat): nat {
    if max == 7 && value == 7 then 0 else value
  }

  /** The second of at most two pieces, if there is one. */
  function Second(parts: seq<string>): Option<string> {
    if |parts| > 1 then Some(parts[1]) else None
  }

  function StepOf(text: Option<string>): Option<nat> {
    if text == None || text == Some("") then Some(1) else ParseInteger(text.value)
  }

  predicate MatchCronSegment(segment: string, value: nat, min: nat, max: nat) {
    var trimmed := Trim(segment);
    if trimmed == "*" then true
    else
      var pieces := Split(trimmed, '/');
      var base, step := pieces[0], StepOf(Second(pieces));
      var normalized := NormalizeCronValue(value, max);
      if step == None || step == Some(0) then false
      else if base == "" || base == "*" then min <= normalized <= max && (normalized - min) % step.value == 0
      else if '-' in base then
        var ends := Split(base, '-');
        var start, end := ParseInteger(ends[0]), ParseInteger(if |ends| > 1 then ends[1] else "");
        if start == None || end == None then false
        else
          var first, last := NormalizeCronValue(start.value, max), NormalizeCronValue(end.value, max);
          first <= normalized <= last && (normalized - first) % step.value == 0
      else
        var exact := ParseInteger(base);
        exact.Some? && NormalizeCronValue(exact.value, max) == normalized
  }

  predicate MatchesField(field: string, value: nat, min: nat, max: nat) {
    var segments := Split(field, ',');
    exists i :: 0 <= i < |segments| && MatchCronSegment(segments[i], value, min, max)
  }

  predicate FieldIsWildcard(field: string) {
    Trim(field) == "*"
  }

  predicate MatchesFields(minute: string, hour: string, dayOfMonth: string, month: string, dayOfWeek: string, t: Time) {
    var dayOfMonthMatches := MatchesField(dayOfMonth, t.dayOfMonth, 1, 31);
    var dayOfWeekMatches := MatchesField(dayOfWeek, t.dayOfWeek, 0, 7);
    && MatchesField(minute, t.minute, 0, 59)
    && MatchesField(hour, t.hour, 0, 23)
    && MatchesField(month, t.month, 1, 12)
    && (if FieldIsWildcard(dayOfMonth) && FieldIsWildcard(dayOfWeek) then true
        else if FieldIsWildcard(dayOfMonth) then dayOfWeekMatches
        else if FieldIsWildcard(dayOfWeek) then dayOfMonthMatches
        else dayOfMonthMatches || dayOfWeekMatches)
  }

  predicate MatchesCronExpression(schedule: string, t: Time) {
    var fields := SplitSpaces(Trim(schedule));
    |fields| == 5 && MatchesFields(fields[0], fields[1], fields[2], fields[3], fields[4], t)
  }

  // ---------------------------------------------------------------------------------------------------------------
  // Syntax trees and their text
  // ---------------------------------------------------------------------------------------------------------------

  datatype Item =
    | Every(step: Option<nat>)
    | Span(low: nat, high: nat, step: Option<nat>)
    | Exactly(number: nat)

  type Field = seq<Item>

  datatype Schedule = Schedule(minute: Field, hour: Field, dayOfMonth: Field, month: Field, dayOfWeek: Field)

  function PrintStep(step: Option<nat>): string {
    if step.None? then "" else "/" + Decimal(step.value)
  }

  function PrintItem(item: Item): string {
    match item
    case Every(step) => "*" + PrintStep(step)
    case Span(low, high, step) => Decimal(low) + "-" + Decimal(high) + PrintStep(step)
    case Exactly(number) => Decimal(number)
  }

  function PrintItems(field: Field): (parts: seq<string>)
    ensures |parts| == |field| && forall i :: 0 <= i < |field| ==> parts[i] == PrintItem(field[i])
  {
    seq(|field|, i requires 0 <= i < |field| => PrintItem(field[i]))
  }

  function PrintField(field: Field): string
    requires field != []
  {
    Join(PrintItems(field), ',')
  }

  predicate HasFields(s: Schedule) {
    s.minute != [] && s.hour != [] && s.dayOfMonth != [] && s.month != [] && s.dayOfWeek != []
  }

  function PrintSchedule(s: Schedule): string
    requires HasFields(s)
  {
    PrintField(s.minute) + " " + (PrintField(s.hour) + " " + (PrintField(s.dayOfMonth) + " "
      + (PrintField(s.month) + " " + PrintField(s.dayOfWeek))))
  }

  // ---------------------------------------------------------------------------------------------------------------
  // Meaning
  // ---------------------------------------------------------------------------------------------------------------

  function StepSize(step: Option<nat>): nat {
    if step.None? then 1 else step.value
  }

  /** The numbers an item selects before 7 is read as Sunday. */
  ghost predicate Selects(item: Item, number: nat, min: nat, max: nat)
    requires ItemIsValid(item, min, max)
  {
    match item
    case Every(step) => min <= number <= max && (number - min) % StepSize(step) == 0
    case Span(low, high, step) => low <= number <= high && (number - low) % StepSize(step) == 0
    case Exactly(chosen) => number == chosen
  }

  predicate ItemIsValid(item: Item, min: nat, max: nat) {
    match item
    case Every(step) => StepSize(step) > 0
    case Span(low, high, step) => min <= low <= high <= max && StepSize(step) > 0
    case Exactly(number) => min <= number <= max
  }

  predicate FieldIsValid(field: Field, min: nat, max: nat) {
    field != [] && forall i :: 0 <= i < |field| ==> ItemIsValid(field[i], min, max)
  }

  ghost predicate ItemMeans(item: Item, value: nat, min: nat, max: nat)
    requires ItemIsValid(item, min, max)
  {
    exists number: nat :: Selects(item, number, min, max) && NormalizeCronValue(number, max) == value
  }

  ghost predicate FieldMeans(field: Field, value: nat, min: nat, max: nat)
    requires FieldIsValid(field, min, max)
  {
    exists i :: 0 <= i < |field| && ItemMeans(field[i], value, min, max)
  }

  /** Text that is not five fields matches at no time. */
  lemma OnlyFiveFieldsMatch(words: seq<string>, t: Time)
    requires AreWords(words) && |words| != 5
    ensures !MatchesCronExpression(Join(words, ' '), t)
  {
    SplitWords(words);
  }

  /** A number in the day-of-week field means its day, and 7 means Sunday like 0. */
  lemma WeekdayByNumber(number: nat, value: nat)
    requires number <= 7
    ensures FieldMeans([Exactly(number)], value, 0, 7) <==> value == if number == 7 then 0 else number
  {
    assert [Exactly(number)][0] == Exactly(number);
    assert Selects(Exactly(number), number, 0, 7);
    assert ItemMeans(Exactly(number), NormalizeCronValue(number, 7), 0, 7);
  }

  predicate IsStar(field: Field) {
    field == [Every(None)]
  }

  predicate ScheduleIsValid(s: Schedule) {
    && FieldIsValid(s.minute, 0, 59) && FieldIsValid(s.hour, 0, 23) && FieldIsValid(s.dayOfMonth, 1, 31)
    && FieldIsValid(s.month, 1, 12) && FieldIsValid(s.dayOfWeek, 0, 7)
  }

  /** A day must fit both day fields, or either when both are restricted. */
  ghost predicate ScheduleMeans(s: Schedule, t: Time)
    requires ScheduleIsValid(s)
  {
    var dayOfMonth := FieldMeans(s.dayOfMonth, t.dayOfMonth, 1, 31);
    var dayOfWeek := FieldMeans(s.dayOfWeek, t.dayOfWeek, 0, 7);
    && FieldMeans(s.minute, t.minute, 0, 59)
    && FieldMeans(s.hour, t.hour, 0, 23)
    && FieldMeans(s.month, t.month, 1, 12)
    && (if IsStar(s.dayOfMonth) || IsStar(s.dayOfWeek) then dayOfMonth && dayOfWeek else dayOfMonth || dayOfWeek)
  }

  // ---------------------------------------------------------------------------------------------------------------
  // One segment
  // ---------------------------------------------------------------------------------------------------------------

  /** The characters of a printed item. */
  predicate IsItemChar(c: char) {
    IsDigit(c) || c == '*' || c == '-' || c == '/'
  }

  lemma PrintedItemChars(item: Item)
    ensures PrintItem(item) != ""
    ensures forall i :: 0 <= i < |PrintItem(item)| ==> IsItemChar(PrintItem(item)[i])
  {
    var p := if item.Exactly? then "" else PrintStep(item.step);
    assert forall i :: 0 <= i < |p| ==> IsItemChar(p[i]);
  }

  lemma PrintedItemIsTrimmed(item: Item)
    ensures Trim(PrintItem(item)) == PrintItem(item) && NoSpaces(PrintItem(item)) && ',' !in PrintItem(item)
  {
    PrintedItemChars(item);
    TrimKeeps(PrintItem(item));
  }

  lemma NotInDecimal(n: nat, c: char)
    requires !IsDigit(c)
    ensures c !in Decimal(n)
  {
  }

  /** The pieces before and after the slash. */
  lemma SplitAtStep(base: string, step: Option<nat>)
    requires '/' !in base
    ensures Split(base + PrintStep(step), '/')[0] == base
    ensures StepOf(Second(Split(base + PrintStep(step), '/'))) == Some(StepSize(step))
  {
    if step.None? {
      assert base + PrintStep(step) == base;
      SplitWithout(base, '/');
    } else {
      var d := Decimal(step.value);
      assert base + PrintStep(step) == base + ['/'] + d;
      NotInDecimal(step.value, '/');
      SplitFirst(base, d, '/');
      SplitWithout(d, '/');
      ParseDecimal(step.value);
    }
  }

  lemma MatchEvery(step: Option<nat>, value: nat, min: nat, max: nat)
    requires StepSize(step) > 0 && min <= value <= max && (max == 7 ==> value < 7)
    ensures MatchCronSegment(PrintItem(Every(step)), value, min, max) <==> (value - min) % StepSize(step) == 0
  {
    PrintedItemIsTrimmed(Every(step));
    SplitAtStep("*", step);
    if step.Some? {
      assert |PrintItem(Every(step))| > 1;
    }
  }

  function SpanBase(low: nat, high: nat): string {
    Decimal(low) + ['-'] + Decimal(high)
  }

  /** The base of a range splits into its two numbers. */
  lemma SpanBaseSplits(low: nat, high: nat)
    ensures var base := SpanBase(low, high);
      && '/' !in base && '-' in base && base != "" && base != "*" && IsDigit(base[0])
      && Split(base, '-') == [Decimal(low), Decimal(high)]
  {
    var a, b := Decimal(low), Decimal(high);
    var base := SpanBase(low, high);
    NotInDecimal(low, '/');
    NotInDecimal(high, '/');
    NotInDecimal(low, '-');
    NotInDecimal(high, '-');
    SplitFirst(a, b, '-');
    SplitWithout(b, '-');
    assert base[0] == a[0] && base[|a|] == '-';
  }

  lemma MatchSpan(low: nat, high: nat, step: Option<nat>, value: nat, max: nat, min: nat)
    requires StepSize(step) > 0 && (max == 7 ==> value < 7)
    ensures var first, last := NormalizeCronValue(low, max), NormalizeCronValue(high, max);
      MatchCronSegment(PrintItem(Span(low, high, step)), value, min, max) <==>
        first <= value <= last && (value - first) % StepSize(step) == 0
  {
    var text, base := PrintItem(Span(low, high, step)), SpanBase(low, high);
    SpanBaseSplits(low, high);
    PrintedItemIsTrimmed(Span(low, high, step));
    assert text == base + PrintStep(step) && text[0] == base[0];
    SplitAtStep(base, step);
    ParseDecimal(low);
    ParseDecimal(high);
  }

  lemma MatchExactly(number: nat, value: nat, min: nat, max: nat)
    requires max == 7 ==> value < 7
    ensures MatchCronSegment(PrintItem(Exactly(number)), value, min, max) <==> NormalizeCronValue(number, max) == value
  {
    var d := Decimal(number);
    PrintedItemIsTrimmed(Exactly(number));
    NotInDecimal(number, '/');
    NotInDecimal(number, '-');
    NotInDecimal(number, '*');
    assert d + PrintStep(None) == d;
    SplitAtStep(d, None);
    ParseDecimal(number);
    assert d[0] != '*';
  }

  /** A day-of-week range that ends in 7 is read from its start to Sunday, day 0. */
  predicate ReadsAsMeant(item: Item, max: nat) {
    max == 7 && item.Span? && item.high == 7 ==> item.low == 7 || (item.low == 0 && StepSize(item.step) >= 7)
  }

  predicate InRange(value: nat, min: nat, max: nat) {
    min <= value <= max && (max == 7 ==> value < 7)
  }

  /** The test the matcher makes on an item once its text has been read. */
  predicate ReadTest(item: Item, value: nat, min: nat, max: nat)
    requires StepSize(if item.Exactly? then None else item.step) > 0
  {
    match item
    case Every(step) => min <= value <= max && (value - min) % StepSize(step) == 0
    case Span(low, high, step) =>
      var first, last := NormalizeCronValue(low, max), NormalizeCronValue(high, max);
      first <= value <= last && (value - first) % StepSize(step) == 0
    case Exactly(number) => NormalizeCronValue(number, max) == value
  }

  lemma SegmentIsReadTest(item: Item, value: nat, min: nat, max: nat)
    requires ItemIsValid(item, min, max) && InRange(value, min, max)
    ensures MatchCronSegment(PrintItem(item), value, min, max) <==> ReadTest(item, value, min, max)
  {
    match item {
      case Every(step) => MatchEvery(step, value, min, max);
      case Span(low, high, step) => MatchSpan(low, high, step, value, max, min);
      case Exactly(number) => MatchExactly(number, value, min, max);
    }
  }

  /** Away from Sunday's second name a value is selected under its own number. */
  lemma MeansItsNumber(item: Item, value: nat, min: nat, max: nat)
    requires ItemIsValid(item, min, max) && InRange(value, min, max)
    requires max == 7 ==> !Selects(item, 7, min, max) || value != 0
    ensures ItemMeans(item, value, min, max) <==> Selects(item, value, min, max)
  {
    assert NormalizeCronValue(value, max) == value;
    if ItemMeans(item, value, min, max) {
      var number: nat :| Selects(item, number, min, max) && NormalizeCronValue(number, max) == value;
      assert number == value;
    }
  }

  lemma SundayRangeMatchesMeaning(item: Item, value: nat)
    requires item.Span? && ItemIsValid(item, 0, 7) && ReadsAsMeant(item, 7) && value < 7 && item.high == 7
    ensures ReadTest(item, value, 0, 7) <==> ItemMeans(item, value, 0, 7)
  {
    assert Selects(item, item.low, 0, 7) && NormalizeCronValue(item.low, 7) == 0;
    if value != 0 {
      MeansItsNumber(item, value, 0, 7);
    }
  }

  lemma ReadTestMatchesMeaning(item: Item, value: nat, min: nat, max: nat)
    requires ItemIsValid(item, min, max) && ReadsAsMeant(item, max) && InRange(value, min, max)
    requires max == 7 ==> min == 0
    ensures ReadTest(item, value, min, max) <==> ItemMeans(item, value, min, max)
  {
    match item {
      case Every(step) =>
        if max == 7 && value == 0 {
          assert Selects(item, 0, min, max) && NormalizeCronValue(0, max) == 0;
        } else {
          MeansItsNumber(item, value, min, max);
        }
      case Span(low, high, _) =>
        if max == 7 && high == 7 {
          SundayRangeMatchesMeaning(item, value);
        } else {
          MeansItsNumber(item, value, min, max);
        }
      case Exactly(number) =>
        assert Selects(item, number, min, max);
    }
  }

  lemma SegmentMatchesMeaning(item: Item, value: nat, min: nat, max: nat)
    requires ItemIsValid(item, min, max) && ReadsAsMeant(item, max) && InRange(value, min, max)
    requires max == 7 ==> min == 0
    ensures MatchCronSegment(PrintItem(item), value, min, max) <==> ItemMeans(item, value, min, max)
  {
    SegmentIsReadTest(item, value, min, max);
    ReadTestMatchesMeaning(item, value, min, max);
  }

  /** A segment is matched as meant on every value exactly when it is no misread day-of-week range. */
  lemma SegmentIsExact(item: Item, min: nat, max: nat)
    requires ItemIsValid(item, min, max) && (max == 7 ==> min == 0)
    ensures ReadsAsMeant(item, max) <==>
      forall value: nat :: InRange(value, min, max) ==>
        (MatchCronSegment(PrintItem(item), value, min, max) <==> ItemMeans(item, value, min, max))
  {
    if ReadsAsMeant(item, max) {
      forall value: nat | InRange(value, min, max)
        ensures MatchCronSegment(PrintItem(item), value, min, max) <==> ItemMeans(item, value, min, max)
      {
        SegmentMatchesMeaning(item, value, min, max);
      }
    } else {
      var missed := if item.low > 0 then item.low else StepSize(item.step);
      MatchSpan(item.low, 7, item.step, missed, max, min);
      assert InRange(missed, min, max);
      assert Selects(item, missed, min, max) && NormalizeCronValue(missed, max) == missed;
      assert ItemMeans(item, missed, min, max) && !MatchCronSegment(PrintItem(item), missed, min, max);
    }
  }

  // ---------------------------------------------------------------------------------------------------------------
  // Whole schedules
  // ---------------------------------------------------------------------------------------------------------------

  predicate FieldReadsAsMeant(field: Field, max: nat) {
    forall i :: 0 <= i < |field| ==> ReadsAsMeant(field[i], max)
  }

  /** A printed field is matched when the reading of one of its items is. */
  lemma FieldIsReadTest(field: Field, value: nat, min: nat, max: nat)
    requires FieldIsValid(field, min, max) && InRange(value, min, max)
    ensures MatchesField(PrintField(field), value, min, max) <==>
      exists i :: 0 <= i < |field| && ReadTest(field[i], value, min, max)
  {
    var parts := PrintItems(field);
    forall i | 0 <= i < |parts| ensures ',' !in parts[i] {
      PrintedItemIsTrimmed(field[i]);
    }
    SplitJoin(parts, ',');
    forall i | 0 <= i < |field|
      ensures MatchCronSegment(parts[i], value, min, max) <==> ReadTest(field[i], value, min, max)
    {
      SegmentIsReadTest(field[i], value, min, max);
    }
  }

  /** A value that a misread range means and that is lost in the reading: all but a Sunday it starts with. */
  ghost predicate IsMissed(item: Item, value: nat, min: nat, max: nat)
    requires ItemIsValid(item, min, max)
  {
    !ReadsAsMeant(item, max) && ItemMeans(item, value, min, max) && !(item.low == 0 && value == 0)
  }

  lemma ReadTestExactly(item: Item, value: nat, min: nat, max: nat)
    requires ItemIsValid(item, min, max) && InRange(value, min, max) && (max == 7 ==> min == 0)
    ensures ReadTest(item, value, min, max) <==> ItemMeans(item, value, min, max) && !IsMissed(item, value, min, max)
  {
    if ReadsAsMeant(item, max) {
      ReadTestMatchesMeaning(item, value, min, max);
    } else if item.low == 0 && value == 0 {
      assert Selects(item, 0, min, max) && NormalizeCronValue(0, max) == 0;
    }
  }

  ghost predicate FieldIsMatchedAsMeant(field: Field, min: nat, max: nat)
    requires FieldIsValid(field, min, max)
  {
    forall value: nat :: InRange(value, min, max) ==>
      (MatchesField(PrintField(field), value, min, max) <==> FieldMeans(field, value, min, max))
  }

  /** Other items select what the misread ranges of the field miss. */
  ghost predicate MissesAreCovered(field: Field, min: nat, max: nat)
    requires FieldIsValid(field, min, max)
  {
    forall value: nat, i :: InRange(value, min, max) && 0 <= i < |field| && IsMissed(field[i], value, min, max) ==>
      exists j :: 0 <= j < |field| && ItemMeans(field[j], value, min, max) && !IsMissed(field[j], value, min, max)
  }

  /** A field is matched as meant on every value exactly when other items select what its misread ranges miss. */
  lemma FieldIsExact(field: Field, min: nat, max: nat)
    requires FieldIsValid(field, min, max) && (max == 7 ==> min == 0)
    ensures FieldIsMatchedAsMeant(field, min, max) <==> MissesAreCovered(field, min, max)
  {
    forall value: nat | InRange(value, min, max)
      ensures MatchesField(PrintField(field), value, min, max) <==>
        exists j :: 0 <= j < |field| && ItemMeans(field[j], value, min, max) && !IsMissed(field[j], value, min, max)
    {
      FieldIsReadTest(field, value, min, max);
      forall j | 0 <= j < |field|
        ensures ReadTest(field[j], value, min, max) <==>
          ItemMeans(field[j], value, min, max) && !IsMissed(field[j], value, min, max)
      {
        ReadTestExactly(field[j], value, min, max);
      }
    }
  }

  lemma FieldMatchesMeaning(field: Field, value: nat, min: nat, max: nat)
    requires FieldIsValid(field, min, max) && FieldReadsAsMeant(field, max) && InRange(value, min, max)
    requires max == 7 ==> min == 0
    ensures MatchesField(PrintField(field), value, min, max) <==> FieldMeans(field, value, min, max)
  {
    FieldIsReadTest(field, value, min, max);
    forall i | 0 <= i < |field|
      ensures ReadTest(field[i], value, min, max) <==> ItemMeans(field[i], value, min, max)
    {
      ReadTestMatchesMeaning(field[i], value, min, max);
    }
  }

  /** Only the lone star prints as a star, so that the wildcard test sees exactly it. */
  lemma PrintedFieldChars(field: Field)
    requires field != []
    ensures PrintField(field) != "" && NoSpaces(PrintField(field))
    ensures FieldIsWildcard(PrintField(field)) <==> IsStar(field)
  {
    var parts, text := PrintItems(field), PrintField(field);
    forall k | 0 <= k < |text| ensures !IsSpace(text[k]) {
      JoinContains(parts, ',', text[k]);
      if |parts| == 1 || text[k] != ',' {
        var i :| 0 <= i < |parts| && text[k] in parts[i];
        PrintedItemIsTrimmed(field[i]);
      }
    }
    PrintedItemChars(field[0]);
    TrimKeeps(text);
    JoinContains(parts, ',', ',');
    if |field| == 1 {
      assert text == PrintItem(field[0]);
      StarPrintsAlone(field[0]);
    } else {
      assert ',' in text && ',' !in "*";
    }
  }

  lemma StarPrintsAlone(item: Item)
    ensures PrintItem(item) == "*" <==> item == Every(None)
  {
    if !item.Every? {
      var n := if item.Span? then item.low else item.number;
      NotInDecimal(n, '*');
      assert PrintItem(item)[0] == Decimal(n)[0];
    } else if item.step.Some? {
      assert |PrintItem(item)| > 1;
    }
  }

  /** Five texts without spaces, joined by spaces, are split again. */
  lemma FiveFieldsSplit(f: string, g: string, h: string, i: string, j: string)
    requires f != "" && g != "" && h != "" && i != "" && j != ""
    requires NoSpaces(f) && NoSpaces(g) && NoSpaces(h) && NoSpaces(i) && NoSpaces(j)
    ensures SplitSpaces(Trim(f + " " + (g + " " + (h + " " + (i + " " + j))))) == [f, g, h, i, j]
  {
    var d := i + " " + j;
    var c := h + " " + d;
    var b := g + " " + c;
    var a := f + " " + b;
    assert a[0] == f[0] && b[0] == g[0] && c[0] == h[0] && d[0] == i[0] && a[|a| - 1] == j[|j| - 1];
    TrimKeeps(a);
    SplitSpacesFirst(f, b);
    SplitSpacesFirst(g, c);
    SplitSpacesFirst(h, d);
    SplitSpacesFirst(i, j);
    SplitSpacesWithout(j);
  }

  lemma PrintedScheduleSplits(s: Schedule)
    requires HasFields(s)
    ensures SplitSpaces(Trim(PrintSchedule(s))) ==
      [PrintField(s.minute), PrintField(s.hour), PrintField(s.dayOfMonth), PrintField(s.month), PrintField(s.dayOfWeek)]
  {
    PrintedFieldChars(s.minute);
    PrintedFieldChars(s.hour);
    PrintedFieldChars(s.dayOfMonth);
    PrintedFieldChars(s.month);
    PrintedFieldChars(s.dayOfWeek);
    FiveFieldsSplit(PrintField(s.minute), PrintField(s.hour), PrintField(s.dayOfMonth), PrintField(s.month),
                    PrintField(s.dayOfWeek));
  }

  /** A star field holds at every time. */
  lemma StarAlwaysMeans(field: Field, value: nat, min: nat, max: nat)
    requires IsStar(field) && InRange(value, min, max)
    ensures FieldIsValid(field, min, max) && FieldMeans(field, value, min, max)
  {
    assert Selects(field[0], value, min, max) && NormalizeCronValue(value, max) == value;
    assert ItemMeans(field[0], value, min, max);
  }

  /** Whatever the fields are, only the reading of the day-of-week field can differ from what is meant. */
  ghost predicate MeansWithWeekday(s: Schedule, t: Time, weekday: bool)
    requires ScheduleIsValid(s)
  {
    && FieldMeans(s.minute, t.minute, 0, 59)
    && FieldMeans(s.hour, t.hour, 0, 23)
    && FieldMeans(s.month, t.month, 1, 12)
    && (if IsStar(s.dayOfMonth) || IsStar(s.dayOfWeek) then FieldMeans(s.dayOfMonth, t.dayOfMonth, 1, 31) && weekday
        else FieldMeans(s.dayOfMonth, t.dayOfMonth, 1, 31) || weekday)
  }

  lemma MatcherReadsTheWeekday(s: Schedule, t: Time)
    requires ScheduleIsValid(s) && IsTime(t)
    ensures HasFields(s)
    ensures MatchesCronExpression(PrintSchedule(s), t) <==>
      MeansWithWeekday(s, t, MatchesField(PrintField(s.dayOfWeek), t.dayOfWeek, 0, 7))
  {
    PrintedScheduleSplits(s);
    FieldMatchesMeaning(s.minute, t.minute, 0, 59);
    FieldMatchesMeaning(s.hour, t.hour, 0, 23);
    FieldMatchesMeaning(s.dayOfMonth, t.dayOfMonth, 1, 31);
    FieldMatchesMeaning(s.month, t.month, 1, 12);
    PrintedFieldChars(s.dayOfMonth);
    PrintedFieldChars(s.dayOfWeek);
    if IsStar(s.dayOfMonth) {
      StarAlwaysMeans(s.dayOfMonth, t.dayOfMonth, 1, 31);
    }
    if IsStar(s.dayOfWeek) {
      StarAlwaysMeans(s.dayOfWeek, t.dayOfWeek, 0, 7);
      FieldMatchesMeaning(s.dayOfWeek, t.dayOfWeek, 0, 7);
    }
  }

  /** The matcher agrees with the meaning of every schedule without a misread day-of-week range, at every time. */
  lemma MatcherMatchesMeaning(s: Schedule, t: Time)
    requires ScheduleIsValid(s) && IsTime(t)
    requires FieldReadsAsMeant(s.dayOfWeek, 7)
    ensures HasFields(s)
    ensures MatchesCronExpression(PrintSchedule(s), t) <==> ScheduleMeans(s, t)
  {
    MatcherReadsTheWeekday(s, t);
    FieldMatchesMeaning(s.dayOfWeek, t.dayOfWeek, 0, 7);
  }

  /** No valid field is empty of meaning. */
  lemma FieldMeansSomething(field: Field, min: nat, max: nat) returns (value: nat)
    requires FieldIsValid(field, min, max) && min <= max && max != 7
    ensures InRange(value, min, max) && FieldMeans(field, value, min, max)
  {
    value := match field[0] case Every(_) => min case Span(low, _, _) => low case Exactly(number) => number;
    assert Selects(field[0], value, min, max) && NormalizeCronValue(value, max) == value;
    assert ItemMeans(field[0], value, min, max);
  }

  /** The matcher agrees with the meaning at every time. */
  ghost predicate IsMatchedAsMeant(s: Schedule)
    requires ScheduleIsValid(s)
  {
    HasFields(s) && forall t :: IsTime(t) ==> (MatchesCronExpression(PrintSchedule(s), t) <==> ScheduleMeans(s, t))
  }

  /** The day of the month decides alone: it is restricted and yet every day is meant. */
  ghost predicate EveryDayIsMeant(field: Field)
    requires FieldIsValid(field, 1, 31)
  {
    !IsStar(field) && forall day: nat :: 1 <= day <= 31 ==> FieldMeans(field, day, 1, 31)
  }

  /** A misread day of the week shows at some time, unless the day of the month decides alone. */
  lemma MisreadWeekdayShows(s: Schedule, weekday: nat) returns (t: Time)
    requires ScheduleIsValid(s) && weekday <= 6 && !EveryDayIsMeant(s.dayOfMonth)
    requires MatchesField(PrintField(s.dayOfWeek), weekday, 0, 7) != FieldMeans(s.dayOfWeek, weekday, 0, 7)
    ensures HasFields(s) && IsTime(t) && MatchesCronExpression(PrintSchedule(s), t) != ScheduleMeans(s, t)
  {
    var minute := FieldMeansSomething(s.minute, 0, 59);
    var hour := FieldMeansSomething(s.hour, 0, 23);
    var month := FieldMeansSomething(s.month, 1, 12);
    var day: nat := 1;
    if IsStar(s.dayOfMonth) {
      StarAlwaysMeans(s.dayOfMonth, day, 1, 31);
    } else {
      day :| 1 <= day <= 31 && !FieldMeans(s.dayOfMonth, day, 1, 31);
    }
    t := Time(minute, hour, day, month, weekday);
    MatcherReadsTheWeekday(s, t);
    if IsStar(s.dayOfWeek) {
      FieldMatchesMeaning(s.dayOfWeek, weekday, 0, 7);
    }
  }

  /**
   * Every valid schedule: the matcher agrees with the meaning at every time if and only if other items of the
   * day-of-week field select what its misread ranges miss, or the day of the month decides alone.
   */
  lemma MatcherIsExact(s: Schedule)
    requires ScheduleIsValid(s)
    ensures IsMatchedAsMeant(s) <==> MissesAreCovered(s.dayOfWeek, 0, 7) || EveryDayIsMeant(s.dayOfMonth)
  {
    FieldIsExact(s.dayOfWeek, 0, 7);
    if FieldIsMatchedAsMeant(s.dayOfWeek, 0, 7) || EveryDayIsMeant(s.dayOfMonth) {
      forall t | IsTime(t) ensures MatchesCronExpression(PrintSchedule(s), t) <==> ScheduleMeans(s, t) {
        MatcherReadsTheWeekday(s, t);
        if IsStar(s.dayOfWeek) {
          FieldMatchesMeaning(s.dayOfWeek, t.dayOfWeek, 0, 7);
        }
      }
    } else {
      var weekday: nat :| InRange(weekday, 0, 7)
        && MatchesField(PrintField(s.dayOfWeek), weekday, 0, 7) != FieldMeans(s.dayOfWeek, weekday, 0, 7);
      var t := MisreadWeekdayShows(s, weekday);
    }
  }
}
