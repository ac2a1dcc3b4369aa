/**
 * The pure logic of the reports/messages date filter: validation of a
 * from/to range, applying it to the global filter (and asking for a new
 * search), building the range a date-picker selection stands for, clearing,
 * counting the selected ends and building the input label.
 *
 * Dates are instants as integers (their order is the order the component
 * compares them by); the date pipe that formats a date for the label is a
 * parameter.
 */
module DateFilter {
  import opened Common

  type Date = int

  /** A date formatter; the component formats with the pattern `d MMM`. */
  type Format = Date -> string

  /** A `{from, to}` pair; an unset end is `None`. */
  datatype DateRange = DateRange(from: Option<Date>, to: Option<Date>)

  const NoDates := DateRange(None, None)

  /**
   * The component's own state: its mode inputs (a range picker, or a single
   * picker for the start or the end date), the range it last read from the
   * store, whether the error is shown, and the label of its input.
   */
  datatype Component = Component(isRange: bool, isStartDate: bool, dateRange: DateRange, showError: bool, inputLabel: string)

  /**
   * The component together with what it acts on: the date of the global
   * filter (`None` once cleared) and the number of `search` events emitted.
   */
  datatype Session = Session(component: Component, filterDate: Option<DateRange>, searches: nat)

  /** A range is in order when it is absent, has an unset end, or does not end before it starts. */
  predicate Ordered(range: Option<DateRange>) {
    || range.None?
    || range.value.from.None?
    || range.value.to.None?
    || range.value.from.value <= range.value.to.value
  }

  datatype Validated = Validated(valid: bool, component: Component)

  /** Rejects a range whose end lies before its start, and shows the error exactly then. */
  function ValidateDateRange(c: Component, range: Option<DateRange>): (r: Validated)
    ensures r.valid <==> Ordered(range)
    ensures r.component.showError <==> !Ordered(range)
    ensures r.component == c.(showError := r.component.showError)
  {
    if range.Some? && range.value.from.Some? && range.value.to.Some? && range.value.to.value < range.value.from.value then
      Validated(false, c.(showError := true))
    else
      Validated(true, c.(showError := false))
  }

  /**
   * Applies a range to the global filter: an out-of-order range only shows
   * the error; any other range becomes the filter's date and, unless the
   * search is skipped, one `search` is emitted.
   */
  function ApplyFilter(s: Session, range: Option<DateRange>, skipSearch: bool): (s': Session)
    ensures s'.component == s.component.(showError := !Ordered(range))
    ensures !Ordered(range) ==> s'.filterDate == s.filterDate && s'.searches == s.searches
    ensures Ordered(range) ==> s'.filterDate == range
    ensures Ordered(range) && skipSearch ==> s'.searches == s.searches
    ensures Ordered(range) && !skipSearch ==> s'.searches == s.searches + 1
  {
    var v := ValidateDateRange(s.component, range);
    if !v.valid then s.(component := v.component)
    else
      var s1 := s.(component := v.component, filterDate := range);
      if skipSearch then s1 else s1.(searches := s1.searches + 1)
  }

  /**
   * The range a picker selection stands for: both ends in range mode;
   * otherwise the picked date replaces only the end this picker edits.
   */
  function CreateDateRange(c: Component, from: Date, to: Date): (r: DateRange)
    ensures c.isRange ==> r == DateRange(Some(from), Some(to))
    ensures !c.isRange && c.isStartDate ==> r.from == Some(from) && r.to == c.dateRange.to
    ensures !c.isRange && !c.isStartDate ==> r.to == Some(to) && r.from == c.dateRange.from
  {
    if c.isRange then DateRange(Some(from), Some(to))
    else if c.isStartDate then c.dateRange.(from := Some(from))
    else c.dateRange.(to := Some(to))
  }

  /** The picker's callback: the selection's range is applied and a search emitted when it is in order. */
  function PickDates(s: Session, from: Date, to: Date): (s': Session)
    ensures s'.searches == s.searches + 1 <==>
      if s.component.isRange then from <= to
      else if s.component.isStartDate then s.component.dateRange.to.None? || from <= s.component.dateRange.to.value
      else s.component.dateRange.from.None? || s.component.dateRange.from.value <= to
    ensures s'.searches == s.searches || s'.searches == s.searches + 1
    ensures s'.searches == s.searches + 1 ==> s'.filterDate == Some(CreateDateRange(s.component, from, to))
    ensures s'.searches == s.searches ==> s'.filterDate == s.filterDate && s'.component.showError
    ensures s'.component == s.component.(showError := s'.searches == s.searches)
  {
    ApplyFilter(s, Some(CreateDateRange(s.component, from, to)), false)
  }

  /** Clearing always passes validation: the filter's date is unset and the error hidden. */
  function Clear(s: Session, skipSearch: bool): (s': Session)
    ensures s'.filterDate.None?
    ensures !s'.component.showError
    ensures s'.component == s.component.(showError := false)
    ensures s'.searches == if skipSearch then s.searches else s.searches + 1
  {
    ApplyFilter(s, None, skipSearch)
  }

  /** The end this component selects: the start date for a start-date picker, the end date otherwise. */
  function SelectedEnd(c: Component): Option<Date> {
    if c.isStartDate then c.dateRange.from else c.dateRange.to
  }

  /** The number of selected dates the filter reports: 1 when its end is set, else 0. */
  function CountSelected(c: Component): (n: nat)
    ensures n <= 1
    ensures n == 1 <==> (if c.isStartDate then c.dateRange.from.Some? else c.dateRange.to.Some?)
  {
    if SelectedEnd(c).Some? then 1 else 0
  }

  /** A formatted end of the range; an unset end shows as the empty string, which counts as absent. */
  function Shown(d: Option<Date>, fmt: Format): string {
    if d.Some? then fmt(d.value) else ""
  }

  const Divider := " - "

  /**
   * Builds the input label from a range: in range mode the start, the
   * divider and the end; a start-date picker shows only the start, an
   * end-date picker only the end.
   */
  function SetLabel(c: Component, range: DateRange, fmt: Format): (c': Component)
    ensures c' == c.(inputLabel := c'.inputLabel)
    ensures c.isRange ==>
      c'.inputLabel == Shown(range.from, fmt) + (if Shown(range.to, fmt) == "" then "" else Divider + Shown(range.to, fmt))
    ensures !c.isRange && c.isStartDate ==> c'.inputLabel == Shown(range.from, fmt)
    ensures !c.isRange && !c.isStartDate ==> c'.inputLabel == Shown(range.to, fmt)
  {
    var from := Shown(range.from, fmt);
    var to := Shown(range.to, fmt);
    var text := if from != "" && (c.isRange || c.isStartDate) then from else "";
    var text := text + (if c.isRange && to != "" then Divider else "");
    var text := text + (if to != "" && (c.isRange || !c.isStartDate) then to else "");
    c.(inputLabel := text)
  }

  /**
   * A single-date picker's label shows exactly the end it counts: nothing
   * when no date is selected, the formatted date when one is.
   */
  lemma SingleLabelShowsSelectedEnd(c: Component, range: DateRange, fmt: Format)
    requires !c.isRange
    ensures SetLabel(c, range, fmt).inputLabel == Shown(SelectedEnd(c.(dateRange := range)), fmt)
    ensures CountSelected(c.(dateRange := range)) == 0 ==> SetLabel(c, range, fmt).inputLabel == ""
    ensures CountSelected(c.(dateRange := range)) == 1 ==>
      SetLabel(c, range, fmt).inputLabel == fmt(SelectedEnd(c.(dateRange := range)).value)
  {
  }

  /** A range with only an end date is labelled with the divider followed by that date. */
  lemma RangeLabelWithOnlyEnd(c: Component, to: Date, fmt: Format)
    requires c.isRange && fmt(to) != ""
    ensures SetLabel(c, DateRange(None, Some(to)), fmt).inputLabel == Divider + fmt(to)
  {
  }

  /** A range with both ends shows both, around the divider. */
  lemma RangeLabelWithBothEnds(c: Component, from: Date, to: Date, fmt: Format)
    requires c.isRange && fmt(to) != ""
    ensures SetLabel(c, DateRange(Some(from), Some(to)), fmt).inputLabel == fmt(from) + Divider + fmt(to)
  {
  }

  /** Whatever mode the component is in, an unset range is labelled with the empty string. */
  lemma EmptyRangeHasEmptyLabel(c: Component, fmt: Format)
    ensures SetLabel(c, NoDates, fmt).inputLabel == ""
  {
  }

  /**
   * The date a single-date picker picks is the one it counts: once the
   * filter reads the picked range back, one date is selected.
   */
  lemma PickedEndIsSelected(c: Component, from: Date, to: Date)
    requires !c.isRange
    ensures CountSelected(c.(dateRange := CreateDateRange(c, from, to))) == 1
    ensures SelectedEnd(c.(dateRange := CreateDateRange(c, from, to))) == Some(if c.isStartDate then from else to)
  {
  }

  /** Applying a range the filter already holds, without a search, changes nothing but the error flag. */
  lemma ReapplyWithoutSearchIsNoOp(s: Session)
    requires Ordered(s.filterDate)
    ensures ApplyFilter(s, s.filterDate, true) == s.(component := s.component.(showError := false))
  {
  }

  /** After a clear, the store's cleared range is valid and unlabelled, and counts no selected date. */
  lemma ClearedFilterSelectsNothing(s: Session, skipSearch: bool, fmt: Format)
    ensures var s' := Clear(s, skipSearch);
      var c := s'.component.(dateRange := NoDates);
      && ValidateDateRange(c, s'.filterDate).valid
      && CountSelected(c) == 0
      && SetLabel(c, NoDates, fmt).inputLabel == ""
  {
  }
}
