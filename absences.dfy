/**
 * The staff absence register of cogs/absences.py: the DD/MM/YYYY and DD/MM date
 * parser, the declaration form's ordered checks and per-member overlap rule,
 * the admin override, owner-scoped deletion, clearing, the panel that sweeps
 * finished absences and lists current and upcoming ones, and the list of
 * people notified of a new declaration.
 *
 * The table stores dates as ISO text and SQL compares them as text; the model
 * keeps `Day` values and writes those comparisons on their ISO text, which
 * Calendar.IsoLessIff ties to day-number order.
 */
module Absences {
  import opened Base
  import opened Text
  import opened Seqs
  import opened Sql
  import opened Calendar
  import opened Panels

  const ListingLimit := 20
  const AbsencesKey := "absences_panel"

  // ---- parse_date ----

  /** The text of `strptime`'s `%d`: 1..9, 01..09, 10..31, or a space and 1..9. */
  predicate DayField(s: string) {
    || (|s| == 1 && '1' <= s[0] <= '9')
    || (|s| == 2 && s[0] == '3' && (s[1] == '0' || s[1] == '1'))
    || (|s| == 2 && (s[0] == '1' || s[0] == '2') && IsDigit(s[1]))
    || (|s| == 2 && (s[0] == '0' || s[0] == ' ') && '1' <= s[1] <= '9')
  }

  /** The text of `%m`: 1..9, 01..09, 10..12. */
  predicate MonthField(s: string) {
    || (|s| == 1 && '1' <= s[0] <= '9')
    || (|s| == 2 && s[0] == '1' && '0' <= s[1] <= '2')
    || (|s| == 2 && s[0] == '0' && '1' <= s[1] <= '9')
  }

  /** The text of `%Y`: exactly four digits. */
  predicate YearField(s: string) {
    |s| == 4 && AllDigits(s)
  }

  /** The number a one- or two-character field stands for (a leading space counts as 0). */
  function FieldValue(s: string): nat
    requires |s| == 1 || |s| == 2
    requires IsDigit(s[|s| - 1]) && (IsDigit(s[0]) || s[0] == ' ')
  {
    if |s| == 1 then DigitValue(s[0])
    else (if s[0] == ' ' then 0 else DigitValue(s[0])) * 10 + DigitValue(s[1])
  }

  /** `strptime(t, "%d/%m/%Y")`: the fields, then `datetime(y, m, d)`, which rejects a
      day the month does not have and the year 0. */
  function ParseFull(t: string): Option<Day> {
    var parts := Split(t, '/');
    if |parts| != 3 || !DayField(parts[0]) || !MonthField(parts[1]) || !YearField(parts[2]) then None
    else
      var d := Date(DecimalValue(parts[2]), FieldValue(parts[1]), FieldValue(parts[0]));
      if Valid(d) then Some(d) else None
  }

  /** `strptime(t, "%d/%m")` builds the date in year 1900 (so 29/02 is rejected), then
      parse_date moves it to this year, or to next year when that is already past;
      next year may not exist (year 10000), which raises and yields None. */
  function ParseShort(t: string, today: Day): Option<Day> {
    var parts := Split(t, '/');
    if |parts| != 2 || !DayField(parts[0]) || !MonthField(parts[1]) then None
    else
      var m, d := FieldValue(parts[1]), FieldValue(parts[0]);
      if !Valid(Date(1900, m, d)) then None
      else
        assert DaysInMonth(1900, m) <= DaysInMonth(today.year, m);
        var here: Day := Date(today.year, m, d);
        if !Before(here, today) then Some(here)
        else if today.year + 1 > MaxYear then None
        else
          assert DaysInMonth(1900, m) <= DaysInMonth(today.year + 1, m);
          Some(Date(today.year + 1, m, d))
  }

  /** parse_date: the stripped text in the long form, else in the short form. */
  function ParseDate(text: string, today: Day): Option<Day> {
    var t := Strip(text);
    var full := ParseFull(t);
    if full.Some? then full else ParseShort(t, today)
  }

  /** Only the two forms are accepted, and what comes back is the written day and month;
      a long form keeps its year, a short form lands on today or later, moving to next
      year only when this year's date is past. */
  lemma ParseDateAccepts(text: string, today: Day)
    ensures var parts := Split(Strip(text), '/');
      var r := ParseDate(text, today);
      r.Some? ==>
        || (&& |parts| == 3 && DayField(parts[0]) && MonthField(parts[1]) && YearField(parts[2])
            && r.value == Date(DecimalValue(parts[2]), FieldValue(parts[1]), FieldValue(parts[0])))
        || (&& |parts| == 2 && DayField(parts[0]) && MonthField(parts[1])
            && r.value.day == FieldValue(parts[0]) && r.value.month == FieldValue(parts[1])
            && !Before(r.value, today)
            && (r.value.year == today.year ||
                (r.value.year == today.year + 1 && Before(Date(today.year, r.value.month, r.value.day), today))))
  {
  }

  /** A 29 February without a year is refused, whatever today is. */
  lemma LeapDayNeedsYear(text: string, today: Day)
    requires var parts := Split(Strip(text), '/');
      |parts| == 2 && DayField(parts[0]) && MonthField(parts[1]) &&
      FieldValue(parts[0]) == 29 && FieldValue(parts[1]) == 2
    ensures ParseDate(text, today).None?
  {
    var parts := Split(Strip(text), '/');
    assert !Valid(Date(1900, 2, 29)) by {
      assert !IsLeap(1900);
    }
    assert ParseFull(Strip(text)).None?;
  }

  lemma TwoDigits(n: nat)
    requires n < 100
    ensures Digits(n, 2) == [DigitChar(n / 10), DigitChar(n % 10)]
  {
    var q := n / 10;
    assert q < 10 && q / 10 == 0 && q % 10 == q;
    assert Digits(q, 1) == [DigitChar(q)];
    assert Digits(n, 2) == Digits(q, 1) + [DigitChar(n % 10)];
  }

  /** A date written as DD/MM/YYYY. */
  function LongForm(d: Day): string {
    Digits(d.day, 2) + "/" + Digits(d.month, 2) + "/" + Digits(d.year, 4)
  }

  lemma NoSlashInDigits(s: string)
    requires AllDigits(s)
    ensures '/' !in s
  {
  }

  /** A day of the month written with two digits is a `%d` field of that value. */
  lemma DayFieldOf(n: nat)
    requires 1 <= n <= 31
    ensures DayField(Digits(n, 2)) && FieldValue(Digits(n, 2)) == n
  {
    TwoDigits(n);
  }

  /** A month written with two digits is a `%m` field of that value. */
  lemma MonthFieldOf(n: nat)
    requires 1 <= n <= 12
    ensures MonthField(Digits(n, 2)) && FieldValue(Digits(n, 2)) == n
  {
    TwoDigits(n);
  }

  lemma LongFormFields(d: Day)
    ensures Strip(LongForm(d)) == LongForm(d)
    ensures Split(LongForm(d), '/') == [Digits(d.day, 2), Digits(d.month, 2), Digits(d.year, 4)]
  {
    var a, b, c := Digits(d.day, 2), Digits(d.month, 2), Digits(d.year, 4);
    var t := LongForm(d);
    assert t == a + ['/'] + (b + ['/'] + c);
    assert t[0] == a[0] && t[|t| - 1] == c[3];
    StripKeeps(t);
    SplitThree(a, b, c);
  }

  /** Three digit groups joined by slashes split back into those groups. */
  lemma SplitThree(a: string, b: string, c: string)
    requires AllDigits(a) && AllDigits(b) && AllDigits(c)
    ensures Split(a + ['/'] + (b + ['/'] + c), '/') == [a, b, c]
  {
    NoSlashInDigits(a);
    NoSlashInDigits(b);
    NoSlashInDigits(c);
    SplitCons(a, b + ['/'] + c, '/');
    SplitCons(b, c, '/');
    SplitNoSep(c, '/');
  }

  /** Round trip: parsing a date written as DD/MM/YYYY gives that date back. */
  lemma ParseLongForm(d: Day, today: Day)
    ensures ParseDate(LongForm(d), today) == Some(d)
  {
    LongFormFields(d);
    DayFieldOf(d.day);
    MonthFieldOf(d.month);
    assert Pow10(4) == 10000;
    DigitsValue(d.year, 4);
    var parts := Split(LongForm(d), '/');
    assert ParseFull(LongForm(d)) == Some(d);
  }

  /** A day and month written as DD/MM. */
  function ShortForm(day: nat, month: nat): string {
    Digits(day, 2) + "/" + Digits(month, 2)
  }

  lemma ShortFormFields(day: nat, month: nat)
    ensures Strip(ShortForm(day, month)) == ShortForm(day, month)
    ensures Split(ShortForm(day, month), '/') == [Digits(day, 2), Digits(month, 2)]
  {
    var a, b := Digits(day, 2), Digits(month, 2);
    var t := ShortForm(day, month);
    assert t == a + ['/'] + b;
    assert t[0] == a[0] && t[|t| - 1] == b[1];
    StripKeeps(t);
    NoSlashInDigits(a);
    NoSlashInDigits(b);
    SplitCons(a, b, '/');
    SplitNoSep(b, '/');
  }

  /** Every day and month that exist in 1900 are accepted in the short form: the date
      lands this year when it is not past, otherwise next year, and is refused only when
      next year would be past 9999. */
  lemma ParseShortForm(day: nat, month: nat, today: Day)
    requires Valid(Date(1900, month, day))
    ensures var here := Date(today.year, month, day);
      var r := ParseDate(ShortForm(day, month), today);
      && Valid(here)
      && (!Before(here, today) ==> r == Some(here))
      && (Before(here, today) && today.year + 1 <= MaxYear ==> r == Some(Date(today.year + 1, month, day)))
      && (Before(here, today) && today.year + 1 > MaxYear ==> r.None?)
  {
    ShortFormFields(day, month);
    DayFieldOf(day);
    MonthFieldOf(month);
    assert ParseFull(ShortForm(day, month)).None?;
    assert DaysInMonth(1900, month) <= DaysInMonth(today.year, month);
  }

  // ---- The absence table ----

  datatype Absence = Absence(id: nat, staff: nat, start: Day, end: Day, reason: Option<string>)

  /** SQL's `a < b` on the stored ISO texts. */
  predicate TextBefore(a: Day, b: Day) {
    Less(IsoFormat(a), IsoFormat(b))
  }

  predicate IdsIncreasing(rows: seq<Absence>) {
    Pairwise(rows, (a: Absence, b: Absence) => a.id < b.id)
  }

  /** `staff_id = $1 AND NOT (end_date < $2 OR start_date > $3)`. */
  function Clashes(staff: nat, start: Day, end: Day): Absence -> bool {
    (r: Absence) => r.staff == staff && !(TextBefore(r.end, start) || TextBefore(end, r.start))
  }

  /** A row blocks a declaration exactly when it belongs to the same member and the two
      inclusive day ranges share a day; ranges that only touch end to start do not. */
  lemma ClashesIff(r: Absence, staff: nat, start: Day, end: Day)
    ensures Clashes(staff, start, end)(r) <==>
      r.staff == staff && Ordinal(r.start) <= Ordinal(end) && Ordinal(start) <= Ordinal(r.end)
  {
    IsoLessIff(r.end, start);
    IsoLessIff(end, r.start);
  }

  /** No member has two absences sharing a day. */
  predicate NoOverlap(rows: seq<Absence>) {
    Pairwise(rows, (a: Absence, b: Absence) => !Clashes(a.staff, a.start, a.end)(b))
  }

  /** A declaration that passed the overlap query keeps the table free of overlaps. */
  lemma DeclarationKeepsNoOverlap(rows: seq<Absence>, r: Absence)
    requires NoOverlap(rows) && Filter(rows, Clashes(r.staff, r.start, r.end)) == []
    ensures NoOverlap(rows + [r])
  {
    forall i | 0 <= i < |rows| ensures !Clashes(rows[i].staff, rows[i].start, rows[i].end)(r) {
      var a := rows[i];
      ClashesIff(r, a.staff, a.start, a.end);
      ClashesIff(a, r.staff, r.start, r.end);
    }
    PairwiseSnoc(rows, r, (a: Absence, b: Absence) => !Clashes(a.staff, a.start, a.end)(b));
  }

  lemma DeletingKeepsNoOverlap(rows: seq<Absence>, keep: Absence -> bool)
    requires NoOverlap(rows)
    ensures NoOverlap(Filter(rows, keep))
  {
    FilterPairwise(rows, keep, (a: Absence, b: Absence) => !Clashes(a.staff, a.start, a.end)(b));
  }

  /** The override inserts without the overlap query, so it can break the rule: one member
      with the same day declared, then forced. */
  lemma ForcingCanOverlap(r: Absence, id: nat)
    requires Ordinal(r.start) <= Ordinal(r.end)
    ensures NoOverlap([r]) && !NoOverlap([r, r.(id := id)])
  {
    var twin := r.(id := id);
    ClashesIff(twin, r.staff, r.start, r.end);
    assert Clashes(r.staff, r.start, r.end)(twin);
    assert [r, twin][0] == r && [r, twin][1] == twin;
  }

  /** `SELECT * FROM staff_absences WHERE id = $1 AND staff_id = $2`. */
  function FindOwned(rows: seq<Absence>, id: nat, staff: nat): (r: Option<Absence>)
    ensures r.Some? ==> r.value in rows && r.value.id == id && r.value.staff == staff
    ensures r.None? ==> forall i :: 0 <= i < |rows| ==> !(rows[i].id == id && rows[i].staff == staff)
  {
    if rows == [] then None
    else if rows[0].id == id && rows[0].staff == staff then Some(rows[0])
    else FindOwned(rows[1..], id, staff)
  }

  function OtherId(id: nat): Absence -> bool {
    (r: Absence) => r.id != id
  }

  /** With distinct ids, the delete by id removes exactly the row the owner lookup found. */
  lemma {:induction false} OwnedDeleteRemovesOne(rows: seq<Absence>, id: nat, staff: nat)
    requires IdsIncreasing(rows) && FindOwned(rows, id, staff).Some?
    ensures multiset(rows) == multiset(Filter(rows, OtherId(id))) + multiset{FindOwned(rows, id, staff).value}
  {
    var tail := rows[1..];
    if rows[0].id == id && rows[0].staff == staff {
      forall i | 1 <= i < |rows| ensures OtherId(id)(rows[i]) {
        assert rows[0].id < rows[i].id;
      }
      FilterDropsHead(rows, OtherId(id));
    } else {
      assert IdsIncreasing(tail);
      OwnedDeleteRemovesOne(tail, id, staff);
      assert FindOwned(rows, id, staff) == FindOwned(tail, id, staff);
      var found := FindOwned(tail, id, staff).value;
      assert rows[0].id != id by {
        var k :| 0 <= k < |tail| && tail[k] == found;
        assert rows[0].id < rows[k + 1].id;
      }
      FilterKeepsHead(rows, OtherId(id), found);
    }
  }

  /** Rows the sweep keeps: `NOT (end_date < yesterday)`. */
  function Unfinished(yesterday: Day): Absence -> bool {
    (r: Absence) => !TextBefore(r.end, yesterday)
  }

  /** The sweep keeps exactly the absences ending yesterday or later. */
  lemma SweepKeepsIff(r: Absence, today: Day)
    requires PrevDay(today).Some?
    ensures Unfinished(PrevDay(today).value)(r) <==> Ordinal(r.end) >= Ordinal(today) - 1
  {
    PrevDayOrdinal(today);
    IsoLessIff(r.end, PrevDay(today).value);
  }

  class AbsenceTable {
    var rows: seq<Absence>
    var nextId: nat

    ghost predicate Valid()
      reads this
    {
      nextId >= 1 && IdsIncreasing(rows) && forall i :: 0 <= i < |rows| ==> 1 <= rows[i].id < nextId
    }

    constructor ()
      ensures Valid() && rows == []
    {
      rows := [];
      nextId := 1;
    }

    /** INSERT INTO staff_absences: one new row with a fresh SERIAL id. */
    method Insert(staff: nat, start: Day, end: Day, reason: Option<string>)
      requires Valid()
      modifies this
      ensures Valid()
      ensures rows == old(rows) + [Absence(old(nextId), staff, start, end, reason)]
    {
      rows := rows + [Absence(nextId, staff, start, end, reason)];
      nextId := nextId + 1;
    }

    /** ManageAbsenceView.select_callback's queries: find the row by id and owner, then
        delete by id. */
    method DeleteOwned(id: nat, staff: nat) returns (found: Option<Absence>)
      requires Valid()
      modifies this
      ensures Valid() && nextId == old(nextId)
      ensures found == FindOwned(old(rows), id, staff)
      ensures rows == if found.None? then old(rows) else Filter(old(rows), OtherId(id))
    {
      found := FindOwned(rows, id, staff);
      if found.Some? {
        FilterPairwise(rows, OtherId(id), (a: Absence, b: Absence) => a.id < b.id);
        rows := Filter(rows, OtherId(id));
      }
    }

    /** `DELETE FROM staff_absences`, answering the driver's status text. */
    method Clear() returns (status: string)
      requires Valid()
      modifies this
      ensures Valid() && nextId == old(nextId)
      ensures rows == [] && status == DeleteTag(|old(rows)|)
    {
      status := DeleteTag(|rows|);
      rows := [];
    }

    /** `DELETE FROM staff_absences WHERE end_date < yesterday`. */
    method Sweep(yesterday: Day)
      requires Valid()
      modifies this
      ensures Valid() && nextId == old(nextId)
      ensures rows == Filter(old(rows), Unfinished(yesterday))
    {
      FilterPairwise(rows, Unfinished(yesterday), (a: Absence, b: Absence) => a.id < b.id);
      rows := Filter(rows, Unfinished(yesterday));
    }
  }

  // ---- The absence panel ----

  /** `end_date >= today` on the ISO text. */
  function NotOver(today: Day): Absence -> bool {
    (r: Absence) => !TextBefore(r.end, today)
  }

  /** `ORDER BY start_date ASC` on the ISO text. */
  function StartsNoLater(a: Absence, b: Absence): bool {
    !TextBefore(b.start, a.start)
  }

  lemma StartsNoLaterIsPreorder()
    ensures TotalPreorder(StartsNoLater)
  {
    forall a: Absence, b: Absence ensures StartsNoLater(a, b) || StartsNoLater(b, a) {
      IsoLessIff(a.start, b.start);
      IsoLessIff(b.start, a.start);
    }
    forall a: Absence, b: Absence, c: Absence | StartsNoLater(a, b) && StartsNoLater(b, c)
      ensures StartsNoLater(a, c)
    {
      IsoLessIff(b.start, a.start);
      IsoLessIff(c.start, b.start);
      IsoLessIff(c.start, a.start);
    }
  }

  /** The panel's query: absences not over yet, by start date, at most 20. */
  function Listing(rows: seq<Absence>, today: Day): seq<Absence> {
    Query(rows, NotOver(today), StartsNoLater, ListingLimit)
  }

  /** The listing holds at most 20 stored absences, none over, in start-date order, and
      it leaves out only absences starting no earlier than the last one shown. */
  lemma ListingProperties(rows: seq<Absence>, today: Day)
    ensures var l := Listing(rows, today);
      && |l| == Min(ListingLimit, |Filter(rows, NotOver(today))|)
      && (forall i :: 0 <= i < |l| ==> l[i] in rows && Ordinal(l[i].end) >= Ordinal(today))
      && (forall i, j :: 0 <= i < j < |l| ==> Ordinal(l[i].start) <= Ordinal(l[j].start))
      && multiset(l) <= multiset(Filter(rows, NotOver(today)))
    ensures var l := Listing(rows, today);
      var all := SortBy(Filter(rows, NotOver(today)), StartsNoLater);
      forall i, j :: 0 <= i < |l| <= j < |all| ==> Ordinal(l[i].start) <= Ordinal(all[j].start)
  {
    var f := Filter(rows, NotOver(today));
    var l, all := Listing(rows, today), SortBy(f, StartsNoLater);
    StartsNoLaterIsPreorder();
    QueryProperties(rows, NotOver(today), StartsNoLater, ListingLimit);
    assert l == Query(rows, NotOver(today), StartsNoLater, ListingLimit);
    ListingOrdinals(l, all, today);
  }

  /** The listing's ISO text comparisons, read as comparisons of calendar days. */
  lemma ListingOrdinals(l: seq<Absence>, all: seq<Absence>, today: Day)
    requires forall i :: 0 <= i < |l| ==> NotOver(today)(l[i])
    requires SortedBy(l, StartsNoLater)
    requires forall i, j :: 0 <= i < |l| <= j < |all| ==> StartsNoLater(l[i], all[j])
    ensures forall i :: 0 <= i < |l| ==> Ordinal(l[i].end) >= Ordinal(today)
    ensures forall i, j :: 0 <= i < j < |l| ==> Ordinal(l[i].start) <= Ordinal(l[j].start)
    ensures forall i, j :: 0 <= i < |l| <= j < |all| ==> Ordinal(l[i].start) <= Ordinal(all[j].start)
  {
    forall i | 0 <= i < |l| ensures Ordinal(l[i].end) >= Ordinal(today) {
      IsoLessIff(l[i].end, today);
    }
    forall i, j | 0 <= i < j < |l| ensures Ordinal(l[i].start) <= Ordinal(l[j].start) {
      StartOrder(l[i], l[j]);
    }
    forall i, j | 0 <= i < |l| <= j < |all| ensures Ordinal(l[i].start) <= Ordinal(all[j].start) {
      StartOrder(l[i], all[j]);
    }
  }

  lemma StartOrder(a: Absence, b: Absence)
    requires StartsNoLater(a, b)
    ensures Ordinal(a.start) <= Ordinal(b.start)
  {
    IsoLessIff(b.start, a.start);
  }

  /** "En cours": `start <= today <= end`. */
  function Current(today: Day): Absence -> bool {
    (r: Absence) => !Before(today, r.start) && !Before(r.end, today)
  }

  /** "À venir": `start > today`. */
  function Coming(today: Day): Absence -> bool {
    (r: Absence) => Before(today, r.start)
  }

  /** The two groups never share an absence, and every absence that is not over falls in
      exactly one of them. */
  lemma ClassesPartition(r: Absence, today: Day)
    ensures !(Current(today)(r) && Coming(today)(r))
    ensures !Before(r.end, today) ==> (Current(today)(r) || Coming(today)(r))
  {
  }

  /** The classification loop of update_absences_embed. */
  method Classify(listing: seq<Absence>, today: Day) returns (current: seq<Absence>, coming: seq<Absence>)
    ensures current == Filter(listing, Current(today))
    ensures coming == Filter(listing, Coming(today))
  {
    current, coming := [], [];
    for i := 0 to |listing|
      invariant current == Filter(listing[..i], Current(today))
      invariant coming == Filter(listing[..i], Coming(today))
    {
      var r := listing[i];
      assert listing[..i + 1] == listing[..i] + [r];
      FilterSnoc(listing[..i], r, Current(today));
      FilterSnoc(listing[..i], r, Coming(today));
      if !Before(today, r.start) && !Before(r.end, today) {
        current := current + [r];
      } else if Before(today, r.start) {
        coming := coming + [r];
      }
    }
    assert listing[..|listing|] == listing;
  }

  /** What the panel shows: the current and upcoming groups and the number absent today. */
  datatype AbsenceBoard = AbsenceBoard(current: seq<Absence>, coming: seq<Absence>, absentNow: nat)

  /** What the panel shows for `rows` on `today`: the current and upcoming groups of the
      listing and the number absent today. */
  function BoardFor(rows: seq<Absence>, today: Day): AbsenceBoard {
    var listing := Listing(rows, today);
    AbsenceBoard(Filter(listing, Current(today)), Filter(listing, Coming(today)), |Filter(listing, Current(today))|)
  }

  /** The stored references and the absence channel's messages once the panel shows `rows`. */
  function AbsencesShown(refs: map<string, PanelRef>, messages: map<nat, Post<AbsenceBoard>>, nextId: nat,
                         channelId: nat, rows: seq<Absence>, today: Day)
    : (map<string, PanelRef>, map<nat, Post<AbsenceBoard>>)
  {
    AfterRefresh(refs, messages, nextId, channelId, AbsencesKey, AbsencesPolicy, BoardFor(rows, today))
  }

  /** update_absences_embed. No pool, no configured or known channel (a null `ch`), or
      no previous day (the subtraction raises) ends it before the sweep. */
  method RefreshAbsences(table: AbsenceTable?, ch: Channel?<AbsenceBoard>, refs: PanelRefs, today: Day)
    returns (e: Option<Effect>)
    requires table != null ==> table.Valid()
    requires ch != null ==> ch.Valid()
    modifies table, ch, refs
    ensures table != null ==> table.Valid()
    ensures ch != null ==> ch.Valid()
    ensures table == null || ch == null || PrevDay(today).None? ==>
      e.None? && refs.refs == old(refs.refs) && (table != null ==> table.rows == old(table.rows)) &&
      (ch != null ==> ch.messages == old(ch.messages))
    ensures table != null && ch != null && PrevDay(today).Some? ==>
      && table.rows == Filter(old(table.rows), Unfinished(PrevDay(today).value))
      && !Decide(old(refs.refs), old(ch.messages), AbsencesKey, AbsencesPolicy).Skip?
      && e == Some(EffectOf(Decide(old(refs.refs), old(ch.messages), AbsencesKey, AbsencesPolicy), old(ch.nextId)))
      && (refs.refs, ch.messages) == AbsencesShown(old(refs.refs), old(ch.messages), old(ch.nextId), ch.id, table.rows, today)
  {
    if table == null || ch == null {
      return None;
    }
    var yesterday := PrevDay(today);
    if yesterday.None? {
      return None;
    }
    ghost var refs0, messages0 := refs.refs, ch.messages;
    assert !Decide(refs0, messages0, AbsencesKey, AbsencesPolicy).Skip?;
    table.Sweep(yesterday.value);
    assert refs.refs == refs0 && ch.messages == messages0;
    var listing := Listing(table.rows, today);
    var current, coming := Classify(listing, today);
    var absentNow := |Filter(listing, Current(today))|;
    var effect := Refresh(refs, ch, AbsencesKey, AbsenceBoard(current, coming, absentNow), AbsencesPolicy);
    return Some(effect);
  }

  /** The rows a refresh leaves, as RefreshAbsences states them. */
  function Refreshed(rows: seq<Absence>, hasChannel: bool, today: Day): seq<Absence> {
    if !hasChannel || PrevDay(today).None? then rows else Filter(rows, Unfinished(PrevDay(today).value))
  }

  // ---- Declaring ----

  datatype Rejection = BadStart | BadEnd | EndBeforeStart | AlreadyOver

  datatype Screened = Refused(why: Rejection) | Passed(start: Day, end: Day)

  /** The checks of AbsenceModal.on_submit that come before any query, in their order. */
  function Screen(startText: string, endText: string, today: Day): (r: Screened)
    ensures r == Refused(BadStart) <==> ParseDate(startText, today).None?
    ensures r == Refused(BadEnd) <==> ParseDate(startText, today).Some? && ParseDate(endText, today).None?
    ensures r.Passed? <==>
      && ParseDate(startText, today).Some? && ParseDate(endText, today).Some?
      && !Before(ParseDate(endText, today).value, ParseDate(startText, today).value)
      && !Before(ParseDate(endText, today).value, today)
    ensures r.Passed? ==> r.start == ParseDate(startText, today).value && r.end == ParseDate(endText, today).value
  {
    var s := ParseDate(startText, today);
    var e := ParseDate(endText, today);
    if s.None? then Refused(BadStart)
    else if e.None? then Refused(BadEnd)
    else if Before(e.value, s.value) then Refused(EndBeforeStart)
    else if Before(e.value, today) then Refused(AlreadyOver)
    else Passed(s.value, e.value)
  }

  /** A declaration that passes the checks is a range of at least one day that has not
      ended; its start may lie in the past. */
  lemma PassedIsOngoingRange(startText: string, endText: string, today: Day)
    requires Screen(startText, endText, today).Passed?
    ensures var r := Screen(startText, endText, today);
      Ordinal(r.start) <= Ordinal(r.end) && Ordinal(today) <= Ordinal(r.end)
  {
    var r := Screen(startText, endText, today);
    OrdinalOrder(r.end, r.start);
    OrdinalOrder(r.end, today);
  }

  /** `value.strip() if value else None`: an empty field gives no reason; a blank one an
      empty reason. */
  function ReasonOf(value: string): Option<string> {
    if value == "" then None else Some(Strip(value))
  }

  datatype DeclareOutcome = Refusal(why: Rejection) | Overlapping | Declared(stored: bool)

  /** AbsenceModal.on_submit, then the panel refresh that follows a declaration. */
  method Declare(table: AbsenceTable?, ch: Channel?<AbsenceBoard>, refs: PanelRefs,
                 staff: nat, startText: string, endText: string, reasonText: string, today: Day)
    returns (outcome: DeclareOutcome)
    requires table != null ==> table.Valid()
    requires ch != null ==> ch.Valid()
    modifies table, ch, refs
    ensures table != null ==> table.Valid()
    ensures ch != null ==> ch.Valid()
    ensures Screen(startText, endText, today).Refused? ==>
      outcome == Refusal(Screen(startText, endText, today).why) &&
      refs.refs == old(refs.refs) && (table != null ==> table.rows == old(table.rows)) &&
      (ch != null ==> ch.messages == old(ch.messages))
    ensures Screen(startText, endText, today).Passed? && table == null ==>
      outcome == Declared(false) && refs.refs == old(refs.refs) && (ch != null ==> ch.messages == old(ch.messages))
    ensures Screen(startText, endText, today).Passed? && table != null ==>
      var p := Screen(startText, endText, today);
      if Filter(old(table.rows), Clashes(staff, p.start, p.end)) != [] then
        outcome == Overlapping && table.rows == old(table.rows) && refs.refs == old(refs.refs) &&
        (ch != null ==> ch.messages == old(ch.messages))
      else
        outcome == Declared(true) &&
        table.rows == Refreshed(old(table.rows) + [Absence(old(table.nextId), staff, p.start, p.end, ReasonOf(reasonText))],
                                ch != null, today) &&
        (ch == null || PrevDay(today).None? ==>
          refs.refs == old(refs.refs) && (ch != null ==> ch.messages == old(ch.messages))) &&
        (ch != null && PrevDay(today).Some? ==>
          (refs.refs, ch.messages) == AbsencesShown(old(refs.refs), old(ch.messages), old(ch.nextId), ch.id, table.rows, today))
    ensures table != null && NoOverlap(old(table.rows)) ==> NoOverlap(table.rows)
  {
    var screened := Screen(startText, endText, today);
    if screened.Refused? {
      return Refusal(screened.why);
    }
    if table != null {
      outcome := Record(table, ch, refs, staff, screened.start, screened.end, ReasonOf(reasonText), today);
      return;
    }
    var _ := RefreshAbsences(table, ch, refs, today);
    return Declared(false);
  }

  /** The part of AbsenceModal.on_submit after the dates passed: the overlap check against
      the member's stored absences, the INSERT and the panel refresh. */
  method Record(table: AbsenceTable, ch: Channel?<AbsenceBoard>, refs: PanelRefs,
                staff: nat, start: Day, end: Day, reason: Option<string>, today: Day)
    returns (outcome: DeclareOutcome)
    requires table.Valid()
    requires ch != null ==> ch.Valid()
    modifies table, ch, refs
    ensures table.Valid()
    ensures ch != null ==> ch.Valid()
    ensures if Filter(old(table.rows), Clashes(staff, start, end)) != [] then
        outcome == Overlapping && table.rows == old(table.rows) && refs.refs == old(refs.refs) &&
        (ch != null ==> ch.messages == old(ch.messages))
      else
        outcome == Declared(true) &&
        table.rows == Refreshed(old(table.rows) + [Absence(old(table.nextId), staff, start, end, reason)], ch != null, today) &&
        (ch == null || PrevDay(today).None? ==>
          refs.refs == old(refs.refs) && (ch != null ==> ch.messages == old(ch.messages))) &&
        (ch != null && PrevDay(today).Some? ==>
          (refs.refs, ch.messages) == AbsencesShown(old(refs.refs), old(ch.messages), old(ch.nextId), ch.id, table.rows, today))
    ensures NoOverlap(old(table.rows)) ==> NoOverlap(table.rows)
  {
    var clashes := |Filter(table.rows, Clashes(staff, start, end))|;
    if clashes > 0 {
      return Overlapping;
    }
    ghost var before := table.rows;
    table.Insert(staff, start, end, reason);
    if NoOverlap(before) {
      DeclarationKeepsNoOverlap(before, Absence(old(table.nextId), staff, start, end, reason));
    }
    ghost var inserted := table.rows;
    assert inserted == before + [Absence(old(table.nextId), staff, start, end, reason)];
    var _ := RefreshAbsences(table, ch, refs, today);
    assert table.rows == Refreshed(inserted, ch != null, today);
    if NoOverlap(inserted) && PrevDay(today).Some? && ch != null {
      DeletingKeepsNoOverlap(inserted, Unfinished(PrevDay(today).value));
    }
    return Declared(true);
  }

  datatype ForceOutcome = NotStaff | BadFormat | ForcedEndBeforeStart | ForceNoDatabase | Forced

  /** force_absence: the member must hold the staff role and both dates must parse with
      the end not before the start; there is no past-date and no overlap check, and the
      reason is stored as given. */
  method Force(table: AbsenceTable?, ch: Channel?<AbsenceBoard>, refs: PanelRefs,
               memberIsStaff: bool, member: nat, startText: string, endText: string,
               reason: Option<string>, today: Day)
    returns (outcome: ForceOutcome)
    requires table != null ==> table.Valid()
    requires ch != null ==> ch.Valid()
    modifies table, ch, refs
    ensures table != null ==> table.Valid()
    ensures ch != null ==> ch.Valid()
    ensures var s, e := ParseDate(startText, today), ParseDate(endText, today);
      outcome == (if !memberIsStaff then NotStaff
                  else if s.None? || e.None? then BadFormat
                  else if Before(e.value, s.value) then ForcedEndBeforeStart
                  else if table == null then ForceNoDatabase
                  else Forced)
    ensures outcome != Forced ==>
      refs.refs == old(refs.refs) && (table != null ==> table.rows == old(table.rows)) &&
      (ch != null ==> ch.messages == old(ch.messages))
    ensures outcome == Forced ==>
      var s, e := ParseDate(startText, today).value, ParseDate(endText, today).value;
      table.rows == Refreshed(old(table.rows) + [Absence(old(table.nextId), member, s, e, reason)], ch != null, today) &&
      (ch == null || PrevDay(today).None? ==>
        refs.refs == old(refs.refs) && (ch != null ==> ch.messages == old(ch.messages))) &&
      (ch != null && PrevDay(today).Some? ==>
        (refs.refs, ch.messages) == AbsencesShown(old(refs.refs), old(ch.messages), old(ch.nextId), ch.id, table.rows, today))
  {
    if !memberIsStaff {
      return NotStaff;
    }
    var s := ParseDate(startText, today);
    var e := ParseDate(endText, today);
    if s.None? || e.None? {
      return BadFormat;
    }
    if Before(e.value, s.value) {
      return ForcedEndBeforeStart;
    }
    if table == null {
      return ForceNoDatabase;
    }
    table.Insert(member, s.value, e.value, reason);
    var _ := RefreshAbsences(table, ch, refs, today);
    return Forced;
  }

  datatype CancelOutcome = CancelNoDatabase | NotFound | Cancelled(row: Absence)

  /** ManageAbsenceView.select_callback: only the member's own absence is deleted. */
  method CancelOwn(table: AbsenceTable?, ch: Channel?<AbsenceBoard>, refs: PanelRefs,
                   staff: nat, id: nat, today: Day)
    returns (outcome: CancelOutcome)
    requires table != null ==> table.Valid()
    requires ch != null ==> ch.Valid()
    modifies table, ch, refs
    ensures table != null ==> table.Valid()
    ensures ch != null ==> ch.Valid()
    ensures table == null ==>
      outcome == CancelNoDatabase && refs.refs == old(refs.refs) && (ch != null ==> ch.messages == old(ch.messages))
    ensures table != null && FindOwned(old(table.rows), id, staff).None? ==>
      outcome == NotFound && table.rows == old(table.rows) && refs.refs == old(refs.refs) &&
      (ch != null ==> ch.messages == old(ch.messages))
    ensures table != null && FindOwned(old(table.rows), id, staff).Some? ==>
      outcome == Cancelled(FindOwned(old(table.rows), id, staff).value) &&
      table.rows == Refreshed(Filter(old(table.rows), OtherId(id)), ch != null, today) &&
      (ch == null || PrevDay(today).None? ==>
        refs.refs == old(refs.refs) && (ch != null ==> ch.messages == old(ch.messages))) &&
      (ch != null && PrevDay(today).Some? ==>
        (refs.refs, ch.messages) == AbsencesShown(old(refs.refs), old(ch.messages), old(ch.nextId), ch.id, table.rows, today))
  {
    if table == null {
      return CancelNoDatabase;
    }
    var found := table.DeleteOwned(id, staff);
    if found.None? {
      return NotFound;
    }
    var _ := RefreshAbsences(table, ch, refs, today);
    return Cancelled(found.value);
  }

  datatype ClearOutcome = ClearNoDatabase | Cleared(count: int)

  /** clear_absences: delete every absence and report how many the driver said went. */
  method ClearAll(table: AbsenceTable?, ch: Channel?<AbsenceBoard>, refs: PanelRefs, today: Day)
    returns (outcome: ClearOutcome)
    requires table != null ==> table.Valid()
    requires ch != null ==> ch.Valid()
    modifies table, ch, refs
    ensures table != null ==> table.Valid()
    ensures ch != null ==> ch.Valid()
    ensures table == null ==>
      outcome == ClearNoDatabase && refs.refs == old(refs.refs) && (ch != null ==> ch.messages == old(ch.messages))
    ensures table != null ==>
      outcome == Cleared(|old(table.rows)|) && table.rows == [] &&
      (ch == null || PrevDay(today).None? ==>
        refs.refs == old(refs.refs) && (ch != null ==> ch.messages == old(ch.messages))) &&
      (ch != null && PrevDay(today).Some? ==>
        (refs.refs, ch.messages) == AbsencesShown(old(refs.refs), old(ch.messages), old(ch.nextId), ch.id, table.rows, today))
  {
    if table == null {
      return ClearNoDatabase;
    }
    var status := table.Clear();
    ReportedDeleteCount(|old(table.rows)|);
    var count := ReportedCount(status);
    var _ := RefreshAbsences(table, ch, refs, today);
    return Cleared(count.value);
  }

  // ---- notify_admins ----

  /** Who is told of a new declaration: the server owner when known, first and even when
      they declared; then each holder of the super-admin role, once, except the
      declarer. */
  method Recipients(owner: Option<nat>, superAdmins: Option<seq<nat>>, declarer: nat) returns (rs: seq<nat>)
    ensures owner.Some? ==> |rs| > 0 && rs[0] == owner.value
    ensures forall i, j :: 0 <= i < j < |rs| ==> rs[i] != rs[j]
    ensures forall x :: x in rs <==>
      owner == Some(x) || (superAdmins.Some? && x in superAdmins.value && x != declarer)
  {
    rs := [];
    if owner.Some? {
      rs := rs + [owner.value];
    }
    if superAdmins.Some? {
      var members := superAdmins.value;
      for k := 0 to |members|
        invariant owner.Some? ==> |rs| > 0 && rs[0] == owner.value
        invariant forall i, j :: 0 <= i < j < |rs| ==> rs[i] != rs[j]
        invariant forall x :: x in rs <==> owner == Some(x) || (x in members[..k] && x != declarer)
      {
        var member := members[k];
        assert members[..k + 1] == members[..k] + [member];
        if member !in rs && member != declarer {
          rs := rs + [member];
        }
      }
      assert members[..|members|] == members;
    }
  }
}
