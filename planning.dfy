/**
 * The appointment store of cogs/tickets.py (table `rdv_planning`): the
 * availability window, booking, cancellation, clearing, and the planning panel
 * refresh that sweeps old rows, lists upcoming ones grouped by day, and edits
 * or posts the panel message.
 */
module Planning {
  import opened Base
  import opened Seqs
  import opened Sql
  import opened Slots
  import opened Panels

  /** Two appointments closer than this many seconds collide. */
  const Window := 1800
  /** Rows older than this many seconds are swept. */
  const SweepAge := 7200
  /** The panel lists rows no older than this many seconds. */
  const ListingAge := 3600
  const ListingLimit := 15
  const PlanningKey := "rdv_planning"

  datatype Appointment = Appointment(id: nat, user: nat, staff: nat, day: string, hour: string, ts: int, channel: nat)

  /** The row falls within the window around instant `t`. */
  function Near(t: int): Appointment -> bool {
    (a: Appointment) => Abs(a.ts - t) < Window
  }

  /** `SELECT COUNT(*) FROM rdv_planning WHERE ABS(rdv_timestamp - t) < 1800`. */
  function ClashCount(rows: seq<Appointment>, t: int): nat {
    |Filter(rows, Near(t))|
  }

  /** check_slot_available: without a store every slot is free; otherwise a slot is free
      when no row lies within the window. */
  function SlotAvailable(store: Option<seq<Appointment>>, t: int): bool {
    store.None? || ClashCount(store.value, t) == 0
  }

  /** A slot is available exactly when there is no store or every row is at least
      1800 seconds away from it. */
  lemma AvailableIff(store: Option<seq<Appointment>>, t: int)
    ensures SlotAvailable(store, t) <==>
      store.None? || forall i :: 0 <= i < |store.value| ==> Abs(store.value[i].ts - t) >= Window
  {
    if store.Some? {
      var rows := store.value;
      var clash := Filter(rows, Near(t));
      if |clash| > 0 {
        assert clash[0] in rows && Near(t)(clash[0]);
      }
    }
  }

  /** Adding a row closes exactly the window around its instant: afterwards a slot is
      free iff it was free before and lies at least 1800 seconds from the new row. */
  lemma WindowAfterInsert(rows: seq<Appointment>, a: Appointment, t: int)
    ensures ClashCount(rows + [a], t) == 0 <==> ClashCount(rows, t) == 0 && Abs(a.ts - t) >= Window
  {
    FilterAppend(rows, [a], Near(t));
    assert Filter([a], Near(t)) == if Near(t)(a) then [a] else [];
  }

  /** No two stored appointments lie within 1800 seconds of each other. */
  predicate Separated(rows: seq<Appointment>) {
    Pairwise(rows, (a: Appointment, b: Appointment) => Abs(a.ts - b.ts) >= Window)
  }

  /** Booking a slot that passed the check keeps the store separated. */
  lemma BookingKeepsSeparated(rows: seq<Appointment>, a: Appointment)
    requires Separated(rows) && ClashCount(rows, a.ts) == 0
    ensures Separated(rows + [a])
  {
    AvailableIff(Some(rows), a.ts);
    PairwiseSnoc(rows, a, (a: Appointment, b: Appointment) => Abs(a.ts - b.ts) >= Window);
  }

  /** Deleting any rows keeps the store separated. */
  lemma DeletingKeepsSeparated(rows: seq<Appointment>, keep: Appointment -> bool)
    requires Separated(rows)
    ensures Separated(Filter(rows, keep))
  {
    FilterPairwise(rows, keep, (a: Appointment, b: Appointment) => Abs(a.ts - b.ts) >= Window);
  }

  /** Row ids are increasing in table order (SERIAL ids, appended). */
  predicate IdsIncreasing(rows: seq<Appointment>) {
    Pairwise(rows, (a: Appointment, b: Appointment) => a.id < b.id)
  }

  /** `SELECT * FROM rdv_planning WHERE id = $1`. */
  function FindById(rows: seq<Appointment>, id: nat): (r: Option<Appointment>)
    ensures r.Some? ==> r.value in rows && r.value.id == id
    ensures r.None? ==> forall i :: 0 <= i < |rows| ==> rows[i].id != id
  {
    if rows == [] then None
    else if rows[0].id == id then Some(rows[0])
    else FindById(rows[1..], id)
  }

  function Other(id: nat): Appointment -> bool {
    (a: Appointment) => a.id != id
  }

  /** With distinct ids, deleting by id removes exactly the row found, keeping the others in order. */
  lemma {:induction false} DeleteByIdRemovesOne(rows: seq<Appointment>, id: nat)
    requires IdsIncreasing(rows) && FindById(rows, id).Some?
    ensures multiset(rows) == multiset(Filter(rows, Other(id))) + multiset{FindById(rows, id).value}
  {
    var tail := rows[1..];
    if rows[0].id == id {
      forall i | 1 <= i < |rows| ensures Other(id)(rows[i]) {
        assert rows[0].id < rows[i].id;
      }
      FilterDropsHead(rows, Other(id));
    } else {
      assert IdsIncreasing(tail);
      DeleteByIdRemovesOne(tail, id);
      assert FindById(rows, id) == FindById(tail, id);
      var found := FindById(tail, id).value;
      assert rows[0].id != id by {
        var k :| 0 <= k < |tail| && tail[k] == found;
        assert rows[0].id < rows[k + 1].id;
      }
      FilterKeepsHead(rows, Other(id), found);
    }
  }

  /** Rows the sweep keeps: those not older than now - 7200. */
  function Fresh(nowTs: int): Appointment -> bool {
    (a: Appointment) => !(a.ts < nowTs - SweepAge)
  }

  class AppointmentTable {
    var rows: seq<Appointment>
    var nextId: nat

    ghost predicate Valid()
      reads this
    {
      nextId >= 1 && IdsIncreasing(rows) && forall i :: 0 <= i < |rows| ==> 1 <= rows[i].id < nextId
    }

    constructor ()
      ensures Valid() && rows == []
    {
      rows := [];
      nextId := 1;
    }

    /** The INSERT of finalize_rdv: one new row with a fresh id. */
    method Insert(user: nat, staff: nat, day: string, hour: string, ts: int, channel: nat) returns (id: nat)
      requires Valid()
      modifies this
      ensures Valid()
      ensures id == old(nextId) && rows == old(rows) + [Appointment(id, user, staff, day, hour, ts, channel)]
    {
      id := nextId;
      rows := rows + [Appointment(id, user, staff, day, hour, ts, channel)];
      nextId := nextId + 1;
    }

    /** CancelRDVSelectView.select_callback: look the id up, then delete it. */
    method DeleteById(id: nat) returns (removed: Option<Appointment>)
      requires Valid()
      modifies this
      ensures Valid() && nextId == old(nextId)
      ensures removed == FindById(old(rows), id)
      ensures rows == if removed.None? then old(rows) else Filter(old(rows), Other(id))
    {
      removed := FindById(rows, id);
      if removed.Some? {
        FilterPairwise(rows, Other(id), (a: Appointment, b: Appointment) => a.id < b.id);
        rows := Filter(rows, Other(id));
      }
    }

    /** `DELETE FROM rdv_planning`, answering the driver's status text. */
    method Clear() returns (status: string)
      requires Valid()
      modifies this
      ensures Valid() && nextId == old(nextId)
      ensures rows == [] && status == DeleteTag(|old(rows)|)
    {
      status := DeleteTag(|rows|);
      rows := [];
    }

    /** `DELETE FROM rdv_planning WHERE rdv_timestamp < now - 7200`. */
    method Sweep(nowTs: int)
      requires Valid()
      modifies this
      ensures Valid() && nextId == old(nextId)
      ensures rows == Filter(old(rows), Fresh(nowTs))
    {
      FilterPairwise(rows, Fresh(nowTs), (a: Appointment, b: Appointment) => a.id < b.id);
      rows := Filter(rows, Fresh(nowTs));
    }
  }

  /** The sweep deletes exactly the rows older than now - 7200 and never breaks separation. */
  lemma SweepProperties(rows: seq<Appointment>, nowTs: int)
    ensures forall i :: 0 <= i < |Filter(rows, Fresh(nowTs))| ==> Filter(rows, Fresh(nowTs))[i].ts >= nowTs - SweepAge
    ensures forall i :: 0 <= i < |rows| && rows[i].ts >= nowTs - SweepAge ==> rows[i] in Filter(rows, Fresh(nowTs))
    ensures Separated(rows) ==> Separated(Filter(rows, Fresh(nowTs)))
  {
    if Separated(rows) {
      DeletingKeepsSeparated(rows, Fresh(nowTs));
    }
  }

  // ---- The planning panel ----

  function Upcoming(nowTs: int): Appointment -> bool {
    (a: Appointment) => a.ts > nowTs - ListingAge
  }

  function EarlierOrSame(a: Appointment, b: Appointment): bool {
    a.ts <= b.ts
  }

  /** `SELECT * … WHERE rdv_timestamp > now - 3600 ORDER BY rdv_timestamp ASC LIMIT 15`. */
  function Listing(rows: seq<Appointment>, nowTs: int): seq<Appointment> {
    Query(rows, Upcoming(nowTs), EarlierOrSame, ListingLimit)
  }

  lemma EarlierOrSameIsPreorder()
    ensures TotalPreorder(EarlierOrSame)
  {
  }

  /** The listing holds at most 15 stored rows, all later than now - 3600, in time order,
      as many as qualify up to 15, and no qualifying row left out is earlier than a listed one. */
  lemma ListingProperties(rows: seq<Appointment>, nowTs: int)
    ensures var l := Listing(rows, nowTs);
      && |l| == Min(ListingLimit, |Filter(rows, Upcoming(nowTs))|)
      && (forall i :: 0 <= i < |l| ==> l[i] in rows && l[i].ts > nowTs - ListingAge)
      && (forall i, j :: 0 <= i < j < |l| ==> l[i].ts <= l[j].ts)
      && multiset(l) <= multiset(Filter(rows, Upcoming(nowTs)))
    ensures var l := Listing(rows, nowTs);
      var all := SortBy(Filter(rows, Upcoming(nowTs)), EarlierOrSame);
      forall i, j :: 0 <= i < |l| <= j < |all| ==> l[i].ts <= all[j].ts
  {
    EarlierOrSameIsPreorder();
    QueryProperties(rows, Upcoming(nowTs), EarlierOrSame, ListingLimit);
  }

  /** The local calendar day of an instant (`strftime('%Y-%m-%d')` under the naive clock). */
  function DayOf(ts: int): int {
    ts / SecondsPerDay
  }

  function OnDay(day: int): Appointment -> bool {
    (a: Appointment) => DayOf(a.ts) == day
  }

  /** The days on which some row of `s` falls. */
  function DaysOf(s: seq<Appointment>): set<int> {
    set i | 0 <= i < |s| :: DayOf(s[i].ts)
  }

  /** `rdv_by_day`: each day that has a listed row, with that day's rows in listing order. */
  function ByDay(listing: seq<Appointment>): map<int, seq<Appointment>> {
    map day | day in DaysOf(listing) :: Filter(listing, OnDay(day))
  }

  /** `byDay` groups the rows of `prefix` by their day, in order. */
  ghost predicate Grouped(byDay: map<int, seq<Appointment>>, prefix: seq<Appointment>) {
    && byDay.Keys == DaysOf(prefix)
    && (forall day :: day in byDay ==> byDay[day] == Filter(prefix, OnDay(day)))
  }

  lemma DaysOfSnoc(prefix: seq<Appointment>, row: Appointment)
    ensures DaysOf(prefix + [row]) == DaysOf(prefix) + {DayOf(row.ts)}
  {
    var p := prefix + [row];
    forall day | day in DaysOf(p) ensures day in DaysOf(prefix) + {DayOf(row.ts)} {
      var j :| 0 <= j < |p| && DayOf(p[j].ts) == day;
      if j < |prefix| {
        assert p[j] == prefix[j];
      }
    }
    forall day | day in DaysOf(prefix) ensures day in DaysOf(p) {
      var j :| 0 <= j < |prefix| && DayOf(prefix[j].ts) == day;
      assert p[j] == prefix[j];
    }
    assert p[|prefix|] == row;
  }

  /** Appending a row to its day's group keeps the grouping exact. */
  lemma GroupStep(byDay: map<int, seq<Appointment>>, prefix: seq<Appointment>, row: Appointment)
    requires Grouped(byDay, prefix)
    ensures var key := DayOf(row.ts);
      Grouped(byDay[key := (if key in byDay then byDay[key] else []) + [row]], prefix + [row])
  {
    var key := DayOf(row.ts);
    var next := byDay[key := (if key in byDay then byDay[key] else []) + [row]];
    DaysOfSnoc(prefix, row);
    forall day | day in next ensures next[day] == Filter(prefix + [row], OnDay(day)) {
      FilterAppend(prefix, [row], OnDay(day));
      assert Filter([row], OnDay(day)) == if day == key then [row] else [];
      if day == key && key !in byDay {
        forall i | 0 <= i < |prefix| ensures !OnDay(day)(prefix[i]) {
          assert DayOf(prefix[i].ts) in DaysOf(prefix);
        }
        FilterNone(prefix, OnDay(key));
      }
    }
  }

  /** The grouping loop of update_planning_embed. */
  method GroupByDay(listing: seq<Appointment>) returns (byDay: map<int, seq<Appointment>>)
    ensures byDay == ByDay(listing)
  {
    byDay := map[];
    for i := 0 to |listing|
      invariant Grouped(byDay, listing[..i])
    {
      var row := listing[i];
      var key := DayOf(row.ts);
      GroupStep(byDay, listing[..i], row);
      assert listing[..i + 1] == listing[..i] + [row];
      var group := if key in byDay then byDay[key] else [];
      byDay := byDay[key := group + [row]];
    }
    assert listing[..|listing|] == listing;
  }

  /** Every listed row appears under its own day, and every group holds only rows of its day. */
  lemma ByDayGroups(listing: seq<Appointment>)
    ensures forall i :: 0 <= i < |listing| ==> DayOf(listing[i].ts) in ByDay(listing) && listing[i] in ByDay(listing)[DayOf(listing[i].ts)]
    ensures forall day :: day in ByDay(listing) ==>
      |ByDay(listing)[day]| > 0 && forall k :: 0 <= k < |ByDay(listing)[day]| ==> DayOf(ByDay(listing)[day][k].ts) == day
  {
    forall day | day in ByDay(listing) ensures |ByDay(listing)[day]| > 0 {
      var i :| 0 <= i < |listing| && DayOf(listing[i].ts) == day;
      assert listing[i] in Filter(listing, OnDay(day));
    }
    forall i | 0 <= i < |listing| ensures DayOf(listing[i].ts) in ByDay(listing) {
      assert DayOf(listing[i].ts) in DaysOf(listing);
    }
  }

  /** What the planning message shows: rows grouped by day, the count in the footer,
      and the cancel button exactly when there are rows. */
  datatype Board = Board(byDay: map<int, seq<Appointment>>, count: nat, cancelButton: bool)

  function BoardOf(listing: seq<Appointment>): Board {
    Board(ByDay(listing), |listing|, |listing| > 0)
  }

  /** The stored references and the planning channel's messages once the panel shows
      the fresh part of `rows` at `now`. */
  function PlanningShown(refs: map<string, PanelRef>, messages: map<nat, Post<Board>>, nextId: nat,
                         channelId: nat, rows: seq<Appointment>, now: Now)
    : (map<string, PanelRef>, map<nat, Post<Board>>)
  {
    AfterRefresh(refs, messages, nextId, channelId, PlanningKey, PlanningPolicy, BoardOf(Listing(rows, Timestamp(now))))
  }

  /** update_planning_embed. `table == null` is a bot without a database pool and
      `ch == null` a channel id the bot cannot resolve; both return before any change. */
  method RefreshPlanning(table: AppointmentTable?, ch: Channel?<Board>, refs: PanelRefs, now: Now)
    returns (e: Option<Effect>)
    requires table != null ==> table.Valid()
    requires ch != null ==> ch.Valid()
    modifies table, ch, refs
    ensures table != null ==> table.Valid()
    ensures ch != null ==> ch.Valid()
    ensures table == null || ch == null ==>
      e.None? && refs.refs == old(refs.refs) && (table != null ==> table.rows == old(table.rows)) &&
      (ch != null ==> ch.messages == old(ch.messages))
    ensures table != null && ch != null ==>
      && table.rows == Filter(old(table.rows), Fresh(Timestamp(now)))
      && !Decide(old(refs.refs), old(ch.messages), PlanningKey, PlanningPolicy).Skip?
      && e == Some(EffectOf(Decide(old(refs.refs), old(ch.messages), PlanningKey, PlanningPolicy), old(ch.nextId)))
      && (refs.refs, ch.messages) == PlanningShown(old(refs.refs), old(ch.messages), old(ch.nextId), ch.id, table.rows, now)
  {
    if table == null || ch == null {
      return None;
    }
    var nowTs := Timestamp(now);
    ghost var refs0, messages0 := refs.refs, ch.messages;
    assert !Decide(refs0, messages0, PlanningKey, PlanningPolicy).Skip?;
    table.Sweep(nowTs);
    assert refs.refs == refs0 && ch.messages == messages0;
    var listing := Listing(table.rows, nowTs);
    var byDay := GroupByDay(listing);
    var effect := Refresh(refs, ch, PlanningKey, Board(byDay, |listing|, |listing| > 0), PlanningPolicy);
    return Some(effect);
  }

  datatype CancelOutcome = NoDatabase | NotFound | Cancelled(row: Appointment)

  /** CancelRDVSelectView.select_callback: without a pool nothing happens; an unknown id
      changes nothing; otherwise that one row is deleted and the panel refreshed. */
  method CancelById(table: AppointmentTable?, ch: Channel?<Board>, refs: PanelRefs, id: nat, now: Now)
    returns (outcome: CancelOutcome)
    requires table != null ==> table.Valid()
    requires ch != null ==> ch.Valid()
    modifies table, ch, refs
    ensures table != null ==> table.Valid()
    ensures ch != null ==> ch.Valid()
    ensures table == null ==>
      outcome == NoDatabase && refs.refs == old(refs.refs) && (ch != null ==> ch.messages == old(ch.messages))
    ensures table != null && FindById(old(table.rows), id).None? ==>
      outcome == NotFound && table.rows == old(table.rows) && refs.refs == old(refs.refs) &&
      (ch != null ==> ch.messages == old(ch.messages))
    ensures table != null && FindById(old(table.rows), id).Some? ==>
      outcome == Cancelled(FindById(old(table.rows), id).value) &&
      table.rows == (if ch == null then Filter(old(table.rows), Other(id))
                     else Filter(Filter(old(table.rows), Other(id)), Fresh(Timestamp(now)))) &&
      (ch == null ==> refs.refs == old(refs.refs)) &&
      (ch != null ==> (refs.refs, ch.messages) ==
                      PlanningShown(old(refs.refs), old(ch.messages), old(ch.nextId), ch.id, table.rows, now))
  {
    if table == null {
      return NoDatabase;
    }
    var removed := table.DeleteById(id);
    if removed.None? {
      return NotFound;
    }
    var _ := RefreshPlanning(table, ch, refs, now);
    return Cancelled(removed.value);
  }

  datatype ClearOutcome = ClearNoDatabase | Cleared(count: int)

  /** clear_rdv: delete every row, read the count back from the status text, refresh. */
  method ClearAll(table: AppointmentTable?, ch: Channel?<Board>, refs: PanelRefs, now: Now)
    returns (outcome: ClearOutcome)
    requires table != null ==> table.Valid()
    requires ch != null ==> ch.Valid()
    modifies table, ch, refs
    ensures ch != null ==> ch.Valid()
    ensures table != null ==> table.Valid() && table.rows == [] && outcome == Cleared(|old(table.rows)|)
    ensures table != null && ch == null ==> refs.refs == old(refs.refs)
    ensures table != null && ch != null ==>
      (refs.refs, ch.messages) == PlanningShown(old(refs.refs), old(ch.messages), old(ch.nextId), ch.id, [], now)
    ensures table == null ==>
      outcome == ClearNoDatabase && refs.refs == old(refs.refs) && (ch != null ==> ch.messages == old(ch.messages))
  {
    if table == null {
      return ClearNoDatabase;
    }
    var n := |table.rows|;
    var status := table.Clear();
    var count := ReportedCount(status);
    ReportedDeleteCount(n);
    var _ := RefreshPlanning(table, ch, refs, now);
    assert Filter([], Fresh(Timestamp(now))) == [];
    return Cleared(count.value);
  }

  /** What a successful negotiation books. */
  datatype Booking = Booking(user: nat, staff: nat, day: string, hour: string, ts: int, channel: nat)

  function RowFor(id: nat, b: Booking): Appointment {
    Appointment(id, b.user, b.staff, b.day, b.hour, b.ts, b.channel)
  }

  /** finalize_rdv: insert the booking when there is a pool, then refresh the panel. */
  method Finalize(table: AppointmentTable?, ch: Channel?<Board>, refs: PanelRefs, b: Booking, now: Now)
    requires table != null ==> table.Valid()
    requires ch != null ==> ch.Valid()
    modifies table, ch, refs
    ensures table != null ==> table.Valid()
    ensures ch != null ==> ch.Valid()
    ensures table != null ==>
      var inserted := old(table.rows) + [RowFor(old(table.nextId), b)];
      table.rows == if ch == null then inserted else Filter(inserted, Fresh(Timestamp(now)))
    ensures table == null || ch == null ==>
      refs.refs == old(refs.refs) && (ch != null ==> ch.messages == old(ch.messages))
    ensures table != null && ch != null ==>
      (refs.refs, ch.messages) == PlanningShown(old(refs.refs), old(ch.messages), old(ch.nextId), ch.id, table.rows, now)
  {
    if table != null {
      var _ := table.Insert(b.user, b.staff, b.day, b.hour, b.ts, b.channel);
    }
    var _ := RefreshPlanning(table, ch, refs, now);
  }
}
