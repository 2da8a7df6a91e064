/**
 * The appointment negotiation of cogs/tickets.py as a state machine. Each stage
 * stands for the view currently waiting for input, carrying that view's fields:
 * RDVSelectorView (Selecting), StaffRDVConfirmView in the staff member's direct
 * messages (AwaitingStaff), StaffCounterProposalView (CounterProposing) and
 * UserRDVResponseView (AwaitingUser). A booking is committed only at the points
 * where the views call finalize_rdv.
 */
module Negotiation {
  import opened Base
  import opened Slots
  import opened Planning
  import opened Panels
  import opened Seqs

  datatype Stage =
    | Selecting(staff: nat, pickedDay: Option<string>, pickedHour: Option<string>)
    | AwaitingStaff(user: nat, channel: nat, staff: nat, day: string, hour: string, ts: int)
    | CounterProposing(user: nat, channel: nat, staff: nat, pickedDay: Option<string>, pickedHour: Option<string>)
    | AwaitingUser(user: nat, channel: nat, staff: nat, day: string, hour: string, ts: int)
    | Booked(booking: Booking)
    /** The view is gone: its message could not be deleted and its buttons were disabled, or it timed out. */
    | Closed

  datatype Event =
    | PickDay(dayName: string)
    | PickHour(hourLabel: string)
      /** "Valider" on the selector; `deleteFails` and `dmForbidden` are the outcomes of
          deleting the selector message and of sending the staff member a direct message. */
    | Confirm(actor: nat, channel: nat, deleteFails: bool, dmForbidden: bool)
      /** The staff member's buttons; only the recipient of a direct message can press them. */
    | StaffAccept(staffActor: nat)
    | StaffCounter(staffActor: nat)
    | SendCounter
    | UserAccept(userActor: nat)
    | UserCounter(userActor: nat)
      /** A view timeout elapsed (3600 s for StaffRDVConfirmView, 1800 s for StaffCounterProposalView). */
    | Expire

  datatype Reply =
    | Done
    | MissingSelection   // "Sélectionnez un jour ET une heure."
    | Unavailable        // the slot is taken at selection time
    | TakenMeanwhile     // the slot was taken between proposal and acceptance
    | NotRequester       // "Seul le demandeur peut répondre."
    | HourError          // replace(hour=...) raised inside the callback
    | Ignored            // the current view has no such control

  datatype Transition = Transition(next: Stage, reply: Reply, commit: Option<Booking>)

  function Stay(s: Stage, r: Reply): Transition {
    Transition(s, r, None)
  }

  /** "Valider" on the selector once a day and an hour are picked, `slot` being where they
      resolve: a taken slot or a bad hour keeps the selector, a failed deletion of its message
      closes it, and otherwise the staff member is asked by direct message; when that message
      is refused the booking is made at once. */
  function ConfirmSelection(staff: nat, day: string, hour: string, slot: Resolution, actor: nat, channel: nat,
                            deleteFails: bool, dmForbidden: bool, store: Option<seq<Appointment>>): Transition
  {
    var s := Selecting(staff, Some(day), Some(hour));
    match slot
    case Raises(_) => Stay(s, HourError)
    case Resolved(ts) =>
      if !SlotAvailable(store, ts) then Stay(s, Unavailable)
      else if deleteFails then Stay(Closed, Done)
      else if dmForbidden then
        var b := Booking(actor, staff, day, hour, ts, channel);
        Transition(Booked(b), Done, Some(b))
      else Stay(AwaitingStaff(actor, channel, staff, day, hour, ts), Done)
  }

  /** "Envoyer la contre-proposition" once a day and an hour are picked, `slot` being where
      they resolve: only a free slot is proposed to the requester. */
  function SendCounterProposal(user: nat, channel: nat, staff: nat, day: string, hour: string, slot: Resolution,
                               store: Option<seq<Appointment>>): Transition
  {
    var s := CounterProposing(user, channel, staff, Some(day), Some(hour));
    match slot
    case Raises(_) => Stay(s, HourError)
    case Resolved(ts) =>
      if !SlotAvailable(store, ts) then Stay(s, Unavailable)
      else Stay(AwaitingUser(user, channel, staff, day, hour, ts), Done)
  }

  /** Where a picked day name and hour label resolve: get_next_rdv_timestamp at one
      reading of the clock. */
  type Resolver = (string, string) -> Resolution

  function SlotsAt(now: Now): Resolver {
    (day: string, hour: string) => NextSlot(day, hour, now)
  }

  /** One interaction. `resolve` is get_next_rdv_timestamp at the current clock reading
      (SlotsAt), and `store` is the appointment table (None: no database pool). */
  function Step(s: Stage, e: Event, resolve: Resolver, store: Option<seq<Appointment>>): Transition {
    match s
    case Selecting(staff, day, hour) =>
      (match e
       case PickDay(d) => Stay(Selecting(staff, Some(d), hour), Done)
       case PickHour(h) => Stay(Selecting(staff, day, Some(h)), Done)
       case Confirm(actor, channel, deleteFails, dmForbidden) =>
         if day.None? || hour.None? || day.value == "" || hour.value == "" then Stay(s, MissingSelection)
         else
           var slot := resolve(day.value, hour.value);
           ConfirmSelection(staff, day.value, hour.value, slot, actor, channel, deleteFails, dmForbidden, store)
       case _ => Stay(s, Ignored))
    case AwaitingStaff(user, channel, staff, day, hour, ts) =>
      (match e
       case StaffAccept(actor) =>
         if !SlotAvailable(store, ts) then Stay(s, TakenMeanwhile)
         else
           var b := Booking(user, actor, day, hour, ts, channel);
           Transition(Booked(b), Done, Some(b))
       case StaffCounter(actor) => Stay(CounterProposing(user, channel, actor, None, None), Done)
       case Expire => Stay(Closed, Done)
       case _ => Stay(s, Ignored))
    case CounterProposing(user, channel, staff, day, hour) =>
      (match e
       case PickDay(d) => Stay(CounterProposing(user, channel, staff, Some(d), hour), Done)
       case PickHour(h) => Stay(CounterProposing(user, channel, staff, day, Some(h)), Done)
       case SendCounter =>
         if day.None? || hour.None? || day.value == "" || hour.value == "" then Stay(s, MissingSelection)
         else
           var slot := resolve(day.value, hour.value);
           SendCounterProposal(user, channel, staff, day.value, hour.value, slot, store)
       case Expire => Stay(Closed, Done)
       case _ => Stay(s, Ignored))
    case AwaitingUser(user, channel, staff, day, hour, ts) =>
      (match e
       case UserAccept(actor) =>
         if actor != user then Stay(s, NotRequester)
         else if !SlotAvailable(store, ts) then Stay(s, TakenMeanwhile)
         else
           var b := Booking(user, staff, day, hour, ts, channel);
           Transition(Booked(b), Done, Some(b))
       case UserCounter(actor) =>
         if actor != user then Stay(s, NotRequester)
         else Stay(Selecting(staff, None, None), Done)
       case _ => Stay(s, Ignored))
    case Booked(_) => Stay(s, Ignored)
    case Closed => Stay(s, Ignored)
  }

  /** The view a staff member opens with the "RDV" button of a ticket. */
  function Start(staff: nat): Stage {
    Selecting(staff, None, None)
  }

  predicate Terminal(s: Stage) {
    s.Booked? || s.Closed?
  }

  /** The selector's confirmation commits only into a free slot, only when the direct
      message is refused, and only for the member who confirmed. */
  lemma ConfirmCommit(staff: nat, day: string, hour: string, slot: Resolution, actor: nat, channel: nat,
                      deleteFails: bool, dmForbidden: bool, store: Option<seq<Appointment>>)
    ensures var t := ConfirmSelection(staff, day, hour, slot, actor, channel, deleteFails, dmForbidden, store);
      t.commit.Some? ==> && slot.Resolved? && SlotAvailable(store, slot.ts) && dmForbidden && !deleteFails
                         && t.commit.value == Booking(actor, staff, day, hour, slot.ts, channel)
                         && t.next == Booked(t.commit.value)
  {
  }

  /** The selector commits only on a confirmation whose direct message is refused, into a
      free slot and for the member who confirmed. */
  lemma SelectingCommit(s: Stage, e: Event, resolve: Resolver, store: Option<seq<Appointment>>)
    requires s.Selecting?
    ensures var t := Step(s, e, resolve, store);
      t.commit.Some? ==> && e.Confirm? && e.dmForbidden && !e.deleteFails
                         && SlotAvailable(store, t.commit.value.ts) && t.next == Booked(t.commit.value)
                         && t.commit.value.user == e.actor && t.commit.value.staff == s.staff
  {
    if e.Confirm? && s.pickedDay.Some? && s.pickedHour.Some? && s.pickedDay.value != "" && s.pickedHour.value != "" {
      var slot := resolve(s.pickedDay.value, s.pickedHour.value);
      ConfirmCommit(s.staff, s.pickedDay.value, s.pickedHour.value, slot, e.actor, e.channel, e.deleteFails, e.dmForbidden, store);
    }
  }

  /** The counter-proposal view never commits. */
  lemma CounterProposingNeverCommits(s: Stage, e: Event, resolve: Resolver, store: Option<seq<Appointment>>)
    requires s.CounterProposing?
    ensures Step(s, e, resolve, store).commit.None?
  {
  }

  /** A booking is committed only into a free slot, and only by moving to Booked with that booking. */
  lemma CommitOnlyWhenAvailable(s: Stage, e: Event, resolve: Resolver, store: Option<seq<Appointment>>)
    ensures var t := Step(s, e, resolve, store);
      t.commit.Some? ==> SlotAvailable(store, t.commit.value.ts) && t.next == Booked(t.commit.value) && !Terminal(s)
  {
    if s.Selecting? {
      SelectingCommit(s, e, resolve, store);
    } else if s.CounterProposing? {
      CounterProposingNeverCommits(s, e, resolve, store);
    }
  }

  /** Every commit comes from an accept or from the selector when the direct message is
      refused, and the accepts of the requester's view commit only for the requester. */
  lemma CommitSources(s: Stage, e: Event, resolve: Resolver, store: Option<seq<Appointment>>)
    ensures var t := Step(s, e, resolve, store);
      t.commit.Some? ==>
        || (s.AwaitingStaff? && e.StaffAccept? && t.commit.value.user == s.user && t.commit.value.ts == s.ts)
        || (s.AwaitingUser? && e.UserAccept? && e.userActor == s.user && t.commit.value.user == s.user &&
            t.commit.value.staff == s.staff && t.commit.value.ts == s.ts)
        || (s.Selecting? && e.Confirm? && e.dmForbidden && !e.deleteFails && t.commit.value.user == e.actor &&
            t.commit.value.staff == s.staff)
  {
    if s.Selecting? {
      SelectingCommit(s, e, resolve, store);
    } else if s.CounterProposing? {
      CounterProposingNeverCommits(s, e, resolve, store);
    }
  }

  /** Committing a step's booking keeps the appointment table separated. */
  lemma CommitKeepsSeparated(s: Stage, e: Event, resolve: Resolver, rows: seq<Appointment>, id: nat)
    requires Separated(rows)
    requires Step(s, e, resolve, Some(rows)).commit.Some?
    ensures Separated(rows + [RowFor(id, Step(s, e, resolve, Some(rows)).commit.value)])
  {
    var b := Step(s, e, resolve, Some(rows)).commit.value;
    CommitOnlyWhenAvailable(s, e, resolve, Some(rows));
    assert ClashCount(rows, b.ts) == 0;
    BookingKeepsSeparated(rows, RowFor(id, b));
  }

  /** Booked and Closed ignore every event. */
  lemma TerminalAbsorbs(s: Stage, e: Event, resolve: Resolver, store: Option<seq<Appointment>>)
    requires Terminal(s)
    ensures Step(s, e, resolve, store) == Transition(s, Ignored, None)
  {
  }

  /** A timeout never books; it closes exactly the two views that have one. */
  lemma ExpireCloses(s: Stage, resolve: Resolver, store: Option<seq<Appointment>>)
    ensures Step(s, Expire, resolve, store).commit.None?
    ensures Step(s, Expire, resolve, store).next == (if s.AwaitingStaff? || s.CounterProposing? then Closed else s)
  {
  }

  /** Only the requester can answer a counter-proposal; anyone else changes nothing. */
  lemma OnlyRequesterAnswers(s: Stage, actor: nat, resolve: Resolver, store: Option<seq<Appointment>>)
    requires s.AwaitingUser? && actor != s.user
    ensures Step(s, UserAccept(actor), resolve, store) == Transition(s, NotRequester, None)
    ensures Step(s, UserCounter(actor), resolve, store) == Transition(s, NotRequester, None)
  {
  }

  /** Two negotiations waiting on nearby instants: once one has booked, the other's accept
      reports the conflict and leaves its stage as it was. */
  lemma RaceLoserSeesConflict(s: Stage, e: Event, resolve: Resolver, rows: seq<Appointment>, winner: Appointment)
    requires s.AwaitingStaff? || s.AwaitingUser?
    requires (e.StaffAccept? && s.AwaitingStaff?) || (e.UserAccept? && s.AwaitingUser? && e.userActor == s.user)
    requires Abs(winner.ts - s.ts) < Window
    ensures Step(s, e, resolve, Some(rows + [winner])) == Transition(s, TakenMeanwhile, None)
  {
    WindowAfterInsert(rows, winner, s.ts);
  }

  /** A counter-proposal moves on only to a free, resolved slot, for the same requester and staff member. */
  lemma CounterProposalFree(user: nat, channel: nat, staff: nat, day: string, hour: string, slot: Resolution,
                            store: Option<seq<Appointment>>)
    ensures var n := SendCounterProposal(user, channel, staff, day, hour, slot, store).next;
      n.AwaitingUser? ==> slot == Resolved(n.ts) && SlotAvailable(store, n.ts) && n.user == user && n.staff == staff &&
                          n.day == day && n.hour == hour
  {
  }

  /** A counter-proposal is sent only for a free slot; the staff side's counter button and
      the requester's "Autre créneau" restart the selection without booking. */
  lemma CounterFlow(s: Stage, resolve: Resolver, store: Option<seq<Appointment>>)
    ensures s.CounterProposing? && Step(s, SendCounter, resolve, store).next.AwaitingUser? ==>
      var n := Step(s, SendCounter, resolve, store).next;
      SlotAvailable(store, n.ts) && n.user == s.user && n.staff == s.staff && resolve(n.day, n.hour) == Resolved(n.ts)
    ensures s.AwaitingStaff? ==>
      forall a :: Step(s, StaffCounter(a), resolve, store) == Stay(CounterProposing(s.user, s.channel, a, None, None), Done)
    ensures s.AwaitingUser? ==>
      Step(s, UserCounter(s.user), resolve, store) == Stay(Selecting(s.staff, None, None), Done)
  {
    if s.CounterProposing? && s.pickedDay.Some? && s.pickedHour.Some? && s.pickedDay.value != "" && s.pickedHour.value != "" {
      var slot := resolve(s.pickedDay.value, s.pickedHour.value);
      CounterProposalFree(s.user, s.channel, s.staff, s.pickedDay.value, s.pickedHour.value, slot, store);
    }
  }

  // ---- Many negotiations and the administrative commands, interleaved ----

  datatype Action =
    | Act(session: nat, e: Event, now: Now)
    | CancelRow(id: nat)
    | SweepRows(nowTs: int)
    | ClearRows

  datatype World = World(sessions: seq<Stage>, rows: seq<Appointment>, nextId: nat)

  /** One action on the world: an interaction with one session, committing its booking
      into the table, or one of the table's deletions. */
  function Apply(w: World, a: Action): World {
    match a
    case Act(i, e, now) =>
      if i < |w.sessions| then
        var t := Step(w.sessions[i], e, SlotsAt(now), Some(w.rows));
        var rows := if t.commit.Some? then w.rows + [RowFor(w.nextId, t.commit.value)] else w.rows;
        var nextId := if t.commit.Some? then w.nextId + 1 else w.nextId;
        World(w.sessions[i := t.next], rows, nextId)
      else w
    case CancelRow(id) => World(w.sessions, Filter(w.rows, Other(id)), w.nextId)
    case SweepRows(nowTs) => World(w.sessions, Filter(w.rows, Fresh(nowTs)), w.nextId)
    case ClearRows => World(w.sessions, [], w.nextId)
  }

  function Run(w: World, actions: seq<Action>): World
    decreases |actions|
  {
    if actions == [] then w else Run(Apply(w, actions[0]), actions[1..])
  }

  lemma ApplyKeepsSeparated(w: World, a: Action)
    requires Separated(w.rows)
    ensures Separated(Apply(w, a).rows)
  {
    match a
    case Act(i, e, now) =>
      if i < |w.sessions| && Step(w.sessions[i], e, SlotsAt(now), Some(w.rows)).commit.Some? {
        CommitKeepsSeparated(w.sessions[i], e, SlotsAt(now), w.rows, w.nextId);
      }
    case CancelRow(id) => DeletingKeepsSeparated(w.rows, Other(id));
    case SweepRows(nowTs) => DeletingKeepsSeparated(w.rows, Fresh(nowTs));
    case ClearRows =>
  }

  /** However negotiations and deletions interleave, no two stored appointments ever lie
      within 1800 seconds of each other. */
  lemma {:induction false} RunKeepsSeparated(w: World, actions: seq<Action>)
    requires Separated(w.rows)
    ensures Separated(Run(w, actions).rows)
    decreases |actions|
  {
    if actions != [] {
      ApplyKeepsSeparated(w, actions[0]);
      RunKeepsSeparated(Apply(w, actions[0]), actions[1..]);
    }
  }

  /** One live negotiation: the stage its current view is in. */
  class Session {
    var stage: Stage

    constructor (staff: nat)
      ensures stage == Start(staff)
    {
      stage := Start(staff);
    }

    /** Handle one interaction: move to the next stage and, when the step commits,
        run finalize_rdv against the table and the planning panel. */
    method Handle(table: AppointmentTable?, ch: Channel?<Board>, refs: PanelRefs, e: Event, now: Now)
      returns (reply: Reply)
      requires ValidNow(now)
      requires table != null ==> table.Valid()
      requires ch != null ==> ch.Valid()
      modifies this, table, ch, refs
      ensures table != null ==> table.Valid()
      ensures ch != null ==> ch.Valid()
      ensures var t := Step(old(stage), e, SlotsAt(now), if table == null then None else Some(old(table.rows)));
        && stage == t.next && reply == t.reply
        && (t.commit.None? ==> refs.refs == old(refs.refs) && (table != null ==> table.rows == old(table.rows)) &&
                               (ch != null ==> ch.messages == old(ch.messages)))
        && (t.commit.Some? && table != null ==>
              var inserted := old(table.rows) + [RowFor(old(table.nextId), t.commit.value)];
              table.rows == if ch == null then inserted else Filter(inserted, Fresh(Timestamp(now))))
        && (t.commit.Some? && (table == null || ch == null) ==>
              refs.refs == old(refs.refs) && (ch != null ==> ch.messages == old(ch.messages)))
        && (t.commit.Some? && table != null && ch != null ==>
              (refs.refs, ch.messages) ==
              PlanningShown(old(refs.refs), old(ch.messages), old(ch.nextId), ch.id, table.rows, now))
    {
      var t := Step(stage, e, SlotsAt(now), if table == null then None else Some(table.rows));
      stage := t.next;
      reply := t.reply;
      if t.commit.Some? {
        Finalize(table, ch, refs, t.commit.value, now);
      }
    }
  }
}
