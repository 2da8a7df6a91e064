# Remember RolePlay bot — a Dafny model of its staff tools

The Remember RolePlay Discord bot runs the staff side of a roleplay server. This
project models four of its cogs in Dafny and proves what they promise:

- `cogs/tickets.py`:
  - support tickets and their claim marker;
  - the list of projects open for takeover ("reprise");
  - the appointment ("RDV") negotiation between a staff member and a requester;
  - the appointment table and its planning panel.
- `cogs/absences.py`: staff absences, their date parsing and overlap check, and the absences panel.
- `cogs/liens.py`: the useful-links table and its panel.
- `cogs/reglement.py`: the rules message, posted only into an empty channel.

The model has three layers.

- **Pure functions** state what the bot computes:
  - reading a day name and an hour label;
  - the next occurrence of a slot;
  - `parse_date`;
  - each SQL query as a filter, sort and limit over the table's rows;
  - each command's checks, in the order the source makes them.
- **Classes** hold what the bot changes in place: the tables, the panel references, a
  channel's messages, a ticket card's footer and a live negotiation. Each method states the
  new state as a function of the old one. Where the source loops, the model has a `for`
  or `while` loop with its invariants:
  - grouping the planning by day;
  - splitting absences into current and coming;
  - building the admin notification list;
  - the day menu;
  - seeding the projects;
  - reading the channel history.
- **Lemmas** prove the properties the commands depend on:
  - no two stored appointments lie within 1800 s of each other, however negotiations,
    cancellations, sweeps and clears interleave;
  - one staff member's declared absences never overlap;
  - a panel refresh edits its stored message rather than duplicating it;
  - a ticket is claimed at most once;
  - date order agrees with the SQL comparisons of ISO date texts, and label and priority
    order are those of ORDER BY under the C (code-point) collation.

Modules:
- `Base`: `Option`, `Min`, `Abs`.
- `Text`: Python `str` operations. These are `strip`, `split`, `replace`, `int()`, `in` and
  `startswith`, plus SQL `LOWER` and code-point order.
- `Seqs`: WHERE, ORDER BY and LIMIT.
- `Sql`: the driver's "DELETE n" status text.
- `Calendar`: proleptic Gregorian dates and ISO text.
- `Panels`: channels and the `persistent_messages` table.
- `Slots`, `Planning`, `Negotiation`, `Tickets`, `Absences`, `Links`, `Reglement`: one
  module per area of the cogs.

Where the code and its documentation disagree, the model follows the code. Slot hours are
the main case:
- an hour label is read by removing every `h` and `:`, applying `int()`, and reducing values
  above 100 by `// 100`;
- hours 24 to 100 are not reduced, so `datetime.replace` raises on them (`Slots.Resolve`
  answers `Raises`);
- "1h00" reads as 100 and raises too (`Slots.OneOClockUnreduced`);
- nothing reduces hours into 0–23.

## Model

| member | source | states |
|---|---|---|
| Slots.Weekday | cogs/tickets.py:46-47 | The weekday of a clock day is in 0..6, with Monday as 0. |
| Slots.DayIndex | cogs/tickets.py:29-36 | A day name has an index exactly when it is one of the seven French weekday names, and that index names it. |
| Slots.ParsedDigits | cogs/tickets.py:38-44 | When the label with `h` and `:` removed is a run of digits, the hour is its decimal value, divided by 100 only when it exceeds 100. |
| Slots.HourLabelValue | cogs/tickets.py:38-44 | "HHhMM" and "HH:MM" read as HH·100+MM, which becomes HH only when that number exceeds 100. |
| Slots.HourBareValue | cogs/tickets.py:38-44 | A bare two-digit label reads as its own value. |
| Slots.LabelForms | cogs/tickets.py:38-44 | "HHh00", "HH:00" and "HH" all read as HH for HH from 2 to 99. |
| Slots.MenuHours | cogs/tickets.py:706-711 | Every label of the hour menus, "17h00" to "22h00", reads as its hour, 17 to 22. |
| Slots.NoDigitDefault | cogs/tickets.py:38-44 | A label with no digit falls into the `except` branch and reads as 18. |
| Slots.OneOClockUnreduced | cogs/tickets.py:38-44 | "1h00" reads as 100: it is not reduced, so the slot cannot be built. |
| Slots.ResolveErrors | cogs/tickets.py:34-61 | An unknown day gives timestamp 0. For a known day, resolution raises exactly when the hour is outside 0..23, and the error carries that hour. |
| Slots.ResolveIsNextOccurrence | cogs/tickets.py:46-61 | For a known day and a valid hour, the slot is on the target weekday at hour:00:00. It is strictly after now and at most 7 days ahead, and it is today only when today is that weekday and its hour has not begun. |
| Slots.NextOccurrence | cogs/tickets.py:46-61 | For weekday `target` and an hour in 0..23, the timestamp is on that weekday at hour:00:00, after now and at most a week ahead; it is today or a full week ahead exactly in the two same-weekday cases. |
| Slots.DayOptions | cogs/tickets.py:64-93 | Seven options in weekday order. Each is valued by its day name and dated at the next occurrence of that weekday strictly after today (1 to 7 days ahead). |
| Slots.MenuDateVersusSlot | cogs/tickets.py:79-81 | The date the day menu shows and the slot that is booked differ exactly when the chosen day is today and the hour has not begun: the slot is today, while the menu showed a week later. |
| Planning.AvailableIff | cogs/tickets.py:536-547 | A slot is free exactly when there is no pool or every stored appointment is at least 1800 s from it. |
| Planning.WindowAfterInsert | cogs/tickets.py:544-547 | After one more row, an instant is free exactly when it was free before and is at least 1800 s from the new row. |
| Planning.BookingKeepsSeparated | cogs/tickets.py:559-564 | Inserting an appointment whose slot passed the check keeps all stored appointments pairwise 1800 s apart. |
| Planning.DeletingKeepsSeparated | cogs/tickets.py:394 | Any deletion keeps appointments pairwise separated. |
| Planning.FindById | cogs/tickets.py:388 | The lookup returns a stored row with that id, or none when no row has it. |
| Planning.DeleteByIdRemovesOne | cogs/tickets.py:388-394 | With increasing ids, deleting the found id removes exactly that row: the old rows are the kept rows plus the found one, with nothing else lost. |
| Planning.AppointmentTable.Insert | cogs/tickets.py:559-564 | The new row is appended under the next serial id, and the table stays valid. |
| Planning.AppointmentTable.DeleteById | cogs/tickets.py:386-394 | Returns the row found by id. The table is unchanged when there is none, and otherwise loses exactly the rows with that id. |
| Planning.AppointmentTable.Clear | cogs/tickets.py:1244 | Empties the table, and its status text reports the old row count. |
| Planning.AppointmentTable.Sweep | cogs/tickets.py:210 | Keeps exactly the rows not older than now − 7200. |
| Planning.SweepProperties | cogs/tickets.py:210 | A kept row is at most 7200 s old. Every such row is kept. The sweep keeps separation. |
| Planning.EarlierOrSameIsPreorder | cogs/tickets.py:216 | Ordering by timestamp is a total preorder. |
| Planning.ListingProperties | cogs/tickets.py:212-217 | The panel lists min(15, matching) stored rows, each later than now − 3600, in timestamp order, none listed more often than it is stored. No matching row left out is earlier than a listed one. |
| Planning.GroupByDay | cogs/tickets.py:233-239 | The grouping loop builds the reference grouping map. |
| Planning.ByDayGroups | cogs/tickets.py:233-239 | Every listed row appears in its own day's group, every group is non-empty, and a group holds only rows of its day. |
| Planning.RefreshPlanning | cogs/tickets.py:192-302 | Does nothing without a pool or a channel. Otherwise it sweeps the rows, and the references and channel messages become those of the planning panel showing the swept rows (`Planning.PlanningShown`): the stored message edited, or a new one sent and its id stored. The panel never skips. |
| Planning.CancelById | cogs/tickets.py:380-397 | No pool: nothing changes. An unknown id: not found, nothing changes. A known id: that row is deleted; with a channel the panel then shows the remaining rows, and without one the references are untouched. |
| Planning.ClearAll | cogs/tickets.py:1239-1251 | No pool: nothing changes. Otherwise every appointment is deleted, the reported count is the old number of rows, and with a channel the panel shows the empty planning. |
| Planning.Finalize | cogs/tickets.py:550-568 | Without a pool nothing changes. With one the booking is appended under a fresh id, and with a channel the planning panel shows the table that results. |
| Negotiation.CommitOnlyWhenAvailable | cogs/tickets.py:617-631 | A step books only a slot the availability check passed, and only by moving to Booked with that booking. |
| Negotiation.ConfirmCommit | cogs/tickets.py:870-931 | "Valider" books only a resolved, free slot, only when the staff member's direct messages are closed and the selector message was deleted, and books it for the member who confirmed. |
| Negotiation.CommitSources | cogs/tickets.py:925-931 | A booking comes only from the staff accept, the requester's accept, or the selector when the staff member's direct messages are closed. |
| Negotiation.CommitKeepsSeparated | cogs/tickets.py:550-564 | Storing any booking a step commits keeps the appointment table separated. |
| Negotiation.TerminalAbsorbs | cogs/tickets.py:646-647 | A booked or closed negotiation ignores every further event. |
| Negotiation.ExpireCloses | cogs/tickets.py:606 | A timeout never books. It closes exactly the staff confirmation and counter-proposal views. |
| Negotiation.OnlyRequesterAnswers | cogs/tickets.py:779-803 | On a counter-proposal, anyone but the requester is refused and nothing changes. |
| Negotiation.RaceLoserSeesConflict | cogs/tickets.py:619-625 | Once another booking within 1800 s is stored, an accept is told the slot was taken meanwhile and books nothing. |
| Negotiation.CounterFlow | cogs/tickets.py:726-761 | A counter-proposal is sent only for a free slot between the same requester and the proposing staff member. "Contre-proposer" and "Autre créneau" restart the selection without booking. |
| Negotiation.CounterProposalFree | cogs/tickets.py:726-761 | A counter-proposal reaches the requester only for a resolved, free slot, with the same requester, staff member, day and hour. |
| Negotiation.ApplyKeepsSeparated | cogs/tickets.py:550-564 | One action on the world (an interaction, a cancellation, a sweep or a clear) keeps the table separated. |
| Negotiation.RunKeepsSeparated | cogs/tickets.py:536-564 | However negotiations and admin commands interleave, no two stored appointments lie within 1800 s. |
| Negotiation.Session.Handle | cogs/tickets.py:870-931 | Moves the stage as the step function does. When the step commits, it runs finalize_rdv, so the table gains the booking and the panel shows it. Otherwise the table, panel and references are untouched. |
| Tickets.ClaimStep | cogs/tickets.py:964-979 | Non-support members are denied. A footer already holding "Géré par" is already claimed. Otherwise the card is claimed and the footer names the member. |
| Tickets.FreshCardIsUnclaimed | config.py:41 | A card with the default footer "Remember RolePlay" can be claimed. |
| Tickets.ClaimOnce | cogs/tickets.py:976-979 | After a claim, every later claim attempt leaves the footer as it is and is answered "already claimed" or "denied". |
| Tickets.TicketCard.Claim | cogs/tickets.py:969-979 | The reply and the new footer are those of the claim step. |
| Tickets.DefaultProjectsUnique | cogs/tickets.py:14-21 | The built-in project names are distinct. |
| Tickets.ListedBeforeIsPreorder | cogs/tickets.py:1195 | `priority DESC, name ASC` is a total preorder. |
| Tickets.ListProjectsProperties | cogs/tickets.py:1190-1196 | The listing holds exactly the stored projects, priority projects first, and names ascend within each group. |
| Tickets.RemoveReplyIff | cogs/tickets.py:1231-1235 | The corrected reply reports success exactly when some project name equals the target up to case. |
| Tickets.RemovesSomeIff | cogs/tickets.py:1231 | The case-insensitive DELETE removes some row exactly when some name equals the target up to case. |
| Tickets.RemoveRepliesAgreeOnOne | cogs/tickets.py:1232 | On "DELETE 1" the reply as written and the corrected reply both report success. |
| Tickets.RemoveReplyAsWrittenOfCount | cogs/tickets.py:1232 | The reply as written reports success on "DELETE n" exactly when n is 1. |
| Tickets.RemoveAsWrittenMisreports | cogs/tickets.py:1231-1235 | When two or more names match, all of those rows are deleted, yet the reply as written says "introuvable". |
| Tickets.RepliesDisagreeOnMany | cogs/tickets.py:1231-1235 | On "DELETE n" with n ≥ 2 the reply as written reports failure and the corrected reply success. |
| Tickets.CaseTwinsCoexist | main.py:47 | "LSPD" and "lspd" satisfy the case-sensitive UNIQUE constraint together, and both match a removal of "lspd". |
| Tickets.ProjectTable.Seed | cogs/tickets.py:1177-1185 | An empty table receives the six built-in projects in order. A non-empty one is left alone. |
| Tickets.ProjectTable.Add | cogs/tickets.py:1217-1222 | The insert succeeds exactly when the name is new, and then appends the project. |
| Tickets.ProjectTable.Remove | cogs/tickets.py:1231-1235 | Deletes exactly the projects matching up to case. Returns the driver status for that count, the corrected reply, and the reply as written, which is true exactly for a count of one. |
| Tickets.RepriseAdd | cogs/tickets.py:1212-1222 | No pool: nothing is stored. Otherwise the project is added exactly when its name is new. |
| Tickets.RepriseRemove | cogs/tickets.py:1226-1235 | No pool: nothing changes. Otherwise the matching projects are deleted. The reply as written reports success exactly when one row went; the corrected reply (see Findings) exactly when some name matched. |
| Calendar.PrevDayOrdinal | cogs/absences.py:66 | Yesterday is undefined only for 0001-01-01, and otherwise is the day whose ordinal is one less. |
| Calendar.IsoLessIff | cogs/absences.py:72-73 | Comparing ISO date texts, as the SQL does, is comparing the dates. |
| Calendar.IsoOrder | cogs/absences.py:311 | ISO text order agrees with calendar order. |
| Absences.ParseDateAccepts | cogs/absences.py:11-25 | Only "DD/MM/YYYY" and "DD/MM" are accepted. The date is the one written. A short date uses this year unless that is past, and then the next year. |
| Absences.LeapDayNeedsYear | cogs/absences.py:13-16 | 29/02 without a year is refused, because the short form is validated in 1900. |
| Absences.ParseLongForm | cogs/absences.py:13-16 | Every date written as two-digit day, two-digit month and four-digit year parses back to itself. |
| Absences.ParseShortForm | cogs/absences.py:11-25 | Every day and month that exist in 1900, written DD/MM, are accepted: this year's date when it is not past, otherwise next year's, refused only past year 9999. |
| Absences.ClashesIff | cogs/absences.py:308-312 | The overlap query matches a row exactly when it belongs to the same staff member and its inclusive date range intersects the new one. |
| Absences.DeclarationKeepsNoOverlap | cogs/absences.py:308-323 | Inserting after a zero overlap count keeps one member's absences free of overlaps. |
| Absences.DeletingKeepsNoOverlap | cogs/absences.py:392 | Any deletion keeps absences free of overlaps. |
| Absences.ForcingCanOverlap | cogs/absences.py:553-559 | The forced path has no overlap check: forcing the same range twice breaks the no-overlap property. |
| Absences.FindOwned | cogs/absences.py:384-387 | Returns a stored absence with that id and owner, or none when none has both. |
| Absences.OwnedDeleteRemovesOne | cogs/absences.py:384-392 | Deleting the found id removes that absence and nothing else. |
| Absences.SweepKeepsIff | cogs/absences.py:66-67 | The sweep keeps exactly the absences ending yesterday or later. |
| Absences.AbsenceTable.Insert | cogs/absences.py:320-323 | Appends the new absence under the next serial id. |
| Absences.AbsenceTable.DeleteOwned | cogs/absences.py:384-392 | Returns the own absence found. The table is unchanged without one, and otherwise loses exactly that id. |
| Absences.AbsenceTable.Clear | cogs/absences.py:510 | Empties the table, and the status reports the old count. |
| Absences.AbsenceTable.Sweep | cogs/absences.py:66-67 | Keeps exactly the absences not ending before yesterday. |
| Absences.StartsNoLaterIsPreorder | cogs/absences.py:73 | `ORDER BY start_date` on ISO text is a total preorder. |
| Absences.ListingProperties | cogs/absences.py:70-75 | The panel lists min(20, matching) stored absences, none ended, in start order, none listed more often than it is stored. No matching absence left out starts earlier than a listed one. |
| Absences.ClassesPartition | cogs/absences.py:105-108 | "En cours" and "À venir" never share an absence, and every absence not yet ended is in one of them. |
| Absences.Classify | cogs/absences.py:101-108 | The loop builds exactly the current and the coming groups, in listing order. |
| Absences.RefreshAbsences | cogs/absences.py:43-176 | Does nothing without a pool, a channel or a previous day. Otherwise it sweeps, and the references and channel messages become those of the panel showing the current and coming groups and the count absent today (`Absences.AbsencesShown`), with the stored channel updated. |
| Absences.Screen | cogs/absences.py:276-303 | In order: a bad start, a bad end, an end before the start, and a range already over are refused. Anything else passes with the parsed dates. |
| Absences.PassedIsOngoingRange | cogs/absences.py:292-303 | A declaration that passes runs from start to end, with start ≤ end and end ≥ today. |
| Absences.Declare | cogs/absences.py:273-331 | A refusal changes nothing. Without a pool the declaration is not stored. An overlap is refused. Otherwise the absence is stored with its stripped reason and the panel shows the resulting table. No overlap is ever introduced. |
| Absences.Record | cogs/absences.py:305-328 | A clash with one of the member's stored absences is refused and changes nothing. Otherwise the absence is appended under a fresh id and the panel shows the resulting table. No overlap is ever introduced. |
| Absences.Force | cogs/absences.py:520-567 | A non-staff member, a bad date and an end before the start are refused in that order, and so is a missing pool; they change nothing. Otherwise the absence is inserted without any overlap check and the panel shows the resulting table. |
| Absences.CancelOwn | cogs/absences.py:377-400 | No pool: nothing changes. An id not owned by the member: not found. Otherwise exactly that absence is deleted and the panel shows the resulting table. |
| Absences.ClearAll | cogs/absences.py:503-518 | No pool: nothing changes. Otherwise every absence is deleted, the reported count is the old number, and the panel shows an empty register. |
| Absences.Recipients | cogs/absences.py:200-209 | The owner, when known, comes first. Nobody appears twice. A member is notified exactly when they are the owner or a super admin other than the declarer. |
| Links.IndexOf | cogs/liens.py:97-100 | Finds the row holding a label, or reports that none holds it. |
| Links.UpsertProperties | cogs/liens.py:97-100 | After the upsert the label gives the new url, every other label gives what it gave before, and labels stay unique. |
| Links.DeleteAt | cogs/liens.py:114 | Deleting a stored label cuts out exactly its row, keeping the others in order. |
| Links.DeleteRemovesLabel | cogs/liens.py:114-117 | The delete removes one row when the label is stored and none otherwise, and the label is then gone. |
| Links.DeleteKeepsOthers | cogs/liens.py:114 | Every other label keeps its url. |
| Links.LabelNoLaterIsPreorder | cogs/liens.py:27 | `ORDER BY label` is a total preorder. |
| Links.ListingProperties | cogs/liens.py:27 | The panel shows every stored link exactly once, with labels strictly ascending. |
| Links.LinkTable.Save | cogs/liens.py:97-100 | The table becomes the upsert of the old rows. |
| Links.LinkTable.Delete | cogs/liens.py:114 | Deletes the rows with that label and returns the driver status for their count. |
| Links.RefreshLinks | cogs/liens.py:12-78 | No channel id, channel or pool: nothing happens. Otherwise the references and channel messages become those of the links panel showing the table (`Links.LinksShown`): the stored message edited, or a new one sent only into an empty channel and its id and channel stored. |
| Links.AddLink | cogs/liens.py:86-103 | No pool: refused. A url not starting with "http": refused. Neither changes anything. Otherwise the link is saved and the panel shows the new table (`Links.LinksShown`). |
| Links.RemoveLink | cogs/liens.py:105-120 | No pool: refused. "DELETE 0" exactly when the label was absent, and then nothing changes. Otherwise the row is deleted and the panel shows the new table. |
| Reglement.AfterCheck | cogs/reglement.py:25-38 | An empty channel receives the rules message, and any other channel is left alone. |
| Reglement.ChecksSendAtMostOnce | cogs/reglement.py:16-40 | However often the start-up check runs, the channel gains at most one rules message. |
| Reglement.SendIfEmpty | cogs/reglement.py:16-40 | Sends exactly when a channel is configured, it exists and its history is empty. |
| Panels.StoredId | cogs/tickets.py:219-220 | A stored message id exists exactly when the key has a row with a non-zero id. |
| Panels.StoreRef | cogs/absences.py:167-172 | The key gets the new message id. The channel is replaced only for the panels whose upsert sets it. Other keys are unchanged. |
| Panels.PanelRefs.Store | cogs/tickets.py:293-297 | The `persistent_messages` table becomes the stored reference. |
| Panels.Channel.Send | cogs/tickets.py:291 | A fresh message id is allocated, and only that message is added. |
| Panels.Channel.Edit | cogs/tickets.py:287-288 | Only the edited message changes. |
| Panels.Channel.HistoryIsEmpty | cogs/liens.py:61-64 | Answers exactly whether the channel has no messages. |
| Panels.DecideCases | cogs/tickets.py:284-291 | A live stored message is edited and never duplicated. A new one is created only when none is live, and for the links panel only into an empty channel. |
| Panels.RefreshSettles | cogs/tickets.py:284-299 | After a refresh edits or creates, the next refresh edits that same message. |
| Panels.StaleReferenceHeals | cogs/tickets.py:286-292 | Once the stored message is gone, the next refresh does not edit it: it creates a new one, or (links) skips. |
| Panels.AfterRefreshSettles | cogs/tickets.py:284-299 | After a refresh that did not skip, the panel message holds the new content, other messages are kept, and any later refresh edits that same message in place without touching the references. |
| Panels.Refresh | cogs/absences.py:156-173 | Reports the decided effect, and the references and messages become `Panels.AfterRefresh` of the old ones: edit in place, or send under the next id and store the reference, or nothing. |
| Text.PyIntDigits | cogs/tickets.py:40 | `int()` reads a run of ASCII digits as its decimal value. |
| Text.PyIntNeedsDigit | cogs/tickets.py:40-44 | `int()` fails on a string with no digit. |
| Text.Strip | cogs/absences.py:16 | `str.strip()`: the result neither starts nor ends with whitespace. |
| Text.StripIsSlice | cogs/absences.py:16 | `str.strip()` keeps the slice of the text after its leading whitespace, and only whitespace follows that slice. |
| Text.Split | cogs/absences.py:16 | Fields never contain the separator, and there is always at least one. |
| Text.Lower | cogs/tickets.py:1231 | `LOWER` maps each character by the ASCII table and keeps the length. |
| Seqs.QueryProperties | cogs/tickets.py:212-217 | WHERE, ORDER BY, LIMIT n yields at most n qualifying rows, sorted, and no qualifying row left out precedes a listed one. |
| Seqs.SortBySorted | cogs/liens.py:27 | ORDER BY by a total preorder yields a sorted permutation. |
| Sql.ReportedDeleteCount | cogs/tickets.py:1246 | `int(result.split(" ")[1])` on the status "DELETE n" gives back n. |
| Sql.DeleteTagInjective | cogs/liens.py:116 | Different counts give different status texts, so "DELETE 0" means exactly zero rows. |

## Left out

- Discord I/O is reduced to what the model needs. Embeds, colours, French wording, mentions
  and ephemeral replies are not modelled; the interaction replies become result values.
- The clock is naive local time (`datetime.now()` without a timezone), modelled as a day
  number and a second of day. Daylight-saving shifts are not modelled.
- `\d` in `strptime` also matches non-ASCII Unicode digits. The model accepts ASCII digits
  only.
- Text.PyInt: reads ASCII digits only, while Python `int()` also reads other Unicode
  decimal digits, such as full-width or Arabic-Indic ones. Its whitespace, sign and
  underscore rules are modelled. Nor does it refuse strings of more than 4300 digits, as
  Python 3.11 and later do; no hour label of the menus comes near that length.
- Panels.Channel: message ids are numbered per channel from 1, while Discord ids are unique
  across channels. A reference stored for one channel can thus name an unrelated message
  in another channel, where `fetch_message` in the source would find nothing.
- Text.Lower lower-cases ASCII letters only, while PostgreSQL `LOWER` also maps other letters.
- ORDER BY on labels and project names assumes the C collation, that is, code-point order.
  The database named by `DATABASE_URL` may use a linguistic collation such as en_US.UTF-8.
  Under it even ASCII labels and names can sort differently: case and punctuation weigh
  less, so "discord" comes before "Wiki", where the model puts "Wiki" first. Date order is
  not affected: ISO date texts have a fixed digit layout, so either collation orders them
  as `Calendar.IsoOrder` states.
- SQL leaves the order of ties unspecified. The model keeps table order for equal keys.
- Concurrency between interactions is modelled as an interleaving of whole steps
  (`Negotiation.Run`). Interleaving inside a step, across awaits, is not.
- The negotiation's step function takes the slot resolver as a parameter: get_next_rdv_timestamp
  read at the clock of that interaction (`Negotiation.SlotsAt`). Its lemmas hold for any
  resolver.
- View timeouts are modelled as an explicit `Expire` event.
- Best-effort deletions of proposal messages and direct messages that may fail are modelled
  as event flags.
- The views of the negotiation are modelled as values of one `Stage` datatype rather than
  one object per view.
- The cancellation menu of `PlanningManagementView.cancel_rdv` (its LIMIT 25 listing) is
  not modelled. The deletion it leads to is (`Planning.CancelById`).
- `generate_transcript`, ticket creation and closing, and the setup and sync commands are not
  modelled. They only render messages or manage channels.
- The `my_absences` listing is not modelled. Its deletion path is (`Absences.CancelOwn`).
- A configured channel id of 0 is treated like a missing one wherever the source checks for
  it. Unknown channels are a null reference.
- In direct-message views the model assumes that whoever presses the staff member's buttons
  is that staff member, as only they can see the message.
- The staff role check on the declare button, made before the modal opens, is not
  modelled. The declaration flow starts at the modal.
- notify_admins: only the list of recipients is modelled. Sending the direct messages, and
  their failures, are not.
- Absences.ParseDate takes "today" as a parameter. This assumes that the `now()` inside
  `parse_date` and `date.today()` give the same day.
- Absences.RefreshAbsences: when today is 0001-01-01 it just returns. In the source the
  OverflowError of the previous-day subtraction is not caught: it ends on_submit after the
  INSERT, so the admin notification and the confirmation reply are skipped.
- Exceptions swallowed around panel edits and sends are not modelled. Only the NotFound path
  of `fetch_message` is, as a missing message.
- Tickets.ProjectTable.Add: the bare `except` of reprise_add is modelled as a UNIQUE
  violation only. Other database errors are not modelled.
- Logging (`print`) is not modelled.

## Findings

| source | as written | input that shows it | evidently intended | confidence | as-written member | corrected member |
|---|---|---|---|---|---|---|
| cogs/tickets.py:1231-1235 | reprise_remove deletes every project whose name equals the target up to case, but reports success only for the status "DELETE 1" | the table holds "LSPD" and "lspd" (allowed by the case-sensitive `name TEXT UNIQUE`); `/reprise_remove lspd` deletes both, the status is "DELETE 2", and the bot answers "introuvable" | success whenever at least one project was removed, that is, whenever the status is not "DELETE 0", the test remove_lien in cogs/liens.py makes | not executed | Tickets.RemoveAsWrittenMisreports | Tickets.RemoveReplyIff |
