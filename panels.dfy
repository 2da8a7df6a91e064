/**
 * The "one stored message per key" pattern shared by the planning, absence and
 * link panels: a channel holds messages, the `persistent_messages` table maps a
 * panel key to the id of the message that shows it, and a refresh edits that
 * message when it still exists or posts a new one and records its id.
 */
module Panels {
  import opened Base

  /** A message in a channel: one the bot posted with some content, or anybody else's. */
  datatype Post<C> = Bot(content: C) | Foreign

  /** A text channel. Message ids come from the platform and are never reused. */
  class Channel<C> {
    const id: nat
    var messages: map<nat, Post<C>>
    var nextId: nat

    ghost predicate Valid()
      reads this
    {
      nextId >= 1 && forall m :: m in messages ==> 1 <= m < nextId
    }

    constructor (id: nat)
      ensures Valid() && this.id == id && messages == map[]
    {
      this.id := id;
      messages := map[];
      nextId := 1;
    }

    /** channel.send(...): a new message with a new id. */
    method Send(p: Post<C>) returns (m: nat)
      requires Valid()
      modifies this
      ensures Valid()
      ensures m == old(nextId) && m >= 1 && m !in old(messages)
      ensures messages == old(messages)[m := p]
    {
      m := nextId;
      messages := messages[m := p];
      nextId := nextId + 1;
    }

    /** msg.edit(...) on a message that fetch_message found. */
    method Edit(m: nat, c: C)
      requires Valid() && m in messages
      modifies this
      ensures Valid() && nextId == old(nextId)
      ensures messages == old(messages)[m := Bot(c)]
    {
      messages := messages[m := Bot(c)];
    }

    /** A message disappears (msg.delete(), or someone removes it by hand). */
    method Delete(m: nat)
      requires Valid()
      modifies this
      ensures Valid() && nextId == old(nextId)
      ensures messages == old(messages) - {m}
    {
      messages := messages - {m};
    }

    /** `async for _ in channel.history(limit=1): is_empty = False; break` */
    method HistoryIsEmpty() returns (isEmpty: bool)
      ensures isEmpty <==> messages == map[]
    {
      isEmpty := true;
      var history: seq<nat> := [];
      if messages != map[] {
        var m :| m in messages;
        history := [m];
      }
      for i := 0 to |history|
        invariant isEmpty <==> i == 0
      {
        isEmpty := false;
        break;
      }
    }
  }

  /** A row of `persistent_messages`. */
  datatype PanelRef = PanelRef(messageId: nat, channelId: nat)

  /** The message id stored for `key`; a missing row and a zero id both count as none
      (`message_id = config["message_id"] if config else None`, then `if message_id:`). */
  function StoredId(refs: map<string, PanelRef>, key: string): (r: Option<nat>)
    ensures r.Some? <==> key in refs && refs[key].messageId != 0
    ensures r.Some? ==> r.value == refs[key].messageId
  {
    if key in refs && refs[key].messageId != 0 then Some(refs[key].messageId) else None
  }

  /** INSERT … ON CONFLICT (key) DO UPDATE: `refreshChannel` says whether the update also
      rewrites channel_id (the absence and link panels do, the planning panel does not). */
  function StoreRef(refs: map<string, PanelRef>, key: string, m: nat, channelId: nat, refreshChannel: bool)
    : (r: map<string, PanelRef>)
    ensures key in r && r[key].messageId == m
    ensures r[key].channelId == if key in refs && !refreshChannel then refs[key].channelId else channelId
    ensures forall k :: k != key ==> (k in r <==> k in refs) && (k in refs ==> r[k] == refs[k])
  {
    if key in refs && !refreshChannel then refs[key := PanelRef(m, refs[key].channelId)]
    else refs[key := PanelRef(m, channelId)]
  }

  /** The `persistent_messages` table. */
  class PanelRefs {
    var refs: map<string, PanelRef>

    constructor ()
      ensures refs == map[]
    {
      refs := map[];
    }

    method Store(key: string, m: nat, channelId: nat, refreshChannel: bool)
      modifies this
      ensures refs == StoreRef(old(refs), key, m, channelId, refreshChannel)
    {
      refs := StoreRef(refs, key, m, channelId, refreshChannel);
    }
  }

  /** How a panel variant behaves when it has no live message. */
  datatype Policy = Policy(onlyIntoEmptyChannel: bool, refreshChannel: bool)

  const PlanningPolicy := Policy(false, false)
  const AbsencesPolicy := Policy(false, true)
  const LinksPolicy := Policy(true, true)

  datatype Decision = EditStored(m: nat) | CreateNew | Skip

  /** What a refresh does, from the stored reference and the channel's messages. */
  function Decide<C>(refs: map<string, PanelRef>, messages: map<nat, Post<C>>, key: string, p: Policy): Decision {
    var stored := StoredId(refs, key);
    if stored.Some? && stored.value in messages then EditStored(stored.value)
    else if p.onlyIntoEmptyChannel && messages != map[] then Skip
    else CreateNew
  }

  /** A live stored message is edited, never duplicated; creation happens only when the
      stored message is missing or gone; a skip only under the empty-channel policy. */
  lemma DecideCases<C>(refs: map<string, PanelRef>, messages: map<nat, Post<C>>, key: string, p: Policy)
    ensures var d := Decide(refs, messages, key, p);
      && (d.EditStored? <==> StoredId(refs, key).Some? && StoredId(refs, key).value in messages)
      && (d.EditStored? ==> d.m == StoredId(refs, key).value)
      && (d.Skip? <==> p.onlyIntoEmptyChannel && messages != map[] && !d.EditStored? &&
                        !(StoredId(refs, key).Some? && StoredId(refs, key).value in messages))
  {
  }

  /** After a refresh that edited or created, the next refresh edits that same message:
      repeated refreshes never post a second message. */
  lemma RefreshSettles<C>(refs: map<string, PanelRef>, messages: map<nat, Post<C>>, key: string,
                          p: Policy, c: C, newId: nat, channelId: nat)
    requires newId >= 1 && newId !in messages
    ensures var d := Decide(refs, messages, key, p);
      d.CreateNew? ==>
        Decide(StoreRef(refs, key, newId, channelId, p.refreshChannel), messages[newId := Bot(c)], key, p) == EditStored(newId)
    ensures var d := Decide(refs, messages, key, p);
      d.EditStored? ==> Decide(refs, messages[d.m := Bot(c)], key, p) == d
  {
  }

  /** A stale reference heals on the next refresh: once the stored message is gone, an
      ungated panel posts a new one; a panel gated on an empty channel posts only if
      nothing else is left in the channel. */
  lemma StaleReferenceHeals<C>(refs: map<string, PanelRef>, messages: map<nat, Post<C>>, key: string, p: Policy)
    requires StoredId(refs, key).Some?
    ensures var gone := messages - {StoredId(refs, key).value};
      Decide(refs, gone, key, p) == if p.onlyIntoEmptyChannel && gone != map[] then Skip else CreateNew
  {
  }

  datatype Effect = Edited(m: nat) | Created(m: nat) | Skipped

  /** The effect a decision has, a new message taking the channel's next id. */
  function EffectOf(d: Decision, nextId: nat): Effect {
    match d
    case EditStored(m) => Edited(m)
    case CreateNew => Created(nextId)
    case Skip => Skipped
  }

  /** The stored references and the channel's messages once a refresh has shown `content`:
      the live stored message rewritten in place, or a new message posted under the
      channel's next id and its id recorded under `key`, or, on a skip, nothing changed. */
  function AfterRefresh<C>(refs: map<string, PanelRef>, messages: map<nat, Post<C>>, nextId: nat,
                           channelId: nat, key: string, p: Policy, content: C)
    : (map<string, PanelRef>, map<nat, Post<C>>)
  {
    match Decide(refs, messages, key, p)
    case EditStored(m) => (refs, messages[m := Bot(content)])
    case CreateNew => (StoreRef(refs, key, nextId, channelId, p.refreshChannel), messages[nextId := Bot(content)])
    case Skip => (refs, messages)
  }

  /** Whatever a refresh that did not skip showed, the next refresh of the same panel edits
      that same message in place and leaves the stored references alone, whatever it shows. */
  lemma AfterRefreshSettles<C>(refs: map<string, PanelRef>, messages: map<nat, Post<C>>, nextId: nat,
                               channelId: nat, key: string, p: Policy, c1: C, c2: C, laterId: nat)
    requires nextId >= 1 && nextId !in messages
    requires !Decide(refs, messages, key, p).Skip?
    ensures var d := Decide(refs, messages, key, p);
      var shown := if d.EditStored? then d.m else nextId;
      var (refs1, messages1) := AfterRefresh(refs, messages, nextId, channelId, key, p, c1);
      && shown in messages1 && messages1[shown] == Bot(c1)
      && (forall m :: m in messages && m != shown ==> m in messages1 && messages1[m] == messages[m])
      && Decide(refs1, messages1, key, p) == EditStored(shown)
      && AfterRefresh(refs1, messages1, laterId, channelId, key, p, c2) == (refs1, messages1[shown := Bot(c2)])
  {
    RefreshSettles(refs, messages, key, p, c1, nextId, channelId);
  }

  /** The shared tail of update_planning_embed, update_absences_embed and
      update_links_embed: edit the stored message, or post one and record its id. */
  method Refresh<C>(refs: PanelRefs, ch: Channel<C>, key: string, content: C, p: Policy) returns (e: Effect)
    requires ch.Valid()
    modifies refs, ch
    ensures ch.Valid()
    ensures e == EffectOf(Decide(old(refs.refs), old(ch.messages), key, p), old(ch.nextId))
    ensures (refs.refs, ch.messages) ==
      AfterRefresh(old(refs.refs), old(ch.messages), old(ch.nextId), ch.id, key, p, content)
  {
    var stored := StoredId(refs.refs, key);
    if stored.Some? && stored.value in ch.messages {
      ch.Edit(stored.value, content);
      return Edited(stored.value);
    }
    if p.onlyIntoEmptyChannel {
      var isEmpty := ch.HistoryIsEmpty();
      if !isEmpty {
        return Skipped;
      }
    }
    var m := ch.Send(Bot(content));
    refs.Store(key, m, ch.id, p.refreshChannel);
    return Created(m);
  }
}
