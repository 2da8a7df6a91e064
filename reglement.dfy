/**
 * The rules announcements of cogs/reglement.py: at start-up each configured
 * rules channel receives the rules message, but only while it is empty.
 */
module Reglement {
  import opened Panels

  /** What the rules message carries: its title, text, link and button label. */
  datatype Rules = Rules(title: string, description: string, url: string, buttonLabel: string)

  /** One check on a channel with these messages: an empty channel gets the message under
      the next platform id, any other channel is left alone. */
  function AfterCheck(messages: map<nat, Post<Rules>>, rules: Rules, nextId: nat): (r: map<nat, Post<Rules>>)
    ensures messages != map[] ==> r == messages
    ensures messages == map[] ==> r == map[nextId := Bot(rules)]
  {
    if messages == map[] then map[nextId := Bot(rules)] else messages
  }

  /** The messages after a run of checks, the i-th one allocating `ids[i]` if it sends. */
  function AfterChecks(messages: map<nat, Post<Rules>>, rules: Rules, ids: seq<nat>): map<nat, Post<Rules>>
    decreases |ids|
  {
    if ids == [] then messages else AfterChecks(AfterCheck(messages, rules, ids[0]), rules, ids[1..])
  }

  /** However often the check runs, the channel gains at most one message: the first check
      on an empty channel sends, and every later one finds it non-empty. */
  lemma {:induction false} ChecksSendAtMostOnce(messages: map<nat, Post<Rules>>, rules: Rules, ids: seq<nat>)
    ensures AfterChecks(messages, rules, ids) ==
      if messages == map[] && ids != [] then map[ids[0] := Bot(rules)] else messages
    decreases |ids|
  {
    if ids != [] {
      var once := AfterCheck(messages, rules, ids[0]);
      assert ids[0] in once.Keys || messages != map[];
      ChecksSendAtMostOnce(once, rules, ids[1..]);
      if messages == map[] {
        assert once != map[] by {
          assert ids[0] in once;
        }
      }
    }
  }

  /** check_and_send_reglement: a channel id of 0 (or none configured) or an unknown
      channel (a null `ch`) sends nothing; otherwise the history decides. */
  method SendIfEmpty(channelId: nat, ch: Channel?<Rules>, rules: Rules) returns (sent: bool)
    requires ch != null ==> ch.Valid()
    modifies ch
    ensures ch != null ==> ch.Valid()
    ensures sent <==> channelId != 0 && ch != null && old(ch.messages) == map[]
    ensures ch != null && channelId != 0 ==> ch.messages == AfterCheck(old(ch.messages), rules, old(ch.nextId))
    ensures ch != null && channelId == 0 ==> ch.messages == old(ch.messages)
  {
    if channelId == 0 || ch == null {
      return false;
    }
    var isEmpty := ch.HistoryIsEmpty();
    if !isEmpty {
      return false;
    }
    var _ := ch.Send(Bot(rules));
    return true;
  }
}
