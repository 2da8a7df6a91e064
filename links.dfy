/**
 * The useful-links panel of cogs/liens.py: a label → url table (`useful_links`,
 * label as primary key) with upsert and delete, and a panel listing the links
 * by label that is edited in place or, when its message is gone, posted only
 * into an empty channel.
 */
module Links {
  import opened Base
  import opened Text
  import opened Seqs
  import opened Sql
  import opened Panels

  const LinksKey := "links_embed"

  datatype Link = Link(name: string, url: string)

  /** `label TEXT PRIMARY KEY`. */
  predicate UniqueLabels(rows: seq<Link>) {
    Pairwise(rows, (a: Link, b: Link) => a.name != b.name)
  }

  /** The position of `name` in the table, if it is stored. */
  function IndexOf(rows: seq<Link>, name: string): (k: Option<nat>)
    ensures k.Some? ==> k.value < |rows| && rows[k.value].name == name
    ensures k.None? ==> forall i :: 0 <= i < |rows| ==> rows[i].name != name
  {
    if rows == [] then None
    else if rows[0].name == name then Some(0)
    else match IndexOf(rows[1..], name)
      case Some(k) => Some(k + 1)
      case None => None
  }

  /** With unique labels, the row holding a label is the one IndexOf finds. */
  lemma UniqueIndex(rows: seq<Link>, name: string, i: nat)
    requires UniqueLabels(rows) && i < |rows| && rows[i].name == name
    ensures IndexOf(rows, name) == Some(i)
  {
    var k := IndexOf(rows, name).value;
  }

  /** `SELECT url FROM useful_links WHERE label = $1`. */
  function Lookup(rows: seq<Link>, name: string): Option<string> {
    match IndexOf(rows, name)
    case Some(k) => Some(rows[k].url)
    case None => None
  }

  /** `INSERT … ON CONFLICT (label) DO UPDATE SET url = $2`: the row with that label gets
      the new url, or a new row is added. */
  function Upsert(rows: seq<Link>, name: string, url: string): seq<Link> {
    match IndexOf(rows, name)
    case Some(k) => rows[k := Link(name, url)]
    case None => rows + [Link(name, url)]
  }

  /** After an upsert the label gives the new url, every other label gives what it gave
      before, and labels stay unique. */
  lemma UpsertProperties(rows: seq<Link>, name: string, url: string)
    requires UniqueLabels(rows)
    ensures UniqueLabels(Upsert(rows, name, url))
    ensures Lookup(Upsert(rows, name, url), name) == Some(url)
    ensures forall other :: other != name ==> Lookup(Upsert(rows, name, url), other) == Lookup(rows, other)
  {
    var r := Upsert(rows, name, url);
    var at := IndexOf(rows, name);
    var k := if at.Some? then at.value else |rows|;
    assert k < |r| && r[k] == Link(name, url);
    assert forall i :: 0 <= i < |rows| && i != k ==> r[i] == rows[i];
    assert UniqueLabels(r) by {
      forall i, j | 0 <= i < j < |r| ensures r[i].name != r[j].name {
        if i != k && j != k {
          assert rows[i].name != rows[j].name;
        }
      }
    }
    UniqueIndex(r, name, k);
    forall other | other != name ensures Lookup(r, other) == Lookup(rows, other) {
      var o := IndexOf(rows, other);
      if o.Some? {
        UniqueIndex(r, other, o.value);
      } else {
        assert forall i :: 0 <= i < |r| ==> r[i].name != other;
      }
    }
  }

  /** `DELETE … WHERE label = $1`, negated: the rows a delete keeps. */
  function OtherLabel(name: string): Link -> bool {
    (l: Link) => l.name != name
  }

  /** Deleting a stored label cuts out exactly its row. */
  lemma DeleteAt(rows: seq<Link>, name: string, k: nat)
    requires UniqueLabels(rows) && k < |rows| && rows[k].name == name
    ensures Filter(rows, OtherLabel(name)) == rows[..k] + rows[k + 1..]
  {
    forall i | 0 <= i < |rows| && i != k ensures OtherLabel(name)(rows[i]) {
      if i < k {
        assert rows[i].name != rows[k].name;
      } else {
        assert rows[k].name != rows[i].name;
      }
    }
    FilterOneOut(rows, OtherLabel(name), k);
  }

  /** With unique labels the delete's status is "DELETE 0" exactly when the label is not
      stored, and then the delete keeps every row. */
  lemma NothingDeletedIff(rows: seq<Link>, name: string)
    requires UniqueLabels(rows)
    ensures DeleteTag(|rows| - |Filter(rows, OtherLabel(name))|) == "DELETE 0" <==> Lookup(rows, name).None?
    ensures Lookup(rows, name).None? ==> Filter(rows, OtherLabel(name)) == rows
  {
    DeleteRemovesLabel(rows, name);
    DeleteTagInjective(|rows| - |Filter(rows, OtherLabel(name))|, 0);
    assert DeleteTag(0) == "DELETE 0" by {
      assert Decimal(0) == "0";
    }
    if Lookup(rows, name).None? {
      FilterRemovesNothing(rows, OtherLabel(name));
      FilterAll(rows, OtherLabel(name));
    }
  }

  /** With unique labels a delete removes one row when the label is stored and none
      otherwise, and the label is gone afterwards. */
  lemma DeleteRemovesLabel(rows: seq<Link>, name: string)
    requires UniqueLabels(rows)
    ensures |rows| - |Filter(rows, OtherLabel(name))| == if Lookup(rows, name).Some? then 1 else 0
    ensures Lookup(Filter(rows, OtherLabel(name)), name).None?
  {
    var at := IndexOf(rows, name);
    if at.Some? {
      DeleteAt(rows, name, at.value);
    } else {
      FilterAll(rows, OtherLabel(name));
    }
  }

  /** A delete leaves every other label as it was. */
  lemma DeleteKeepsOthers(rows: seq<Link>, name: string, other: string)
    requires UniqueLabels(rows) && other != name
    ensures Lookup(Filter(rows, OtherLabel(name)), other) == Lookup(rows, other)
  {
    var kept := Filter(rows, OtherLabel(name));
    FilterPairwise(rows, OtherLabel(name), (a: Link, b: Link) => a.name != b.name);
    var o := IndexOf(rows, other);
    if o.Some? {
      assert OtherLabel(name)(rows[o.value]);
      var j :| 0 <= j < |kept| && kept[j] == rows[o.value];
      UniqueIndex(kept, other, j);
    } else {
      assert forall i :: 0 <= i < |kept| ==> kept[i].name != other;
    }
  }

  /** `ORDER BY label ASC`. */
  function LabelNoLater(a: Link, b: Link): bool {
    LessEq(a.name, b.name)
  }

  lemma LabelNoLaterIsPreorder()
    ensures TotalPreorder(LabelNoLater)
  {
    forall a: Link, b: Link ensures LabelNoLater(a, b) || LabelNoLater(b, a) {
      LessTrichotomy(a.name, b.name);
    }
    forall a: Link, b: Link, c: Link | LabelNoLater(a, b) && LabelNoLater(b, c) ensures LabelNoLater(a, c) {
      if Less(a.name, b.name) && Less(b.name, c.name) {
        LessTransitive(a.name, b.name, c.name);
      }
    }
  }

  /** The links as the panel lists them. */
  function Listing(rows: seq<Link>): seq<Link> {
    SortBy(rows, LabelNoLater)
  }

  /** The panel shows every stored link once, with labels strictly ascending. */
  lemma ListingProperties(rows: seq<Link>)
    requires UniqueLabels(rows)
    ensures multiset(Listing(rows)) == multiset(rows)
    ensures forall i, j :: 0 <= i < j < |Listing(rows)| ==> Less(Listing(rows)[i].name, Listing(rows)[j].name)
  {
    var l := Listing(rows);
    LabelNoLaterIsPreorder();
    SortBySorted(rows, LabelNoLater);
    forall i, j | 0 <= i < j < |l| ensures Less(l[i].name, l[j].name) {
      ListedOnce(l, rows, i, j);
      assert l[i] in multiset(rows) && l[j] in multiset(rows);
      var p :| 0 <= p < |rows| && rows[p] == l[i];
      var q :| 0 <= q < |rows| && rows[q] == l[j];
      if p < q {
        assert rows[p].name != rows[q].name;
      } else {
        assert rows[q].name != rows[p].name;
      }
    }
  }

  /** Two positions of a permutation of a list without repeats hold different elements. */
  lemma ListedOnce(l: seq<Link>, rows: seq<Link>, i: int, j: int)
    requires multiset(l) == multiset(rows) && UniqueLabels(rows)
    requires 0 <= i < j < |l|
    ensures l[i] != l[j]
  {
    if l[i] == l[j] {
      var x := l[i];
      assert multiset(l)[x] >= 2 by {
        assert l == l[..i] + [x] + l[i + 1..j] + [x] + l[j + 1..];
      }
      CountOnce(rows, x);
    }
  }

  lemma {:induction false} CountOnce(rows: seq<Link>, x: Link)
    requires UniqueLabels(rows)
    ensures multiset(rows)[x] <= 1
  {
    if rows != [] {
      assert rows == [rows[0]] + rows[1..];
      assert UniqueLabels(rows[1..]);
      CountOnce(rows[1..], x);
    }
  }

  /** The `useful_links` table. */
  class LinkTable {
    var rows: seq<Link>

    ghost predicate Valid()
      reads this
    {
      UniqueLabels(rows)
    }

    constructor ()
      ensures Valid() && rows == []
    {
      rows := [];
    }

    method Save(name: string, url: string)
      requires Valid()
      modifies this
      ensures Valid()
      ensures rows == Upsert(old(rows), name, url)
    {
      UpsertProperties(rows, name, url);
      rows := Upsert(rows, name, url);
    }

    /** `DELETE FROM useful_links WHERE label = $1`, answering the driver's status text. */
    method Delete(name: string) returns (status: string)
      requires Valid()
      modifies this
      ensures Valid()
      ensures rows == Filter(old(rows), OtherLabel(name))
      ensures status == DeleteTag(|old(rows)| - |rows|)
    {
      var kept := Filter(rows, OtherLabel(name));
      FilterPairwise(rows, OtherLabel(name), (a: Link, b: Link) => a.name != b.name);
      status := DeleteTag(|rows| - |kept|);
      rows := kept;
    }
  }

  /** The stored references and the link channel's messages once the panel shows `rows`. */
  function LinksShown(refs: map<string, PanelRef>, messages: map<nat, Post<seq<Link>>>, nextId: nat,
                      channelId: nat, rows: seq<Link>)
    : (map<string, PanelRef>, map<nat, Post<seq<Link>>>)
  {
    AfterRefresh(refs, messages, nextId, channelId, LinksKey, LinksPolicy, Listing(rows))
  }

  /** update_links_embed. A channel id of 0 (or none configured), an unknown channel (a
      null `ch`) or no pool ends it; otherwise the stored message is edited, or a new one
      is posted and recorded only when the channel is empty. */
  method RefreshLinks(channelId: nat, ch: Channel?<seq<Link>>, table: LinkTable?, refs: PanelRefs)
    returns (e: Option<Effect>)
    requires ch != null ==> ch.Valid()
    modifies ch, refs
    ensures ch != null ==> ch.Valid()
    ensures channelId == 0 || ch == null || table == null ==>
      e.None? && refs.refs == old(refs.refs) && (ch != null ==> ch.messages == old(ch.messages))
    ensures channelId != 0 && ch != null && table != null ==>
      && e == Some(EffectOf(Decide(old(refs.refs), old(ch.messages), LinksKey, LinksPolicy), old(ch.nextId)))
      && (refs.refs, ch.messages) == LinksShown(old(refs.refs), old(ch.messages), old(ch.nextId), ch.id, table.rows)
  {
    if channelId == 0 || ch == null || table == null {
      return None;
    }
    var effect := Refresh(refs, ch, LinksKey, Listing(table.rows), LinksPolicy);
    return Some(effect);
  }

  datatype AddOutcome = AddNoDatabase | BadUrl | Saved

  /** add_lien: no pool, or a url not starting with "http", changes nothing; otherwise the
      name is upserted and the panel refreshed. */
  method AddLink(table: LinkTable?, channelId: nat, ch: Channel?<seq<Link>>, refs: PanelRefs, name: string, url: string)
    returns (outcome: AddOutcome)
    requires table != null ==> table.Valid()
    requires ch != null ==> ch.Valid()
    modifies table, ch, refs
    ensures table != null ==> table.Valid()
    ensures ch != null ==> ch.Valid()
    ensures outcome == (if table == null then AddNoDatabase else if !StartsWith(url, "http") then BadUrl else Saved)
    ensures outcome != Saved ==>
      refs.refs == old(refs.refs) && (table != null ==> table.rows == old(table.rows)) &&
      (ch != null ==> ch.messages == old(ch.messages))
    ensures outcome == Saved ==>
      table.rows == Upsert(old(table.rows), name, url) &&
      (channelId == 0 || ch == null ==>
        refs.refs == old(refs.refs) && (ch != null ==> ch.messages == old(ch.messages))) &&
      (channelId != 0 && ch != null ==>
        (refs.refs, ch.messages) == LinksShown(old(refs.refs), old(ch.messages), old(ch.nextId), ch.id, table.rows))
  {
    if table == null {
      return AddNoDatabase;
    }
    if !StartsWith(url, "http") {
      return BadUrl;
    }
    table.Save(name, url);
    var _ := RefreshLinks(channelId, ch, table, refs);
    return Saved;
  }

  datatype RemoveOutcome = RemoveNoDatabase | Missing | Removed

  /** remove_lien: a status of "DELETE 0" means the name was absent, and then the panel
      is not refreshed. */
  method RemoveLink(table: LinkTable?, channelId: nat, ch: Channel?<seq<Link>>, refs: PanelRefs, name: string)
    returns (outcome: RemoveOutcome)
    requires table != null ==> table.Valid()
    requires ch != null ==> ch.Valid()
    modifies table, ch, refs
    ensures table != null ==> table.Valid()
    ensures ch != null ==> ch.Valid()
    ensures table == null ==>
      outcome == RemoveNoDatabase && refs.refs == old(refs.refs) && (ch != null ==> ch.messages == old(ch.messages))
    ensures table != null ==>
      table.rows == Filter(old(table.rows), OtherLabel(name)) &&
      (outcome == Missing <==> Lookup(old(table.rows), name).None?) &&
      (outcome == Missing ==> table.rows == old(table.rows) && refs.refs == old(refs.refs) &&
                              (ch != null ==> ch.messages == old(ch.messages))) &&
      (outcome == Removed ==>
        (channelId == 0 || ch == null ==>
          refs.refs == old(refs.refs) && (ch != null ==> ch.messages == old(ch.messages))) &&
        (channelId != 0 && ch != null ==>
          (refs.refs, ch.messages) == LinksShown(old(refs.refs), old(ch.messages), old(ch.nextId), ch.id, table.rows)))
  {
    if table == null {
      return RemoveNoDatabase;
    }
    NothingDeletedIff(table.rows, name);
    ghost var refs0 := refs.refs;
    var status := table.Delete(name);
    if status == "DELETE 0" {
      return Missing;
    }
    assert refs.refs == refs0;
    var _ := RefreshLinks(channelId, ch, table, refs);
    return Removed;
  }
}
