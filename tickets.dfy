/**
 * Two small tables of cogs/tickets.py beside the appointment store: the
 * "claimed by" marker a support member puts in a ticket card's footer, and the
 * list of roleplay projects open for takeover (`reprise_projects`), with its
 * seeding, ordering, insertion and case-insensitive removal.
 */
module Tickets {
  import opened Base
  import opened Text
  import opened Seqs
  import opened Sql

  // ---- Claiming a ticket ----

  /** The text whose presence in the footer marks a claimed ticket. */
  const ClaimMarker := "Géré par"
  /** The footer every embed of the bot starts with (create_embed in config.py). */
  const DefaultFooter := "Remember RolePlay"

  /** The footer a claim writes. */
  function ClaimFooter(name: string): string {
    ClaimMarker + " " + name
  }

  datatype ClaimReply = Denied | AlreadyClaimed | Claimed

  /** What a claim answers and which footer the card shows afterwards, from the
      member's support role, the current footer ("" when there is none) and the
      member's display name. */
  function ClaimStep(isSupport: bool, footer: string, name: string): (r: (ClaimReply, string))
    ensures r.0 == Claimed <==> isSupport && !Contains(footer, ClaimMarker)
    ensures r.0 == Denied <==> !isSupport
    ensures r.1 == if r.0 == Claimed then ClaimFooter(name) else footer
  {
    if !isSupport then (Denied, footer)
    else if Contains(footer, ClaimMarker) then (AlreadyClaimed, footer)
    else (Claimed, ClaimFooter(name))
  }

  /** A fresh ticket card is unclaimed: its footer does not hold the marker. */
  lemma FreshCardIsUnclaimed(name: string)
    ensures ClaimStep(true, DefaultFooter, name) == (Claimed, ClaimFooter(name))
  {
    forall i | 0 <= i <= |DefaultFooter| - |ClaimMarker| ensures !OccursAt(DefaultFooter, ClaimMarker, i) {
      assert DefaultFooter[i] != 'G' == ClaimMarker[0];
    }
  }

  /** Claim once: after a successful claim, every later claim by anybody leaves the
      card as it is, and a support member is told it is already claimed. */
  lemma ClaimOnce(footer: string, name: string, isSupport: bool, other: string)
    requires ClaimStep(true, footer, name).0 == Claimed
    ensures var after := ClaimStep(true, footer, name).1;
      ClaimStep(isSupport, after, other) == (if isSupport then AlreadyClaimed else Denied, after)
  {
    var after := ClaimStep(true, footer, name).1;
    assert after == ClaimFooter(name);
    ClaimFooterIsClaimed(name);
  }

  /** The footer a claim writes holds the marker. */
  lemma ClaimFooterIsClaimed(name: string)
    ensures Contains(ClaimFooter(name), ClaimMarker)
  {
    ContainsPrefix(ClaimMarker, " " + name);
    assert ClaimFooter(name) == ClaimMarker + (" " + name);
  }

  /** The first embed of the ticket's opening message. */
  class TicketCard {
    var footer: string

    constructor ()
      ensures footer == DefaultFooter
    {
      footer := DefaultFooter;
    }

    /** TicketManagementView.claim. */
    method Claim(isSupport: bool, name: string) returns (reply: ClaimReply)
      modifies this
      ensures (reply, footer) == ClaimStep(isSupport, old(footer), name)
    {
      if !isSupport {
        return Denied;
      }
      if Contains(footer, ClaimMarker) {
        return AlreadyClaimed;
      }
      footer := ClaimFooter(name);
      return Claimed;
    }
  }

  // ---- Projects open for takeover ----

  /** A row of `reprise_projects`. */
  datatype Project = Project(name: string, priority: bool)

  const DefaultProjects: seq<Project> := [
    Project("Fermier", false),
    Project("Agent Immobilier", false),
    Project("LSPD", false),
    Project("Ballas", false),
    Project("Vagos", true),
    Project("Families", true)
  ]

  /** `name TEXT UNIQUE`: names are unique as written (case-sensitive). */
  predicate UniqueNames(rows: seq<Project>) {
    forall i, j :: 0 <= i < j < |rows| ==> rows[i].name != rows[j].name
  }

  predicate Named(rows: seq<Project>, name: string) {
    exists i :: 0 <= i < |rows| && rows[i].name == name
  }

  lemma DefaultProjectsUnique()
    ensures UniqueNames(DefaultProjects)
  {
    var names := ["Fermier", "Agent Immobilier", "LSPD", "Ballas", "Vagos", "Families"];
    assert forall i :: 0 <= i < 6 ==> DefaultProjects[i].name == names[i];
    assert names[0][0] == 'F' && names[1][0] == 'A' && names[2][0] == 'L';
    assert names[3][0] == 'B' && names[4][0] == 'V' && names[5][0] == 'F';
    assert names[0][1] == 'e' && names[5][1] == 'a';
  }

  /** `ORDER BY priority DESC, name ASC`. */
  function ListedBefore(a: Project, b: Project): bool {
    (a.priority && !b.priority) || (a.priority == b.priority && LessEq(a.name, b.name))
  }

  lemma ListedBeforeIsPreorder()
    ensures TotalPreorder(ListedBefore)
  {
    forall a: Project, b: Project ensures ListedBefore(a, b) || ListedBefore(b, a) {
      LessTrichotomy(a.name, b.name);
    }
    forall a: Project, b: Project, c: Project | ListedBefore(a, b) && ListedBefore(b, c)
      ensures ListedBefore(a, c)
    {
      if a.priority == b.priority == c.priority && Less(a.name, b.name) && Less(b.name, c.name) {
        LessTransitive(a.name, b.name, c.name);
      }
    }
  }

  /** get_reprise_projects: the built-in list without a store, else every row ordered
      priority first, then by name. */
  function ListProjects(store: Option<seq<Project>>): seq<Project> {
    if store.None? then DefaultProjects else SortBy(store.value, ListedBefore)
  }

  /** The listing holds exactly the stored rows, the priority projects first, and within
      each group the names ascend. */
  lemma ListProjectsProperties(rows: seq<Project>)
    ensures multiset(ListProjects(Some(rows))) == multiset(rows)
    ensures var l := ListProjects(Some(rows));
      forall i, j :: 0 <= i < j < |l| ==> (l[j].priority ==> l[i].priority)
    ensures var l := ListProjects(Some(rows));
      forall i, j :: 0 <= i < j < |l| && l[i].priority == l[j].priority ==> LessEq(l[i].name, l[j].name)
  {
    ListedBeforeIsPreorder();
    SortBySorted(rows, ListedBefore);
  }

  /** `WHERE LOWER(name) <> LOWER(target)`: the rows a removal keeps. */
  function Keeps(target: string): Project -> bool {
    (p: Project) => Lower(p.name) != Lower(target)
  }

  /** The reply of reprise_remove AS WRITTEN: success only for the status "DELETE 1". */
  function RemoveReplyAsWritten(status: string): bool {
    status == "DELETE 1"
  }

  /** The reply reprise_remove evidently intends: success unless the status says that no
      row went, the test remove_lien in cogs/liens.py makes. */
  function RemoveReply(status: string): bool {
    status != DeleteTag(0)
  }

  /** Corrected reply: a removal reports success exactly when some project's name equals
      the target up to case; in that case every such project is gone. */
  lemma RemoveReplyIff(rows: seq<Project>, target: string)
    ensures var kept := Filter(rows, Keeps(target));
      RemoveReply(DeleteTag(|rows| - |kept|)) <==> exists i :: 0 <= i < |rows| && Lower(rows[i].name) == Lower(target)
  {
    var kept := Filter(rows, Keeps(target));
    RemoveReplyOfCount(|rows| - |kept|);
    RemovesSomeIff(rows, target);
  }

  /** The DELETE removes a row exactly when some name equals the target up to case. */
  lemma RemovesSomeIff(rows: seq<Project>, target: string)
    ensures |Filter(rows, Keeps(target))| < |rows| <==> exists i :: 0 <= i < |rows| && Lower(rows[i].name) == Lower(target)
  {
    FilterShrinksIff(rows, Keeps(target));
    assert forall i :: 0 <= i < |rows| ==> (!Keeps(target)(rows[i]) <==> Lower(rows[i].name) == Lower(target));
  }

  /** The corrected reply reports success exactly when the status counts a row. */
  lemma RemoveReplyOfCount(n: nat)
    ensures RemoveReply(DeleteTag(n)) <==> n >= 1
  {
    DeleteTagInjective(n, 0);
  }

  /** The reply as written reports success exactly when the status counts one row. */
  lemma RemoveReplyAsWrittenOfCount(n: nat)
    ensures RemoveReplyAsWritten(DeleteTag(n)) <==> n == 1
  {
    DeleteTagOne();
    DeleteTagInjective(n, 1);
  }

  /** The reply as written and the corrected one agree whenever exactly one row matches. */
  lemma RemoveRepliesAgreeOnOne(status: string)
    requires status == DeleteTag(1)
    ensures RemoveReplyAsWritten(status) && RemoveReply(status)
  {
    DeleteTagOne();
    DeleteTagInjective(1, 0);
  }

  /** On a count of two or more the two replies disagree. */
  lemma RepliesDisagreeOnMany(n: nat)
    requires n >= 2
    ensures !RemoveReplyAsWritten(DeleteTag(n)) && RemoveReply(DeleteTag(n))
  {
    DeleteTagInjective(n, 1);
    DeleteTagOne();
    DeleteTagInjective(n, 0);
  }

  /** Whenever two or more rows match, the reply as written says nothing was found,
      although every one of them is deleted. */
  lemma RemoveAsWrittenMisreports(rows: seq<Project>, target: string)
    requires |rows| >= 2 && forall i :: 0 <= i < |rows| ==> Lower(rows[i].name) == Lower(target)
    ensures var kept := Filter(rows, Keeps(target));
      kept == [] && !RemoveReplyAsWritten(DeleteTag(|rows| - |kept|)) && RemoveReply(DeleteTag(|rows| - |kept|))
  {
    FilterNone(rows, Keeps(target));
    RepliesDisagreeOnMany(|rows|);
  }

  /** Two projects "LSPD" and "lspd" may coexist (the UNIQUE constraint is case-sensitive),
      and both match a removal of "lspd". */
  lemma CaseTwinsCoexist()
    ensures var rows := [Project("LSPD", false), Project("lspd", false)];
      UniqueNames(rows) && forall i :: 0 <= i < |rows| ==> Lower(rows[i].name) == Lower("lspd")
  {
    var rows := [Project("LSPD", false), Project("lspd", false)];
    assert rows[0].name[0] != rows[1].name[0];
    assert Lower("LSPD") == "lspd" by {
      assert Lower("LSPD") == [LowerChar('L'), LowerChar('S'), LowerChar('P'), LowerChar('D')];
    }
    assert Lower("lspd") == "lspd" by {
      assert Lower("lspd") == [LowerChar('l'), LowerChar('s'), LowerChar('p'), LowerChar('d')];
    }
  }

  /** The `reprise_projects` table. */
  class ProjectTable {
    var rows: seq<Project>

    ghost predicate Valid()
      reads this
    {
      UniqueNames(rows)
    }

    constructor ()
      ensures Valid() && rows == []
    {
      rows := [];
    }

    /** Seeding at cog load: an empty table receives the built-in projects, in order. */
    method Seed()
      requires Valid()
      modifies this
      ensures Valid()
      ensures rows == if old(rows) == [] then DefaultProjects else old(rows)
    {
      var count := |rows|;
      if count == 0 {
        for i := 0 to |DefaultProjects|
          invariant rows == DefaultProjects[..i]
        {
          rows := rows + [DefaultProjects[i]];
        }
        DefaultProjectsUnique();
      }
    }

    /** reprise_add: the INSERT fails on a name already present (as written). */
    method Add(name: string, priority: bool) returns (added: bool)
      requires Valid()
      modifies this
      ensures Valid()
      ensures added <==> !Named(old(rows), name)
      ensures rows == if added then old(rows) + [Project(name, priority)] else old(rows)
    {
      if exists i :: 0 <= i < |rows| && rows[i].name == name {
        return false;
      }
      rows := rows + [Project(name, priority)];
      return true;
    }

    /** reprise_remove: delete every project whose name equals `target` up to case and
        answer with the driver's status text, the corrected reply and the reply as written. */
    method Remove(target: string) returns (status: string, removed: bool, removedAsWritten: bool)
      requires Valid()
      modifies this
      ensures Valid()
      ensures rows == Filter(old(rows), Keeps(target))
      ensures status == DeleteTag(|old(rows)| - |rows|) && removed == RemoveReply(status)
      ensures removedAsWritten == RemoveReplyAsWritten(status)
      ensures removedAsWritten <==> |old(rows)| - |rows| == 1
    {
      var kept := Filter(rows, Keeps(target));
      FilterPairwise(rows, Keeps(target), (a: Project, b: Project) => a.name != b.name);
      var n := |rows| - |kept|;
      status := DeleteTag(n);
      rows := kept;
      removed := RemoveReply(status);
      removedAsWritten := RemoveReplyAsWritten(status);
      RemoveReplyAsWrittenOfCount(n);
    }
  }

  datatype AddOutcome = AddNoDatabase | ProjectAdded | ProbablyExists

  /** reprise_add: without a pool nothing is stored; otherwise the INSERT either adds the
      project at the end of the table or fails because the name is already present. */
  method RepriseAdd(table: ProjectTable?, name: string, priority: bool) returns (outcome: AddOutcome)
    requires table != null ==> table.Valid()
    modifies table
    ensures table != null ==> table.Valid()
    ensures table == null <==> outcome == AddNoDatabase
    ensures table != null ==> (outcome == ProjectAdded <==> !Named(old(table.rows), name))
    ensures table != null ==>
      table.rows == if outcome == ProjectAdded then old(table.rows) + [Project(name, priority)] else old(table.rows)
  {
    if table == null {
      return AddNoDatabase;
    }
    var added := table.Add(name, priority);
    outcome := if added then ProjectAdded else ProbablyExists;
  }

  datatype RemoveOutcome = RemoveNoDatabase | Retired | Unknown

  /** reprise_remove: without a pool nothing changes; otherwise every project matching
      `target` up to case is deleted. `outcome` is the corrected reply, which says whether
      any was; `asWritten` is the reply the command gives as written, which says so only
      when exactly one was. */
  method RepriseRemove(table: ProjectTable?, target: string) returns (outcome: RemoveOutcome, asWritten: RemoveOutcome)
    requires table != null ==> table.Valid()
    modifies table
    ensures table != null ==> table.Valid()
    ensures table == null <==> outcome == RemoveNoDatabase
    ensures table == null <==> asWritten == RemoveNoDatabase
    ensures table != null ==> table.rows == Filter(old(table.rows), Keeps(target))
    ensures table != null ==> (outcome == Retired <==>
      exists i :: 0 <= i < |old(table.rows)| && Lower(old(table.rows)[i].name) == Lower(target))
    ensures table != null ==> (asWritten == Retired <==> |old(table.rows)| - |table.rows| == 1)
  {
    if table == null {
      return RemoveNoDatabase, RemoveNoDatabase;
    }
    ghost var before := table.rows;
    var status, removed, removedAsWritten := table.Remove(target);
    RemoveReplyIff(before, target);
    assert removed == RemoveReply(DeleteTag(|before| - |Filter(before, Keeps(target))|));
    outcome := if removed then Retired else Unknown;
    asWritten := if removedAsWritten then Retired else Unknown;
  }
}
