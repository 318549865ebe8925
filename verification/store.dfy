/**
  The report store of the application component: the collection of reports,
  which report is expanded, the active status tab and the search term, and the
  handlers that transform them. Every handler is a total function of the state;
  an unknown id or an index out of range leaves the collection as it was.
  The two clock reads (the new id and the update timestamp) are parameters.
*/
module Store {
  import opened Reports
  import opened Seqs
  import opened Text

  /** `reports.map(r => r.id === id ? f(r) : r)`. */
  function UpdateWhere(rs: seq<Report>, id: string, f: Report -> Report): (r: seq<Report>)
    ensures |r| == |rs|
    ensures forall i :: 0 <= i < |rs| ==> r[i] == (if rs[i].id == id then f(rs[i]) else rs[i])
    decreases |rs|
  {
    if |rs| == 0 then []
    else [if rs[0].id == id then f(rs[0]) else rs[0]] + UpdateWhere(rs[1..], id, f)
  }

  // ---------------------------------------------------------------------------
  // Operations on the collection
  // ---------------------------------------------------------------------------

  /** A new report with the given id and fields: open, with no updates. */
  function NewReport(id: string, fields: Fields): (r: Report)
    ensures r.id == id && r.fields == fields
    ensures r.status == Abierto && r.updates == []
  {
    Report(id, fields, Abierto, [])
  }

  /** Creation: the new report goes in front; the earlier reports follow in order. */
  function Create(rs: seq<Report>, id: string, fields: Fields): (r: seq<Report>)
    ensures |r| == |rs| + 1
    ensures r[0].id == id && r[0].fields == fields
    ensures r[0].status == Abierto && r[0].updates == []
    ensures r[1..] == rs
  {
    [NewReport(id, fields)] + rs
  }

  /**
    Creation keeps the ids pairwise distinct exactly when they were distinct
    before and the supplied id is fresh; nothing in creation itself ensures
    freshness.
  */
  lemma CreateKeepsIdsDistinct(rs: seq<Report>, id: string, fields: Fields)
    ensures DistinctIds(Create(rs, id, fields)) <==> DistinctIds(rs) && !HasId(rs, id)
  {
    var r := Create(rs, id, fields);
    if HasId(rs, id) {
      var k :| 0 <= k < |rs| && rs[k].id == id;
      assert r[k + 1].id == r[0].id;
    }
    if DistinctIds(r) {
      forall i, j | 0 <= i < |rs| && 0 <= j < |rs| && i != j
        ensures rs[i].id != rs[j].id
      {
        assert r[i + 1] == rs[i] && r[j + 1] == rs[j];
      }
    }
    if DistinctIds(rs) && !HasId(rs, id) {
      forall i, j | 0 <= i < |r| && 0 <= j < |r| && i != j
        ensures r[i].id != r[j].id
      {
        if i > 0 && j > 0 {
          assert r[i] == rs[i - 1] && r[j] == rs[j - 1];
        } else if i == 0 {
          assert r[j] == rs[j - 1];
        } else {
          assert r[i] == rs[i - 1];
        }
      }
    }
  }

  /** Replacement: every report carrying `id` becomes `nr`; the others stay where they are. */
  function ReplaceById(rs: seq<Report>, id: string, nr: Report): (r: seq<Report>)
    ensures |r| == |rs|
    ensures forall i :: 0 <= i < |rs| && rs[i].id == id ==> r[i] == nr
    ensures forall i :: 0 <= i < |rs| && rs[i].id != id ==> r[i] == rs[i]
    ensures !HasId(rs, id) ==> r == rs
  {
    UpdateWhere(rs, id, _ => nr)
  }

  /** A replacement that keeps the id keeps the whole id sequence, hence distinctness. */
  lemma ReplaceKeepsIds(rs: seq<Report>, id: string, nr: Report)
    requires nr.id == id
    ensures SameIds(ReplaceById(rs, id, nr), rs)
    ensures DistinctIds(rs) ==> DistinctIds(ReplaceById(rs, id, nr))
  {
    var r := ReplaceById(rs, id, nr);
    assert forall i :: 0 <= i < |r| ==> r[i].id == rs[i].id;
  }

  /** Deletion: `reports.filter(r => r.id !== id)`. */
  function DeleteById(rs: seq<Report>, id: string): (r: seq<Report>)
    ensures !HasId(r, id)
    ensures forall x :: x in r <==> x in rs && x.id != id
    ensures IsSubsequence(r, rs)
    ensures !HasId(rs, id) ==> r == rs
    ensures forall x {:trigger multiset(r)[x]} :: multiset(r)[x] == if x.id != id then multiset(rs)[x] else 0
  {
    var r := Keep(rs, (x: Report) => x.id != id);
    KeepMultiset(rs, (x: Report) => x.id != id);
    KeepMembers(rs, (x: Report) => x.id != id);
    KeepSubsequence(rs, (x: Report) => x.id != id);
    KeepAll(rs, (x: Report) => x.id != id);
    assert forall i :: 0 <= i < |r| ==> r[i] in r;
    r
  }

  /** With distinct ids, deleting the id at position `k` removes exactly that report. */
  lemma DeleteRemovesOne(rs: seq<Report>, k: nat)
    requires DistinctIds(rs)
    requires k < |rs|
    ensures DeleteById(rs, rs[k].id) == rs[..k] + rs[k + 1..]
  {
    var id := rs[k].id;
    KeepDropsOne(rs, (x: Report) => x.id != id, k);
  }

  /** Deletion keeps the ids pairwise distinct. */
  lemma DeleteKeepsIdsDistinct(rs: seq<Report>, id: string)
    requires DistinctIds(rs)
    ensures DistinctIds(DeleteById(rs, id))
  {
    if HasId(rs, id) {
      var k :| 0 <= k < |rs| && rs[k].id == id;
      DeleteRemovesOne(rs, k);
      DistinctWithoutOne(rs, k);
    }
  }

  lemma DistinctWithoutOne(rs: seq<Report>, k: nat)
    requires DistinctIds(rs)
    requires k < |rs|
    ensures DistinctIds(rs[..k] + rs[k + 1..])
  {
    var r := rs[..k] + rs[k + 1..];
    assert forall i :: 0 <= i < k ==> r[i] == rs[i];
    assert forall i :: k <= i < |r| ==> r[i] == rs[i + 1];
  }

  /** Adding an update: the new entry goes in front of the matching reports' updates. */
  function AddUpdateTo(rs: seq<Report>, id: string, u: Update): (r: seq<Report>)
    ensures SameIds(r, rs)
    ensures forall i :: 0 <= i < |rs| ==> r[i].fields == rs[i].fields && r[i].status == rs[i].status
    ensures forall i :: 0 <= i < |rs| && rs[i].id == id ==>
              && |r[i].updates| == |rs[i].updates| + 1
              && r[i].updates[0] == u
              && r[i].updates[1..] == rs[i].updates
    ensures forall i :: 0 <= i < |rs| && rs[i].id != id ==> r[i] == rs[i]
    ensures !HasId(rs, id) ==> r == rs
  {
    UpdateWhere(rs, id, (x: Report) => x.(updates := [u] + x.updates))
  }

  /** Deleting an update: `updates.filter((_, index) => index !== updateIndex)` on the matching reports. */
  function DeleteUpdateOf(rs: seq<Report>, id: string, index: int): (r: seq<Report>)
    ensures SameIds(r, rs)
    ensures forall i :: 0 <= i < |rs| ==> r[i].fields == rs[i].fields && r[i].status == rs[i].status
    ensures forall i :: 0 <= i < |rs| && rs[i].id == id && 0 <= index < |rs[i].updates| ==>
              r[i].updates == rs[i].updates[..index] + rs[i].updates[index + 1..]
    ensures forall i :: 0 <= i < |rs| && (rs[i].id != id || !(0 <= index < |rs[i].updates|)) ==>
              r[i] == rs[i]
    ensures !HasId(rs, id) ==> r == rs
  {
    UpdateWhere(rs, id, (x: Report) => x.(updates := RemoveAt(x.updates, index)))
  }

  /** Deleting the newest update undoes adding one. */
  lemma {:induction false} DeleteNewestUndoesAdd(rs: seq<Report>, id: string, u: Update)
    ensures DeleteUpdateOf(AddUpdateTo(rs, id, u), id, 0) == rs
  {
    var added := AddUpdateTo(rs, id, u);
    var r := DeleteUpdateOf(added, id, 0);
    forall i | 0 <= i < |rs|
      ensures r[i] == rs[i]
    {
      if rs[i].id == id {
        assert r[i].updates == added[i].updates[1..];
      }
    }
  }

  // ---------------------------------------------------------------------------
  // The derived list: status tab AND search term
  // ---------------------------------------------------------------------------

  /** The four tabs: every report, or the reports in one status. */
  datatype Tab = Todos | Only(status: Status)

  /**
    `activeTab === 'todos' || report.status === activeTab`: comparing the
    statuses agrees with comparing the strings they carry.
  */
  function MatchesTab(tab: Tab, s: Status): (b: bool)
    ensures tab.Todos? ==> b
    ensures tab.Only? ==> (b <==> Label(tab.status) == Label(s))
  {
    if tab.Todos? then true
    else LabelInjective(tab.status, s); tab.status == s
  }

  /**
    Case-insensitive substring match on the guest name or the room number; the
    empty term matches all.
  */
  function MatchesSearch(term: string, x: Report): (b: bool)
    ensures term == "" ==> b
    ensures b <==> || term == ""
                   || Occurs(Lower(term), Lower(x.fields.guestName))
                   || Occurs(Lower(term), Lower(x.fields.roomNumber))
  {
    var t, name, room := Lower(term), Lower(x.fields.guestName), Lower(x.fields.roomNumber);
    InfixIffOccurs(t, name);
    InfixIffOccurs(t, room);
    term == "" || IsInfix(t, name) || IsInfix(t, room)
  }

  predicate Matches(tab: Tab, term: string, x: Report)
  {
    MatchesTab(tab, x.status) && MatchesSearch(term, x)
  }

  /** The list the application shows: the reports matching both criteria, in collection order. */
  function Filter(rs: seq<Report>, tab: Tab, term: string): (r: seq<Report>)
    ensures IsSubsequence(r, rs)
    ensures forall x :: x in r <==> x in rs && MatchesTab(tab, x.status) && MatchesSearch(term, x)
    ensures r == rs <==> forall i :: 0 <= i < |rs| ==> Matches(tab, term, rs[i])
    ensures forall x {:trigger multiset(r)[x]} :: multiset(r)[x] == if Matches(tab, term, x) then multiset(rs)[x] else 0
  {
    KeepMultiset(rs, (x: Report) => Matches(tab, term, x));
    KeepMembers(rs, (x: Report) => Matches(tab, term, x));
    KeepSubsequence(rs, (x: Report) => Matches(tab, term, x));
    KeepAll(rs, (x: Report) => Matches(tab, term, x));
    Keep(rs, (x: Report) => Matches(tab, term, x))
  }

  /** The `todos` tab with an empty search shows the whole collection. */
  lemma FilterShowsAll(rs: seq<Report>)
    ensures Filter(rs, Todos, "") == rs
  {
  }

  /** Search terms that lower-case alike select the same reports. */
  lemma FilterIgnoresCase(rs: seq<Report>, tab: Tab, a: string, b: string)
    requires Lower(a) == Lower(b)
    ensures Filter(rs, tab, a) == Filter(rs, tab, b)
  {
    assert |a| == |b|;
    assert a == "" <==> b == "";
    KeepCongruent(rs, (x: Report) => Matches(tab, a, x), (x: Report) => Matches(tab, b, x));
  }

  /** For instance, the search "juan" finds the guest "Juan Pérez". */
  lemma SearchFindsCapitalisedName(x: Report)
    requires x.fields.guestName == "Juan Pérez"
    ensures MatchesSearch("juan", x)
  {
    var name := x.fields.guestName;
    var l := Lower(name);
    assert l[..4] == "juan" by {
      assert name[0] == 'J' && name[1] == 'u' && name[2] == 'a' && name[3] == 'n';
      assert l[0] == LowerChar('J') == 'j';
      assert l[1] == 'u' && l[2] == 'a' && l[3] == 'n';
    }
    var t := Lower("juan");
    assert t == "juan" by {
      assert t[0] == LowerChar('j') && t[1] == LowerChar('u');
      assert t[2] == LowerChar('a') && t[3] == LowerChar('n');
    }
    assert IsPrefix(t, l);
  }

  /** After a deletion no filtered view contains the deleted id. */
  lemma DeletedNeverListed(rs: seq<Report>, id: string, tab: Tab, term: string)
    ensures !HasId(Filter(DeleteById(rs, id), tab, term), id)
  {
    var d := DeleteById(rs, id);
    var f := Filter(d, tab, term);
    forall i | 0 <= i < |f|
      ensures f[i].id != id
    {
      assert f[i] in f;
      assert f[i] in d;
    }
  }

  // ---------------------------------------------------------------------------
  // Application state and its handlers
  // ---------------------------------------------------------------------------

  /** The application's state: reports, the expanded report, the active tab and the search term. */
  datatype App = App(reports: seq<Report>, expanded: Option<string>, tab: Tab, search: string)

  const Initial: App := App([], None, Todos, "")

  function FilteredReports(app: App): (r: seq<Report>)
    ensures IsSubsequence(r, app.reports)
    ensures forall x :: x in r <==> x in app.reports && Matches(app.tab, app.search, x)
    ensures forall x {:trigger multiset(r)[x]} :: multiset(r)[x] == if Matches(app.tab, app.search, x) then multiset(app.reports)[x] else 0
  {
    Filter(app.reports, app.tab, app.search)
  }

  /** Deleting a report also collapses it if it was the expanded one. */
  function DeleteReport(app: App, id: string): (a: App)
    ensures a.reports == DeleteById(app.reports, id)
    ensures a.expanded == None <==> app.expanded == None || app.expanded == Some(id)
    ensures a.expanded != None ==> a.expanded == app.expanded
    ensures a.tab == app.tab && a.search == app.search
  {
    App(DeleteById(app.reports, id), if app.expanded == Some(id) then None else app.expanded,
        app.tab, app.search)
  }

  /** Toggling collapses the report if it was expanded and expands it otherwise. */
  function ToggleExpand(app: App, id: string): (a: App)
    ensures a.reports == app.reports && a.tab == app.tab && a.search == app.search
    ensures a.expanded == Some(id) <==> app.expanded != Some(id)
    ensures a.expanded == None || a.expanded == Some(id)
  {
    app.(expanded := if app.expanded == Some(id) then None else Some(id))
  }

  /** Toggling twice is a no-op unless another report was expanded at first. */
  lemma ToggleTwice(app: App, id: string)
    ensures ToggleExpand(ToggleExpand(app, id), id) == app
            <==> app.expanded == None || app.expanded == Some(id)
  {
  }

  /** What can happen to the application state. */
  datatype Event =
    | Created(id: string, fields: Fields)
    | Replaced(id: string, report: Report)
    | Deleted(id: string)
    | UpdateAdded(id: string, text: string, timestamp: string)
    | UpdateDeleted(id: string, index: int)
    | Toggled(id: string)
    | TabSelected(tab: Tab)
    | SearchTyped(term: string)

  /** One event: each handler touches its own part of the state and nothing else. */
  function Step(app: App, e: Event): (a: App)
    ensures a.tab == (if e.TabSelected? then e.tab else app.tab)
    ensures a.search == (if e.SearchTyped? then e.term else app.search)
    ensures e.Toggled? || e.TabSelected? || e.SearchTyped? ==> a.reports == app.reports
    ensures !(e.Deleted? || e.Toggled?) ==> a.expanded == app.expanded
    ensures e.Deleted? ==> a.expanded == (if app.expanded == Some(e.id) then None else app.expanded)
  {
    match e
    case Created(id, fields) => app.(reports := Create(app.reports, id, fields))
    case Replaced(id, report) => app.(reports := ReplaceById(app.reports, id, report))
    case Deleted(id) => DeleteReport(app, id)
    case UpdateAdded(id, text, timestamp) =>
      app.(reports := AddUpdateTo(app.reports, id, Update(text, timestamp)))
    case UpdateDeleted(id, index) => app.(reports := DeleteUpdateOf(app.reports, id, index))
    case Toggled(id) => ToggleExpand(app, id)
    case TabSelected(tab) => app.(tab := tab)
    case SearchTyped(term) => app.(search := term)
  }

  /**
    The state the session keeps: ids are pairwise distinct and the expanded id,
    if any, names a report in the collection.
  */
  predicate Wf(app: App)
  {
    && DistinctIds(app.reports)
    && (app.expanded.Some? ==> HasId(app.reports, app.expanded.value))
  }

  /**
    What the callers guarantee: a fresh id on creation, a replacement that keeps
    the id, and a toggle only for a report on display.
  */
  predicate Allowed(app: App, e: Event)
  {
    match e
    case Created(id, _) => !HasId(app.reports, id)
    case Replaced(id, report) => report.id == id
    case Toggled(id) => HasId(app.reports, id)
    case _ => true
  }

  lemma SameIdsKeepWf(app: App, rs: seq<Report>)
    requires Wf(app)
    requires SameIds(rs, app.reports)
    ensures Wf(app.(reports := rs))
  {
    if app.expanded.Some? {
      var k :| 0 <= k < |app.reports| && app.reports[k].id == app.expanded.value;
      assert rs[k].id == app.expanded.value;
    }
  }

  /** Creating a report with a fresh id keeps the session invariant. */
  lemma CreateKeepsWf(app: App, id: string, fields: Fields)
    requires Wf(app)
    requires !HasId(app.reports, id)
    ensures Wf(app.(reports := Create(app.reports, id, fields)))
  {
    CreateKeepsIdsDistinct(app.reports, id, fields);
    var rs := Create(app.reports, id, fields);
    if app.expanded.Some? {
      var k :| 0 <= k < |app.reports| && app.reports[k].id == app.expanded.value;
      assert rs[k + 1].id == app.expanded.value;
    }
  }

  /** Deleting a report keeps the session invariant: the expanded id, if kept, still names a report. */
  lemma DeleteKeepsWf(app: App, id: string)
    requires Wf(app)
    ensures Wf(DeleteReport(app, id))
  {
    DeleteKeepsIdsDistinct(app.reports, id);
    var a := DeleteReport(app, id);
    if a.expanded.Some? {
      var k :| 0 <= k < |app.reports| && app.reports[k].id == a.expanded.value;
      assert app.reports[k] in app.reports;
      assert app.reports[k] in a.reports;
      var j :| 0 <= j < |a.reports| && a.reports[j] == app.reports[k];
    }
  }

  /** Every allowed event preserves the session invariant. */
  lemma StepPreservesWf(app: App, e: Event)
    requires Wf(app)
    requires Allowed(app, e)
    ensures Wf(Step(app, e))
  {
    match e
    case Created(id, fields) =>
      CreateKeepsWf(app, id, fields);
    case Replaced(id, report) =>
      ReplaceKeepsIds(app.reports, id, report);
      SameIdsKeepWf(app, ReplaceById(app.reports, id, report));
    case Deleted(id) =>
      DeleteKeepsWf(app, id);
    case UpdateAdded(id, text, timestamp) =>
      SameIdsKeepWf(app, AddUpdateTo(app.reports, id, Update(text, timestamp)));
    case UpdateDeleted(id, index) =>
      SameIdsKeepWf(app, DeleteUpdateOf(app.reports, id, index));
    case Toggled(id) =>
    case TabSelected(_) =>
    case SearchTyped(_) =>
  }

  /** The state after a sequence of events, first to last. */
  function Run(app: App, es: seq<Event>): App
    decreases |es|
  {
    if |es| == 0 then app else Run(Step(app, es[0]), es[1..])
  }

  /** Every event of the sequence is allowed in the state it meets. */
  predicate AllAllowed(app: App, es: seq<Event>)
    decreases |es|
  {
    |es| == 0 || (Allowed(app, es[0]) && AllAllowed(Step(app, es[0]), es[1..]))
  }

  /** A session that starts well-formed and only sees allowed events stays well-formed. */
  lemma {:induction false} RunPreservesWf(app: App, es: seq<Event>)
    requires Wf(app)
    requires AllAllowed(app, es)
    ensures Wf(Run(app, es))
    decreases |es|
  {
    if |es| > 0 {
      StepPreservesWf(app, es[0]);
      RunPreservesWf(Step(app, es[0]), es[1..]);
    }
  }
}
