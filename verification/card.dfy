/**
  The decisions a report card makes before it calls back into the store:
  the trim guard on a new update, the status change, the confirm-delete
  dispatch, the status colour, the latest-update fallback and the offset used
  by the list of older updates.
*/
module Card {
  import opened Reports
  import opened Seqs
  import opened Text
  import Store

  /** The callbacks a card receives as props: `onUpdate`, `onDelete`, `onAddUpdate`, `onDeleteUpdate`. */
  datatype Call =
    | UpdateCall(id: string, report: Report)
    | DeleteCall(id: string)
    | AddUpdateCall(id: string, text: string)
    | DeleteUpdateCall(id: string, index: int)

  /** The card's own state: the text box draft and the update index awaiting confirmation. */
  datatype CardState = CardState(draft: string, pendingIndex: Option<int>)

  /** What a card action does: the callbacks it invokes, in order, and the card's next state. */
  datatype Outcome = Outcome(calls: seq<Call>, card: CardState)

  /**
    The add-update button: a draft that is all white space invokes nothing;
    otherwise the trimmed text is handed on and the draft is cleared.
  */
  function SubmitUpdate(report: Report, card: CardState): (o: Outcome)
    ensures |o.calls| <= 1
    ensures |o.calls| == 1 <==> !AllSpace(card.draft)
    ensures |o.calls| == 1 ==>
              && o.calls[0] == AddUpdateCall(report.id, Trim(card.draft))
              && o.card == card.(draft := "")
    ensures |o.calls| == 1 ==>
              var text := o.calls[0].text;
              |text| > 0 && !IsSpace(text[0]) && !IsSpace(text[|text| - 1])
    ensures |o.calls| == 0 ==> o.card == card
  {
    var text := Trim(card.draft);
    if |text| > 0 then Outcome([AddUpdateCall(report.id, text)], card.(draft := ""))
    else Outcome([], card)
  }

  /** The status selector: the same report with only its status changed, sent to `onUpdate`. */
  function ChangeStatus(report: Report, s: Status): (c: Call)
    ensures c.UpdateCall? && c.id == report.id
    ensures c.report.status == s
    ensures c.report.(status := report.status) == report
  {
    UpdateCall(report.id, report.(status := s))
  }

  /** The cross on an update: remember its index until the deletion is confirmed. */
  function RequestDeleteUpdate(card: CardState, index: int): (c: CardState)
    ensures c.pendingIndex == Some(index) && c.draft == card.draft
  {
    card.(pendingIndex := Some(index))
  }

  /** Closing the confirmation dialog forgets any pending index. */
  function CancelDelete(card: CardState): (c: CardState)
    ensures c.pendingIndex == None && c.draft == card.draft
  {
    card.(pendingIndex := None)
  }

  /**
    Confirming a deletion: with an index pending, delete that update and forget
    the index; with none, delete the whole report. Exactly one callback runs.
  */
  function ConfirmDelete(report: Report, card: CardState): (o: Outcome)
    ensures |o.calls| == 1
    ensures o.card == card.(pendingIndex := None)
    ensures card.pendingIndex.Some? ==>
              o.calls[0] == DeleteUpdateCall(report.id, card.pendingIndex.value)
    ensures card.pendingIndex.None? ==> o.calls[0] == DeleteCall(report.id)
  {
    match card.pendingIndex
    case Some(index) => Outcome([DeleteUpdateCall(report.id, index)], card.(pendingIndex := None))
    case None => Outcome([DeleteCall(report.id)], card)
  }

  const Red: string := "bg-red-600"
  const Orange: string := "bg-orange-500"
  const Green: string := "bg-green-600"
  const Gray: string := "bg-gray-600"

  /** The header colour for a status string; a string that is no status gets gray. */
  function StatusColor(status: string): (c: string)
    ensures status == Label(Abierto) ==> c == Red
    ensures status == Label(EnProceso) ==> c == Orange
    ensures status == Label(Cerrado) ==> c == Green
    ensures c == Gray <==> forall s: Status :: status != Label(s)
  {
    if status == "abierto" then assert status == Label(Abierto); Red
    else if status == "en proceso" then assert status == Label(EnProceso); Orange
    else if status == "cerrado" then assert status == Label(Cerrado); Green
    else Gray
  }

  /** Every status has its own colour, and none of them is the fallback gray. */
  lemma StatusColorInjective(s: Status, t: Status)
    ensures StatusColor(Label(s)) != Gray
    ensures StatusColor(Label(s)) == StatusColor(Label(t)) <==> s == t
  {
    LabelInjective(s, t);
  }

  const NoUpdates: Update := Update("No hay actualizaciones", "")

  /** The update shown as the latest: the newest one, or a placeholder without a timestamp. */
  function LatestUpdate(us: seq<Update>): (u: Update)
    ensures |us| > 0 ==> u == us[0]
    ensures |us| == 0 ==> u.text == "No hay actualizaciones" && u.timestamp == ""
  {
    if |us| > 0 then us[0] else NoUpdates
  }

  /** When every update carries a timestamp, a date is shown under the latest exactly when there is an update. */
  lemma LatestShowsDate(us: seq<Update>)
    requires forall i :: 0 <= i < |us| ==> us[i].timestamp != ""
    ensures LatestUpdate(us).timestamp != "" <==> |us| > 0
  {
  }

  /** The list of older updates, `updates.slice(1)`. */
  function OlderUpdates(us: seq<Update>): (r: seq<Update>)
    ensures |r| == if |us| == 0 then 0 else |us| - 1
    ensures forall k :: 0 <= k < |r| ==> r[k] == us[k + 1]
  {
    if |us| == 0 then [] else us[1..]
  }

  /** The position in `updates` that the cross on the `k`-th older update asks to delete. */
  function OlderDeleteIndex(k: nat): (i: int)
    ensures i >= 1
  {
    k + 1
  }

  /**
    The offset is right: the `k`-th older update asks to delete the very update
    it shows, never the latest one, and deleting it is deleting the `k`-th entry
    of the older list.
  */
  lemma OlderDeleteTargetsShown(us: seq<Update>, k: nat)
    requires k < |OlderUpdates(us)|
    ensures var i := OlderDeleteIndex(k);
      && 1 <= i < |us|
      && us[i] == OlderUpdates(us)[k]
      && RemoveAt(us, i) == [us[0]] + RemoveAt(OlderUpdates(us), k)
      && LatestUpdate(RemoveAt(us, i)) == LatestUpdate(us)
  {
    var i := OlderDeleteIndex(k);
    var older := OlderUpdates(us);
    assert older == us[1..];
    assert us[..i] == [us[0]] + older[..k];
    assert us[i + 1..] == older[k + 1..];
    var removed := RemoveAt(us, i);
    assert removed == [us[0]] + (older[..k] + older[k + 1..]);
  }

  // ---------------------------------------------------------------------------
  // Wiring the callbacks to the store handlers
  // ---------------------------------------------------------------------------

  /** The store event a callback triggers; `now` is the instant read when an update is added. */
  function ToEvent(c: Call, now: string): (e: Store.Event)
  {
    match c
    case UpdateCall(id, report) => Store.Replaced(id, report)
    case DeleteCall(id) => Store.Deleted(id)
    case AddUpdateCall(id, text) => Store.UpdateAdded(id, text, now)
    case DeleteUpdateCall(id, index) => Store.UpdateDeleted(id, index)
  }

  /**
    The props wiring: `onUpdate`, `onDelete`, `onAddUpdate` and `onDeleteUpdate`
    are the store's replace, delete, add-update and delete-update handlers.
  */
  function Deliver(app: Store.App, c: Call, now: string): (a: Store.App)
    ensures a.tab == app.tab && a.search == app.search
    ensures c.DeleteCall? ==> a == Store.DeleteReport(app, c.id)
    ensures !c.DeleteCall? ==> a.expanded == app.expanded
    ensures c.UpdateCall? ==> a.reports == Store.ReplaceById(app.reports, c.id, c.report)
    ensures c.AddUpdateCall? ==> a.reports == Store.AddUpdateTo(app.reports, c.id, Update(c.text, now))
    ensures c.DeleteUpdateCall? ==> a.reports == Store.DeleteUpdateOf(app.reports, c.id, c.index)
  {
    Store.Step(app, ToEvent(c, now))
  }

  /**
    Submitting a draft with visible text puts the trimmed text, stamped `now`,
    in front of the card's report's updates and touches no other report.
  */
  lemma SubmitUpdateEffect(app: Store.App, i: nat, card: CardState, now: string)
    requires DistinctIds(app.reports)
    requires i < |app.reports|
    requires !AllSpace(card.draft)
    ensures var report := app.reports[i];
      var a := Deliver(app, SubmitUpdate(report, card).calls[0], now);
      && |a.reports| == |app.reports|
      && a.reports[i] == report.(updates := [Update(Trim(card.draft), now)] + report.updates)
      && (forall j :: 0 <= j < |app.reports| && j != i ==> a.reports[j] == app.reports[j])
  {
    var report := app.reports[i];
    var a := Deliver(app, SubmitUpdate(report, card).calls[0], now);
    assert a.reports[i].updates == [Update(Trim(card.draft), now)] + report.updates by {
      assert a.reports[i].updates[1..] == report.updates;
    }
  }

  /** With distinct ids, a status change alters the status of the card's report and nothing else. */
  lemma ChangeStatusEffect(app: Store.App, i: nat, s: Status, now: string)
    requires DistinctIds(app.reports)
    requires i < |app.reports|
    ensures Deliver(app, ChangeStatus(app.reports[i], s), now)
            == app.(reports := app.reports[i := app.reports[i].(status := s)])
  {
    var r := app.reports[i];
    var rs := Store.ReplaceById(app.reports, r.id, r.(status := s));
    assert rs == app.reports[i := r.(status := s)];
  }

  /** Selecting the previous status again restores the state. */
  lemma ChangeStatusUndone(app: Store.App, i: nat, s: Status, now: string)
    requires DistinctIds(app.reports)
    requires i < |app.reports|
    ensures var r := app.reports[i];
      var a := Deliver(app, ChangeStatus(r, s), now);
      Deliver(a, ChangeStatus(a.reports[i], r.status), now) == app
  {
    var r := app.reports[i];
    ChangeStatusEffect(app, i, s, now);
    var a := Deliver(app, ChangeStatus(r, s), now);
    assert DistinctIds(a.reports) by {
      assert forall j :: 0 <= j < |a.reports| ==> a.reports[j].id == app.reports[j].id;
    }
    ChangeStatusEffect(a, i, r.status, now);
    assert a.reports[i := a.reports[i].(status := r.status)] == app.reports;
  }

  /** Delivering a delete-update call keeps the ids and the expanded report and edits only the updates. */
  lemma DeleteUpdateCallEffect(app: Store.App, i: nat, index: int, now: string)
    requires i < |app.reports|
    ensures var a := Deliver(app, DeleteUpdateCall(app.reports[i].id, index), now);
      && SameIds(a.reports, app.reports)
      && a.reports[i].updates == RemoveAt(app.reports[i].updates, index)
      && a.expanded == app.expanded
  {
  }

  /** With distinct ids, delivering a delete call removes exactly that report and collapses it. */
  lemma DeleteCallEffect(app: Store.App, i: nat, now: string)
    requires DistinctIds(app.reports)
    requires i < |app.reports|
    ensures var a := Deliver(app, DeleteCall(app.reports[i].id), now);
      && !HasId(a.reports, app.reports[i].id)
      && a.reports == app.reports[..i] + app.reports[i + 1..]
      && a.expanded != Some(app.reports[i].id)
  {
    Store.DeleteRemovesOne(app.reports, i);
  }

  /**
    Confirming with an update pending keeps the report (only its updates change);
    confirming with none removes the report and collapses it if it was expanded.
  */
  lemma ConfirmDeleteEffect(app: Store.App, i: nat, card: CardState, now: string)
    requires DistinctIds(app.reports)
    requires i < |app.reports|
    ensures var report := app.reports[i];
      var a := Deliver(app, ConfirmDelete(report, card).calls[0], now);
      && (card.pendingIndex.Some? ==>
            && SameIds(a.reports, app.reports)
            && a.reports[i].updates == RemoveAt(report.updates, card.pendingIndex.value)
            && a.expanded == app.expanded)
      && (card.pendingIndex.None? ==>
            && !HasId(a.reports, report.id)
            && a.reports == app.reports[..i] + app.reports[i + 1..]
            && a.expanded != Some(report.id))
  {
    match card.pendingIndex
    case Some(index) => DeleteUpdateCallEffect(app, i, index, now);
    case None => DeleteCallEffect(app, i, now);
  }

  /**
    The whole flow behind the cross on the `k`-th older update: the card's
    report loses exactly that update, the latest one stays, and the pending
    index is cleared.
  */
  lemma DeleteOlderUpdateFlow(app: Store.App, i: nat, card: CardState, k: nat, now: string)
    requires DistinctIds(app.reports)
    requires i < |app.reports|
    requires k < |OlderUpdates(app.reports[i].updates)|
    ensures var report := app.reports[i];
      var o := ConfirmDelete(report, RequestDeleteUpdate(card, OlderDeleteIndex(k)));
      var a := Deliver(app, o.calls[0], now);
      && o.card.pendingIndex == None
      && a.reports[i].updates == [report.updates[0]] + RemoveAt(OlderUpdates(report.updates), k)
      && LatestUpdate(a.reports[i].updates) == LatestUpdate(report.updates)
  {
    var report := app.reports[i];
    OlderDeleteTargetsShown(report.updates, k);
    ConfirmDeleteEffect(app, i, RequestDeleteUpdate(card, OlderDeleteIndex(k)), now);
  }
}
