/** The data model of an opportunity report (a guest incident ticket) and its updates. */
module Reports {

  datatype Option<T> = None | Some(value: T)

  /** The three lifecycle stages; any stage may follow any other. */
  datatype Status = Abierto | EnProceso | Cerrado

  /** The string each status carries in the application. */
  function Label(s: Status): string
  {
    match s
    case Abierto => "abierto"
    case EnProceso => "en proceso"
    case Cerrado => "cerrado"
  }

  /** Distinct statuses carry distinct labels. */
  lemma LabelInjective(s: Status, t: Status)
    ensures Label(s) == Label(t) <==> s == t
  {
    if s != t {
      assert Label(s)[0] != Label(t)[0] || |Label(s)| != |Label(t)|;
    }
  }

  /** A timestamped note; `timestamp` is the ISO-8601 instant it was added. */
  datatype Update = Update(text: string, timestamp: string)

  /** The free-text fields a form supplies, on creation and on edit. */
  datatype Fields = Fields(
    guestName: string,
    roomNumber: string,
    reservationNumber: string,
    reportedBy: string,
    department: string,
    arrivalDate: string,
    departureDate: string,
    incidentReport: string,
    guestMood: string)

  /** A report; `updates` is ordered newest first. */
  datatype Report = Report(id: string, fields: Fields, status: Status, updates: seq<Update>)

  predicate HasId(rs: seq<Report>, id: string)
  {
    exists i :: 0 <= i < |rs| && rs[i].id == id
  }

  /** No two reports of the collection share an id. */
  predicate DistinctIds(rs: seq<Report>)
  {
    forall i, j :: 0 <= i < |rs| && 0 <= j < |rs| && i != j ==> rs[i].id != rs[j].id
  }

  /** Two collections list the same ids in the same order. */
  predicate SameIds(a: seq<Report>, b: seq<Report>)
  {
    |a| == |b| && forall i :: 0 <= i < |a| ==> a[i].id == b[i].id
  }
}
