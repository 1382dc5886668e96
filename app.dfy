/**
 * The workflow behind the application's screens: the login session, the
 * student search form, the attendance entry and exit buttons, and the
 * administrator gate on user management. Widgets and rendering are not
 * modelled; each screen action is a method over the `Database`.
 */
module App {
  import opened Wrappers
  import opened Text
  import opened Store

  /** The identity the session keeps after a successful login: `{id, username, role}`. */
  datatype SessionUser = SessionUser(id: int, username: string, role: string)

  /** User management is open only to a logged-in user whose role is the administrator's. */
  predicate MayManageUsers(user: Option<SessionUser>) {
    user.Some? && user.value.role == AdminRole
  }

  /** The per-browser session state: who is logged in, if anyone. */
  class Session {
    var user: Option<SessionUser>

    /** A new session starts with nobody logged in. */
    constructor ()
      ensures user.None?
    {
      user := None;
    }

    /**
     * `login`: succeeds exactly when an account with that name exists and
     * the password checks against its verifier; then the session holds
     * that account's id, name and role. On failure the session is left as
     * it was, and an unknown name and a wrong password look the same.
     */
    method Login(db: Database, username: string, password: string, checkPassword: (string, string) -> bool)
      returns (ok: bool)
      requires db.Valid()
      modifies this
      ensures ok <==> exists id :: id in db.users.rows && db.users.rows[id].username == username
                                   && checkPassword(db.users.rows[id].passwordHash, password)
      ensures ok ==> user.Some? && user.value.id in db.users.rows
                     && user.value.username == username
                     && db.users.rows[user.value.id].username == username
                     && user.value.role == db.users.rows[user.value.id].role
      ensures ok ==> (MayManageUsers(user) <==> db.users.rows[user.value.id].role == AdminRole)
      ensures !ok ==> user == old(user)
    {
      var found := Authenticate(db.users, username, password, checkPassword);
      if found.Some? {
        user := Some(SessionUser(found.value.0, found.value.1.username, found.value.1.role));
        ok := true;
      } else {
        ok := false;
      }
    }

    /** `logout`: nobody is logged in afterwards, so user management is closed. */
    method Logout()
      modifies this
      ensures user.None?
      ensures !MayManageUsers(user)
    {
      user := None;
    }
  }

  // ---------------------------------------------------------------------
  // Student search form
  // ---------------------------------------------------------------------

  /** 1970-01-01, which the search form reads as "no date picked". */
  const Epoch: Date := 0

  /** The filter mapping with no key. */
  const NoFilters: Filters := Filters(None, None, None, None, None)

  /**
   * Builds the filter mapping from the search form: a picked date of
   * 1970-01-01 counts as no bound; each non-empty input adds its key; a
   * mapping with no key is passed on as no mapping at all.
   */
  method BuildFilters(nomeF: string, paisF: string, serieF: string, inicioPicked: Option<Date>, fimPicked: Option<Date>)
    returns (filtros: Option<Filters>)
    ensures filtros.None? <==>
      nomeF == "" && paisF == "" && serieF == ""
      && (inicioPicked.None? || inicioPicked.value == Epoch)
      && (fimPicked.None? || fimPicked.value == Epoch)
    ensures filtros.Some? ==>
      && (filtros.value.nome.Some? <==> nomeF != "")
      && (filtros.value.pais.Some? <==> paisF != "")
      && (filtros.value.serie.Some? <==> serieF != "")
      && (filtros.value.dataInicio.Some? <==> inicioPicked.Some? && inicioPicked.value != Epoch)
      && (filtros.value.dataFim.Some? <==> fimPicked.Some? && fimPicked.value != Epoch)
      && (filtros.value.nome.Some? ==> filtros.value.nome.value == nomeF)
      && (filtros.value.pais.Some? ==> filtros.value.pais.value == paisF)
      && (filtros.value.serie.Some? ==> filtros.value.serie.value == serieF)
      && (filtros.value.dataInicio.Some? ==> filtros.value.dataInicio == inicioPicked)
      && (filtros.value.dataFim.Some? ==> filtros.value.dataFim == fimPicked)
    ensures forall s :: MatchesAll(s, filtros) <==>
      && (nomeF != "" ==> ContainsIgnoringCase(s.nome, nomeF))
      && (paisF != "" ==> s.pais == Some(paisF))
      && (serieF != "" ==> s.serie == Some(serieF))
      && (inicioPicked.Some? && inicioPicked.value != Epoch ==>
            s.dataEntrada.Some? && s.dataEntrada.value >= inicioPicked.value)
      && (fimPicked.Some? && fimPicked.value != Epoch ==>
            s.dataEntrada.Some? && s.dataEntrada.value <= fimPicked.value)
  {
    var dataInicio := inicioPicked;
    if dataInicio == Some(Epoch) {
      dataInicio := None;
    }
    var dataFim := fimPicked;
    if dataFim == Some(Epoch) {
      dataFim := None;
    }
    var f := NoFilters;
    if nomeF != "" {
      f := f.(nome := Some(nomeF));
    }
    if paisF != "" {
      f := f.(pais := Some(paisF));
    }
    if serieF != "" {
      f := f.(serie := Some(serieF));
    }
    if dataInicio.Some? {
      f := f.(dataInicio := dataInicio);
    }
    if dataFim.Some? {
      f := f.(dataFim := dataFim);
    }
    filtros := if f == NoFilters then None else Some(f);
  }

  // ---------------------------------------------------------------------
  // Attendance screen
  // ---------------------------------------------------------------------

  /**
   * The scan for the record to close: the first record of the listing
   * that has no departure time, or none if every record has one.
   */
  method FirstOpen(presList: seq<Row<Attendance>>) returns (ultimaAberta: Option<Row<Attendance>>)
    ensures ultimaAberta.None? <==> forall i :: 0 <= i < |presList| ==> presList[i].1.horaSaida.Some?
    ensures ultimaAberta.Some? ==>
      exists i :: 0 <= i < |presList| && presList[i] == ultimaAberta.value
                  && presList[i].1.horaSaida.None?
                  && forall j :: 0 <= j < i ==> presList[j].1.horaSaida.Some?
  {
    ultimaAberta := None;
    var i := 0;
    while i < |presList|
      invariant 0 <= i <= |presList|
      invariant forall j :: 0 <= j < i ==> presList[j].1.horaSaida.Some?
    {
      if presList[i].1.horaSaida.None? {
        ultimaAberta := Some(presList[i]);
        break;
      }
      i := i + 1;
    }
  }

  /** The "entry" button: always opens a new record, even when the student already has one open. */
  method PressEntry(db: Database, studentId: int, now: Instant) returns (recordId: int)
    requires db.Valid() && studentId != 0
    modifies db
    ensures db.Valid()
    ensures db.alunos == old(db.alunos) && db.users == old(db.users)
    ensures recordId !in old(db.presencas.rows)
    ensures db.presencas.rows == old(db.presencas.rows)[recordId := OpenRecord(studentId, now, None)]
    ensures OpenOn(db.presencas.rows[recordId], studentId, DateOf(now))
  {
    recordId := db.RegisterEntry(studentId, None, now, None);
  }

  /** What the "exit" button did. */
  datatype ExitOutcome = Closed(recordId: int) | NothingOpen

  /**
   * The "exit" button: closes, at `now`, the first open record in the
   * newest-first listing of the student's records of today, which is the
   * open record with the latest entry; with no open record it changes
   * nothing and a warning is shown.
   */
  method PressExit(db: Database, studentId: int, now: Instant) returns (outcome: ExitOutcome)
    requires db.Valid() && studentId != 0
    modifies db
    ensures db.Valid()
    ensures db.alunos == old(db.alunos) && db.users == old(db.users)
    ensures outcome.NothingOpen? <==>
      forall k :: k in old(db.presencas.rows) ==> !OpenOn(old(db.presencas.rows)[k], studentId, DateOf(now))
    ensures outcome.NothingOpen? ==> db.presencas == old(db.presencas)
    ensures db.presencas.next == old(db.presencas.next)
    ensures outcome.Closed? ==>
      var k := outcome.recordId;
      var before := old(db.presencas.rows);
      && k in before
      && OpenOn(before[k], studentId, DateOf(now))
      && (forall k' :: k' in before && OpenOn(before[k'], studentId, DateOf(now)) ==> NotOlder(before[k], before[k']))
      && db.presencas.rows == before[k := before[k].(horaSaida := Some(now))]
  {
    var today := DateOf(now);
    var presList := ListAttendance(db.presencas, Some(studentId), Some(today), Some(today));
    var ultimaAberta := FirstOpen(presList);
    if ultimaAberta.None? {
      NoOpenInListing(db.presencas, studentId, today);
      return NothingOpen;
    }
    var chosen := ultimaAberta.value;
    ghost var i :| 0 <= i < |presList| && presList[i] == chosen && presList[i].1.horaSaida.None?
                   && forall j :: 0 <= j < i ==> presList[j].1.horaSaida.Some?;
    FirstOpenIsLatest(db.presencas, studentId, today, i);
    var closed := db.RegisterExit(chosen.0, None, now);
    outcome := Closed(chosen.0);
  }

  /** The listing of a student's records of one day holds exactly that student's records of that day. */
  lemma DayListing(t: Table<Attendance>, studentId: int, day: Date)
    requires t.Valid() && studentId != 0
    ensures var presList := ListAttendance(t, Some(studentId), Some(day), Some(day));
      forall k :: k in t.rows && t.rows[k].alunoId == studentId && t.rows[k].data == day ==>
        exists j :: 0 <= j < |presList| && presList[j] == (k, t.rows[k])
  {
    var presList := ListAttendance(t, Some(studentId), Some(day), Some(day));
    forall k | k in t.rows && t.rows[k].alunoId == studentId && t.rows[k].data == day
      ensures exists j :: 0 <= j < |presList| && presList[j] == (k, t.rows[k])
    {
      assert (k, t.rows[k]) in presList;
    }
  }

  /**
   * When every record of the student's listing for the day has a
   * departure time, the student has no open record that day.
   */
  lemma NoOpenInListing(t: Table<Attendance>, studentId: int, day: Date)
    requires t.Valid() && studentId != 0
    requires var presList := ListAttendance(t, Some(studentId), Some(day), Some(day));
      forall i :: 0 <= i < |presList| ==> presList[i].1.horaSaida.Some?
    ensures forall k :: k in t.rows ==> !OpenOn(t.rows[k], studentId, day)
  {
    DayListing(t, studentId, day);
  }

  /**
   * The first record without departure time in the student's newest-first
   * listing for the day is an open record of that student and day, and no
   * other open record of theirs that day has a later entry.
   */
  lemma FirstOpenIsLatest(t: Table<Attendance>, studentId: int, day: Date, i: int)
    requires t.Valid() && studentId != 0
    requires var presList := ListAttendance(t, Some(studentId), Some(day), Some(day));
      && 0 <= i < |presList| && presList[i].1.horaSaida.None?
      && forall j :: 0 <= j < i ==> presList[j].1.horaSaida.Some?
    ensures var chosen := ListAttendance(t, Some(studentId), Some(day), Some(day))[i];
      && chosen.0 in t.rows && t.rows[chosen.0] == chosen.1
      && OpenOn(chosen.1, studentId, day)
      && forall k :: k in t.rows && OpenOn(t.rows[k], studentId, day) ==> NotOlder(chosen.1, t.rows[k])
  {
    var presList := ListAttendance(t, Some(studentId), Some(day), Some(day));
    assert presList[i] in presList;
    DayListing(t, studentId, day);
    FirstOpenNotOlder(presList, i);
    forall k | k in t.rows && OpenOn(t.rows[k], studentId, day) ensures NotOlder(presList[i].1, t.rows[k]) {
      var j :| 0 <= j < |presList| && presList[j] == (k, t.rows[k]);
      assert presList[j].1.horaSaida.None?;
    }
  }

  /**
   * In a newest-first sequence, the first record without departure time
   * is not older than any other record without one.
   */
  lemma FirstOpenNotOlder(s: seq<Row<Attendance>>, i: int)
    requires NewestFirst(s)
    requires 0 <= i < |s| && s[i].1.horaSaida.None?
    requires forall j :: 0 <= j < i ==> s[j].1.horaSaida.Some?
    ensures forall j :: 0 <= j < |s| && s[j].1.horaSaida.None? ==> NotOlder(s[i].1, s[j].1)
  {
    forall j | 0 <= j < |s| && s[j].1.horaSaida.None? ensures NotOlder(s[i].1, s[j].1) {
      if j != i {
        assert i < j;
      }
    }
  }

  /**
   * An entry followed by an exit on the same day, for a student with no
   * open record that day, leaves exactly that record closed with both
   * times set, the exit not before the entry, and nothing open.
   */
  method EntryThenExit(db: Database, studentId: int, t1: Instant, t2: Instant)
    returns (recordId: int, outcome: ExitOutcome)
    requires db.Valid() && studentId != 0
    requires DateOf(t1) == DateOf(t2) && t1 <= t2
    requires forall k :: k in db.presencas.rows ==> !OpenOn(db.presencas.rows[k], studentId, DateOf(t1))
    modifies db
    ensures db.Valid()
    ensures outcome == Closed(recordId)
    ensures recordId !in old(db.presencas.rows)
    ensures db.presencas.rows == old(db.presencas.rows)[recordId := Attendance(studentId, DateOf(t1), Some(t1), Some(t2), None)]
    ensures db.presencas.rows[recordId].horaEntrada.value <= db.presencas.rows[recordId].horaSaida.value
    ensures forall k :: k in db.presencas.rows ==> !OpenOn(db.presencas.rows[k], studentId, DateOf(t1))
  {
    recordId := PressEntry(db, studentId, t1);
    outcome := PressExit(db, studentId, t2);
    assert db.presencas.rows[recordId].horaSaida.Some?;
  }

  /**
   * Entry pressed while the student already has open records that day, all
   * entered earlier (or without entry time), then exit on the same day:
   * the exit closes the new record and leaves the earlier ones open.
   */
  method EntryThenExitWhileOpen(db: Database, studentId: int, t1: Instant, t2: Instant)
    returns (recordId: int, outcome: ExitOutcome)
    requires db.Valid() && studentId != 0
    requires DateOf(t1) == DateOf(t2)
    requires forall k :: k in db.presencas.rows && OpenOn(db.presencas.rows[k], studentId, DateOf(t1)) ==>
      db.presencas.rows[k].horaEntrada.None? || db.presencas.rows[k].horaEntrada.value < t1
    modifies db
    ensures db.Valid()
    ensures outcome == Closed(recordId)
    ensures recordId !in old(db.presencas.rows)
    ensures db.presencas.rows == old(db.presencas.rows)[recordId := Attendance(studentId, DateOf(t1), Some(t1), Some(t2), None)]
    ensures forall k :: k in old(db.presencas.rows) && OpenOn(old(db.presencas.rows)[k], studentId, DateOf(t1)) ==>
      k in db.presencas.rows && OpenOn(db.presencas.rows[k], studentId, DateOf(t1))
  {
    recordId := PressEntry(db, studentId, t1);
    ghost var entered := db.presencas.rows;
    assert recordId in entered && OpenOn(entered[recordId], studentId, DateOf(t2));
    outcome := PressExit(db, studentId, t2);
  }

  // ---------------------------------------------------------------------
  // User management screen
  // ---------------------------------------------------------------------

  /** What submitting the new-user form did. */
  datatype UserFormOutcome = AccessDenied | DuplicateUsername | UserCreated(userId: int)

  /**
   * The user-management screen: refused unless an administrator is logged
   * in; otherwise creates the account, or reports that the name is taken.
   */
  method SubmitUserForm(session: Session, db: Database, uname: string, passwordHash: string, role: string)
    returns (outcome: UserFormOutcome)
    requires db.Valid()
    modifies db
    ensures db.Valid()
    ensures db.alunos == old(db.alunos) && db.presencas == old(db.presencas)
    ensures outcome.AccessDenied? <==> !MayManageUsers(session.user)
    ensures outcome.DuplicateUsername? <==>
      MayManageUsers(session.user) && exists k :: k in old(db.users.rows) && old(db.users.rows)[k].username == uname
    ensures outcome.AccessDenied? || outcome.DuplicateUsername? ==> db.users == old(db.users)
    ensures outcome.UserCreated? ==>
      outcome.userId !in old(db.users.rows)
      && db.users.rows == old(db.users.rows)[outcome.userId := User(uname, passwordHash, role)]
  {
    if !MayManageUsers(session.user) {
      return AccessDenied;
    }
    var u := db.CreateUser(uname, passwordHash, role);
    if u.None? {
      outcome := DuplicateUsername;
    } else {
      outcome := UserCreated(u.value);
    }
  }
}
