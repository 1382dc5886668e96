/**
 * The relational store behind the attendance application: three tables
 * (users, students, attendance records) and the create/read/update/delete
 * operations over them. The SQL engine and its sessions are replaced by
 * maps from primary key to row; queries are functions over those maps and
 * mutations are methods of the `Database` class.
 */
module Store {
  import opened Wrappers
  import opened Text

  // ---------------------------------------------------------------------
  // Time
  // ---------------------------------------------------------------------

  /** A calendar date, as days since 1970-01-01 (day 0). */
  type Date = int
  /**
   * A timestamp, as microseconds since 1970-01-01T00:00:00 in local time:
   * `datetime.now()` and the stored DATETIME columns keep microseconds.
   */
  type Instant = int

  const MicrosecondsPerDay: int := 86_400_000_000

  /** The calendar date an instant falls on (`datetime.date()`). */
  function DateOf(t: Instant): (d: Date)
    ensures d * MicrosecondsPerDay <= t < d * MicrosecondsPerDay + MicrosecondsPerDay
  {
    t / MicrosecondsPerDay
  }

  // ---------------------------------------------------------------------
  // Tables
  // ---------------------------------------------------------------------

  /** A row as a query returns it: its primary key and its columns. */
  type Row<T> = (int, T)

  /**
   * A table: rows by integer primary key, and the key the next insert
   * receives. Keys start at 1, as SQLite row ids do.
   */
  datatype Table<T> = Table(rows: map<int, T>, next: int) {
    ghost predicate Valid() {
      1 <= next && forall k :: k in rows ==> 1 <= k < next
    }
  }

  function EmptyTable<T>(): (t: Table<T>)
    ensures t.Valid() && t.rows == map[]
  {
    Table(map[], 1)
  }

  /** The keys are strictly increasing. */
  predicate Ascending(ks: seq<int>) {
    forall i, j :: 0 <= i < j < |ks| ==> ks[i] < ks[j]
  }

  /** A key below every key of an ascending sequence can be put in front of it. */
  lemma PrependKey(k: int, ks: seq<int>)
    requires Ascending(ks)
    requires forall x :: x in ks ==> k < x
    ensures Ascending([k] + ks)
    ensures forall x :: x in [k] + ks <==> x == k || x in ks
  {
    var r := [k] + ks;
    forall i, j | 0 <= i < j < |r| ensures r[i] < r[j] {
      assert r[j] == ks[j - 1] && r[j] in ks;
      if i > 0 { assert r[i] == ks[i - 1]; }
    }
  }

  /** The keys of `rows` in `[lo, hi)`, in increasing order. */
  function KeysBetween<T>(rows: map<int, T>, lo: int, hi: int): (ks: seq<int>)
    decreases hi - lo
    ensures forall k :: k in ks <==> k in rows && lo <= k < hi
    ensures Ascending(ks)
  {
    if lo >= hi then []
    else
      var rest := KeysBetween(rows, lo + 1, hi);
      if lo !in rows then rest
      else
        PrependKey(lo, rest);
        [lo] + rest
  }

  /** A full table scan: every key of the table, in increasing order. */
  function Keys<T>(t: Table<T>): (ks: seq<int>)
    requires t.Valid()
    ensures forall k :: k in ks <==> k in t.rows
    ensures Ascending(ks)
  {
    KeysBetween(t.rows, 1, t.next)
  }

  /** A strictly increasing sequence lists as many keys as its set holds. */
  lemma {:induction false} AscendingCard(ks: seq<int>)
    requires Ascending(ks)
    ensures |set k | k in ks| == |ks|
  {
    if ks != [] {
      AscendingCard(ks[1..]);
      assert (set k | k in ks) == {ks[0]} + (set k | k in ks[1..]);
      assert ks[0] !in (set k | k in ks[1..]);
    }
  }

  /** A scan lists every row of the table exactly once. */
  lemma KeysCount<T>(t: Table<T>)
    requires t.Valid()
    ensures |Keys(t)| == |t.rows|
  {
    var ks := Keys(t);
    AscendingCard(ks);
    assert (set k | k in ks) == t.rows.Keys;
  }

  /**
   * `SELECT ... WHERE keep` over a scan of the keys `ks`: the rows whose
   * key is in `ks` and that satisfy `keep`, in the order of `ks`.
   */
  function Select<T(!new)>(rows: map<int, T>, ks: seq<int>, keep: T -> bool): (r: seq<Row<T>>)
    requires forall k :: k in ks ==> k in rows
    ensures forall row {:trigger row in r} :: row in r <==> row.0 in ks && row.0 in rows && rows[row.0] == row.1 && keep(row.1)
    ensures |r| <= |ks|
    ensures (forall k :: k in ks ==> keep(rows[k])) ==> |r| == |ks|
  {
    if ks == [] then []
    else
      var k := ks[0];
      assert k in ks;
      (if keep(rows[k]) then [(k, rows[k])] else []) + Select(rows, ks[1..], keep)
  }

  /** The rows are ordered by strictly increasing key. */
  predicate RowsAscending<T>(r: seq<Row<T>>) {
    forall i, j :: 0 <= i < j < |r| ==> r[i].0 < r[j].0
  }

  /** The rest of an increasing scan is increasing and follows its first key. */
  lemma AscendingTail(ks: seq<int>)
    requires Ascending(ks) && ks != []
    ensures Ascending(ks[1..])
    ensures forall x :: x in ks[1..] ==> ks[0] < x
  {
    var tail := ks[1..];
    forall i, j | 0 <= i < j < |tail| ensures tail[i] < tail[j] {
      assert tail[i] == ks[i + 1] && tail[j] == ks[j + 1];
    }
    forall x | x in tail ensures ks[0] < x {
      var m :| 0 <= m < |tail| && tail[m] == x;
      assert ks[m + 1] == x;
    }
  }

  /** A row whose key is below every key of an ascending listing can be put in front of it. */
  lemma PrependRow<T>(row: Row<T>, rest: seq<Row<T>>)
    requires RowsAscending(rest)
    requires forall x :: x in rest ==> row.0 < x.0
    ensures RowsAscending([row] + rest)
  {
    var r := [row] + rest;
    forall i, j | 0 <= i < j < |r| ensures r[i].0 < r[j].0 {
      assert r[j] == rest[j - 1] && r[j] in rest;
      if i > 0 { assert r[i] == rest[i - 1]; }
    }
  }

  /** Selecting from an increasing scan yields rows by increasing key. */
  lemma {:induction false} SelectAscending<T(!new)>(rows: map<int, T>, ks: seq<int>, keep: T -> bool)
    requires forall k :: k in ks ==> k in rows
    requires Ascending(ks)
    ensures RowsAscending(Select(rows, ks, keep))
  {
    if ks != [] {
      var k := ks[0];
      assert k in ks;
      AscendingTail(ks);
      SelectAscending(rows, ks[1..], keep);
      var rest := Select(rows, ks[1..], keep);
      if keep(rows[k]) {
        assert forall x :: x in rest ==> k < x.0 by {
          forall x | x in rest ensures k < x.0 {
            assert x.0 in ks[1..];
          }
        }
        PrependRow((k, rows[k]), rest);
        assert Select(rows, ks, keep) == [(k, rows[k])] + rest;
      } else {
        assert Select(rows, ks, keep) == rest;
      }
    }
  }

  // ---------------------------------------------------------------------
  // Students (`Aluno`)
  // ---------------------------------------------------------------------

  /** A student row. Only the name is NOT NULL; every other column may be NULL. */
  datatype Student = Student(
    nome: string,
    idade: Option<int>,
    pais: Option<string>,
    passaporte: Option<string>,
    serie: Option<string>,
    dataEntrada: Option<Date>,
    responsavel: Option<string>,
    observacoes: Option<string>)

  /**
   * A mapping from column name to value, as passed to the insert and update
   * operations: `None` stands for a key that is missing or maps to `None`.
   */
  datatype StudentFields = StudentFields(
    nome: Option<string>,
    idade: Option<int>,
    pais: Option<string>,
    passaporte: Option<string>,
    serie: Option<string>,
    dataEntrada: Option<Date>,
    responsavel: Option<string>,
    observacoes: Option<string>)

  /** The columns of the student table other than its key. */
  datatype Column = Nome | Idade | Pais | Passaporte | Serie | DataEntrada | Responsavel | Observacoes

  /** The mapping `u` holds a value other than `None` for column `c`. */
  predicate IsProvided(u: StudentFields, c: Column) {
    match c
    case Nome => u.nome.Some?
    case Idade => u.idade.Some?
    case Pais => u.pais.Some?
    case Passaporte => u.passaporte.Some?
    case Serie => u.serie.Some?
    case DataEntrada => u.dataEntrada.Some?
    case Responsavel => u.responsavel.Some?
    case Observacoes => u.observacoes.Some?
  }

  /** Students `a` and `b` hold the same value in column `c`. */
  predicate SameColumn(a: Student, b: Student, c: Column) {
    match c
    case Nome => a.nome == b.nome
    case Idade => a.idade == b.idade
    case Pais => a.pais == b.pais
    case Passaporte => a.passaporte == b.passaporte
    case Serie => a.serie == b.serie
    case DataEntrada => a.dataEntrada == b.dataEntrada
    case Responsavel => a.responsavel == b.responsavel
    case Observacoes => a.observacoes == b.observacoes
  }

  /** Student `s` holds, in column `c`, the value `u` provides for it. */
  predicate HoldsProvided(s: Student, u: StudentFields, c: Column) {
    match c
    case Nome => u.nome == Some(s.nome)
    case Idade => u.idade.Some? && u.idade == s.idade
    case Pais => u.pais.Some? && u.pais == s.pais
    case Passaporte => u.passaporte.Some? && u.passaporte == s.passaporte
    case Serie => u.serie.Some? && u.serie == s.serie
    case DataEntrada => u.dataEntrada.Some? && u.dataEntrada == s.dataEntrada
    case Responsavel => u.responsavel.Some? && u.responsavel == s.responsavel
    case Observacoes => u.observacoes.Some? && u.observacoes == s.observacoes
  }

  /** The mapping that holds every column of `s`, none of them `None`-keyed away. */
  function FieldsOf(s: Student): StudentFields {
    StudentFields(Some(s.nome), s.idade, s.pais, s.passaporte, s.serie,
                  s.dataEntrada, s.responsavel, s.observacoes)
  }

  /**
   * The row `inserir_aluno` builds from its keyword arguments: each column
   * takes the argument of its name, or NULL when it is missing. The name
   * column is NOT NULL, so without a name the commit fails and no row results.
   */
  function NewStudent(dados: StudentFields): (r: Option<Student>)
    ensures r.Some? <==> dados.nome.Some?
    ensures r.Some? ==> FieldsOf(r.value) == dados
  {
    if dados.nome.None? then None
    else Some(Student(dados.nome.value, dados.idade, dados.pais, dados.passaporte,
                      dados.serie, dados.dataEntrada, dados.responsavel, dados.observacoes))
  }

  /** Inserting a student's own columns gives back that student. */
  lemma NewStudentOfFields(s: Student)
    ensures NewStudent(FieldsOf(s)) == Some(s)
  {
  }

  /**
   * The `setattr` loop of `atualizar_aluno`: every column whose key is
   * present with a value other than `None` is overwritten; the others keep
   * their value.
   */
  function ApplyUpdate(s: Student, u: StudentFields): (r: Student)
    ensures forall c :: IsProvided(u, c) ==> HoldsProvided(r, u, c)
    ensures forall c :: !IsProvided(u, c) ==> SameColumn(r, s, c)
  {
    Student(
      u.nome.GetOr(s.nome),
      if u.idade.Some? then u.idade else s.idade,
      if u.pais.Some? then u.pais else s.pais,
      if u.passaporte.Some? then u.passaporte else s.passaporte,
      if u.serie.Some? then u.serie else s.serie,
      if u.dataEntrada.Some? then u.dataEntrada else s.dataEntrada,
      if u.responsavel.Some? then u.responsavel else s.responsavel,
      if u.observacoes.Some? then u.observacoes else s.observacoes)
  }

  /** The mapping with no keys. */
  const NoFields: StudentFields := StudentFields(None, None, None, None, None, None, None, None)

  /** An update with no usable key leaves the student as it was. */
  lemma UpdateWithNothing(s: Student)
    ensures ApplyUpdate(s, NoFields) == s
  {
  }

  /** Applying the same update twice is applying it once. */
  lemma UpdateIdempotent(s: Student, u: StudentFields)
    ensures ApplyUpdate(ApplyUpdate(s, u), u) == ApplyUpdate(s, u)
  {
  }

  /** The student has a value in every column that may be NULL. */
  predicate NoNulls(t: Student) {
    t.idade.Some? && t.pais.Some? && t.passaporte.Some? && t.serie.Some?
    && t.dataEntrada.Some? && t.responsavel.Some? && t.observacoes.Some?
  }

  /**
   * An update that gives every column a value (the edit form's submission)
   * replaces the whole row.
   */
  lemma UpdateWithAllColumns(s: Student, t: Student)
    requires NoNulls(t)
    ensures ApplyUpdate(s, FieldsOf(t)) == t
  {
  }

  /** Two students that agree on every column are the same row. */
  lemma SameOnAllColumns(a: Student, b: Student)
    requires forall c :: SameColumn(a, b, c)
    ensures a == b
  {
    assert SameColumn(a, b, Nome) && SameColumn(a, b, Idade) && SameColumn(a, b, Pais);
    assert SameColumn(a, b, Passaporte) && SameColumn(a, b, Serie) && SameColumn(a, b, DataEntrada);
    assert SameColumn(a, b, Responsavel) && SameColumn(a, b, Observacoes);
  }

  /**
   * The two clauses of `ApplyUpdate`'s contract determine the updated row:
   * any student satisfying both is that row.
   */
  lemma ApplyUpdateDetermined(s: Student, u: StudentFields, r: Student)
    requires forall c :: IsProvided(u, c) ==> HoldsProvided(r, u, c)
    requires forall c :: !IsProvided(u, c) ==> SameColumn(r, s, c)
    ensures r == ApplyUpdate(s, u)
  {
    var a := ApplyUpdate(s, u);
    forall c ensures SameColumn(r, a, c) {
      if IsProvided(u, c) {
        assert HoldsProvided(r, u, c) && HoldsProvided(a, u, c);
      } else {
        assert SameColumn(r, s, c) && SameColumn(a, s, c);
      }
    }
    SameOnAllColumns(r, a);
  }

  /** The search filters of `listar_alunos`; `None` is a key that is absent. */
  datatype Filters = Filters(
    nome: Option<string>,
    pais: Option<string>,
    serie: Option<string>,
    dataInicio: Option<Date>,
    dataFim: Option<Date>)

  /** `filtros.get(key)` is truthy for a text value: present and not empty. */
  predicate Given(v: Option<string>) {
    v.Some? && v.value != ""
  }

  /**
   * The WHERE clause `listar_alunos` builds from one filter mapping. A NULL
   * country, grade or entry date never satisfies the comparison against it.
   */
  predicate Matches(s: Student, f: Filters) {
    && (Given(f.nome) ==> ContainsIgnoringCase(s.nome, f.nome.value))
    && (Given(f.pais) ==> s.pais == f.pais)
    && (Given(f.serie) ==> s.serie == f.serie)
    && (f.dataInicio.Some? ==> s.dataEntrada.Some? && s.dataEntrada.value >= f.dataInicio.value)
    && (f.dataFim.Some? ==> s.dataEntrada.Some? && s.dataEntrada.value <= f.dataFim.value)
  }

  /** No filter mapping at all imposes no condition. */
  predicate MatchesAll(s: Student, filtros: Option<Filters>) {
    filtros.None? || Matches(s, filtros.value)
  }

  /** `listar_alunos`: the students that satisfy every given filter, by increasing id. */
  function ListStudents(t: Table<Student>, filtros: Option<Filters>): (r: seq<Row<Student>>)
    requires t.Valid()
    ensures forall id, s :: (id, s) in r <==> id in t.rows && t.rows[id] == s && MatchesAll(s, filtros)
    ensures RowsAscending(r)
  {
    SelectAscending(t.rows, Keys(t), s => MatchesAll(s, filtros));
    Select(t.rows, Keys(t), s => MatchesAll(s, filtros))
  }

  /** Without filters, or with only empty ones, the listing holds every student, once each. */
  lemma ListStudentsUnfiltered(t: Table<Student>, filtros: Option<Filters>)
    requires t.Valid()
    requires filtros.Some? ==> var f := filtros.value;
      !Given(f.nome) && !Given(f.pais) && !Given(f.serie) && f.dataInicio.None? && f.dataFim.None?
    ensures |ListStudents(t, filtros)| == |t.rows|
    ensures forall id :: id in t.rows ==> (id, t.rows[id]) in ListStudents(t, filtros)
  {
    KeysCount(t);
  }

  /** Three students used by the search examples below. */
  const Ana := Student("Ana", None, Some("Brazil"), None, Some("9"), None, None, None)
  const Bo := Student("Bo", None, Some("Brazil"), None, Some("10"), None, None, None)
  const Cy := Student("Cy", None, Some("Chile"), None, Some("9"), None, None, None)

  predicate IsExampleRoster(t: Table<Student>)
  {
    t.rows == map[1 := Ana, 2 := Bo, 3 := Cy] && t.next == 4
  }

  /** Filtering the example roster by country Brazil lists Ana and Bo, not Cy. */
  lemma SearchByCountryExample(t: Table<Student>)
    requires IsExampleRoster(t)
    ensures var r := ListStudents(t, Some(Filters(None, Some("Brazil"), None, None, None)));
      (1, Ana) in r && (2, Bo) in r && forall row :: row in r ==> row.0 != 3
  {
    var brazil := Some(Filters(None, Some("Brazil"), None, None, None));
    assert MatchesAll(Ana, brazil) && MatchesAll(Bo, brazil);
    assert !MatchesAll(Cy, brazil) by { assert "Chile"[0] != "Brazil"[0]; }
    assert t.Valid();
    assert 1 in t.rows && t.rows[1] == Ana && 2 in t.rows && t.rows[2] == Bo;
    assert 3 in t.rows && t.rows[3] == Cy;
  }

  /** Filtering the example roster by grade 9 lists Ana and Cy, not Bo. */
  lemma SearchByGradeExample(t: Table<Student>)
    requires IsExampleRoster(t)
    ensures var r := ListStudents(t, Some(Filters(None, None, Some("9"), None, None)));
      (1, Ana) in r && (3, Cy) in r && forall row :: row in r ==> row.0 != 2
  {
    var nine := Some(Filters(None, None, Some("9"), None, None));
    assert MatchesAll(Ana, nine) && MatchesAll(Cy, nine);
    assert !MatchesAll(Bo, nine) by { assert "10"[0] != "9"[0]; }
    assert t.Valid();
    assert 1 in t.rows && t.rows[1] == Ana && 3 in t.rows && t.rows[3] == Cy;
    assert 2 in t.rows && t.rows[2] == Bo;
  }

  /**
   * `obter_aluno_por_id`: the student with the given id, if any. It finds
   * exactly the rows the unfiltered listing shows.
   */
  function GetStudent(t: Table<Student>, id: int): (r: Option<Student>)
    requires t.Valid()
    ensures forall s :: r == Some(s) <==> (id, s) in ListStudents(t, None)
  {
    if id in t.rows then Some(t.rows[id]) else None
  }

  // ---------------------------------------------------------------------
  // Attendance records (`Presenca`)
  // ---------------------------------------------------------------------

  /** An attendance record: one arrival, and the departure once it is registered. */
  datatype Attendance = Attendance(
    alunoId: int,
    data: Date,
    horaEntrada: Option<Instant>,
    horaSaida: Option<Instant>,
    observacao: Option<string>)

  /** The record `registrar_presenca_entrada` writes for an arrival at `agora`. */
  function OpenRecord(alunoId: int, agora: Instant, observacao: Option<string>): (p: Attendance)
    ensures p.alunoId == alunoId && p.horaEntrada == Some(agora) && p.horaSaida.None?
    ensures p.data * MicrosecondsPerDay <= agora < p.data * MicrosecondsPerDay + MicrosecondsPerDay
    ensures p.observacao == observacao
  {
    Attendance(alunoId, DateOf(agora), Some(agora), None, observacao)
  }

  /** The record of student `alunoId` on day `day` that has no departure yet. */
  predicate OpenOn(p: Attendance, alunoId: int, day: Date) {
    p.alunoId == alunoId && p.data == day && p.horaSaida.None?
  }

  /**
   * The WHERE clause of `listar_presencas`. A student id of 0 (falsy) or
   * `None` filters nothing; a date bound, once given, always applies.
   */
  predicate AttendanceMatches(p: Attendance, alunoId: Option<int>, inicio: Option<Date>, fim: Option<Date>) {
    && (alunoId.Some? && alunoId.value != 0 ==> p.alunoId == alunoId.value)
    && (inicio.Some? ==> p.data >= inicio.value)
    && (fim.Some? ==> p.data <= fim.value)
  }

  /**
   * Entry time `x` sorts no later than `y` in descending order: SQLite puts
   * NULL below every value, so a NULL entry time comes last.
   */
  predicate EntryNotBefore(x: Option<Instant>, y: Option<Instant>) {
    y.None? || (x.Some? && x.value >= y.value)
  }

  /** `ORDER BY data DESC, hora_entrada DESC` allows `a` before `b`. */
  predicate NotOlder(a: Attendance, b: Attendance) {
    a.data > b.data || (a.data == b.data && EntryNotBefore(a.horaEntrada, b.horaEntrada))
  }

  lemma NotOlderTotal(a: Attendance, b: Attendance)
    ensures NotOlder(a, b) || NotOlder(b, a)
  {
  }

  lemma NotOlderTransitive(a: Attendance, b: Attendance, c: Attendance)
    requires NotOlder(a, b) && NotOlder(b, c)
    ensures NotOlder(a, c)
  {
  }

  /** The records are ordered newest first. */
  predicate NewestFirst(s: seq<Row<Attendance>>) {
    forall i, j :: 0 <= i < j < |s| ==> NotOlder(s[i].1, s[j].1)
  }

  /** A record not older than every record of a newest-first sequence may lead it. */
  lemma PrependNewest(a: Row<Attendance>, s: seq<Row<Attendance>>)
    requires NewestFirst(s)
    requires forall k :: 0 <= k < |s| ==> NotOlder(a.1, s[k].1)
    ensures NewestFirst([a] + s)
  {
    var r := [a] + s;
    forall i, j | 0 <= i < j < |r| ensures NotOlder(r[i].1, r[j].1) {
      assert r[j] == s[j - 1];
      if i > 0 {
        assert r[i] == s[i - 1];
      }
    }
  }

  /** Inserts `x` into a newest-first sequence, ahead of the records it is not older than. */
  function InsertNewestFirst(x: Row<Attendance>, s: seq<Row<Attendance>>): (r: seq<Row<Attendance>>)
    requires NewestFirst(s)
    ensures NewestFirst(r)
    ensures multiset(r) == multiset(s) + multiset{x}
  {
    if s == [] || NotOlder(x.1, s[0].1) then
      assert forall j :: 0 <= j < |s| ==> NotOlder(x.1, s[j].1) by {
        forall j | 0 <= j < |s| ensures NotOlder(x.1, s[j].1) {
          if j > 0 { NotOlderTransitive(x.1, s[0].1, s[j].1); }
        }
      }
      PrependNewest(x, s);
      [x] + s
    else
      var rest := InsertNewestFirst(x, s[1..]);
      assert s == [s[0]] + s[1..];
      NotOlderTotal(x.1, s[0].1);
      assert forall k :: 0 <= k < |rest| ==> NotOlder(s[0].1, rest[k].1) by {
        forall k | 0 <= k < |rest| ensures NotOlder(s[0].1, rest[k].1) {
          assert rest[k] in multiset(rest);
          if rest[k] != x {
            assert rest[k] in s[1..];
          }
        }
      }
      PrependNewest(s[0], rest);
      [s[0]] + rest
  }

  /** Sorts records newest first (`ORDER BY data DESC, hora_entrada DESC`). */
  function SortNewestFirst(s: seq<Row<Attendance>>): (r: seq<Row<Attendance>>)
    ensures NewestFirst(r)
    ensures multiset(r) == multiset(s)
  {
    if s == [] then []
    else
      assert s == [s[0]] + s[1..];
      InsertNewestFirst(s[0], SortNewestFirst(s[1..]))
  }

  /**
   * `listar_presencas`: the records that satisfy the filters, newest first.
   * Records equal under the sort key keep increasing-id order.
   */
  function ListAttendance(t: Table<Attendance>, alunoId: Option<int>, inicio: Option<Date>, fim: Option<Date>)
    : (r: seq<Row<Attendance>>)
    requires t.Valid()
    ensures NewestFirst(r)
    ensures forall id, p :: (id, p) in r <==> id in t.rows && t.rows[id] == p && AttendanceMatches(p, alunoId, inicio, fim)
    ensures multiset(r) == multiset(Select(t.rows, Keys(t), p => AttendanceMatches(p, alunoId, inicio, fim)))
  {
    var hits := Select(t.rows, Keys(t), p => AttendanceMatches(p, alunoId, inicio, fim));
    var r := SortNewestFirst(hits);
    assert forall row :: row in r <==> row in hits by {
      forall row ensures row in r <==> row in hits {
        assert row in r <==> row in multiset(r);
        assert row in hits <==> row in multiset(hits);
      }
    }
    r
  }

  /**
   * Of two listed records of the same day, the one entered later, by any
   * number of microseconds, comes first.
   */
  lemma LaterEntryListedFirst(t: Table<Attendance>, alunoId: Option<int>, inicio: Option<Date>, fim: Option<Date>,
                              a: int, b: int)
    requires t.Valid() && a in t.rows && b in t.rows
    requires AttendanceMatches(t.rows[a], alunoId, inicio, fim) && AttendanceMatches(t.rows[b], alunoId, inicio, fim)
    requires t.rows[a].data == t.rows[b].data
    requires t.rows[a].horaEntrada.Some? && t.rows[b].horaEntrada.Some?
    requires t.rows[a].horaEntrada.value > t.rows[b].horaEntrada.value
    ensures var r := ListAttendance(t, alunoId, inicio, fim);
      (a, t.rows[a]) in r && (b, t.rows[b]) in r
      && forall i, j :: 0 <= i < |r| && 0 <= j < |r| && r[i].0 == a && r[j].0 == b ==> i < j
  {
    var r := ListAttendance(t, alunoId, inicio, fim);
    forall i, j | 0 <= i < |r| && 0 <= j < |r| && r[i].0 == a && r[j].0 == b ensures i < j {
      assert r[i] in r && r[j] in r;
      assert r[i].1 == t.rows[a] && r[j].1 == t.rows[b];
      assert !NotOlder(r[j].1, r[i].1);
    }
  }

  /** A sequence whose elements are pairwise distinct holds each element at most once. */
  lemma {:induction false} DistinctCount<T>(s: seq<T>, x: T)
    requires forall i, j :: 0 <= i < j < |s| ==> s[i] != s[j]
    ensures multiset(s)[x] <= 1
  {
    if s != [] {
      assert s == [s[0]] + s[1..];
      DistinctCount(s[1..], x);
      if x == s[0] {
        assert x !in s[1..];
      }
    }
  }

  /** An element found at two positions is counted at least twice. */
  lemma TwiceCounted<T>(s: seq<T>, i: int, j: int)
    requires 0 <= i < j < |s| && s[i] == s[j]
    ensures multiset(s)[s[i]] >= 2
  {
    assert s == s[..j] + s[j..];
    assert s[i] in s[..j] && s[j] in s[j..];
    assert multiset(s)[s[i]] == multiset(s[..j])[s[i]] + multiset(s[j..])[s[i]];
  }

  /** The attendance listing shows each record once: no two entries share an id. */
  lemma ListAttendanceDistinct(t: Table<Attendance>, alunoId: Option<int>, inicio: Option<Date>, fim: Option<Date>)
    requires t.Valid()
    ensures var r := ListAttendance(t, alunoId, inicio, fim);
      forall i, j :: 0 <= i < j < |r| ==> r[i].0 != r[j].0
  {
    var hits := Select(t.rows, Keys(t), p => AttendanceMatches(p, alunoId, inicio, fim));
    var r := ListAttendance(t, alunoId, inicio, fim);
    SelectAscending(t.rows, Keys(t), p => AttendanceMatches(p, alunoId, inicio, fim));
    assert forall i, j :: 0 <= i < j < |hits| ==> hits[i] != hits[j];
    forall i, j | 0 <= i < j < |r| ensures r[i].0 != r[j].0 {
      if r[i].0 == r[j].0 {
        assert r[i] in r && r[j] in r;
        assert r[i] == r[j];
        TwiceCounted(r, i, j);
        DistinctCount(hits, r[i]);
        assert false;
      }
    }
  }

  /** The rows of attendance table `rows` that do not belong to student `id`. */
  function WithoutStudent(rows: map<int, Attendance>, id: int): (r: map<int, Attendance>)
    ensures forall k :: k in r ==> k in rows && r[k] == rows[k] && r[k].alunoId != id
    ensures forall k :: k in rows && rows[k].alunoId != id ==> k in r
  {
    map k | k in rows && rows[k].alunoId != id :: rows[k]
  }

  /** Every attendance record belongs to a student that exists. */
  ghost predicate NoOrphans(alunos: map<int, Student>, presencas: map<int, Attendance>) {
    forall k :: k in presencas ==> presencas[k].alunoId in alunos
  }

  /** Deleting a student together with its attendance (the cascade) leaves no orphan record. */
  lemma CascadeLeavesNoOrphans(alunos: map<int, Student>, presencas: map<int, Attendance>, id: int)
    requires NoOrphans(alunos, presencas)
    ensures NoOrphans(alunos - {id}, WithoutStudent(presencas, id))
  {
  }

  // ---------------------------------------------------------------------
  // Users
  // ---------------------------------------------------------------------

  /** A user account; `passwordHash` is the salted verifier the hashing library produced. */
  datatype User = User(username: string, passwordHash: string, role: string)

  const AdminUsername: string := "admin"
  const AdminRole: string := "admin"

  /** The UNIQUE constraint on `users.username`. */
  ghost predicate UniqueUsernames(t: Table<User>) {
    forall a, b :: a in t.rows && b in t.rows && t.rows[a].username == t.rows[b].username ==> a == b
  }

  /** `query(User).filter(User.username == username).first()`: the first account with that name. */
  function FindUser(t: Table<User>, username: string): (r: Option<Row<User>>)
    requires t.Valid()
    ensures r.Some? ==> r.value.0 in t.rows && t.rows[r.value.0] == r.value.1 && r.value.1.username == username
    ensures r.None? <==> forall id :: id in t.rows ==> t.rows[id].username != username
  {
    var hits := Select(t.rows, Keys(t), (u: User) => u.username == username);
    if hits == [] then
      assert forall id :: id in t.rows ==> t.rows[id].username != username by {
        forall id | id in t.rows ensures t.rows[id].username != username {
          assert id in Keys(t);
          assert (id, t.rows[id]) !in hits;
        }
      }
      None
    else
      assert hits[0] in hits;
      Some(hits[0])
  }

  /**
   * `autenticar_usuario`: the account with that name if the password checks
   * against its stored verifier. `checkPassword` is the hashing library's
   * verification, about which nothing is assumed.
   */
  function Authenticate(t: Table<User>, username: string, password: string, checkPassword: (string, string) -> bool)
    : (r: Option<Row<User>>)
    requires t.Valid()
    ensures r.Some? ==> r.value.0 in t.rows && t.rows[r.value.0] == r.value.1
                        && r.value.1.username == username && checkPassword(r.value.1.passwordHash, password)
    ensures UniqueUsernames(t) ==>
      (r.None? <==> forall id :: id in t.rows && t.rows[id].username == username
                                 ==> !checkPassword(t.rows[id].passwordHash, password))
  {
    var found := FindUser(t, username);
    if found.Some? && checkPassword(found.value.1.passwordHash, password) then found else None
  }

  /** Adding an account under a name no account has keeps the names unique. */
  lemma AddUserKeepsUnique(t: Table<User>, u: User)
    requires t.Valid() && UniqueUsernames(t)
    requires forall id :: id in t.rows ==> t.rows[id].username != u.username
    ensures UniqueUsernames(Table(t.rows[t.next := u], t.next + 1))
  {
  }

  // ---------------------------------------------------------------------
  // The database
  // ---------------------------------------------------------------------

  class Database {
    var alunos: Table<Student>
    var presencas: Table<Attendance>
    var users: Table<User>

    ghost predicate Valid()
      reads this
    {
      alunos.Valid() && presencas.Valid() && users.Valid() && UniqueUsernames(users)
    }

    /** A fresh database file: `create_all` makes the three tables, all empty. */
    constructor ()
      ensures Valid()
      ensures alunos.rows == map[] && presencas.rows == map[] && users.rows == map[]
    {
      alunos := EmptyTable();
      presencas := EmptyTable();
      users := EmptyTable();
    }

    /**
     * `criar_banco`: seeds the administrator account, with the verifier of
     * the default password, only when there is no account at all.
     */
    method CreateDatabase(adminHash: string)
      requires Valid()
      modifies this
      ensures Valid()
      ensures alunos == old(alunos) && presencas == old(presencas)
      ensures old(users.rows) != map[] ==> users == old(users)
      ensures old(users.rows) == map[] ==>
        exists id :: users.rows == map[id := User(AdminUsername, adminHash, AdminRole)]
      ensures users.rows != map[]
    {
      if users.rows == map[] {
        var id := users.next;
        users := Table(map[id := User(AdminUsername, adminHash, AdminRole)], id + 1);
        assert id in users.rows;
      }
    }

    /** Running `criar_banco` a second time adds nothing beyond the first run. */
    method CreateDatabaseTwice(adminHash: string)
      requires Valid()
      modifies this
      ensures Valid()
      ensures alunos == old(alunos) && presencas == old(presencas)
      ensures old(users.rows) != map[] ==> users == old(users)
      ensures old(users.rows) == map[] ==>
        exists id :: users.rows == map[id := User(AdminUsername, adminHash, AdminRole)]
    {
      CreateDatabase(adminHash);
      ghost var once := users;
      CreateDatabase(adminHash);
      assert users == once;
    }

    /**
     * `inserir_aluno`: adds one student under a fresh id, with the given
     * columns; without a name nothing is added.
     */
    method InsertStudent(dados: StudentFields) returns (id: Option<int>)
      requires Valid()
      modifies this
      ensures Valid()
      ensures presencas == old(presencas) && users == old(users)
      ensures id.None? <==> dados.nome.None?
      ensures id.None? ==> alunos == old(alunos)
      ensures id.Some? ==> id.value !in old(alunos.rows)
                           && alunos.rows == old(alunos.rows)[id.value := NewStudent(dados).value]
      ensures id.Some? ==> GetStudent(alunos, id.value) == NewStudent(dados)
    {
      var s := NewStudent(dados);
      if s.None? {
        return None;
      }
      id := Some(alunos.next);
      alunos := Table(alunos.rows[alunos.next := s.value], alunos.next + 1);
    }

    /**
     * `atualizar_aluno`: on an unknown id returns `None` and changes nothing;
     * otherwise overwrites the provided columns of that one student.
     */
    method UpdateStudent(id: int, atualizacoes: StudentFields) returns (r: Option<Student>)
      requires Valid()
      modifies this
      ensures Valid()
      ensures presencas == old(presencas) && users == old(users) && alunos.next == old(alunos.next)
      ensures r.None? <==> id !in old(alunos.rows)
      ensures r.None? ==> alunos == old(alunos)
      ensures r.Some? ==> r.value == ApplyUpdate(old(alunos.rows)[id], atualizacoes)
                          && alunos.rows == old(alunos.rows)[id := r.value]
    {
      if id !in alunos.rows {
        return None;
      }
      var s := ApplyUpdate(alunos.rows[id], atualizacoes);
      alunos := alunos.(rows := alunos.rows[id := s]);
      r := Some(s);
    }

    /**
     * `deletar_aluno`: on an unknown id returns false and changes nothing;
     * otherwise removes the student and, by the cascade, all its attendance.
     */
    method DeleteStudent(id: int) returns (ok: bool)
      requires Valid()
      modifies this
      ensures Valid()
      ensures users == old(users) && alunos.next == old(alunos.next) && presencas.next == old(presencas.next)
      ensures ok <==> id in old(alunos.rows)
      ensures !ok ==> alunos == old(alunos) && presencas == old(presencas)
      ensures ok ==> alunos.rows == old(alunos.rows) - {id}
                     && presencas.rows == WithoutStudent(old(presencas.rows), id)
      ensures NoOrphans(old(alunos.rows), old(presencas.rows)) ==> NoOrphans(alunos.rows, presencas.rows)
    {
      if id !in alunos.rows {
        return false;
      }
      if NoOrphans(alunos.rows, presencas.rows) {
        CascadeLeavesNoOrphans(alunos.rows, presencas.rows, id);
      }
      alunos := alunos.(rows := alunos.rows - {id});
      presencas := presencas.(rows := WithoutStudent(presencas.rows, id));
      ok := true;
    }

    /**
     * `registrar_presenca_entrada`: appends one open record for the student,
     * entered at `quando` or, without it, at the current instant `now`.
     */
    method RegisterEntry(alunoId: int, quando: Option<Instant>, now: Instant, observacao: Option<string>)
      returns (id: int)
      requires Valid()
      modifies this
      ensures Valid()
      ensures alunos == old(alunos) && users == old(users)
      ensures id !in old(presencas.rows)
      ensures presencas.rows == old(presencas.rows)[id := OpenRecord(alunoId, quando.GetOr(now), observacao)]
      ensures NoOrphans(old(alunos.rows), old(presencas.rows)) && alunoId in alunos.rows ==>
        NoOrphans(alunos.rows, presencas.rows)
    {
      id := presencas.next;
      presencas := Table(presencas.rows[id := OpenRecord(alunoId, quando.GetOr(now), observacao)], id + 1);
    }

    /**
     * `registrar_presenca_saida`: on an unknown record returns `None` and
     * changes nothing; otherwise sets that record's departure time and
     * nothing else.
     */
    method RegisterExit(presencaId: int, quando: Option<Instant>, now: Instant) returns (r: Option<Attendance>)
      requires Valid()
      modifies this
      ensures Valid()
      ensures alunos == old(alunos) && users == old(users) && presencas.next == old(presencas.next)
      ensures r.None? <==> presencaId !in old(presencas.rows)
      ensures r.None? ==> presencas == old(presencas)
      ensures r.Some? ==> r.value == old(presencas.rows)[presencaId].(horaSaida := Some(quando.GetOr(now)))
                          && presencas.rows == old(presencas.rows)[presencaId := r.value]
      ensures NoOrphans(old(alunos.rows), old(presencas.rows)) ==> NoOrphans(alunos.rows, presencas.rows)
    {
      if presencaId !in presencas.rows {
        return None;
      }
      var p := presencas.rows[presencaId].(horaSaida := Some(quando.GetOr(now)));
      presencas := presencas.(rows := presencas.rows[presencaId := p]);
      r := Some(p);
    }

    /**
     * `criar_usuario`: refused (returns `None`, nothing changes) when an
     * account with that name exists; otherwise adds the account.
     */
    method CreateUser(username: string, passwordHash: string, role: string) returns (id: Option<int>)
      requires Valid()
      modifies this
      ensures Valid()
      ensures alunos == old(alunos) && presencas == old(presencas)
      ensures id.None? <==> exists k :: k in old(users.rows) && old(users.rows)[k].username == username
      ensures id.None? ==> users == old(users)
      ensures id.Some? ==> id.value !in old(users.rows)
                           && users.rows == old(users.rows)[id.value := User(username, passwordHash, role)]
    {
      var existente := FindUser(users, username);
      if existente.Some? {
        return None;
      }
      var u := User(username, passwordHash, role);
      AddUserKeepsUnique(users, u);
      id := Some(users.next);
      users := Table(users.rows[users.next := u], users.next + 1);
    }
  }
}
