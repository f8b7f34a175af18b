/** Bringing any database of the past up to date (create_schema in attendance/db.py). */
module Migration {
  import opened Options
  import opened Text
  import opened Clock

  // --- tables ------------------------------------------------------------------------------------

  datatype Value = Null | Int(n: int) | Real(x: real) | Text(s: string)

  type Row = map<string, Value>

  /** The rows are held by their primary key. */
  datatype Table = Table(columns: set<string>, rows: map<nat, Row>)

  datatype Tables = Tables(students: Option<Table>, attendance: Option<Table>, users: Option<Table>, indexed: bool)

  /** How far ahead of UTC the configured zone is, for each wall clock. */
  type Zone = Wall -> int

  function Field(row: Row, column: string): Value {
    if column in row then row[column] else Null
  }

  /** One value for a column in every row: a new column's default, or an UPDATE of them all. */
  function WithAll(t: Table, column: string, v: Value): Table {
    Table(t.columns + {column}, map id | id in t.rows :: t.rows[id][column := v])
  }

  function RenamedRow(row: Row, from: string, to: string): Row {
    (row - {from})[to := Field(row, from)]
  }

  function Renamed(t: Table, from: string, to: string): Table {
    Table(t.columns - {from} + {to}, map id | id in t.rows :: RenamedRow(t.rows[id], from, to))
  }

  /** CREATE TABLE IF NOT EXISTS */
  function Created(t: Option<Table>, columns: set<string>): Table {
    if t.Some? then t.value else Table(columns, map[])
  }

  const STUDENTS := {"name", "date_registered"}
  const ATTENDANCE := {"student_id", "date", "time_in", "time_out", "confidence"}
  const USERS := {"username", "password_hash", "role"}

  ghost predicate HasDuplicates(t: Table) {
    exists i, j :: i in t.rows && j in t.rows && i != j && SameKey(t.rows[i], t.rows[j])
  }

  predicate SameKey(a: Row, b: Row) {
    Field(a, "date") == Field(b, "date") && Field(a, "student_id") == Field(b, "student_id")
  }

  /** A second row for somebody's day keeps the unique index from being made. */
  ghost predicate CannotIndex(db: Tables) {
    !db.indexed && db.attendance.Some? && HasDuplicates(db.attendance.value)
  }

  // --- what each part of the migration does -----------------------------------------------------------

  function Approved(u: Table): Table {
    if "is_approved" in u.columns then u
    else WithAll(WithAll(u, "is_approved", Int(0)), "is_approved", Int(1))
  }

  function Linked(u: Table): Table {
    if "student_id" in u.columns then u else WithAll(u, "student_id", Null)
  }

  function WithTimeIn(a: Table): Table {
    if "time" in a.columns && "time_in" !in a.columns then Renamed(a, "time", "time_in") else a
  }

  function WithTimeOut(a: Table): Table {
    if "time_out" in a.columns then a else WithAll(a, "time_out", Null)
  }

  /** IS NOT NULL AND instr(..., 'T') = 0 */
  predicate Naive(v: Value) {
    v != Null && (v.Text? ==> 'T' !in v.s)
  }

  predicate Unconverted(row: Row) {
    Naive(Field(row, "time_in"))
  }

  /** combine, which reads text only */
  function CombineValues(date: Value, time: Value, zone: Zone): Option<Moment> {
    if date.Text? && time.Text? then Combine(date.s, time.s, zone) else None
  }

  function StampOrNull(m: Option<Moment>): Value {
    match m
    case None => Null
    case Some(moment) => Text(Stamp(moment))
  }

  /** A missing or empty departure reads like an unreadable one. */
  function Fixed(row: Row, zone: Zone): Row {
    var moment := CombineValues(Field(row, "date"), Field(row, "time_in"), zone);
    if !Unconverted(row) || moment == None then row
    else
      row["time_in" := StampOrNull(moment)]
         ["time_out" := StampOrNull(CombineValues(Field(row, "date"), Field(row, "time_out"), zone))]
  }

  function WithOffsets(a: Table, zone: Zone): Table {
    a.(rows := map id | id in a.rows :: Fixed(a.rows[id], zone))
  }

  function MigratedUsers(u: Table): Table {
    Linked(Approved(u))
  }

  function MigratedAttendance(a: Table, zone: Zone): Table {
    WithOffsets(WithTimeOut(WithTimeIn(a)), zone)
  }

  /** What a whole run leaves behind. */
  function Migrated(db: Tables, zone: Zone): Tables {
    Tables(Some(Created(db.students, STUDENTS)),
           Some(MigratedAttendance(Created(db.attendance, ATTENDANCE), zone)),
           Some(MigratedUsers(Created(db.users, USERS))),
           true)
  }

  /** The three CREATE TABLE statements, and the index. */
  function AllCreated(db: Tables): Tables {
    Tables(Some(Created(db.students, STUDENTS)), Some(Created(db.attendance, ATTENDANCE)),
           Some(Created(db.users, USERS)), db.indexed)
  }

  function Indexed(db: Tables): Tables {
    AllCreated(db).(indexed := true)
  }

  // --- the run ------------------------------------------------------------------------------------

  /** The rows while some are still to do. */
  ghost function HalfFixed(rows: map<nat, Row>, todo: set<nat>, zone: Zone): map<nat, Row> {
    map id | id in rows :: if id in todo then rows[id] else Fixed(rows[id], zone)
  }

  lemma FixOne(rows: map<nat, Row>, todo: set<nat>, id: nat, zone: Zone)
    requires id in rows && id in todo
    ensures id in HalfFixed(rows, todo, zone) && HalfFixed(rows, todo, zone)[id] == rows[id]
    ensures HalfFixed(rows, todo - {id}, zone) == HalfFixed(rows, todo, zone)[id := Fixed(rows[id], zone)]
    ensures Fixed(rows[id], zone) == rows[id] ==> HalfFixed(rows, todo - {id}, zone) == HalfFixed(rows, todo, zone)
  {
    if Fixed(rows[id], zone) == rows[id] {
      assert HalfFixed(rows, todo - {id}, zone) == HalfFixed(rows, todo, zone);
    }
  }

  /** A connection that commits each schema change at once unless a transaction is open; changing
      rows opens one. What is committed is what survives the death of the process. */
  class Connection {
    var disk: Tables
    var now: Tables
    var open: bool
    /** Everything that was ever on disk. */
    ghost var past: set<Tables>

    ghost predicate Valid()
      reads this
    {
      (!open ==> disk == now) && disk in past
    }

    constructor (db: Tables)
      ensures Valid() && !open && disk == db && past == {db}
    {
      disk, now, open := db, db, false;
      past := {db};
    }

    /** CREATE or ALTER */
    method ChangeSchema(db: Tables)
      requires Valid()
      modifies this
      ensures Valid() && now == db && open == old(open)
      ensures disk == if open then old(disk) else db
      ensures past == old(past) + {disk}
    {
      now := db;
      if !open {
        disk := db;
      }
      past := past + {disk};
    }

    /** UPDATE */
    method ChangeRows(db: Tables)
      requires Valid()
      modifies this
      ensures Valid() && now == db && open && disk == old(disk) && past == old(past)
    {
      now, open := db, true;
    }

    method Commit()
      requires Valid()
      modifies this
      ensures Valid() && now == disk == old(now) && !open && past == old(past) + {disk}
    {
      disk, open := now, false;
      past := past + {disk};
    }

    /** create_schema; a refused index raises before anything is committed but the empty tables */
    method CreateSchema(zone: Zone) returns (done: bool)
      requires Valid() && !open && Historical(disk)
      modifies this
      ensures Valid() && done == !CannotIndex(old(disk))
      ensures disk == if done then Migrated(old(disk), zone) else AllCreated(old(disk))
      ensures past <= old(past) + Waypoints(old(disk), zone)
      ensures done && Unapproved(old(disk)) ==> Approving(old(disk)) in past
    {
      ghost var before := disk;
      ChangeSchema(now.(students := Some(Created(now.students, STUDENTS))));
      ChangeSchema(now.(attendance := Some(Created(now.attendance, ATTENDANCE))));
      ChangeSchema(now.(users := Some(Created(now.users, USERS))));
      done := now.indexed;
      if !done {
        done := CanIndex(now.attendance.value);
        if !done {
          return;
        }
      }
      ChangeSchema(now.(indexed := true));
      assert now == Indexed(before);
      RunMigrations(before, zone);
      Commit();
    }

    /** run_migrations */
    method RunMigrations(ghost before: Tables, zone: Zone)
      requires Valid() && !open && now == Indexed(before) && Historical(before)
      modifies this
      ensures Valid() && now == Migrated(before, zone)
      ensures past <= old(past) + Waypoints(before, zone)
      ensures Unapproved(before) ==> Approving(before) in past
    {
      var users := now.users.value;
      if "is_approved" !in users.columns {
        ChangeSchema(now.(users := Some(WithAll(users, "is_approved", Int(0)))));
        ChangeRows(now.(users := Some(WithAll(now.users.value, "is_approved", Int(1)))));
      }
      users := now.users.value;
      if "student_id" !in users.columns {
        ChangeSchema(now.(users := Some(WithAll(users, "student_id", Null))));
      }
      var attendance := now.attendance.value;
      if "time" in attendance.columns && "time_in" !in attendance.columns {
        ChangeSchema(now.(attendance := Some(Renamed(attendance, "time", "time_in"))));
      }
      attendance := now.attendance.value;
      if "time_out" !in attendance.columns {
        ChangeSchema(now.(attendance := Some(WithAll(attendance, "time_out", Null))));
      }
      GiveOldTimestampsAnOffset(zone);
    }

    /** give_old_timestamps_an_offset; the rows are fetched first, then written one by one */
    method GiveOldTimestampsAnOffset(zone: Zone)
      requires Valid() && now.attendance.Some?
      modifies this
      ensures Valid() && past == old(past)
      ensures now == old(now).(attendance := Some(WithOffsets(old(now).attendance.value, zone)))
    {
      ghost var before := now;
      var fetched := now.attendance.value.rows;
      var todo := set id | id in fetched && Unconverted(fetched[id]);
      assert now.attendance.value.rows == HalfFixed(fetched, todo, zone);
      while todo != {}
        invariant Valid() && past == old(past)
        invariant todo <= fetched.Keys && forall id :: id in todo ==> Unconverted(fetched[id])
        invariant now == before.(attendance := Some(before.attendance.value.(rows := HalfFixed(fetched, todo, zone))))
        decreases |todo|
      {
        var id :| id in todo;
        var row := fetched[id];
        FixOne(fetched, todo, id, zone);
        todo := todo - {id};
        var momentIn := CombineValues(Field(row, "date"), Field(row, "time_in"), zone);
        if momentIn != None {
          var momentOut := CombineValues(Field(row, "date"), Field(row, "time_out"), zone);
          var table := now.attendance.value;
          ChangeRows(now.(attendance := Some(table.(rows := table.rows[
            id := table.rows[id]["time_in" := StampOrNull(momentIn)]["time_out" := StampOrNull(momentOut)]]))));
        }
      }
      assert HalfFixed(fetched, {}, zone) == WithOffsets(before.attendance.value, zone).rows;
    }
  }

  /** What CREATE UNIQUE INDEX finds out. */
  method CanIndex(t: Table) returns (ok: bool)
    ensures ok == !HasDuplicates(t)
  {
    var todo := t.rows.Keys;
    var seen: set<(Value, Value)> := {};
    while todo != {}
      invariant todo <= t.rows.Keys
      invariant forall k :: k in seen <==> exists i :: i in t.rows && i !in todo && k == KeyOf(t.rows[i])
      invariant forall i, j :: i in t.rows && j in t.rows && i !in todo && j !in todo && i != j
                  ==> !SameKey(t.rows[i], t.rows[j])
      decreases |todo|
    {
      var id :| id in todo;
      var key := KeyOf(t.rows[id]);
      if key in seen {
        var i :| i in t.rows && i !in todo && key == KeyOf(t.rows[i]);
        assert SameKey(t.rows[i], t.rows[id]);
        return false;
      }
      todo, seen := todo - {id}, seen + {key};
    }
    return true;
  }

  function KeyOf(row: Row): (Value, Value) {
    (Field(row, "date"), Field(row, "student_id"))
  }

  /** The days and students of some of the rows. */
  function DaysAndStudents(rows: map<nat, Row>, ids: set<nat>): set<(Value, Value)>
    requires ids <= rows.Keys
  {
    set id | id in ids :: (Field(rows[id], "date"), Field(rows[id], "student_id"))
  }

  /** There are duplicates exactly when there are fewer pairs of a day and a student than rows. */
  lemma DuplicatesAreFewerDays(t: Table)
    ensures HasDuplicates(t) <==> |DaysAndStudents(t.rows, t.rows.Keys)| < |t.rows|
  {
    assert |t.rows| == |t.rows.Keys|;
    FewerDays(t.rows, t.rows.Keys);
    var among := t.rows.Keys;
    assert HasDuplicates(t) <==> exists i, j :: i in among && j in among && i != j && SameKey(t.rows[i], t.rows[j]);
  }

  lemma {:induction false} FewerDays(rows: map<nat, Row>, ids: set<nat>)
    requires ids <= rows.Keys
    ensures |DaysAndStudents(rows, ids)| <= |ids|
    ensures (exists i, j :: i in ids && j in ids && i != j && SameKey(rows[i], rows[j]))
       <==> |DaysAndStudents(rows, ids)| < |ids|
    decreases |ids|
  {
    if id :| id in ids {
      var rest, key := ids - {id}, (Field(rows[id], "date"), Field(rows[id], "student_id"));
      FewerDays(rows, rest);
      assert DaysAndStudents(rows, ids) == DaysAndStudents(rows, rest) + {key};
      if key in DaysAndStudents(rows, rest) {
        var j :| j in rest && key == (Field(rows[j], "date"), Field(rows[j], "student_id"));
        assert SameKey(rows[id], rows[j]);
      }
    }
  }

  /** Every shape there has been: attendance had its time under one name or the other. */
  predicate Historical(db: Tables) {
    db.attendance.Some? ==>
      && {"date", "student_id"} <= db.attendance.value.columns
      && ("time" in db.attendance.value.columns || "time_in" in db.attendance.value.columns)
  }

  predicate Unapproved(db: Tables) {
    "is_approved" !in Created(db.users, USERS).columns
  }

  /** The approval column is there, and nobody is approved yet. */
  function Approving(db: Tables): Tables {
    Indexed(db).(users := Some(WithAll(Created(db.users, USERS), "is_approved", Int(0))))
  }

  /** All that can be on disk at some time during a run. */
  function Waypoints(db: Tables, zone: Zone): set<Tables> {
    {db, db.(students := Some(Created(db.students, STUDENTS))),
     AllCreated(db).(users := db.users), AllCreated(db), Indexed(db), Migrated(db, zone)}
    + if Unapproved(db) then {Approving(db)} else AttendanceWaypoints(db)
  }

  /** Without that transaction, the other schema changes are each committed at once. */
  function AttendanceWaypoints(db: Tables): set<Tables> {
    var users, a := Some(Linked(Created(db.users, USERS))), Created(db.attendance, ATTENDANCE);
    {Indexed(db).(users := users),
     Indexed(db).(users := users, attendance := Some(WithTimeIn(a))),
     Indexed(db).(users := users, attendance := Some(WithTimeOut(WithTimeIn(a))))}
  }
}
