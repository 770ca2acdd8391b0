/** The student routes (routes/studentRoutes.js): login, the permission
    request, and QR check-in with its 30-minute window and its
    find-or-create of the attendance record. */
module StudentRoutes {
  import opened Common
  import opened Models

  // ------------------------------------------------------------------ login

  /** `User.findOne({ username })`. */
  function UserNamed(users: seq<User>, username: string): (r: Option<User>)
    ensures r.Some? ==> r.value in users && r.value.username == username
    ensures r.None? ==> forall u :: u in users ==> u.username != username
  {
    FirstMatch(users, (u: User) => u.username == username)
  }

  /** `User.findOne({ username, role: 'student' })`. */
  function StudentNamed(users: seq<User>, username: string): (r: Option<User>)
    ensures r.Some? ==> r.value in users && r.value.username == username && r.value.role == Student
    ensures r.None? ==> forall u :: u in users ==> !(u.username == username && u.role == Student)
  {
    FirstMatch(users, (u: User) => u.username == username && u.role == Student)
  }

  /** Where a logged-in user is sent. */
  function HomeFor(role: Role): (location: string)
    ensures location == "/admin" <==> role == Admin
    ensures location == "/teacher" <==> role == Teacher
    ensures location == "/" <==> role !in {Admin, Teacher}
  {
    if role == Admin then "/admin"
    else if role == Teacher then "/teacher"
    else "/"
  }

  /** What login stores in the session (the signed token is not modelled). */
  datatype Session = Session(userId: Id, username: string, role: Role)

  datatype LoginOutcome = LoginOutcome(reply: Reply, session: Option<Session>)

  /** POST /login as written. The password comparison's failure is caught
      and logged, so the password plays no part in the outcome. */
  function Login(users: seq<User>, username: string, password: string): (r: LoginOutcome)
    ensures r.session.None? <==> forall u :: u in users ==> u.username != username
    ensures r.session.None? ==> r.reply == Status(400)
    ensures r.session.Some? ==>
      && r.reply == Redirect(HomeFor(r.session.value.role))
      && exists u :: u in users && u.username == username
                     && r.session.value == Session(u.id, u.username, u.role)
  {
    match UserNamed(users, username)
    case None => LoginOutcome(Status(400), None)
    case Some(u) => LoginOutcome(Redirect(HomeFor(u.role)), Some(Session(u.id, u.username, u.role)))
  }

  /** POST /login as its comment says it should behave: the session is
      opened only when `matches(password, storedHash)` holds (bcrypt's
      comparison, which is not modelled, is the parameter). */
  function LoginChecked(users: seq<User>, username: string, password: string,
                        matches: (string, string) -> bool): (r: LoginOutcome)
    ensures r.session.Some? ==>
      exists u :: u in users && u.username == username && matches(password, u.password)
                  && r.session.value == Session(u.id, u.username, u.role)
    ensures r.session.None? ==> r.reply == Status(400)
    ensures UserNamed(users, username).Some? && matches(password, UserNamed(users, username).value.password)
            ==> r == Login(users, username, password)
  {
    match UserNamed(users, username)
    case None => LoginOutcome(Status(400), None)
    case Some(u) =>
      if matches(password, u.password) then Login(users, username, password)
      else LoginOutcome(Status(400), None)
  }

  /** As written, two logins that differ only in the password end the same way. */
  lemma LoginIgnoresPassword(users: seq<User>, username: string, p1: string, p2: string)
    ensures Login(users, username, p1) == Login(users, username, p2)
  {
  }

  /** A password that matches nothing still opens a session as written,
      while the checked login refuses it. */
  lemma WrongPasswordLogsIn()
    ensures
      var users := [User("u1", "Ada", "ada", "$2b$10$hash", Student, None, None, None)];
      var never := (p: string, h: string) => false;
      && Login(users, "ada", "wrong") == LoginOutcome(Redirect("/"), Some(Session("u1", "ada", Student)))
      && LoginChecked(users, "ada", "wrong", never) == LoginOutcome(Status(400), None)
  {
    var users := [User("u1", "Ada", "ada", "$2b$10$hash", Student, None, None, None)];
    assert UserNamed(users, "ada") == Some(users[0]);
  }

  // ------------------------------------------------------ check-in window

  const MsPerMinute: int := 60000

  /** Width of the check-in window, in minutes. */
  const WindowMinutes: int := 30

  const WindowMs: int := WindowMinutes * MsPerMinute

  /** `(currentTime - qrDateTime) / (1000 * 60)`: minutes elapsed since the QR instant. */
  function ElapsedMinutes(qrInstant: int, now: int): real {
    (now - qrInstant) as real / MsPerMinute as real
  }

  /** The status check-in records. An unparseable QR date/time (`None`) makes
      the elapsed time NaN, which fails both comparisons. */
  function Classify(qrInstant: Option<int>, now: int): (status: AttendanceStatus)
    ensures status == Present <==>
      qrInstant.Some? && 0.0 <= ElapsedMinutes(qrInstant.value, now) <= WindowMinutes as real
  {
    match qrInstant
    case None => Absent
    case Some(q) => if 0 <= now - q <= WindowMs then Present else Absent
  }

  /** A QR shown at 09:00:00: 09:30:00 is still present, 09:30:01 is not, and an
      observation at 08:59:59 (a clock running behind) is absent rather than an error. */
  lemma NineOClockScenario()
    ensures var nine := 9 * 3600000;
      && Classify(Some(nine), nine + 29 * 60000 + 59000) == Present
      && Classify(Some(nine), nine + 30 * 60000) == Present
      && Classify(Some(nine), nine + 30 * 60000 + 1000) == Absent
      && Classify(Some(nine), nine - 1000) == Absent
  {
  }

  // ----------------------------------------------------- find-or-create

  /** The record `Attendance.findOne({ student, subject, date })` loads: the
      first one in natural order carrying the key. */
  function RecordIndex(records: seq<Attendance>, key: AttendanceKey): (r: Option<nat>)
    ensures r.Some? ==> r.value < |records| && records[r.value].Key() == key
    ensures r.Some? ==> forall j :: 0 <= j < r.value ==> records[j].Key() != key
    ensures r.None? ==> forall j :: 0 <= j < |records| ==> records[j].Key() != key
  {
    FindFirst(records, (x: Attendance) => x.Key() == key)
  }

  /** The first-match index is determined by the records. */
  lemma RecordIndexIs(records: seq<Attendance>, key: AttendanceKey, i: nat)
    requires i < |records| && records[i].Key() == key
    requires forall j :: 0 <= j < i ==> records[j].Key() != key
    ensures RecordIndex(records, key) == Some(i)
  {
  }

  function NewRecord(key: AttendanceKey, status: AttendanceStatus): Attendance {
    Attendance(key.student, key.subject, key.date, status)
  }

  /** The store after check-in: the loaded record gets the status, or a new
      record is created. Afterwards the record findOne loads for the key is
      the key with the new status. */
  function Upsert(records: seq<Attendance>, key: AttendanceKey, status: AttendanceStatus): (r: seq<Attendance>)
    ensures RecordIndex(r, key).Some?
    ensures r[RecordIndex(r, key).value] == NewRecord(key, status)
  {
    match RecordIndex(records, key)
    case Some(i) =>
      var r := records[i := records[i].(status := status)];
      RecordIndexIs(r, key, i);
      r
    case None =>
      var r := records + [NewRecord(key, status)];
      RecordIndexIs(r, key, |records|);
      r
  }

  /** An existing record: only its status changes; nothing is added and every
      other record is as it was. */
  lemma {:induction false} UpsertOverwrites(records: seq<Attendance>, key: AttendanceKey, status: AttendanceStatus, i: nat)
    requires i < |records| && records[i].Key() == key
    requires forall j :: 0 <= j < i ==> records[j].Key() != key
    ensures var r := Upsert(records, key, status);
      && |r| == |records|
      && r[i] == NewRecord(key, status)
      && forall j :: 0 <= j < |r| && j != i ==> r[j] == records[j]
  {
    RecordIndexIs(records, key, i);
  }

  /** No record for the key: exactly one record is appended. */
  lemma UpsertAppends(records: seq<Attendance>, key: AttendanceKey, status: AttendanceStatus)
    requires forall j :: 0 <= j < |records| ==> records[j].Key() != key
    ensures Upsert(records, key, status) == records + [NewRecord(key, status)]
  {
  }

  /** Check-in keeps "at most one record per (student, subject, date)", and
      afterwards exactly one record carries the key. */
  lemma UpsertKeepsKeysUnique(records: seq<Attendance>, key: AttendanceKey, status: AttendanceStatus)
    requires UniqueKeys(records)
    ensures var r := Upsert(records, key, status);
      && UniqueKeys(r)
      && forall j :: 0 <= j < |r| && r[j].Key() == key ==> r[j] == NewRecord(key, status)
  {
    var r := Upsert(records, key, status);
    match RecordIndex(records, key)
    case Some(i) =>
      UpsertOverwrites(records, key, status, i);
      forall a, b | 0 <= a < b < |r| ensures r[a].Key() != r[b].Key() {
        assert r[a].Key() == records[a].Key() && r[b].Key() == records[b].Key();
      }
    case None =>
      UpsertAppends(records, key, status);
  }

  /** A second check-in with the same key and status leaves the store as the
      first one left it. */
  lemma UpsertIdempotent(records: seq<Attendance>, key: AttendanceKey, status: AttendanceStatus)
    ensures Upsert(Upsert(records, key, status), key, status) == Upsert(records, key, status)
  {
    var r := Upsert(records, key, status);
    var i := RecordIndex(r, key).value;
    UpsertOverwrites(r, key, status, i);
  }

  /** Of two check-ins with the same key only the later status is kept. */
  lemma UpsertLastWriteWins(records: seq<Attendance>, key: AttendanceKey, s1: AttendanceStatus, s2: AttendanceStatus)
    ensures Upsert(Upsert(records, key, s1), key, s2) == Upsert(records, key, s2)
  {
    var r1 := Upsert(records, key, s1);
    var i := RecordIndex(r1, key).value;
    UpsertOverwrites(r1, key, s2, i);
    match RecordIndex(records, key)
    case Some(k) =>
      UpsertOverwrites(records, key, s1, k);
      UpsertOverwrites(records, key, s2, k);
      RecordIndexIs(r1, key, k);
    case None =>
      UpsertAppends(records, key, s1);
      UpsertAppends(records, key, s2);
      RecordIndexIs(r1, key, |records|);
  }

  // ------------------------------------------------------ subject queries

  /** A subject query as the file binds `Subject`: the name holds the whole
      export of models/College.js, which has no `findOne`/`findById`, so the
      call throws whatever the subjects collection holds. */
  function QuerySubjectAsWritten<T>(subjects: seq<Subject>): (r: Lookup<T>)
    ensures r.Threw?
  {
    Threw
  }

  /** `Subject.findById(id)` with `Subject` bound to the Subject model: the
      stored subject with that id, or not found when none has it. */
  function QuerySubject(subjects: seq<Subject>, id: Id): (r: Lookup<Subject>)
    ensures !r.Threw?
    ensures r.Found? ==> r.value in subjects && r.value.id == id
    ensures r.NotFound? <==> forall x :: x in subjects ==> x.id != id
  {
    match FirstMatch(subjects, (x: Subject) => x.id == id)
    case Some(x) => Found(x)
    case None => NotFound
  }

  /** The subject the permission request loads: through the export object as
      written (`bindingFixed == false`), or through the Subject model. */
  function PermissionSubject(subjects: seq<Subject>, id: Id, bindingFixed: bool): Lookup<Subject> {
    if bindingFixed then QuerySubject(subjects, id) else QuerySubjectAsWritten(subjects)
  }

  /** A stored subject: the query as written throws, the corrected query finds it. */
  lemma StoredSubjectThrowsAsWritten(subjects: seq<Subject>, s: Subject)
    requires s in subjects
    ensures QuerySubjectAsWritten<Subject>(subjects) == Threw
    ensures QuerySubject(subjects, s.id).Found? && QuerySubject(subjects, s.id).value.id == s.id
  {
  }

  // ------------------------------------------------------------- handlers

  /** POST /submit-attendance. With `bindingFixed == false` the subject query
      throws as written; otherwise `byCode` is the outcome of
      `Subject.findOne({ code })` (the Subject schema has no `code` field, so
      the model takes that outcome as given);
      `qrDay` is the QR's `date` cast to a Date (`None`: the cast fails and
      the record query throws); `qrInstant` is `new Date(date + "T" + time)`
      (`None`: Invalid Date); `now` is the server clock. */
  method SubmitAttendance(db: Database, username: string, bindingFixed: bool, byCode: Lookup<Id>,
                          qrDay: Option<int>, qrInstant: Option<int>, now: int)
    returns (reply: Reply)
    modifies db
    ensures db.users == old(db.users) && db.permissions == old(db.permissions)
    ensures db.venues == old(db.venues) && db.subjects == old(db.subjects)
    ensures StudentNamed(old(db.users), username).None? ==> reply == Status(404)
    ensures !bindingFixed && StudentNamed(old(db.users), username).Some? ==>
      reply == Status(500) && db.attendance == old(db.attendance)
    ensures var subject := if bindingFixed then byCode else QuerySubjectAsWritten(old(db.subjects));
      StudentNamed(old(db.users), username).Some? ==>
      && (subject.Threw? ==> reply == Status(500))
      && (subject.NotFound? ==> reply == Status(404))
      && (subject.Found? && qrDay.None? ==> reply == Status(500))
    ensures reply.Marked? <==>
      StudentNamed(old(db.users), username).Some? && bindingFixed && byCode.Found? && qrDay.Some?
    ensures !reply.Marked? ==> db.attendance == old(db.attendance)
    ensures reply.Marked? ==>
      && reply.status == Classify(qrInstant, now)
      && db.attendance == Upsert(old(db.attendance),
           AttendanceKey(StudentNamed(old(db.users), username).value.id, byCode.value, qrDay.value),
           reply.status)
  {
    var student := StudentNamed(db.users, username);
    if student.None? {
      return Status(404);
    }
    var subject := if bindingFixed then byCode else QuerySubjectAsWritten(db.subjects);
    match subject {
      case Threw =>
        return Status(500);
      case NotFound =>
        return Status(404);
      case Found(subjectId) =>
        var status := Classify(qrInstant, now);
        if qrDay.None? {
          return Status(500);
        }
        var key := AttendanceKey(student.value.id, subjectId, qrDay.value);
        var existing := RecordIndex(db.attendance, key);
        if existing.Some? {
          var i := existing.value;
          db.attendance := db.attendance[i := db.attendance[i].(status := status)];
        } else {
          db.attendance := db.attendance + [NewRecord(key, status)];
        }
        reply := Marked(status);
    }
  }

  /** `populate('teachers')`: each teacher id replaced by the stored user it
      names, in order; an id naming no stored user (one deleted since) is
      dropped. */
  function PopulatedTeachers(users: seq<User>, ids: seq<Id>): (r: seq<User>)
    ensures forall u :: u in r ==> u in users && u.id in ids
    ensures r == [] <==> forall t :: t in ids ==> NamesNoUser(users, t)
    decreases |ids|
  {
    if ids == [] then []
    else
      match FirstMatch(users, (u: User) => u.id == ids[0])
      case Some(u) => [u] + PopulatedTeachers(users, ids[1..])
      case None =>
        assert NamesNoUser(users, ids[0]);
        assert forall t :: t in ids ==> t == ids[0] || t in ids[1..];
        PopulatedTeachers(users, ids[1..])
  }

  /** No stored user has id `t`: the teacher it named was deleted. */
  predicate NamesNoUser(users: seq<User>, t: Id)
  {
    forall u :: u in users ==> u.id != t
  }

  /** POST /permission. The subject is `PermissionSubject`: as written
      (`bindingFixed == false`) the query throws, otherwise it is
      `Subject.findById(subjectId)` on the stored subjects. The attachment is
      the uploaded file, if any; `now` is the creation time.
      The request is saved before the first populated teacher's name is read,
      so a subject none of whose teacher ids names a stored user answers 500
      with the request already stored. */
  method RequestPermission(db: Database, username: string, subjectId: Id, bindingFixed: bool,
                           reason: Option<string>, attachment: Option<Attachment>, now: int)
    returns (reply: Reply)
    modifies db
    ensures db.users == old(db.users) && db.attendance == old(db.attendance)
    ensures db.venues == old(db.venues) && db.subjects == old(db.subjects)
    ensures StudentNamed(old(db.users), username).None? ==> reply == Status(404)
    ensures !bindingFixed && StudentNamed(old(db.users), username).Some? ==>
      reply == Status(500) && db.permissions == old(db.permissions)
    ensures var subject := PermissionSubject(old(db.subjects), subjectId, bindingFixed);
      StudentNamed(old(db.users), username).Some? ==>
      && (subject.Threw? ==> reply == Status(500))
      && (subject.NotFound? ==> reply == Status(404))
      && (subject.Found? && !Truthy(reason) ==> reply == Status(500))
    ensures var subject := PermissionSubject(old(db.subjects), subjectId, bindingFixed);
      |db.permissions| != |old(db.permissions)| <==>
        StudentNamed(old(db.users), username).Some? && subject.Found? && Truthy(reason)
    ensures |db.permissions| == |old(db.permissions)| ==> db.permissions == old(db.permissions)
    ensures var subject := PermissionSubject(old(db.subjects), subjectId, bindingFixed);
      |db.permissions| != |old(db.permissions)| ==>
        && subject.Found? && subject.value in old(db.subjects) && subject.value.id == subjectId
        && db.permissions == old(db.permissions) + [NewPermission(
             StudentNamed(old(db.users), username).value.id, subjectId, reason, attachment, now).value]
        && reply == (if PopulatedTeachers(old(db.users), subject.value.teachers) == []
                     then Status(500) else Status(200))
  {
    var student := StudentNamed(db.users, username);
    if student.None? {
      return Status(404);
    }
    var subject := PermissionSubject(db.subjects, subjectId, bindingFixed);
    match subject {
      case Threw =>
        return Status(500);
      case NotFound =>
        return Status(404);
      case Found(s) =>
        var request := NewPermission(student.value.id, s.id, reason, attachment, now);
        if request.None? {
          return Status(500);
        }
        db.permissions := db.permissions + [request.value];
        if PopulatedTeachers(db.users, s.teachers) == [] {
          reply := Status(500);
        } else {
          reply := Status(200);
        }
    }
  }
}
