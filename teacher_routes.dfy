/** The teacher routes (routes/teacherRoutes.js): the QR payload a teacher
    generates, the router's own `isTeacher` gate, and manual registration of
    an attendance record. */
module TeacherRoutes {
  import opened Common
  import opened Models
  import StudentRoutes

  // ------------------------------------------------------------ QR payload

  /** How long after generation the payload says the code expires: `30 * 60000` ms. */
  const QrLifetimeMs: int := 30 * 60000

  /** The data encoded in the QR code; `date` and `expiryTime` are instants in
      milliseconds (the ISO-8601 text form is not modelled). */
  datatype QrPayload = QrPayload(courseCode: string, date: int, expiryTime: int)

  /** POST /generate-qr-code up to the image encoding: a falsy course code is a
      400, otherwise the payload stamped with the generation time. */
  function GenerateQrPayload(courseCode: Option<string>, now: int): (r: Result<QrPayload>)
    ensures r.Err? <==> !Truthy(courseCode)
    ensures r.Err? ==> r.code == 400
    ensures r.Ok? ==> Some(r.value.courseCode) == courseCode && r.value.date == now
    ensures r.Ok? ==>
      StudentRoutes.ElapsedMinutes(r.value.date, r.value.expiryTime) == StudentRoutes.WindowMinutes as real
  {
    if !Truthy(courseCode) then Err(400)
    else Ok(QrPayload(courseCode.value, now, now + QrLifetimeMs))
  }

  /** The instants at which the check-in rule counts a payload's QR time as
      present are exactly those from its `date` to its `expiryTime`, both included. */
  lemma QrWindowMatchesCheckIn(courseCode: Option<string>, now: int, t: int)
    requires GenerateQrPayload(courseCode, now).Ok?
    ensures var p := GenerateQrPayload(courseCode, now).value;
      StudentRoutes.Classify(Some(p.date), t) == Present <==> p.date <= t <= p.expiryTime
  {
  }

  // ------------------------------------------------------------ isTeacher

  /** The router's local `isTeacher`: only a request whose `req.user` has the
      role `teacher` passes. `user` is the role in `req.user`, `None` when unset. */
  function TeacherGate(user: Option<Role>): (r: Option<nat>)
    ensures r.None? <==> user == Some(Teacher)
    ensures r.Some? ==> r.value == 403
  {
    if user.Some? && user.value == Teacher then None else Some(403)
  }

  // --------------------------------------------------- manual registration

  /** The body of POST /manual-attendance-register; each field may be missing. */
  datatype ManualForm = ManualForm(
    studentId: Option<string>,
    subjectId: Option<string>,
    date: Option<string>,
    status: Option<string>)

  predicate AllFieldsGiven(form: ManualForm) {
    Truthy(form.studentId) && Truthy(form.subjectId) && Truthy(form.date) && Truthy(form.status)
  }

  /** Manual registration with `Attendance` and `mongoose` in scope: the gate,
      the 400 for a missing field, then the record as the schema accepts it
      (`new Date(date)` must be a valid Date and `status` an enum value, or
      save fails with 500). `parseDate` is `new Date(...)`. */
  function ManualRegistration(user: Option<Role>, form: ManualForm,
                              parseDate: string -> Option<int>): (r: Result<Attendance>)
    ensures r == Err(403) <==> user != Some(Teacher)
    ensures user == Some(Teacher) ==> (r == Err(400) <==> !AllFieldsGiven(form))
    ensures user == Some(Teacher) && AllFieldsGiven(form) ==>
      (r.Ok? <==> parseDate(form.date.value).Some? && ParseAttendanceStatus(form.status.value).Some?)
    ensures r.Err? ==> r.code in {400, 403, 500}
    ensures r.Ok? ==>
      && AllFieldsGiven(form)
      && Some(r.value.student) == form.studentId && Some(r.value.subject) == form.subjectId
      && Some(r.value.date) == parseDate(form.date.value)
      && Some(AttendanceStatusName(r.value.status)) == form.status
  {
    if TeacherGate(user).Some? then Err(403)
    else if !AllFieldsGiven(form) then Err(400)
    else
      match (parseDate(form.date.value), ParseAttendanceStatus(form.status.value))
      case (Some(d), Some(s)) => Ok(Attendance(form.studentId.value, form.subjectId.value, d, s))
      case _ => Err(500)
  }

  /** Manual registration as the file is written: neither `Attendance` nor
      `mongoose` is imported, so building the record throws a ReferenceError
      and every request that passes validation ends in 500. */
  function ManualRegistrationAsWritten(user: Option<Role>, form: ManualForm): (r: Result<Attendance>)
    ensures r.Err?
    ensures r == Err(403) <==> user != Some(Teacher)
    ensures user == Some(Teacher) ==> (r == Err(400) <==> !AllFieldsGiven(form))
  {
    if TeacherGate(user).Some? then Err(403)
    else if !AllFieldsGiven(form) then Err(400)
    else Err(500)
  }

  /** A well-formed request from a teacher: stored by the intended handler,
      refused with 500 by the handler as written. */
  lemma ManualRegistrationFailsAsWritten()
    ensures
      var form := ManualForm(Some("s1"), Some("m1"), Some("2024-05-01"), Some("present"));
      var parse := (s: string) => Some(1714521600000);
      && ManualRegistrationAsWritten(Some(Teacher), form) == Err(500)
      && ManualRegistration(Some(Teacher), form, parse) == Ok(Attendance("s1", "m1", 1714521600000, Present))
  {
  }

  /** Unlike check-in, manual registration does not look the key up: on a store
      with one record per key it can add a second record for the same key. */
  lemma ManualRegistrationCanDuplicate()
    ensures
      var records := [Attendance("s1", "m1", 0, Present)];
      var form := ManualForm(Some("s1"), Some("m1"), Some("1970-01-01"), Some("absent"));
      var parse := (s: string) => Some(0);
      var r := ManualRegistration(Some(Teacher), form, parse);
      && UniqueKeys(records)
      && r.Ok?
      && !UniqueKeys(records + [r.value])
  {
    var records := [Attendance("s1", "m1", 0, Present)];
    var r := Attendance("s1", "m1", 0, Absent);
    assert (records + [r])[0].Key() == (records + [r])[1].Key();
  }

  /** POST /manual-attendance-register (with the missing imports supplied):
      a registered record is appended whatever the store already holds. */
  method ManualRegister(db: Database, user: Option<Role>, form: ManualForm,
                        parseDate: string -> Option<int>)
    returns (reply: Reply)
    modifies db
    ensures db.users == old(db.users) && db.permissions == old(db.permissions)
    ensures db.venues == old(db.venues) && db.subjects == old(db.subjects)
    ensures ManualRegistration(user, form, parseDate).Err? ==>
      && reply == Status(ManualRegistration(user, form, parseDate).code)
      && db.attendance == old(db.attendance)
    ensures ManualRegistration(user, form, parseDate).Ok? ==>
      && reply == Status(201)
      && db.attendance == old(db.attendance) + [ManualRegistration(user, form, parseDate).value]
  {
    var outcome := ManualRegistration(user, form, parseDate);
    match outcome {
      case Err(code) =>
        reply := Status(code);
      case Ok(record) =>
        db.attendance := db.attendance + [record];
        reply := Status(201);
    }
  }
}
