/** The document shapes of the Mongoose models (models/Attendance.js,
    models/User.js, models/Venue.js, models/College.js), the validation the
    schemas apply on save, and the store that holds the collections the
    route handlers change. */
module Models {
  import opened Common

  // ---------------------------------------------------------------- enums

  /** `status` of an attendance record: the schema's enum has exactly these two values. */
  datatype AttendanceStatus = Present | Absent

  function AttendanceStatusName(s: AttendanceStatus): string {
    match s
    case Present => "present"
    case Absent => "absent"
  }

  /** The enum validator of `Attendance.status`: the strings it accepts and what they mean. */
  function ParseAttendanceStatus(s: string): (r: Option<AttendanceStatus>)
    ensures r.Some? ==> AttendanceStatusName(r.value) == s
    ensures r.None? ==> forall st: AttendanceStatus :: AttendanceStatusName(st) != s
  {
    if s == "present" then Some(Present)
    else if s == "absent" then Some(Absent)
    else None
  }

  /** `status` of a permission request. */
  datatype PermissionStatus = Pending | Approved | Rejected

  /** The schema default of `Permission.status`. */
  const DefaultPermissionStatus: PermissionStatus := Pending

  datatype Role = Student | Teacher | Admin

  function RoleName(r: Role): string {
    match r
    case Student => "student"
    case Teacher => "teacher"
    case Admin => "admin"
  }

  /** The enum validator of `User.role`. */
  function ParseRole(s: string): (r: Option<Role>)
    ensures r.Some? ==> RoleName(r.value) == s
    ensures r.None? ==> forall role: Role :: RoleName(role) != s
  {
    if s == "student" then Some(Student)
    else if s == "teacher" then Some(Teacher)
    else if s == "admin" then Some(Admin)
    else None
  }

  // ------------------------------------------------------------ attendance

  /** The (student, subject, date) triple that check-in treats as the identity of a record. */
  datatype AttendanceKey = AttendanceKey(student: Id, subject: Id, date: int)

  /** An attendance document. All four fields are required by the schema; `date` is a
      Date, kept as milliseconds since the epoch. */
  datatype Attendance = Attendance(student: Id, subject: Id, date: int, status: AttendanceStatus) {
    function Key(): AttendanceKey {
      AttendanceKey(student, subject, date)
    }
  }

  /** At most one record per (student, subject, date). */
  ghost predicate UniqueKeys(records: seq<Attendance>) {
    forall i, j :: 0 <= i < j < |records| ==> records[i].Key() != records[j].Key()
  }

  /** An uploaded file stored with a permission request. */
  datatype Attachment = Attachment(data: seq<bv8>, contentType: string)

  /** A permission (leave) request. `student`, `subject` and `reason` are required;
      `attachment`, `verifiedBy` and `verifiedAt` are optional; `createdAt`
      defaults to the time of creation. */
  datatype Permission = Permission(
    student: Id,
    subject: Id,
    reason: string,
    attachment: Option<Attachment>,
    status: PermissionStatus,
    createdAt: int,
    verifiedBy: Option<Id>,
    verifiedAt: Option<int>)

  /** `new Permission({...})` with status `pending`, followed by the schema's
      validation on save: the document exists only when `reason` passes the
      required validator. */
  function NewPermission(student: Id, subject: Id, reason: Option<string>,
                         attachment: Option<Attachment>, now: int): (r: Option<Permission>)
    ensures r.Some? <==> Truthy(reason)
    ensures r.Some? ==>
      && r.value.student == student && r.value.subject == subject
      && Some(r.value.reason) == reason && r.value.attachment == attachment
    ensures r.Some? ==>
      && r.value.status == DefaultPermissionStatus && r.value.createdAt == now
      && r.value.verifiedBy.None? && r.value.verifiedAt.None?
  {
    if Truthy(reason) then
      Some(Permission(student, subject, reason.value, attachment, Pending, now, None, None))
    else None
  }

  // ----------------------------------------------------------------- users

  /** A stored user; `password` holds the bcrypt hash. */
  datatype User = User(
    id: Id,
    name: string,
    username: string,
    password: string,
    role: Role,
    course: Option<Id>,
    department: Option<Id>,
    level: Option<string>)

  /** A user document in memory, before the schema has validated it. */
  datatype UserDraft = UserDraft(
    id: Id,
    name: Option<string>,
    username: Option<string>,
    password: Option<string>,
    role: Option<string>,
    course: Option<Id>,
    department: Option<Id>,
    level: Option<string>)

  /** Validation on save: `name`, `username`, `password` and `role` are required
      (a required string may not be empty) and `role` must be in the enum. */
  function ValidateUser(d: UserDraft): (r: Option<User>)
    ensures r.Some? <==> Truthy(d.name) && Truthy(d.username) && Truthy(d.password)
                         && d.role.Some? && ParseRole(d.role.value).Some?
    ensures r.Some? ==>
      && r.value.id == d.id && Some(r.value.name) == d.name
      && Some(r.value.username) == d.username && Some(r.value.password) == d.password
      && Some(RoleName(r.value.role)) == d.role
      && r.value.course == d.course && r.value.department == d.department
      && r.value.level == d.level
  {
    if Truthy(d.name) && Truthy(d.username) && Truthy(d.password) && d.role.Some? then
      match ParseRole(d.role.value)
      case Some(role) =>
        Some(User(d.id, d.name.value, d.username.value, d.password.value, role,
                  d.course, d.department, d.level))
      case None => None
    else None
  }

  /** The unique indexes on users: `_id`, and `username` (declared `unique`). */
  ghost predicate UniqueUsers(users: seq<User>) {
    forall i, j :: 0 <= i < j < |users| ==>
      users[i].id != users[j].id && users[i].username != users[j].username
  }

  // ---------------------------------------------------------------- venues

  /** A venue. `capacity` is a Number (any real, not necessarily whole or
      positive); `bookedBy` is never written by any route handler of the model. */
  datatype Venue = Venue(
    id: Id,
    name: string,
    capacity: real,
    isBooked: bool,
    bookingExpiry: Option<int>,
    bookedBy: Option<Id>)

  ghost predicate UniqueVenueIds(venues: seq<Venue>) {
    forall i, j :: 0 <= i < j < |venues| ==> venues[i].id != venues[j].id
  }

  // ------------------------------------------------------- academic catalog

  datatype College = College(id: Id, name: string)
  datatype Department = Department(id: Id, name: string, college: Id)
  datatype Course = Course(id: Id, name: string, department: Id, subjects: seq<Id>)
  datatype Subject = Subject(id: Id, name: string, course: Id, teachers: seq<Id>)

  // ------------------------------------------------------------- responses

  /** What a handler sends back: a redirect, a bare status code, or the 200
      answer "Attendance marked as <status>" of the check-in route. */
  datatype Reply = Redirect(location: string) | Status(code: nat) | Marked(status: AttendanceStatus)

  // ------------------------------------------------------------------ store

  /** The collections the route handlers read or change, each in natural
      (insertion) order. No handler of the model writes `subjects`. */
  class Database {
    var users: seq<User>
    var attendance: seq<Attendance>
    var permissions: seq<Permission>
    var venues: seq<Venue>
    var subjects: seq<Subject>

    /** The unique indexes MongoDB maintains on the changed collections. */
    ghost predicate Valid()
      reads this
    {
      UniqueUsers(users) && UniqueVenueIds(venues)
    }

    constructor ()
      ensures Valid()
      ensures users == [] && attendance == [] && permissions == [] && venues == [] && subjects == []
    {
      users, attendance, permissions, venues, subjects := [], [], [], [], [];
    }
  }
}
