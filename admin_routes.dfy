/** The admin routes that load or build a document, assign its fields and
    save it (routes/adminRoutes.js): POST /add-user, POST /edit-user and
    PUT /venue/:id. Each is a pure function giving the document that is
    saved (or the status code instead), and a method that applies it to the
    store. */
module AdminRoutes {
  import opened Common
  import opened Models

  /** The body of /add-user and /edit-user; each field may be missing. */
  datatype UserForm = UserForm(
    username: Option<string>,
    name: Option<string>,
    role: Option<string>,
    department: Option<string>,
    course: Option<string>,
    password: Option<string>)

  /** The unique index on `username` refuses a save when another user (one
      with a different `_id`) already holds the name. */
  predicate UsernameTaken(users: seq<User>, username: string, self: Id) {
    exists u :: u in users && u.username == username && u.id != self
  }

  /** `User.findById(id)`. */
  function UserIndex(users: seq<User>, id: Id): (r: Option<nat>)
    ensures r.Some? ==> r.value < |users| && users[r.value].id == id
    ensures r.None? ==> forall j :: 0 <= j < |users| ==> users[j].id != id
  {
    FindFirst(users, (u: User) => u.id == id)
  }

  // --------------------------------------------------------------- add-user

  /** The user POST /add-user stores under the fresh `_id` `id`, or 500.
      `hash` is bcrypt's hash (it throws on a missing password); an empty
      department or course is stored as null. */
  function AddedUser(users: seq<User>, id: Id, form: UserForm, hash: string -> string): (r: Result<User>)
    ensures r.Err? ==> r.code == 500
    ensures r.Ok? <==>
      && form.password.Some? && hash(form.password.value) != ""
      && Truthy(form.name) && Truthy(form.username)
      && form.role.Some? && ParseRole(form.role.value).Some?
      && !UsernameTaken(users, form.username.value, id)
    ensures r.Ok? ==>
      && r.value.id == id
      && Some(r.value.username) == form.username && Some(r.value.name) == form.name
      && Some(RoleName(r.value.role)) == form.role
      && r.value.password == hash(form.password.value)
      && r.value.department == OrNull(form.department) && r.value.course == OrNull(form.course)
      && r.value.level.None?
  {
    if form.password.None? then Err(500)
    else
      var draft := UserDraft(id, form.name, form.username, Some(hash(form.password.value)), form.role,
                             OrNull(form.course), OrNull(form.department), None);
      match ValidateUser(draft)
      case None => Err(500)
      case Some(u) => if UsernameTaken(users, u.username, id) then Err(500) else Ok(u)
  }

  /** A user saved next to the others keeps `_id` and `username` unique. */
  lemma AppendKeepsUsersUnique(users: seq<User>, u: User)
    requires UniqueUsers(users)
    requires forall j :: 0 <= j < |users| ==> users[j].id != u.id
    requires !UsernameTaken(users, u.username, u.id)
    ensures UniqueUsers(users + [u])
  {
    var r := users + [u];
    forall i, j | 0 <= i < j < |r| ensures r[i].id != r[j].id && r[i].username != r[j].username {
      if j == |users| {
        assert r[i] in users;
      }
    }
  }

  /** POST /add-user. `id` is the `_id` MongoDB assigns to the new document. */
  method AddUser(db: Database, id: Id, form: UserForm, hash: string -> string) returns (reply: Reply)
    requires db.Valid()
    requires forall j :: 0 <= j < |db.users| ==> db.users[j].id != id
    modifies db
    ensures db.Valid()
    ensures db.attendance == old(db.attendance) && db.permissions == old(db.permissions)
    ensures db.venues == old(db.venues) && db.subjects == old(db.subjects)
    ensures AddedUser(old(db.users), id, form, hash).Err? ==>
      reply == Status(500) && db.users == old(db.users)
    ensures AddedUser(old(db.users), id, form, hash).Ok? ==>
      && reply == Redirect("/admin/users")
      && db.users == old(db.users) + [AddedUser(old(db.users), id, form, hash).value]
  {
    var added := AddedUser(db.users, id, form, hash);
    match added {
      case Err(code) =>
        reply := Status(code);
      case Ok(u) =>
        AppendKeepsUsersUnique(db.users, u);
        db.users := db.users + [u];
        reply := Redirect("/admin/users");
    }
  }

  // -------------------------------------------------------------- edit-user

  /** The user POST /edit-user saves over `u`, or 500. Username, name and role
      are assigned from the form, an empty department or course becomes
      null, and the hash is replaced only when a non-empty password is given;
      `_id` and `level` are kept. */
  function EditedUser(users: seq<User>, u: User, form: UserForm, hash: string -> string): (r: Result<User>)
    ensures r.Err? ==> r.code == 500
    ensures r.Ok? <==>
      && Truthy(form.name) && Truthy(form.username)
      && form.role.Some? && ParseRole(form.role.value).Some?
      && (if Truthy(form.password) then hash(form.password.value) != "" else u.password != "")
      && !UsernameTaken(users, form.username.value, u.id)
    ensures r.Ok? ==>
      && r.value.id == u.id && r.value.level == u.level
      && Some(r.value.username) == form.username && Some(r.value.name) == form.name
      && Some(RoleName(r.value.role)) == form.role
      && r.value.department == OrNull(form.department) && r.value.course == OrNull(form.course)
    ensures r.Ok? && Truthy(form.password) ==> r.value.password == hash(form.password.value)
    ensures r.Ok? && !Truthy(form.password) ==> r.value.password == u.password
  {
    var password := if Truthy(form.password) then hash(form.password.value) else u.password;
    var draft := UserDraft(u.id, form.name, form.username, Some(password), form.role,
                           OrNull(form.course), OrNull(form.department), u.level);
    match ValidateUser(draft)
    case None => Err(500)
    case Some(edited) => if UsernameTaken(users, edited.username, u.id) then Err(500) else Ok(edited)
  }

  /** Saving the same form again, over the store the first save left, saves
      again and changes nothing but the password hash. bcrypt salts every
      call, so the two saves hash with `hash1` and `hash2`; a hash is never
      empty. Without a new password the second save changes nothing at all. */
  lemma EditUserIdempotent(users: seq<User>, i: nat, form: UserForm,
                           hash1: string -> string, hash2: string -> string)
    requires i < |users|
    requires EditedUser(users, users[i], form, hash1).Ok?
    requires Truthy(form.password) ==> hash2(form.password.value) != ""
    ensures var e := EditedUser(users, users[i], form, hash1).value;
      var again := EditedUser(users[i := e], e, form, hash2);
      && again.Ok?
      && again.value == e.(password := again.value.password)
      && (!Truthy(form.password) ==> again.value == e)
  {
  }

  /** Replacing a user by an edit of it keeps `_id` and `username` unique. */
  lemma ReplaceKeepsUsersUnique(users: seq<User>, i: nat, e: User)
    requires UniqueUsers(users) && i < |users|
    requires e.id == users[i].id
    requires !UsernameTaken(users, e.username, e.id)
    ensures UniqueUsers(users[i := e])
  {
    var r := users[i := e];
    forall a, b | 0 <= a < b < |r| ensures r[a].id != r[b].id && r[a].username != r[b].username {
      if a == i {
        assert users[b] in users;
      } else if b == i {
        assert users[a] in users;
      }
    }
  }

  /** POST /edit-user: an unknown id is a 404 and changes nothing; otherwise
      only the loaded user is replaced by its edit. */
  method EditUser(db: Database, userId: Id, form: UserForm, hash: string -> string) returns (reply: Reply)
    requires db.Valid()
    modifies db
    ensures db.Valid()
    ensures db.attendance == old(db.attendance) && db.permissions == old(db.permissions)
    ensures db.venues == old(db.venues) && db.subjects == old(db.subjects)
    ensures UserIndex(old(db.users), userId).None? ==>
      reply == Status(404) && db.users == old(db.users)
    ensures UserIndex(old(db.users), userId).Some? ==>
      var i := UserIndex(old(db.users), userId).value;
      var e := EditedUser(old(db.users), old(db.users)[i], form, hash);
      && (e.Err? ==> reply == Status(500) && db.users == old(db.users))
      && (e.Ok? ==> reply == Redirect("/admin/users") && db.users == old(db.users)[i := e.value])
  {
    var found := UserIndex(db.users, userId);
    if found.None? {
      return Status(404);
    }
    var i := found.value;
    var edited := EditedUser(db.users, db.users[i], form, hash);
    match edited {
      case Err(code) =>
        reply := Status(code);
      case Ok(e) =>
        ReplaceKeepsUsersUnique(db.users, i, e);
        db.users := db.users[i := e];
        reply := Redirect("/admin/users");
    }
  }

  // ------------------------------------------------------------ venue edit

  /** A body field assigned to a Boolean path: missing, cast to a Boolean,
      or a value Mongoose cannot cast (which fails the save). */
  datatype BoolField = Unset | Cast(value: bool) | Uncastable

  /** The body of PUT /venue/:id; `capacity` is the value Mongoose casts to a
      Number (`None`: missing or not numeric). */
  datatype VenueForm = VenueForm(
    name: Option<string>,
    capacity: Option<real>,
    isBooked: BoolField,
    bookingExpiry: Option<string>)

  /** `Venue.findById(id)`. */
  function VenueIndex(venues: seq<Venue>, id: Id): (r: Option<nat>)
    ensures r.Some? ==> r.value < |venues| && venues[r.value].id == id
    ensures r.None? ==> forall j :: 0 <= j < |venues| ==> venues[j].id != id
  {
    FindFirst(venues, (v: Venue) => v.id == id)
  }

  /** The venue PUT /venue/:id saves over `v`, or 500: name, capacity and
      isBooked are assigned, a falsy `bookingExpiry` becomes null and any
      other is parsed by `parseDate` (`new Date(...)`); `bookedBy` is kept.
      A missing `isBooked` is unset and reads back as the schema default
      `false`; one that does not cast to a Boolean fails the save. */
  function UpdatedVenue(v: Venue, form: VenueForm, parseDate: string -> Option<int>): (r: Result<Venue>)
    ensures r.Err? ==> r.code == 500
    ensures r.Ok? <==>
      Truthy(form.name) && form.capacity.Some? && !form.isBooked.Uncastable?
      && (Truthy(form.bookingExpiry) ==> parseDate(form.bookingExpiry.value).Some?)
    ensures r.Ok? ==>
      && r.value.id == v.id && r.value.bookedBy == v.bookedBy
      && Some(r.value.name) == form.name && Some(r.value.capacity) == form.capacity
      && (r.value.isBooked <==> form.isBooked == Cast(true))
      && (r.value.bookingExpiry.None? <==> !Truthy(form.bookingExpiry))
      && (Truthy(form.bookingExpiry) ==> r.value.bookingExpiry == parseDate(form.bookingExpiry.value))
  {
    if !Truthy(form.name) || form.capacity.None? || form.isBooked.Uncastable? then Err(500)
    else
      var isBooked := form.isBooked.Cast? && form.isBooked.value;
      if !Truthy(form.bookingExpiry) then
        Ok(Venue(v.id, form.name.value, form.capacity.value, isBooked, None, v.bookedBy))
    else
        match parseDate(form.bookingExpiry.value)
        case None => Err(500)
        case Some(t) =>
          Ok(Venue(v.id, form.name.value, form.capacity.value, isBooked, Some(t), v.bookedBy))
  }

  /** Putting the same form twice leaves the venue as the first put left it. */
  lemma UpdateVenueIdempotent(v: Venue, form: VenueForm, parseDate: string -> Option<int>)
    requires UpdatedVenue(v, form, parseDate).Ok?
    ensures var u := UpdatedVenue(v, form, parseDate).value;
      UpdatedVenue(u, form, parseDate) == Ok(u)
  {
  }

  /** The edit never touches `bookedBy`, so a venue can end up not booked yet
      still naming a holder. */
  lemma UnbookedVenueKeepsHolder()
    ensures
      var v := Venue("v1", "Hall A", 120.0, true, Some(1000), Some("t1"));
      var form := VenueForm(Some("Hall A"), Some(120.0), Cast(false), None);
      var parse := (s: string) => None;
      UpdatedVenue(v, form, parse) == Ok(Venue("v1", "Hall A", 120.0, false, None, Some("t1")))
  {
  }

  /** PUT /venue/:id: an unknown id is a 404 and changes nothing; otherwise
      only the loaded venue is replaced by its update. */
  method UpdateVenue(db: Database, id: Id, form: VenueForm, parseDate: string -> Option<int>)
    returns (reply: Reply)
    requires db.Valid()
    modifies db
    ensures db.Valid()
    ensures db.users == old(db.users) && db.attendance == old(db.attendance)
    ensures db.permissions == old(db.permissions) && db.subjects == old(db.subjects)
    ensures VenueIndex(old(db.venues), id).None? ==>
      reply == Status(404) && db.venues == old(db.venues)
    ensures VenueIndex(old(db.venues), id).Some? ==>
      var i := VenueIndex(old(db.venues), id).value;
      var u := UpdatedVenue(old(db.venues)[i], form, parseDate);
      && (u.Err? ==> reply == Status(500) && db.venues == old(db.venues))
      && (u.Ok? ==> reply == Redirect("/venues") && db.venues == old(db.venues)[i := u.value])
  {
    var found := VenueIndex(db.venues, id);
    if found.None? {
      return Status(404);
    }
    var i := found.value;
    var updated := UpdatedVenue(db.venues[i], form, parseDate);
    match updated {
      case Err(code) =>
        reply := Status(code);
      case Ok(u) =>
        db.venues := db.venues[i := u];
        reply := Redirect("/venues");
    }
  }
}
