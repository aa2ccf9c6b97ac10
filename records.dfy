/** Booking and contact records of script.js, how the submit handlers build them
    from the form, the validation guards exactly as written, and the admin
    usernames offered in the booking form. */
module Records {
  import opened Wrappers
  import opened Auth

  /** One stored booking; every field but `assignedAdmin` is text. */
  datatype Booking = Booking(
    name: string, email: string, phone: string, room: string, date: string,
    time: string, duration: string, endTime: string, description: string,
    bookedBy: string, assignedAdmin: Option<string>, createdAt: string)

  /** The booking form's field values (already trimmed); `assignedAdmin` is ""
      when the select is absent or left on its placeholder. */
  datatype BookingForm = BookingForm(
    name: string, email: string, phone: string, room: string, date: string,
    time: string, duration: string, endTime: string, description: string,
    assignedAdmin: string)

  datatype Contact = Contact(name: string, email: string, subject: string, message: string, createdAt: string)

  datatype ContactForm = ContactForm(name: string, email: string, subject: string, message: string)

  const Anonymous := "anonymous"

  /** `(getCurrentUser() && getCurrentUser().username) || 'anonymous'`. */
  function BookedBy(current: Option<User>): (who: string)
    ensures who != ""
    ensures current.None? ==> who == Anonymous
    ensures current.Some? && current.value.username != "" ==> who == current.value.username
    ensures current.Some? && current.value.username == "" ==> who == Anonymous
  {
    if current.Some? && current.value.username != "" then current.value.username else Anonymous
  }

  /** The record the submit handler builds; the end time is the form's field as it
      stands, not recomputed from start and duration. */
  function MakeBooking(f: BookingForm, current: Option<User>, createdAt: string): (b: Booking)
    ensures b.name == f.name && b.email == f.email && b.phone == f.phone && b.room == f.room
    ensures b.date == f.date && b.time == f.time && b.duration == f.duration
    ensures b.endTime == f.endTime && b.description == f.description && b.createdAt == createdAt
    ensures b.bookedBy == BookedBy(current)
    ensures b.assignedAdmin.None? <==> f.assignedAdmin == ""
    ensures b.assignedAdmin.Some? ==> b.assignedAdmin.value == f.assignedAdmin
  {
    Booking(f.name, f.email, f.phone, f.room, f.date, f.time, f.duration, f.endTime,
            f.description, BookedBy(current),
            if f.assignedAdmin == "" then None else Some(f.assignedAdmin), createdAt)
  }

  /** `Object.values(booking).some(v => v === "" || v === null)`. */
  predicate SomeValueBlank(b: Booking)
    ensures b.description == "" ==> SomeValueBlank(b)
    ensures b.assignedAdmin.None? ==> SomeValueBlank(b)
  {
    b.name == "" || b.email == "" || b.phone == "" || b.room == "" || b.date == ""
    || b.time == "" || b.duration == "" || b.endTime == "" || b.description == ""
    || b.bookedBy == "" || b.assignedAdmin.None? || b.createdAt == ""
  }

  /** One of the six fields the inner check asks for is empty. */
  predicate RequiredMissing(b: Booking)
  {
    b.name == "" || b.email == "" || b.room == "" || b.date == "" || b.time == "" || b.duration == ""
  }

  /** The submit guard as written: the required fields are checked only when some
      value is blank and the description is empty. Because an empty description is
      itself a blank value, it rejects exactly when the description is empty and a
      required field is missing; a non-empty description lets a form with empty
      required fields through. */
  predicate BookingRejected(b: Booking)
    ensures BookingRejected(b) <==> b.description == "" && RequiredMissing(b)
  {
    (SomeValueBlank(b) && b.description == "") && RequiredMissing(b)
  }

  /** The contact handler's guard: name, email and message are required. */
  predicate ContactRejected(f: ContactForm)
    ensures !ContactRejected(f) ==> f.name != "" && f.email != "" && f.message != ""
    ensures f.name != "" && f.email != "" && f.message != "" ==> !ContactRejected(f)
  {
    f.name == "" || f.email == "" || f.message == ""
  }

  /** The stored contact: the form's four fields and the creation time. */
  function MakeContact(f: ContactForm, createdAt: string): (c: Contact)
    ensures c.name == f.name && c.email == f.email && c.subject == f.subject
    ensures c.message == f.message && c.createdAt == createdAt
  {
    Contact(f.name, f.email, f.subject, f.message, createdAt)
  }

  /** `users.filter(u => u.role === "admin").map(u => u.username)`. */
  function AdminFilter(users: seq<User>): (names: seq<string>)
    ensures forall x :: x in names ==> exists u :: u in users && u.role == "admin" && u.username == x
    ensures forall u :: u in users && u.role == "admin" ==> u.username in names
    ensures |names| <= |users|
    ensures |users| == 1 ==> names == (if users[0].role == "admin" then [users[0].username] else [])
  {
    if users == [] then []
    else
      var rest := AdminFilter(users[1..]);
      if users[0].role == "admin" then [users[0].username] + rest else rest
  }

  /** The usernames offered in the "Admin In-charge" select: the catalog's admins,
      or "admin1" alone when the catalog is unavailable or has no admin. */
  function AdminUsernames(users: Option<seq<User>>): (names: seq<string>)
    ensures |names| >= 1
    ensures users.None? ==> names == ["admin1"]
    ensures users.Some? && (exists u :: u in users.value && u.role == "admin") ==>
      names == AdminFilter(users.value)
    ensures users.Some? && (forall u :: u in users.value ==> u.role != "admin") ==>
      names == ["admin1"]
  {
    var found := if users.Some? then AdminFilter(users.value) else [];
    if |found| == 0 then ["admin1"] else assert found[0] in found; found
  }

  // ---------------------------------------------------------------------------
  // Properties

  /** `filter` then `map` work element by element: the names for a concatenation
      are the names for each part, in order. */
  lemma {:induction false} AdminFilterAppend(a: seq<User>, b: seq<User>)
    ensures AdminFilter(a + b) == AdminFilter(a) + AdminFilter(b)
    decreases |a|
  {
    if a != [] {
      assert (a + b)[1..] == a[1..] + b;
      AdminFilterAppend(a[1..], b);
    } else {
      assert a + b == b;
    }
  }

  /** The subject is optional: it never decides whether a contact is rejected. */
  lemma ContactSubjectOptional(f: ContactForm, subject: string)
    ensures ContactRejected(f) == ContactRejected(f.(subject := subject))
  {
  }

  /** With the catalog of auth.js the select offers exactly "admin1". */
  lemma {:induction false} CatalogAdmins()
    ensures AdminUsernames(Some(Catalog)) == ["admin1"]
  {
    assert Catalog[1..][1..][1..] == [];
    assert AdminFilter(Catalog[1..][1..]) == [];
    assert AdminFilter(Catalog[1..]) == ["admin1"];
  }
}
