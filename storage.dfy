/** The write paths of script.js over local storage: booking submit, contact
    submit and clear-all. Each table is the sequence of records its key holds;
    an absent key reads as the empty sequence. */
module Storage {
  import opened Wrappers
  import opened Auth
  import opened Records

  /** The store after one booking submit: unchanged when the guard rejects,
      otherwise the new record appended. */
  function SubmitStep(all: seq<Booking>, b: Booking): (next: seq<Booking>)
    ensures BookingRejected(b) ==> next == all
    ensures !BookingRejected(b) ==> |next| == |all| + 1 && next[..|all|] == all && next[|all|] == b
  {
    if BookingRejected(b) then all else all + [b]
  }

  /** The store after submitting the records `bs` one after the other. */
  function SubmitAll(all: seq<Booking>, bs: seq<Booking>): seq<Booking>
    decreases |bs|
  {
    if bs == [] then all else SubmitAll(SubmitStep(all, bs[0]), bs[1..])
  }

  /** Local storage as the booking and contact pages use it. */
  class LocalStore {
    var bookings: seq<Booking>
    var contacts: seq<Contact>

    constructor ()
      ensures bookings == [] && contacts == []
    {
      bookings := [];
      contacts := [];
    }

    /** Booking submit: builds the record from the form, the current session user
        and the creation time; alerts and stores nothing when the guard rejects,
        otherwise appends it. */
    method SubmitBooking(form: BookingForm, current: Option<User>, createdAt: string) returns (accepted: bool)
      modifies this
      ensures var b := MakeBooking(form, current, createdAt);
        accepted == !BookingRejected(b) && bookings == SubmitStep(old(bookings), b)
      ensures contacts == old(contacts)
    {
      var booking := MakeBooking(form, current, createdAt);
      if BookingRejected(booking) {
        accepted := false;
        return;
      }
      var all := bookings;
      all := all + [booking];
      bookings := all;
      accepted := true;
    }

    /** Contact submit: name, email and message required; on success the record
        with its creation time is appended. */
    method SubmitContact(form: ContactForm, createdAt: string) returns (accepted: bool)
      modifies this
      ensures accepted == !ContactRejected(form)
      ensures contacts == if accepted then old(contacts) + [MakeContact(form, createdAt)] else old(contacts)
      ensures bookings == old(bookings)
    {
      if ContactRejected(form) {
        accepted := false;
        return;
      }
      var all := contacts;
      all := all + [MakeContact(form, createdAt)];
      contacts := all;
      accepted := true;
    }

    /** Clear-all: when the user confirms, the bookings key is removed, so the next
        read is empty; contacts are untouched. */
    method ClearBookings(confirmed: bool)
      modifies this
      ensures bookings == if confirmed then [] else old(bookings)
      ensures contacts == old(contacts)
    {
      if confirmed {
        bookings := [];
      }
    }
  }

  // ---------------------------------------------------------------------------
  // Properties

  /** Submitting N records that pass the guard leaves the earlier records in place
      and adds exactly those N after them, in submission order. */
  lemma {:induction false} SubmitAllAppends(all: seq<Booking>, bs: seq<Booking>)
    requires forall k :: 0 <= k < |bs| ==> !BookingRejected(bs[k])
    ensures SubmitAll(all, bs) == all + bs
    decreases |bs|
  {
    if bs != [] {
      SubmitAllAppends(all + [bs[0]], bs[1..]);
      assert all + [bs[0]] + bs[1..] == all + bs;
    }
  }

  /** Whatever is submitted, earlier records are never changed or dropped and the
      store grows by at most one record per submit. */
  lemma {:induction false} SubmitAllKeepsEarlier(all: seq<Booking>, bs: seq<Booking>)
    ensures |all| <= |SubmitAll(all, bs)| <= |all| + |bs|
    ensures SubmitAll(all, bs)[..|all|] == all
    decreases |bs|
  {
    if bs != [] {
      var next := SubmitStep(all, bs[0]);
      SubmitAllKeepsEarlier(next, bs[1..]);
      assert SubmitAll(all, bs)[..|all|] == SubmitAll(next, bs[1..])[..|next|][..|all|];
    }
  }

  /** A non-empty description lets a booking through whatever else is empty;
      with an empty description a missing required field blocks it. */
  lemma DescriptionBypassesGuard(all: seq<Booking>, f: BookingForm, current: Option<User>, createdAt: string)
    ensures var b := MakeBooking(f, current, createdAt);
      (f.description != "" ==> SubmitStep(all, b) == all + [b])
      && (f.description == "" && RequiredMissing(b) ==> SubmitStep(all, b) == all)
  {
  }
}
