/** The data of the reservation widget and the pure parts of its handlers:
    the three-rule validator, the list transforms used by booking, checkout
    and delete, the seat sum, and the invariant that every handler keeps. */
module Reservations {
  import opened Names

  datatype Option<T> = None | Some(value: T)

  /** A formatted wall-clock reading; the model never looks inside it. */
  type Stamp = string

  /** Seat capacity of the restaurant. */
  const TotalSeats: int := 20

  /** One booked table. `checkOut` is `None` until the party checks out. */
  datatype Reservation = Reservation(
    id: nat,
    name: string,
    phone: string,
    guests: int,
    checkIn: Stamp,
    checkOut: Option<Stamp>)
  {
    predicate CheckedOut() {
      checkOut.Some?
    }
  }

  /** The booking form: three raw text fields. */
  datatype Form = Form(name: string, phone: string, guests: string)

  const EmptyForm: Form := Form("", "", "")

  /** Outcome of validating a submitted form. */
  datatype Verdict = InvalidDetails | NotEnoughSeats | DuplicateName | Accept

  // ---------------------------------------------------------------------------
  // Validation

  /** Rule 1: all three fields filled in and a positive guest count. */
  predicate DetailsValid(form: Form, guestCount: int) {
    form.name != "" && form.phone != "" && form.guests != "" && guestCount > 0
  }

  /** Rule 3's test: some stored reservation's name collides with `name`. */
  function NameTaken(rs: seq<Reservation>, name: string): (taken: bool)
    ensures taken <==> exists i :: 0 <= i < |rs| && SameName(rs[i].name, name)
  {
    if rs == [] then false
    else SameName(rs[0].name, name) || NameTaken(rs[1..], name)
  }

  /** The three rules, checked in order; the first one that fails decides. */
  function Validate(form: Form, guestCount: int, seatsLeft: int, rs: seq<Reservation>): Verdict
  {
    if !DetailsValid(form, guestCount) then InvalidDetails
    else if guestCount > seatsLeft then NotEnoughSeats
    else if NameTaken(rs, form.name) then DuplicateName
    else Accept
  }

  /** First failure wins: each verdict holds exactly when the rules before it
      pass and its own rule fails. */
  lemma ValidateFirstFailureWins(form: Form, guestCount: int, seatsLeft: int, rs: seq<Reservation>)
    ensures Validate(form, guestCount, seatsLeft, rs) == InvalidDetails
        <==> form.name == "" || form.phone == "" || form.guests == "" || guestCount <= 0
    ensures Validate(form, guestCount, seatsLeft, rs) == NotEnoughSeats
        <==> DetailsValid(form, guestCount) && guestCount > seatsLeft
    ensures Validate(form, guestCount, seatsLeft, rs) == DuplicateName
        <==> DetailsValid(form, guestCount) && guestCount <= seatsLeft
             && exists i :: 0 <= i < |rs| && SameName(rs[i].name, form.name)
    ensures Validate(form, guestCount, seatsLeft, rs) == Accept
        <==> DetailsValid(form, guestCount) && 0 < guestCount <= seatsLeft
             && forall i :: 0 <= i < |rs| ==> !SameName(rs[i].name, form.name)
  {
  }

  // ---------------------------------------------------------------------------
  // List transforms

  /** Checkout's `map`: every entry whose id matches gets `checkOut` set to
      `stamp` (overwriting any earlier stamp); the others are kept as they are. */
  function CheckOutMatching(rs: seq<Reservation>, id: nat, stamp: Stamp): (out: seq<Reservation>)
    ensures |out| == |rs|
    ensures forall i :: 0 <= i < |rs| && rs[i].id == id ==> out[i] == rs[i].(checkOut := Some(stamp))
    ensures forall i :: 0 <= i < |rs| && rs[i].id != id ==> out[i] == rs[i]
  {
    if rs == [] then []
    else
      var head := if rs[0].id == id then rs[0].(checkOut := Some(stamp)) else rs[0];
      [head] + CheckOutMatching(rs[1..], id, stamp)
  }

  /** Checking out an id no entry carries leaves the list as it was. */
  lemma CheckOutUnknownId(rs: seq<Reservation>, id: nat, stamp: Stamp)
    requires forall i :: 0 <= i < |rs| ==> rs[i].id != id
    ensures CheckOutMatching(rs, id, stamp) == rs
  {
  }

  /** Checkout is not guarded: checking out again overwrites the first stamp,
      leaving the list as if only the second checkout had happened. */
  lemma CheckOutTwice(rs: seq<Reservation>, id: nat, first: Stamp, second: Stamp)
    ensures CheckOutMatching(CheckOutMatching(rs, id, first), id, second)
         == CheckOutMatching(rs, id, second)
  {
  }

  /** Delete's `find`: the first entry with the given id, if any. */
  function Find(rs: seq<Reservation>, id: nat): (found: Option<Reservation>)
    ensures found.None? <==> forall i :: 0 <= i < |rs| ==> rs[i].id != id
    ensures found.Some? ==>
      exists k :: 0 <= k < |rs| && rs[k] == found.value && rs[k].id == id
        && forall j :: 0 <= j < k ==> rs[j].id != id
  {
    if rs == [] then None
    else if rs[0].id == id then Some(rs[0])
    else
      var found := Find(rs[1..], id);
      if found.Some? then
        ghost var k :| 0 <= k < |rs[1..]| && rs[1..][k] == found.value && rs[1..][k].id == id
          && forall j :: 0 <= j < k ==> rs[1..][j].id != id;
        assert rs[k + 1] == found.value;
        found
      else found
  }

  /** Delete's `filter`: the entries whose id differs, in their original order. */
  function Without(rs: seq<Reservation>, id: nat): (out: seq<Reservation>)
    ensures |out| <= |rs|
    ensures forall i :: 0 <= i < |out| ==> out[i].id != id
  {
    if rs == [] then []
    else if rs[0].id == id then Without(rs[1..], id)
    else [rs[0]] + Without(rs[1..], id)
  }

  /** The filter keeps exactly the entries whose id differs. */
  lemma {:induction false} WithoutMembers(rs: seq<Reservation>, id: nat)
    ensures forall x :: x in Without(rs, id) <==> x in rs && x.id != id
  {
    if rs != [] {
      WithoutMembers(rs[1..], id);
      assert rs == [rs[0]] + rs[1..];
    }
  }

  /** Filtering an id no entry carries changes nothing. */
  lemma {:induction false} WithoutAbsent(rs: seq<Reservation>, id: nat)
    requires forall i :: 0 <= i < |rs| ==> rs[i].id != id
    ensures Without(rs, id) == rs
  {
    if rs != [] {
      WithoutAbsent(rs[1..], id);
      assert [rs[0]] + rs[1..] == rs;
    }
  }

  /** With distinct ids, filtering the id at position k removes exactly that
      entry and keeps the rest in order. */
  lemma {:induction false} WithoutUnique(rs: seq<Reservation>, k: nat)
    requires k < |rs|
    requires IdsDistinct(rs)
    ensures Without(rs, rs[k].id) == rs[..k] + rs[k + 1..]
  {
    var id := rs[k].id;
    var tail := rs[1..];
    if k == 0 {
      forall i | 0 <= i < |tail| ensures tail[i].id != id {
        assert tail[i] == rs[i + 1];
      }
      WithoutAbsent(tail, id);
    } else {
      IdsDistinctTail(rs);
      assert tail[k - 1] == rs[k];
      WithoutUnique(tail, k - 1);
      assert rs[0].id != id;
      calc {
        Without(rs, id);
        [rs[0]] + Without(tail, id);
        [rs[0]] + (tail[..k - 1] + tail[k..]);
        { assert tail[..k - 1] == rs[1..k] && tail[k..] == rs[k + 1..]; }
        [rs[0]] + (rs[1..k] + rs[k + 1..]);
        { assert rs[..k] == [rs[0]] + rs[1..k]; }
        rs[..k] + rs[k + 1..];
      }
    }
  }

  lemma IdsDistinctTail(rs: seq<Reservation>)
    requires rs != [] && IdsDistinct(rs)
    ensures IdsDistinct(rs[1..])
  {
  }

  // ---------------------------------------------------------------------------
  // Seats

  /** Seats held by a list of reservations. */
  function SumGuests(rs: seq<Reservation>): int
  {
    if rs == [] then 0 else rs[0].guests + SumGuests(rs[1..])
  }

  lemma {:induction false} SumGuestsConcat(a: seq<Reservation>, b: seq<Reservation>)
    ensures SumGuests(a + b) == SumGuests(a) + SumGuests(b)
  {
    if a == [] {
      assert a + b == b;
    } else {
      assert (a + b)[1..] == a[1..] + b;
      SumGuestsConcat(a[1..], b);
    }
  }

  /** Checkout frees no seats: the sum of guests is the same after the map. */
  lemma {:induction false} CheckOutKeepsSum(rs: seq<Reservation>, id: nat, stamp: Stamp)
    ensures SumGuests(CheckOutMatching(rs, id, stamp)) == SumGuests(rs)
  {
    if rs != [] {
      CheckOutKeepsSum(rs[1..], id, stamp);
      var out := CheckOutMatching(rs, id, stamp);
      assert out[1..] == CheckOutMatching(rs[1..], id, stamp);
    }
  }

  /** Removing the entry at position k takes exactly its guests off the sum. */
  lemma RemoveAtSum(rs: seq<Reservation>, k: nat)
    requires k < |rs|
    ensures SumGuests(rs[..k] + rs[k + 1..]) == SumGuests(rs) - rs[k].guests
  {
    assert rs == rs[..k] + ([rs[k]] + rs[k + 1..]);
    SumGuestsConcat(rs[..k], [rs[k]] + rs[k + 1..]);
    SumGuestsConcat([rs[k]], rs[k + 1..]);
    SumGuestsConcat(rs[..k], rs[k + 1..]);
  }

  // ---------------------------------------------------------------------------
  // The invariant every handler keeps

  predicate AllPositive(rs: seq<Reservation>) {
    forall i :: 0 <= i < |rs| ==> rs[i].guests > 0
  }

  predicate NamesDistinct(rs: seq<Reservation>) {
    forall i, j :: 0 <= i < j < |rs| ==> !SameName(rs[i].name, rs[j].name)
  }

  predicate IdsDistinct(rs: seq<Reservation>) {
    forall i, j :: 0 <= i < j < |rs| ==> rs[i].id != rs[j].id
  }

  /** Every stored id is below the next id to be handed out. */
  predicate IdsBelow(rs: seq<Reservation>, nextId: nat) {
    forall i :: 0 <= i < |rs| ==> rs[i].id < nextId
  }

  /** The state invariant. `leaked` counts the guests of reservations deleted
      before they checked out, whose seats were never given back; with it the
      seat count is exactly conserved. */
  predicate BookInvariant(seatsLeft: int, rs: seq<Reservation>, leaked: int, nextId: nat) {
    && 0 <= seatsLeft
    && 0 <= leaked
    && seatsLeft + SumGuests(rs) + leaked == TotalSeats
    && AllPositive(rs)
    && NamesDistinct(rs)
    && IdsDistinct(rs)
    && IdsBelow(rs, nextId)
  }

  lemma {:induction false} SumGuestsNonNegative(rs: seq<Reservation>)
    requires AllPositive(rs)
    ensures SumGuests(rs) >= 0
    ensures rs != [] ==> SumGuests(rs) > 0
  {
    if rs != [] {
      SumGuestsNonNegative(rs[1..]);
    }
  }

  /** Under the invariant the seat counter stays between 0 and the capacity. */
  lemma SeatsInRange(seatsLeft: int, rs: seq<Reservation>, leaked: int, nextId: nat)
    requires BookInvariant(seatsLeft, rs, leaked, nextId)
    ensures 0 <= seatsLeft <= TotalSeats
    ensures SumGuests(rs) <= TotalSeats
  {
    SumGuestsNonNegative(rs);
  }

  /** The empty book satisfies the invariant. */
  lemma InitialInvariant()
    ensures BookInvariant(TotalSeats, [], 0, 0)
  {
  }

  /** An accepted booking appends one reservation, takes its guests off the
      counter and keeps the invariant. */
  lemma BookingKeepsInvariant(
    seatsLeft: int, rs: seq<Reservation>, leaked: int, nextId: nat,
    form: Form, guestCount: int, now: Stamp)
    requires BookInvariant(seatsLeft, rs, leaked, nextId)
    requires Validate(form, guestCount, seatsLeft, rs) == Accept
    ensures BookInvariant(
      seatsLeft - guestCount,
      rs + [Reservation(nextId, form.name, form.phone, guestCount, now, None)],
      leaked, nextId + 1)
  {
    var r := Reservation(nextId, form.name, form.phone, guestCount, now, None);
    var rs' := rs + [r];
    SumGuestsConcat(rs, [r]);
    assert SumGuests([r]) == guestCount;
    assert forall i :: 0 <= i < |rs| ==> !SameName(rs[i].name, form.name);
    assert forall i :: 0 <= i < |rs| ==> rs'[i] == rs[i];
    assert rs'[|rs|] == r;
  }

  /** Checkout changes no name, guest count or id, and frees no seat. */
  lemma CheckOutKeepsInvariant(
    seatsLeft: int, rs: seq<Reservation>, leaked: int, nextId: nat, id: nat, stamp: Stamp)
    requires BookInvariant(seatsLeft, rs, leaked, nextId)
    ensures BookInvariant(seatsLeft, CheckOutMatching(rs, id, stamp), leaked, nextId)
  {
    CheckOutKeepsSum(rs, id, stamp);
    var out := CheckOutMatching(rs, id, stamp);
    assert forall i :: 0 <= i < |rs| ==>
      out[i].name == rs[i].name && out[i].guests == rs[i].guests && out[i].id == rs[i].id;
  }

  /** Every pairwise property survives removing one entry; shown here for the
      three the invariant needs. */
  lemma RemoveAtKeepsPairwise(rs: seq<Reservation>, k: nat, nextId: nat)
    requires k < |rs|
    requires AllPositive(rs) && NamesDistinct(rs) && IdsDistinct(rs) && IdsBelow(rs, nextId)
    ensures var rest := rs[..k] + rs[k + 1..];
      AllPositive(rest) && NamesDistinct(rest) && IdsDistinct(rest) && IdsBelow(rest, nextId)
  {
  }

  /** Deleting the entry at position k keeps the invariant: its seats return
      to the counter when it had checked out, and are counted as leaked when
      it had not. */
  lemma DeleteKeepsInvariant(
    seatsLeft: int, rs: seq<Reservation>, leaked: int, nextId: nat, k: nat)
    requires BookInvariant(seatsLeft, rs, leaked, nextId)
    requires k < |rs|
    ensures var r := rs[k];
      BookInvariant(
        if r.CheckedOut() then seatsLeft + r.guests else seatsLeft,
        Without(rs, r.id),
        if r.CheckedOut() then leaked else leaked + r.guests,
        nextId)
  {
    WithoutUnique(rs, k);
    RemoveAtSum(rs, k);
    RemoveAtKeepsPairwise(rs, k, nextId);
  }
}
