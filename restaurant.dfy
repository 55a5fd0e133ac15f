/** The reservation widget's state and its event handlers. Each handler is one
    atomic step on the current state: the rendering layer, the timers and the
    browser clock are outside the model, and the values they would supply
    (the parsed guest count, the current time) are parameters. */
module Restaurant {
  import opened Names
  import opened Reservations

  const InvalidDetailsToast: string := "⚠️ Please enter valid details."
  const NotEnoughSeatsToast: string := "❌ Not enough seats available!"
  const DuplicateNameToast: string := "⚠️ Duplicate name found! Use a different name."
  const BookedToast: string := "✅ Table booked successfully!"
  const CheckedOutToast: string := "✅ Customer checked out!"
  const DeletedToast: string := "❌ Reservation deleted."

  /** The message shown for a rejected submission. */
  function RejectionToast(v: Verdict): string
    requires v != Accept
  {
    match v
    case InvalidDetails => InvalidDetailsToast
    case NotEnoughSeats => NotEnoughSeatsToast
    case DuplicateName => DuplicateNameToast
  }

  /** The three inputs of the booking form. */
  datatype Field = NameField | PhoneField | GuestsField

  class ReservationBook {
    var seatsLeft: int
    var reservations: seq<Reservation>
    var form: Form
    var toast: string
    /** Source of fresh reservation ids (the widget uses the clock in ms). */
    var nextId: nat
    /** Guests of reservations deleted without checking out: seats never returned. */
    ghost var leaked: int

    ghost predicate Valid()
      reads this
    {
      BookInvariant(seatsLeft, reservations, leaked, nextId)
    }

    /** A fresh widget: all seats free, no reservations, an empty form, no toast. */
    constructor ()
      ensures Valid()
      ensures seatsLeft == TotalSeats && reservations == [] && form == EmptyForm
      ensures toast == "" && nextId == 0 && leaked == 0
    {
      seatsLeft := TotalSeats;
      reservations := [];
      form := EmptyForm;
      toast := "";
      nextId := 0;
      leaked := 0;
    }

    /** Replaces the current notification, whatever it was. */
    method ShowToast(message: string)
      modifies this`toast
      ensures toast == message
    {
      toast := message;
    }

    /** The auto-dismiss timer firing: the notification disappears. */
    method ClearToast()
      modifies this`toast
      ensures toast == ""
    {
      toast := "";
    }

    /** Typing into one form field replaces that field and keeps the others. */
    method Change(field: Field, value: string)
      modifies this`form
      ensures form == match field
        case NameField => old(form).(name := value)
        case PhoneField => old(form).(phone := value)
        case GuestsField => old(form).(guests := value)
    {
      match field
      case NameField => form := form.(name := value);
      case PhoneField => form := form.(phone := value);
      case GuestsField => form := form.(guests := value);
    }

    /** Submitting the form. `guestCount` is the integer parsed from the
        guests field and `now` the check-in time. A rejection only sets the
        toast; an acceptance appends one reservation, takes its guests off the
        counter and clears the form. */
    method Submit(guestCount: int, now: Stamp) returns (verdict: Verdict)
      requires Valid()
      modifies this
      ensures Valid()
      ensures verdict == Validate(old(form), guestCount, old(seatsLeft), old(reservations))
      ensures verdict != Accept ==>
        && seatsLeft == old(seatsLeft) && reservations == old(reservations)
        && form == old(form) && nextId == old(nextId) && leaked == old(leaked)
        && toast == RejectionToast(verdict)
      ensures verdict == Accept ==>
        && reservations == old(reservations)
             + [Reservation(old(nextId), old(form).name, old(form).phone, guestCount, now, None)]
        && seatsLeft == old(seatsLeft) - guestCount
        && form == EmptyForm && nextId == old(nextId) + 1 && leaked == old(leaked)
        && toast == BookedToast
    {
      var name, phone, guests := form.name, form.phone, form.guests;
      if name == "" || phone == "" || guests == "" || guestCount <= 0 {
        ShowToast(InvalidDetailsToast);
        return InvalidDetails;
      }
      if guestCount > seatsLeft {
        ShowToast(NotEnoughSeatsToast);
        return NotEnoughSeats;
      }
      if NameTaken(reservations, name) {
        ShowToast(DuplicateNameToast);
        return DuplicateName;
      }
      BookingKeepsInvariant(seatsLeft, reservations, leaked, nextId, form, guestCount, now);
      var booked := Reservation(nextId, name, phone, guestCount, now, None);
      reservations := reservations + [booked];
      seatsLeft := seatsLeft - guestCount;
      nextId := nextId + 1;
      form := EmptyForm;
      ShowToast(BookedToast);
      verdict := Accept;
    }

    /** Checking out: every entry with this id gets the new check-out time
        (a second checkout overwrites the first); seats are not freed, and the
        toast is shown even when no entry matches. */
    method CheckOut(id: nat, now: Stamp)
      requires Valid()
      modifies this
      ensures Valid()
      ensures reservations == CheckOutMatching(old(reservations), id, now)
      ensures seatsLeft == old(seatsLeft) && form == old(form)
      ensures nextId == old(nextId) && leaked == old(leaked)
      ensures toast == CheckedOutToast
    {
      CheckOutKeepsInvariant(seatsLeft, reservations, leaked, nextId, id, now);
      reservations := CheckOutMatching(reservations, id, now);
      ShowToast(CheckedOutToast);
    }

    /** Deleting: an unknown id changes nothing, not even the toast. A known
        one is removed, the others keep their order, and its guests go back to
        the counter only if it had checked out. */
    method Delete(id: nat)
      requires Valid()
      modifies this
      ensures Valid()
      ensures form == old(form) && nextId == old(nextId)
      ensures Find(old(reservations), id).None? ==>
        && reservations == old(reservations) && seatsLeft == old(seatsLeft)
        && leaked == old(leaked) && toast == old(toast)
      ensures Find(old(reservations), id).Some? ==>
        var r := Find(old(reservations), id).value;
        && reservations == Without(old(reservations), id)
        && (exists k :: 0 <= k < |old(reservations)| && old(reservations)[k] == r
              && reservations == old(reservations)[..k] + old(reservations)[k + 1..])
        && seatsLeft == (if r.CheckedOut() then old(seatsLeft) + r.guests else old(seatsLeft))
        && leaked == (if r.CheckedOut() then old(leaked) else old(leaked) + r.guests)
        && toast == DeletedToast
    {
      var reservation := Find(reservations, id);
      if reservation.None? {
        return;
      }
      var r := reservation.value;
      ghost var k :| 0 <= k < |reservations| && reservations[k] == r && r.id == id;
      DeleteKeepsInvariant(seatsLeft, reservations, leaked, nextId, k);
      WithoutUnique(reservations, k);
      if r.CheckedOut() {
        seatsLeft := seatsLeft + r.guests;
      } else {
        leaked := leaked + r.guests;
      }
      reservations := Without(reservations, id);
      assert Valid();
      ShowToast(DeletedToast);
    }
  }

  /** Ann books 4 of the 20 seats. */
  method BookAnn() returns (book: ReservationBook, ann: Reservation)
    ensures fresh(book) && book.Valid()
    ensures ann == Reservation(0, "Ann", "111", 4, "t1", None)
    ensures book.reservations == [ann] && book.seatsLeft == 16
    ensures book.form == EmptyForm && book.toast == BookedToast
  {
    book := new ReservationBook();
    book.Change(NameField, "Ann");
    book.Change(PhoneField, "111");
    book.Change(GuestsField, "4");
    var v := book.Submit(4, "t1");
    assert v == Accept;
    ann := book.reservations[0];
  }

  /** With Ann booked, "ann" is refused as a duplicate and nothing changes. */
  method DuplicateWalkthrough()
  {
    var book, ann := BookAnn();
    book.Change(NameField, "ann");
    book.Change(PhoneField, "222");
    book.Change(GuestsField, "2");
    assert LowerStr("Ann") == LowerStr("ann") by {
      SameNameCharwise("Ann", "ann");
    }
    var v := book.Submit(2, "t2");
    assert v == DuplicateName && book.toast == DuplicateNameToast;
    assert book.seatsLeft == 16 && book.reservations == [ann];
  }

  /** With 16 seats left, a party of 25 is refused and nothing changes. */
  method OverCapacityWalkthrough()
  {
    var book, ann := BookAnn();
    book.Change(NameField, "Bob");
    book.Change(PhoneField, "333");
    book.Change(GuestsField, "25");
    var v := book.Submit(25, "t3");
    assert v == NotEnoughSeats && book.toast == NotEnoughSeatsToast;
    assert book.seatsLeft == 16 && book.reservations == [ann];
  }

  /** Ann checks out (the counter stays at 16); deleting her then gives all
      20 seats back. */
  method CheckedOutWalkthrough()
  {
    var book, ann := BookAnn();
    book.CheckOut(ann.id, "t4");
    var done := ann.(checkOut := Some("t4"));
    assert book.reservations == [done];
    assert book.seatsLeft == 16;

    assert Find([done], ann.id) == Some(done);
    assert Without([done], ann.id) == [];
    book.Delete(ann.id);
    assert book.seatsLeft == 20;
    assert book.reservations == [];
  }

  /** Cid books 3 guests and is deleted without checking out: the reservation
      is gone but the counter stays at 17. */
  method NoShowWalkthrough()
  {
    var book := new ReservationBook();
    book.Change(NameField, "Cid");
    book.Change(PhoneField, "444");
    book.Change(GuestsField, "3");
    var v := book.Submit(3, "t5");
    assert v == Accept && book.seatsLeft == 17;
    var cid := book.reservations[0];
    book.Delete(cid.id);
    assert book.seatsLeft == 17 && book.reservations == [];
  }
}
