# Restaurant reservation widget: a verified model

A model of the reservation logic of the single React component in `App.jsx`.
It is a small state machine: a fixed capacity of 20 seats, a `seatsLeft`
counter, an ordered list of reservations, the booking form and the current
notification ("toast"). Three handlers change that state:

- **Submit** (which in the model also returns the verdict that the widget
  only reports through the toast) checks the form against three rules in order, first failure
  wins: details present and guest count positive, then enough seats, then no
  name colliding case-insensitively. An accepted form appends one reservation,
  takes its guests off the counter and clears the form.
- **CheckOut** stamps `checkOut` on every entry with the given id through a
  `map`, and always shows its toast.
- **Delete** finds the entry, removes it through a `filter`, and gives its
  seats back only if it had checked out. An unknown id is a silent no-op.

Files and modules:

- `names.dfy`, module `Names`: ASCII lower-casing and the case-insensitive
  name comparison used by the duplicate check.
- `reservations.dfy`, module `Reservations`: the data (`Reservation`, `Form`,
  `Verdict`), the validator, the list transforms (`NameTaken` for `some`,
  `CheckOutMatching` for `map`, `Find`, `Without` for `filter`), the seat sum
  and the state invariant `BookInvariant`, with a lemma per handler showing
  that the handler keeps it.
- `restaurant.dfy`, module `Restaurant`: the class `ReservationBook` whose
  fields are the component's state. Each handler is a method that updates the
  fields in place and is specified against the functions above. Four
  walk-through methods replay a capacity-20 session: Ann books 4, "ann" is a
  duplicate, 25 guests do not fit, checkout then delete restores 20, and a
  party deleted without checkout leaves the counter at 17.

The invariant is exact seat conservation. A ghost counter `leaked` adds up
the guests of reservations deleted before checkout, whose seats the widget
never returns. Then `seatsLeft + SumGuests(reservations) + leaked == 20`
always holds. So do these: `0 <= seatsLeft <= 20`, every stored guest count
is positive, no two stored names are equal after lower-casing, and ids are
distinct.

A checkout time is sometimes described as immutable once set. The handler
does not guard against a second checkout and overwrites the time on every
call; the model follows the handler (`CheckOutTwice`).

## Model

| member | source | states |
|---|---|---|
| Names.Lower | App.jsx:55 | the result is never an ASCII capital; capitals map to their small letter and every other character is unchanged |
| Names.LowerStrIdempotent | App.jsx:55 | lower-casing twice equals lower-casing once, so a lower-cased name collides with its original |
| Names.SameNameCharwise | App.jsx:55 | two names collide exactly when they have equal length and agree at every position after lower-casing |
| Reservations.NameTaken | App.jsx:55 | the `some` test is true exactly when some stored reservation's name collides with the given name |
| Reservations.ValidateFirstFailureWins | App.jsx:45-58 | each verdict holds exactly when the earlier rules pass and its own rule fails: missing field or count <= 0 gives InvalidDetails; otherwise count > seatsLeft gives NotEnoughSeats; otherwise a collision gives DuplicateName; otherwise Accept |
| Reservations.CheckOutMatching | App.jsx:76-80 | same length and order; entries with the id get `checkOut` set to the stamp, all others are unchanged |
| Reservations.CheckOutUnknownId | App.jsx:76-80 | checking out an id nobody has leaves the list unchanged |
| Reservations.CheckOutTwice | App.jsx:77-79 | checkout is unguarded: a second checkout overwrites the first stamp |
| Reservations.CheckOutKeepsSum | App.jsx:75-81 | checkout frees no seats: the sum of guests is unchanged |
| Reservations.Find | App.jsx:85-86 | None exactly when no entry has the id; otherwise the entry at the first position carrying the id |
| Reservations.Without | App.jsx:92 | the result is no longer than the input and contains no entry with the id |
| Reservations.WithoutMembers | App.jsx:92 | an entry is in the filtered list exactly when it was in the list and its id differs |
| Reservations.WithoutAbsent | App.jsx:92 | filtering an id nobody has leaves the list unchanged |
| Reservations.WithoutUnique | App.jsx:85-92 | with distinct ids, filtering the id found at position k removes exactly that entry and keeps the others in order |
| Reservations.SumGuestsNonNegative | App.jsx:45 | when every guest count is positive, the seats held are non-negative, and positive for a non-empty list |
| Reservations.SeatsInRange | App.jsx:4-5 | under the invariant, `0 <= seatsLeft <= 20` and the seats held never exceed 20 |
| Reservations.InitialInvariant | App.jsx:4-6 | the initial state (20 seats, no reservations) satisfies the invariant |
| Reservations.BookingKeepsInvariant | App.jsx:45-70 | an accepted booking that appends one reservation and subtracts its guests keeps the invariant: seats conserved, counts positive, names and ids distinct |
| Reservations.CheckOutKeepsInvariant | App.jsx:75-80 | checkout keeps the invariant with the same counter |
| Reservations.DeleteKeepsInvariant | App.jsx:84-92 | deleting the entry at any position keeps the invariant; its guests return to the counter if it had checked out and are counted as leaked otherwise |
| Restaurant.ReservationBook.constructor | App.jsx:4-9 | starts with 20 seats, no reservations, an empty form and no toast, and satisfies the invariant |
| Restaurant.ReservationBook.ShowToast | App.jsx:32-34 | the new message replaces the current one |
| Restaurant.ReservationBook.ClearToast | App.jsx:25-30 | the auto-dismiss timer firing empties the toast |
| Restaurant.ReservationBook.Change | App.jsx:36-38 | typing replaces one form field and keeps the other two |
| Restaurant.ReservationBook.Submit | App.jsx:40-73 | the verdict is the validator's. A rejection changes only the toast, to the matching message. An acceptance appends exactly one reservation with a fresh id, the form's name and phone, the guest count and no checkout. It lowers the counter by the guest count, clears the form and keeps the invariant |
| Restaurant.ReservationBook.CheckOut | App.jsx:75-82 | the list becomes the checkout map of the old list; the counter, form and invariant are kept; the toast is set even for an unknown id |
| Restaurant.ReservationBook.Delete | App.jsx:84-94 | an unknown id changes nothing, toast included. A known id is filtered out: the others stay in order and exactly the found entry is removed. The counter rises by its guests only if it had checked out. The toast is set and the invariant is kept |

## Left out

- Rendering (JSX), the static menu list and the live clock (`setInterval`): presentation only.
- The three-second auto-dismiss of the toast is not timed. `ClearToast` is the effect of the timer firing.
- `Date.now()` ids are replaced by a counter field `nextId`, so ids are distinct by construction. In the widget they are distinct only because two bookings never land in the same millisecond.
- `toLocaleString()` timestamps are opaque `Stamp` values passed in by the caller. A set checkout time is always non-empty, so "checked out" is modelled as `checkOut` being `Some`.
- `parseInt` is not modelled. `Submit` receives the parsed guest count as an integer, and the raw guests field is only tested for emptiness. A non-numeric guests field parses to `NaN` in the widget. `NaN` passes both `guestCount <= 0` and `guestCount > seatsLeft`, so such a booking is accepted unless the name collides, and the counter becomes `NaN`. The model has no `NaN` and cannot show this.
- Unicode `toLowerCase` is narrowed to ASCII letters A-Z. Names that differ only in non-ASCII case compare unequal in the model.
- React state batching and stale closures are not modelled. Each handler is one atomic step on the current state.
