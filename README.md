# Salon appointment model

This project models the appointment record of the `salon_appointment` module
for the Odoo framework: the `salon.appointment` table with its field
defaults, the name defaulting done in `create`, the derived end time
(`_compute_end_dt`), the no-overlap constraint (`_check_no_overlap`) and the
five workflow buttons (`action_confirm`, `action_in_service`, `action_done`,
`action_cancel`, `action_no_show`).

Datetimes are whole minutes (`int`). An appointment occupies the half-open
interval `[start, end)`, and its end is its start plus the service duration
and the buffers before and after, with an unset value counting as 0.
Records in state `confirmed` or `in_service` are *active*. The table
invariant is that no two distinct active records of the same barber have
overlapping intervals. Records in `requested` state are holds that may
overlap freely.

The model has two modules:

- `Appointment` (`appointment.dfy`) holds values and pure rules. It defines
  the record and `vals` datatypes, the field defaults, name defaulting, `EndOf`,
  the overlap test `Overlaps`, the per-record test of the constraint
  (`Rejected`, over the search domain `OverlapDomain`), the symmetric
  relation `Clash` and the invariant `NoOverlap`, together with the lemmas
  about them.
- `AppointmentTable` (`appointment_table.dfy`) holds the class `Table`. Its
  `records` field is a `map` from record id to record. Its methods change the
  table the way the methods of the Odoo model class do. The framework aborts a write whose
  constraint fails, so each mutating method returns either success or the
  validation error, and on an error it leaves the table exactly as it was.
  `Valid()` is the class invariant: `NoOverlap`, every end derived, and ids
  below `nextId`.

Framework behaviour that the model spells out:

- A workflow action assigns `state` record by record. Each assignment is one
  write, followed by the constraint on that record. An error rolls back the
  whole call. `Table.Transition` runs exactly this sequence. Its contract
  says the action succeeds exactly when every record exists and the table
  after the action satisfies the invariant.
- `create` stores the whole batch. It then computes the ends and runs the
  constraint on the new records. `barber_user_id` and `start_dt` are
  required fields, so a dictionary without them is refused.
- `next_by_code` is modelled as a counter with a prefix: a value is the
  prefix followed by the counter in decimal. No prefix means no sequence is
  configured, and then the name falls back to the placeholder `"New"`.

## Model

| member | source | states |
|---|---|---|
| `Appointment.Prepare` | custom_addons/salon_appointment/models/salon_appointment.py:33-36 | the record `create` stores for a dictionary before the compute: the given name, no end yet, barber and start set exactly when supplied (a barber id of 0 counting as none, since the framework stores it as no barber) and then stored as supplied, duration 30, buffers 0 and 5 and state requested whenever those keys are absent, a supplied duration or buffer stored as given and an explicit false one stored as 0, and a supplied state kept |
| `Appointment.EndOf` | custom_addons/salon_appointment/models/salon_appointment.py:78-83 | there is an end exactly when there is a start; the end lies the duration plus both buffers after the start, each unset value counting as 0; with no negative parts the end is not before the start |
| `Appointment.NameAt` | custom_addons/salon_appointment/models/salon_appointment.py:94-96 | the name `create` gives a dictionary: a supplied name other than `"New"` is kept; otherwise, with a sequence configured, the name is drawn from it and is never `"New"`; with no sequence it stays `"New"` |
| `Appointment.DrawnNameInRange` | custom_addons/salon_appointment/models/salon_appointment.py:94-96 | a drawn name is one of the sequence values the create consumes: the counter's value, or a later number, up to the number of dictionaries that draw |
| `Appointment.Rejected` | custom_addons/salon_appointment/models/salon_appointment.py:124-142 | the constraint's per-record test, transcribed from its skip conditions and search domain; it rejects only a record that exists, has barber, start and end set and is active |
| `Appointment.SetStates` | custom_addons/salon_appointment/models/salon_appointment.py:145-163 | the table after an action: same ids, every named record in the target state with all other fields unchanged, every other record unchanged |
| `Appointment.OverlapsIffSharedMinute` | custom_addons/salon_appointment/models/salon_appointment.py:131-138 | for non-empty intervals, the domain's test `start < other_end and end > other_start` holds exactly when some minute lies in both half-open intervals |
| `Appointment.BackToBackNeverOverlap` | custom_addons/salon_appointment/models/salon_appointment.py:131-138 | an interval ending exactly when another starts never conflicts with it, in either order |
| `Appointment.OverlapsSymmetric` | custom_addons/salon_appointment/models/salon_appointment.py:131-138 | the overlap test does not depend on which record is searched from |
| `Appointment.ClashSymmetric` | custom_addons/salon_appointment/models/salon_appointment.py:131-138 | two records conflict in one direction exactly when they conflict in the other |
| `Appointment.RejectedIffClash` | custom_addons/salon_appointment/models/salon_appointment.py:124-142 | the constraint rejects a record exactly when another record with a different id, the same barber and an active state overlaps it |
| `Appointment.NoOverlapIffNoneRejected` | custom_addons/salon_appointment/models/salon_appointment.py:118-142 | the table invariant holds exactly when the constraint rejects no record of the table |
| `Appointment.InactiveNeverRejected` | custom_addons/salon_appointment/models/salon_appointment.py:124-129 | a record in requested, done, cancelled or no-show state is never rejected and conflicts with nothing, whatever it overlaps |
| `Appointment.IncompleteNeverRejected` | custom_addons/salon_appointment/models/salon_appointment.py:126-127 | a record missing its barber, start or end is skipped by the constraint and conflicts with nothing |
| `Appointment.RequestedHoldsMayOverlap` | custom_addons/salon_appointment/models/salon_appointment.py:120-122 | an example: a table of two overlapping requested bookings of one barber satisfies the invariant, and confirming both violates it |
| `Appointment.OverlappingPairNotBothConfirmed` | custom_addons/salon_appointment/models/salon_appointment.py:131-142 | for any table, two distinct records of one barber with start and end set whose intervals overlap cannot both be confirmed without breaking the invariant |
| `Appointment.HoldsNeverViolate` | custom_addons/salon_appointment/models/salon_appointment.py:120-129 | a table with no confirmed or in_service record satisfies the invariant, however its requested holds overlap |
| `Appointment.NoOverlapAfterCheck` | custom_addons/salon_appointment/models/salon_appointment.py:118-142 | if a write changes only the checked records and none of them is in conflict, a valid table stays valid |
| `Appointment.SetStatesStep` | custom_addons/salon_appointment/models/salon_appointment.py:145-163 | assigning the target state to the next record of the set extends the action's result by that one record |
| `Appointment.StepKeepsNoOverlap` | custom_addons/salon_appointment/models/salon_appointment.py:118-151 | a per-record write of an action that passes the constraint keeps the table invariant |
| `Appointment.StepRejectionBlocks` | custom_addons/salon_appointment/models/salon_appointment.py:139-151 | a per-record write that the constraint rejects means the target state is active and the whole action cannot succeed |
| `Appointment.ClashPersists` | custom_addons/salon_appointment/models/salon_appointment.py:145-151 | putting more records into an active state keeps every existing conflict |
| `Appointment.InactiveTransitionAllowed` | custom_addons/salon_appointment/models/salon_appointment.py:153-163 | on a valid table, an action into done, cancelled or no-show is refused only when one of its records does not exist |
| `Appointment.SetStatesKeepsEnds` | custom_addons/salon_appointment/models/salon_appointment.py:76-83 | changing state alone keeps every end derived from its start, duration and buffers |
| `Appointment.WithEndsSpec` | custom_addons/salon_appointment/models/salon_appointment.py:76-83 | recomputing ends gives each recomputed record the derived end, gives no end to a record without a start, changes no other field and leaves every other record alone |
| `Appointment.CreateDefaults` | custom_addons/salon_appointment/models/salon_appointment.py:33-36 | a record created without duration, buffers or state is a requested 30-minute service with buffers 0 and 5, ending 35 minutes after its start |
| `Appointment.SequenceNamesDistinct` | custom_addons/salon_appointment/models/salon_appointment.py:94-96 | with a configured sequence, two dictionaries of one batch that both draw from it get different names |
| `Appointment.RecomputeIdempotent` | custom_addons/salon_appointment/models/salon_appointment.py:76-83 | recomputing ends that are already derived leaves the table unchanged |
| `Appointment.SequenceNumbersIncrease` | custom_addons/salon_appointment/models/salon_appointment.py:94-96 | two dictionaries of one batch that both draw from the sequence draw different numbers, increasing along the list |
| `AppointmentTable.Table.NextByCode` | custom_addons/salon_appointment/models/salon_appointment.py:96 | the sequence yields its next value and advances by one, or yields nothing when no sequence is configured |
| `AppointmentTable.Table.ComputeEndDt` | custom_addons/salon_appointment/models/salon_appointment.py:76-83 | after the loop the table is the old one with the ends of exactly the named records recomputed; a valid table stays valid |
| `AppointmentTable.Table.CheckNoOverlap` | custom_addons/salon_appointment/models/salon_appointment.py:118-142 | passes exactly when no record of the set conflicts with another record of the table; a failure names a rejected record of the set |
| `AppointmentTable.Table.DefaultNames` | custom_addons/salon_appointment/models/salon_appointment.py:94-96 | the loop gives every dictionary the name `NameAt` describes and advances the sequence by the number of names drawn |
| `AppointmentTable.Table.FirstMissing` | custom_addons/salon_appointment/models/salon_appointment.py:25-32 | finds no dictionary exactly when all have a non-zero barber id and a start; otherwise it returns the first dictionary lacking one |
| `AppointmentTable.Table.Store` | custom_addons/salon_appointment/models/salon_appointment.py:97 | stores each dictionary with its field defaults under consecutive fresh ids, before the computed fields |
| `AppointmentTable.Table.Create` | custom_addons/salon_appointment/models/salon_appointment.py:91-97 | succeeds exactly when every dictionary has a non-zero barber id and a start and the resulting table satisfies the invariant; then the table gains the records with their defaults, names and ends under fresh ids, and the sequence advances by the number of names drawn; on an error nothing changes |
| `AppointmentTable.Table.Transition` | custom_addons/salon_appointment/models/salon_appointment.py:145-163 | setting the target state on every record of the set, whatever its prior state, succeeds exactly when all records exist and the resulting table satisfies the invariant; on success only the states of those records change, otherwise nothing changes |
| `AppointmentTable.Table.ActionConfirm` | custom_addons/salon_appointment/models/salon_appointment.py:145-147 | every record of the set becomes confirmed, and the action is refused exactly when that would break the invariant or a record is missing |
| `AppointmentTable.Table.ActionInService` | custom_addons/salon_appointment/models/salon_appointment.py:149-151 | every record of the set becomes in_service, and the action is refused exactly when that would break the invariant or a record is missing |
| `AppointmentTable.Table.ActionDone` | custom_addons/salon_appointment/models/salon_appointment.py:153-155 | every record of the set becomes done, and the action is refused only for a missing record |
| `AppointmentTable.Table.ActionCancel` | custom_addons/salon_appointment/models/salon_appointment.py:157-159 | every record of the set becomes cancelled, and the action is refused only for a missing record |
| `AppointmentTable.Table.ActionNoShow` | custom_addons/salon_appointment/models/salon_appointment.py:161-163 | every record of the set becomes no_show, and the action is refused only for a missing record |

## Left out

- The slot generator behind `/appointment/json/slots`. Its implementation is not part of this model. The only code that mentions it, `scripts/test_api_slots.py`, is an HTTP client.
- `controllers/main.py`: HTTP routes, template rendering, partner lookup and creation, and `strptime` parsing. These are framework calls with no logic of their own. The controller passes `employee_id`, but the model's field is `barber_user_id`, so the submission handler does not set the modelled barber.
- `models/hr.py` and `models/product.py`: field declarations with no logic.
- `_compute_price` (a monetary float copied from the product) and `_check_service_product_is_service` (introspection of framework product objects).
- The fields partner, phone, service, price, currency, source (`walk_in`, `instagram`, `call`, `website`) and notes. None of them affects the end time, the constraint or the workflow. The required partner and service are therefore not checked by `Create`.
- Record change tracking (`mail.thread`), security context and `sudo`, and timezones. Datetimes are plain integer minutes.
- Writes other than `create` and the workflow buttons, such as editing the start or the barber. The framework would recompute the end and run the constraint on such a write too. No such operation is modelled on its own.
- Deleting records. A `MissingRecord` error therefore arises only for an id the table never held.
- An explicit false `name` or `state` in a `vals` dictionary.
- The 32-bit range of the integer columns, and concurrent transactions.
- AppointmentTable.Table.Create: an aborted create returns the sequence counter to its old value. A standard ir.sequence is backed by a database sequence and would keep the numbers it handed out. Likewise an aborted create returns `nextId` to its old value, while the table's `id` column is a database serial that keeps the ids it handed out. The value format (padding, suffix) is reduced to prefix plus decimal number.
- Appointment.NameAt: the fallback name when no sequence is configured is the literal `"New"`. The framework translates it into the caller's language, so a translated placeholder is not modelled. Only the comparison that decides whether to draw from the sequence uses the literal `"New"`.
- AppointmentTable.Table.Create: barber ids are assumed to be ids of existing users. The foreign key of `barber_user_id`, which refuses an id naming no `res.users` row, is not modelled. An id of 0 is modelled: it is stored as no barber and refused as a missing required field.
- AppointmentTable.Table.FirstMissing: like `Create`, it treats every non-zero barber id as present, whether or not a user with that id exists.
- AppointmentTable.Table.Create: the dictionaries are taken by value. The source writes each drawn name into the caller's own `vals` dictionary, so the caller sees those names even when the create then fails; the model does not show that change to the caller.
