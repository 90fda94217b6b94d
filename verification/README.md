# Clinic appointment queue — Dafny model

This project models a clinic's appointment queue (`MedicalManagementSystem`) and the value
entities it orders:

- **Age**: an integer in 0..120.
- **Priority**: the name `"normal"` or `"urgente"`, with weight 0 or 1.
- **Patient**: a name and an Age.
- **MedicalAppointment**: a Patient and a Priority.

`add_appointment` refuses an appointment equal to one already queued. Otherwise it appends
the appointment and re-sorts the whole list. The sort is descending by
(priority weight, age). Python's `sorted(..., reverse=True)` is stable, so appointments with
equal keys keep their insertion order. `make_an_appointment` validates the age, then the
priority, builds the appointment and hands it to the queue.

Files, one module each:

- `wrappers.dfy`: `Result` and `Option`. They replace the source's exceptions.
- `errors.dfy`: the three validation error kinds.
- `text.dfy`: decimal notation and `str.join`, with their inverses.
- `age.dfy`, `priority.dfy`, `patient.dfy`, `appointment.dfy`: the entities, their setters,
  `__eq__` and `__str__`.
- `ordering.dfy`: `order_appointments` as a stable insertion sort, with its stability and
  uniqueness proofs.
- `system.dfy`: `add_appointment` and the `__str__` rendering.
- `service.dfy`: `make_an_appointment`.
- `scenarios.dfy`: boundary ages and short end-to-end booking runs.

Python classes with setters become immutable datatypes. A setter becomes a function that
returns the object's state after the call, plus the error it raised if any. "Raises before
assignment" is therefore stated as "on error the state is the one passed in". The key
properties are:

- **Sortedness**: every appointment outranks or ties with every later one.
- **Stability**: for every key k, the appointments with key k appear in the same order in
  the result as in the input.
- **Uniqueness** (`Ordering.SortedUnique`): these two properties fix the result.

Two facts follow. Re-sorting a sorted list changes nothing. A queue built from an empty
system by successive insertions equals the stable sort of its distinct arrivals, in arrival
order (`ManagementSystem.AddAllFollowsHistory`).

The code spells the urgent priority `"urgente"`. The constructor's default-priority
fallback is dead code (`Priorities.FallbackUnreachable`). Patient names are not validated,
so the empty name is accepted. The entities have setters, which let a priority's weight
drift from its name (`Priorities.SetNameBreaksConsistency`).

The single-file copy `test.py` holds the same classes with three differences:
- Its `add_appointment` copies the list before appending (test.py:374-376). The package
  version appends in place (entities/medical/MedicalManagementSystem.py:76-77). Queues are
  values here, so both are `ManagementSystem.AddAppointment`.
- Its `Patient.__str__` joins name and age with " e " instead of a line break. This is
  `Patients.PatientStringFlat`.
- Its `Priority` has a `__str__`, "Prioridade: <name> e peso <weight>" (test.py:146-152),
  which the package's Priority.py lacks. This is `Priorities.PriorityString`.

## Model

| member | source | states |
|---|---|---|
| Ages.MakeAge | entities/patients/Age.py:39-43 | Construction succeeds iff 0 ≤ n ≤ 120, and the stored value is then n. A negative n gives the negative-age error; the negative check runs first. An n above 120 gives the over-limit error, which carries n itself. |
| Ages.SetAge | entities/patients/Age.py:29-43 | An accepted value replaces the age. A rejected value raises before assignment, so the age is unchanged. Validity is preserved either way. |
| Ages.AgeEq | entities/patients/Age.py:53-62 | Comparing the numeric values coincides with structural equality, so it is an equivalence. |
| Ages.AgeStringRoundTrip | entities/patients/Age.py:45-51 | The number can be read back out of the "Idade: N ano[s]" rendering of a non-negative age. |
| Ages.AgeStringInjective | entities/patients/Age.py:51 | Distinct valid ages render differently. |
| Ages.AgeStringPlural | entities/patients/Age.py:51 | The rendering ends in "s" exactly when the age is greater than 1, so 0 and 1 are singular. |
| Text.IntToStringRoundTrip | entities/patients/Age.py:51 | The decimal rendering of an integer reads back as the same integer. |
| Priorities.SetName | entities/patients/Priority.py:37-48 | Accepted iff the name is "normal" or "urgente". On acceptance the name is replaced and the weight is kept, not recomputed. On rejection nothing changes and PriorityNotFound is raised. |
| Priorities.SetWeight | entities/patients/Priority.py:60-66 | Any weight is stored without a check, and the name is kept. |
| Priorities.MakePriority | entities/patients/Priority.py:15-25 | Construction succeeds iff the name is "normal" or "urgente" ("urgent" fails). The weight is then the table's weight for the name, so it is 0 or 1. Failure is PriorityNotFound. |
| Priorities.FallbackUnreachable | entities/patients/Priority.py:24-25 | Every name the setter accepts has a table entry, so the default-priority fallback is never taken. |
| Priorities.UrgentOutweighsNormal | entities/patients/Priority.py:1-5 | The "urgente" weight is strictly greater than the "normal" weight. |
| Priorities.SetNameBreaksConsistency | entities/patients/Priority.py:46-48 | Renaming "normal" to "urgente" through the setter succeeds but keeps weight 0, which no longer matches the table. |
| Priorities.PriorityEq | entities/patients/Priority.py:68-79 | Equality of both name and weight coincides with structural equality. |
| Priorities.PriorityStringOfConstructed | test.py:146-152 | A constructed priority renders as "Prioridade: normal e peso 0" or "Prioridade: urgente e peso 1". |
| Patients.WithName | entities/patients/Patient.py:33-39 | The name setter stores any name and leaves the age unchanged. |
| Patients.WithAge | entities/patients/Patient.py:51-57 | The age setter leaves the name unchanged. |
| Patients.PatientEq | entities/patients/Patient.py:67-78 | Equal names and value-equal ages coincide with structural equality. |
| Patients.SameNameDifferentAges | entities/patients/Patient.py:78 | The same name with different ages gives unequal patients. |
| Patients.PatientStringInjective | entities/patients/Patient.py:59-65 | Two valid patients render alike only if they are equal, whatever their names hold: the age rendering has no line break, so the last one separates name from age. |
| Patients.PatientStringsAgree | test.py:210-216 | Both renderings start with "Nome do paciente: " and the name, and end with the age's rendering. They differ only in the joiner, a line break in the package and " e " in the single-file copy. |
| Appointments.WithPatient | entities/medical/MedicalAppointment.py:35-41 | Setting the patient keeps the priority. |
| Appointments.WithPriority | entities/medical/MedicalAppointment.py:53-59 | Setting the priority keeps the patient. |
| Appointments.AppointmentEq | entities/medical/MedicalAppointment.py:61-72 | Equal patients and equal priorities coincide with structural equality, so this is an equivalence. |
| Appointments.SamePatientDifferentPriorities | entities/medical/MedicalAppointment.py:72 | The same patient under different priorities gives unequal appointments. |
| Ordering.InsertByKey | entities/medical/MedicalManagementSystem.py:63 | Inserting into a sorted list gives a sorted list that holds the old contents plus the new appointment. |
| Ordering.OrderAppointments | entities/medical/MedicalManagementSystem.py:60-64 | The result is non-increasing in (weight, age) lexicographically, and it is a permutation of the input. |
| Ordering.OrderKeepsOrderPerKey | entities/medical/MedicalManagementSystem.py:63 | The sort is stable: for every key, the appointments with that key keep their input order. |
| Ordering.SortedUnique | entities/medical/MedicalManagementSystem.py:63 | Two sorted lists that agree on every key's subsequence are equal. So sortedness and stability determine the sort's result. |
| Ordering.PrecedesInSorted | entities/medical/MedicalManagementSystem.py:63 | In a sorted list, an appointment with a strictly greater key comes first. |
| Ordering.AheadInQueue | entities/medical/MedicalManagementSystem.py:63 | In a sorted queue, every copy of an appointment with a strictly greater key is ahead of every copy of one with a smaller key. |
| Ordering.OrderIdempotent | entities/medical/MedicalManagementSystem.py:60-64 | Re-sorting an already sorted list returns it unchanged. |
| Ordering.OrderAfterAppend | entities/medical/MedicalManagementSystem.py:76-79 | Sorting the sorted list plus a new appointment equals sorting the unsorted history plus it. |
| ManagementSystem.NewSystem | entities/medical/MedicalManagementSystem.py:12-22 | A new system holds the given name and an empty, well-formed list. |
| ManagementSystem.NoDupAfterAdding | entities/medical/MedicalManagementSystem.py:75-79 | If a list is duplicate-free, a reordering of it plus an element it does not hold is still duplicate-free. |
| ManagementSystem.AddAppointment | entities/medical/MedicalManagementSystem.py:66-81 | Returns False iff an equal appointment is held, and then the system is unchanged. Otherwise it returns True and the new list is a sorted permutation of the old list plus the appointment. Equal-key appointments are in old-list-then-new order, and the no-duplicates invariant is kept. |
| ManagementSystem.AddKeepsWellFormed | entities/medical/MedicalManagementSystem.py:75-79 | Every call keeps the list sorted and free of duplicates. |
| ManagementSystem.AddFollowsHistory | entities/medical/MedicalManagementSystem.py:75-79 | Adding a new appointment to the stable sort of an insertion history returns True and gives the stable sort of the history extended by it. So equal-key appointments are listed in insertion order. |
| ManagementSystem.Distinct | entities/medical/MedicalManagementSystem.py:75-79 | The arrivals that `add_appointment` accepts, first occurrences only: the result is duplicate-free and holds exactly the arrivals' values. |
| ManagementSystem.AddAllFollowsHistory | entities/medical/MedicalManagementSystem.py:75-79 | Starting from an empty system, one `add_appointment` call per arrival yields the stable sort of the distinct arrivals. The system's name is kept. |
| ManagementSystem.Names | entities/medical/MedicalManagementSystem.py:90-92 | One name per appointment, the i-th being the i-th appointment's patient name. |
| ManagementSystem.RenderText | entities/medical/MedicalManagementSystem.py:83-94 | The rendering starts with "Ordem de Atendimento: ". An empty queue renders as just that prefix. |
| ManagementSystem.RenderSplitsBack | entities/medical/MedicalManagementSystem.py:83-94 | For a non-empty queue of comma-free names, splitting the rendering after its label at ", " gives the names in queue order. |
| ManagementSystem.Render | entities/medical/MedicalManagementSystem.py:89-94 | The name-collecting loop followed by the join produces RenderText. |
| Text.SplitJoin | entities/medical/MedicalManagementSystem.py:93 | Splitting the ", "-join of a non-empty list of comma-free parts at ", " gives the parts back. |
| Service.MakeAnAppointment | services/MedicalManagementSystemService.py:41-56 | Succeeds iff the age is in 0..120 and the priority is "normal" or "urgente". An age error wins over a priority error. On any failure the system is unchanged. On success the result is add_appointment's flag and system for Appointment(Patient(name, Age(age)), Priority(priority, weight)). |
| Service.RepeatedCallIsRefused | services/MedicalManagementSystemService.py:52-56 | On a well-formed queue, a second identical valid call returns False and changes nothing, and exactly one such entry is held. |
| Service.UrgentBookingGoesFirst | services/MedicalManagementSystemService.py:52-56 | Booking the same patient as "normal" and then as "urgente" leaves both entries queued, with the urgent one ahead. |
| Service.HeldAfterBooking | entities/medical/MedicalManagementSystem.py:75-79 | After add_appointment the appointment is held, whether it was new or not. |
| Service.StillHeld | entities/medical/MedicalManagementSystem.py:75-79 | Adding never drops an appointment already held. |
| Scenarios.AgeBoundaries | entities/patients/Age.py:1-2 | Ages 0 and 120 are accepted. -1 gives the negative-age error and 121 the over-limit error. |
| Scenarios.EnglishSpellingRejected | services/MedicalManagementSystemService.py:52-53 | "urgent" gives PriorityNotFound for a valid age. With a negative age, the age error is reported instead. |
| Scenarios.SingleBooking | services/MedicalManagementSystemService.py:52-56 | Booking Ana (30, normal) renders "Ordem de Atendimento: Ana". |
| Scenarios.UrgentOutranksOlderNormal | entities/medical/MedicalManagementSystem.py:63 | Ana (30, normal) then Bia (70, urgente) renders "Bia, Ana". |
| Scenarios.OlderFirstWithinPriority | entities/medical/MedicalManagementSystem.py:63 | Ana (30, normal) then Bia (70, normal) renders "Bia, Ana". |
| Scenarios.DuplicateBookingNotRepeated | entities/medical/MedicalManagementSystem.py:75 | Booking Ana (30, normal) twice renders "Ana" once. |
| Scenarios.EqualKeysKeepArrivalOrder | entities/medical/MedicalManagementSystem.py:63 | Ana (40), then Bia (40), then Caio (50), all normal, renders "Caio, Ana, Bia". |

## Left out

- The terminal driver is not modelled: index.py and test.py:451-463. It covers reading the count and the lines, `split(", ")`, `int(...)` and `print`. `Scenarios.Book` stands in for its loop. A validation error there ends the run, as an uncaught exception does.
- Dynamic typing is not modelled: a non-integer age, or `__eq__` called with an object of another class. Inputs are typed.
- Exception message texts are not modelled. Errors are distinguished by kind, and the over-limit error carries the rejected value its message interpolates.
- Heap aliasing of the list the `appointments` getter returns is not modelled. The queue is a value, so the in-place and the copying `add_appointment` coincide.
- The getters and setters of the service and of the system's name and list are not modelled, because they carry no behaviour.
- Entities are values. In the source, a setter called on an Age, Patient, Priority or MedicalAppointment already in a queue mutates the queued element in place without re-sorting, which can leave the list unsorted or holding two equal appointments. `WellFormed` is an invariant only while no held entity is mutated. Nothing in the repository does this.
- Ages.Age: the datatype admits any integer. Validity (0..120) is guaranteed by `MakeAge` and `SetAge`, the only paths the source offers, and stated with `Valid`.
- ManagementSystem.RenderSplitsBack: the split-back property is stated only for comma-free names, because a name holding ", " cannot be told apart from two names.
- Python's `in` first checks identity and then `__eq__`. Every `__eq__` here is reflexive, so `Contains` uses `__eq__` alone.
