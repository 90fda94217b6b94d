/** `MedicalManagementSystemService.make_an_appointment`: validates the age, then the
    priority, builds the patient and the appointment, and hands it to the queue. */
module Service {
  import opened Wrappers
  import opened Errors
  import opened Ages
  import opened Priorities
  import opened Patients
  import opened Appointments
  import opened Ordering
  import opened ManagementSystem

  /** The outcome of the call (the flag of `add_appointment`, or the validation error
      raised) and the system after it. */
  function MakeAnAppointment(sys: System, name: string, age: int, priority: string)
    : (r: (Result<bool, ValidationError>, System))
    ensures r.0.Success? <==> MinAge <= age <= MaxAge && (priority == "normal" || priority == "urgente")
    ensures age < MinAge ==> r.0 == Failure(NegativeAge)
    ensures age > MaxAge ==> r.0 == Failure(AgeOverLimit(age))
    ensures MinAge <= age <= MaxAge && priority != "normal" && priority != "urgente"
            ==> r.0 == Failure(PriorityNotFound)
    ensures r.0.Failure? ==> r.1 == sys
    ensures r.0.Success? ==>
            var appt := Appointment(Patient(name, Age(age)), Priority(priority, PriorityWeights[priority]));
            r.0.value == AddAppointment(sys, appt).0 && r.1 == AddAppointment(sys, appt).1
  {
    match MakeAge(age)
    case Failure(e) => (Failure(e), sys)
    case Success(a) =>
      match MakePriority(priority)
      case Failure(e) => (Failure(e), sys)
      case Success(p) =>
        var added := AddAppointment(sys, Appointment(Patient(name, a), p));
        (Success(added.0), added.1)
  }

  /** Making the same valid appointment twice: the second call reports it as already held,
      changes nothing, and the queue holds exactly one such entry. */
  lemma RepeatedCallIsRefused(sys: System, name: string, age: int, priority: string)
    requires WellFormed(sys)
    requires MinAge <= age <= MaxAge && (priority == "normal" || priority == "urgente")
    ensures var first := MakeAnAppointment(sys, name, age, priority);
            var second := MakeAnAppointment(first.1, name, age, priority);
            var appt := Appointment(Patient(name, Age(age)), Priority(priority, PriorityWeights[priority]));
            && second.0 == Success(false)
            && second.1 == first.1
            && multiset(second.1.appointments)[appt] == 1
  {
    var appt := Appointment(Patient(name, Age(age)), Priority(priority, PriorityWeights[priority]));
    var first := MakeAnAppointment(sys, name, age, priority);
    HeldAfterBooking(sys, appt);
    NoDupCounts(first.1.appointments);
    assert multiset(first.1.appointments)[appt] >= 1;
  }

  /** The same patient booked as "normal" and as "urgente" is held twice, the urgent
      booking ahead of the normal one. */
  lemma UrgentBookingGoesFirst(sys: System, name: string, age: int)
    requires WellFormed(sys)
    requires MinAge <= age <= MaxAge
    ensures var first := MakeAnAppointment(sys, name, age, "normal");
            var second := MakeAnAppointment(first.1, name, age, "urgente");
            var s := second.1.appointments;
            var normal := Appointment(Patient(name, Age(age)), Priority("normal", 0));
            var urgent := Appointment(Patient(name, Age(age)), Priority("urgente", 1));
            && normal in s && urgent in s
            && forall i, j | 0 <= i < |s| && 0 <= j < |s| && s[i] == urgent && s[j] == normal :: i < j
  {
    var normal := Appointment(Patient(name, Age(age)), Priority("normal", 0));
    var urgent := Appointment(Patient(name, Age(age)), Priority("urgente", 1));
    var first := AddAppointment(sys, normal);
    assert MakeAnAppointment(sys, name, age, "normal").1 == first.1;
    var second := AddAppointment(first.1, urgent);
    assert MakeAnAppointment(first.1, name, age, "urgente").1 == second.1;
    HeldAfterBooking(sys, normal);
    HeldAfterBooking(first.1, urgent);
    StillHeld(first.1, normal, urgent);
    AheadInQueue(second.1.appointments, urgent, normal);
  }

  /** An appointment already held is still held after another is added. */
  lemma StillHeld(sys: System, held: Appointment, a: Appointment)
    requires held in sys.appointments
    ensures held in AddAppointment(sys, a).1.appointments
  {
    var r := AddAppointment(sys, a);
    if r.0 {
      assert held in multiset(sys.appointments);
      assert held in multiset(r.1.appointments);
    }
  }

  /** After a call to `add_appointment` the appointment is held, whether it was new or not. */
  lemma HeldAfterBooking(sys: System, a: Appointment)
    ensures a in AddAppointment(sys, a).1.appointments
  {
    var r := AddAppointment(sys, a);
    if r.0 {
      assert a in multiset(r.1.appointments);
    }
  }
}
