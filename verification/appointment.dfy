/** A medical appointment: a patient and a triage priority. */
module Appointments {
  import opened Ages
  import opened Priorities
  import opened Patients

  datatype Appointment = Appointment(patient: Patient, priority: Priority)

  /** The patient setter: the priority is kept. */
  function WithPatient(a: Appointment, p: Patient): (r: Appointment)
    ensures r.patient == p && r.priority == a.priority
  {
    a.(patient := p)
  }

  /** The priority setter: the patient is kept. */
  function WithPriority(a: Appointment, p: Priority): (r: Appointment)
    ensures r.patient == a.patient && r.priority == p
  {
    a.(priority := p)
  }

  /** `MedicalAppointment.__eq__`: equal patients and equal priorities. Because it agrees
      with structural equality it is an equivalence relation. */
  function AppointmentEq(a: Appointment, b: Appointment): (r: bool)
    ensures r <==> a == b
  {
    PatientEq(a.patient, b.patient) && PriorityEq(a.priority, b.priority)
  }

  /** The same patient under two different priorities gives distinct appointments. */
  lemma SamePatientDifferentPriorities(p: Patient, x: Priority, y: Priority)
    requires x != y
    ensures !AppointmentEq(Appointment(p, x), Appointment(p, y))
  {
  }

  /** The sort key of `order_appointments`: (priority weight, age). */
  function Key(a: Appointment): (int, int)
  {
    (a.priority.weight, a.patient.age.value)
  }
}
