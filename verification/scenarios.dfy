/** Concrete runs of the intake path: boundary ages and short booking sequences. */
module Scenarios {
  import opened Wrappers
  import Text
  import opened Errors
  import opened Ages
  import opened Patients
  import opened Priorities
  import opened Appointments
  import opened Ordering
  import opened ManagementSystem
  import opened Service

  /** Ages 0 and 120 are accepted; -1 and 121 are rejected, each with its own error. */
  lemma AgeBoundaries()
    ensures MakeAge(0).Success? && MakeAge(120).Success?
    ensures MakeAge(-1) == Failure(NegativeAge)
    ensures MakeAge(121) == Failure(AgeOverLimit(121))
  {
  }

  /** "urgent" is not a recognised spelling, whatever the age. */
  lemma EnglishSpellingRejected(sys: System)
    ensures MakeAnAppointment(sys, "Ana", 30, "urgent").0 == Failure(PriorityNotFound)
    ensures MakeAnAppointment(sys, "Ana", -3, "urgent").0 == Failure(NegativeAge)
  {
  }

  /** The state after booking each record in turn, or the first error raised. */
  function Book(sys: System, records: seq<(string, int, string)>): Result<System, ValidationError>
    decreases |records|
  {
    if |records| == 0 then Success(sys)
    else
      var r := MakeAnAppointment(sys, records[0].0, records[0].1, records[0].2);
      if r.0.Failure? then Failure(r.0.error) else Book(r.1, records[1..])
  }

  function Booked(name: string, age: int, priority: string, weight: int): Appointment
  {
    Appointment(Patient(name, Age(age)), Priority(priority, weight))
  }

  /** Booking `a` into a system that does not hold it yields the sorted list `expected`. */
  lemma BookNew(sys: System, name: string, age: int, priority: string, weight: int, expected: seq<Appointment>)
    requires MinAge <= age <= MaxAge && priority in PriorityWeights && PriorityWeights[priority] == weight
    requires Booked(name, age, priority, weight) !in sys.appointments
    requires OrderAppointments(sys.appointments + [Booked(name, age, priority, weight)]) == expected
    ensures MakeAnAppointment(sys, name, age, priority) == (Success(true), sys.(appointments := expected))
  {
  }

  lemma SingleBooking()
    ensures var r := Book(NewSystem("Clinica"), [("Ana", 30, "normal")]);
            r.Success? && RenderText(r.value) == "Ordem de Atendimento: Ana"
  {
    var ana := Booked("Ana", 30, "normal", 0);
    var s1 := System("Clinica", [ana]);
    assert Book(NewSystem("Clinica"), [("Ana", 30, "normal")]) == Success(s1) by {
      assert OrderAppointments([ana]) == [ana];
      BookNew(NewSystem("Clinica"), "Ana", 30, "normal", 0, [ana]);
    }
    assert RenderText(s1) == "Ordem de Atendimento: Ana" by {
      assert Names([ana]) == ["Ana"];
    }
  }

  /** Booking two records is booking the first, then the second. */
  lemma BookTwo(sys: System, x: (string, int, string), y: (string, int, string))
    ensures var r := MakeAnAppointment(sys, x.0, x.1, x.2);
            r.0.Success? ==>
              var r2 := MakeAnAppointment(r.1, y.0, y.1, y.2);
              r2.0.Success? ==> Book(sys, [x, y]) == Success(r2.1)
  {
    var r := MakeAnAppointment(sys, x.0, x.1, x.2);
    if r.0.Success? {
      assert [x, y][1..] == [y];
      assert Book(sys, [x, y]) == Book(r.1, [y]);
      var r2 := MakeAnAppointment(r.1, y.0, y.1, y.2);
      if r2.0.Success? {
        assert [y][1..] == [];
        assert Book(r.1, [y]) == Book(r2.1, []);
      }
    }
  }

  /** "Bia, Ana" is what a queue holding Bia then Ana renders as. */
  lemma RenderBiaAna(sys: System, bia: Appointment, ana: Appointment)
    requires sys.appointments == [bia, ana]
    requires bia.patient.name == "Bia" && ana.patient.name == "Ana"
    ensures RenderText(sys) == "Ordem de Atendimento: Bia, Ana"
  {
    assert Names([bia, ana]) == ["Bia", "Ana"];
    assert ["Bia", "Ana"][1..] == ["Ana"];
    assert Text.Join(["Bia", "Ana"], ", ") == "Bia, Ana";
  }

  lemma UrgentOutranksOlderNormal()
    ensures var r := Book(NewSystem("Clinica"), [("Ana", 30, "normal"), ("Bia", 70, "urgente")]);
            r.Success? && RenderText(r.value) == "Ordem de Atendimento: Bia, Ana"
  {
    var ana := Booked("Ana", 30, "normal", 0);
    var bia := Booked("Bia", 70, "urgente", 1);
    var s0 := NewSystem("Clinica");
    var s1 := System("Clinica", [ana]);
    var s2 := System("Clinica", [bia, ana]);
    assert Book(s0, [("Ana", 30, "normal"), ("Bia", 70, "urgente")]) == Success(s2) by {
      assert OrderAppointments([ana]) == [ana];
      BookNew(s0, "Ana", 30, "normal", 0, [ana]);
      assert OrderAppointments([ana] + [bia]) == [bia, ana] by {
        assert [ana] + [bia] == [ana, bia];
        assert OrderAppointments([bia]) == [bia];
      }
      BookNew(s1, "Bia", 70, "urgente", 1, [bia, ana]);
      BookTwo(s0, ("Ana", 30, "normal"), ("Bia", 70, "urgente"));
    }
    RenderBiaAna(s2, bia, ana);
  }

  lemma OlderFirstWithinPriority()
    ensures var r := Book(NewSystem("Clinica"), [("Ana", 30, "normal"), ("Bia", 70, "normal")]);
            r.Success? && RenderText(r.value) == "Ordem de Atendimento: Bia, Ana"
  {
    var ana := Booked("Ana", 30, "normal", 0);
    var bia := Booked("Bia", 70, "normal", 0);
    var s0 := NewSystem("Clinica");
    var s1 := System("Clinica", [ana]);
    var s2 := System("Clinica", [bia, ana]);
    assert Book(s0, [("Ana", 30, "normal"), ("Bia", 70, "normal")]) == Success(s2) by {
      assert OrderAppointments([ana]) == [ana];
      BookNew(s0, "Ana", 30, "normal", 0, [ana]);
      assert OrderAppointments([ana] + [bia]) == [bia, ana] by {
        assert [ana] + [bia] == [ana, bia];
        assert OrderAppointments([bia]) == [bia];
      }
      BookNew(s1, "Bia", 70, "normal", 0, [bia, ana]);
      BookTwo(s0, ("Ana", 30, "normal"), ("Bia", 70, "normal"));
    }
    RenderBiaAna(s2, bia, ana);
  }

  lemma DuplicateBookingNotRepeated()
    ensures var r := Book(NewSystem("Clinica"), [("Ana", 30, "normal"), ("Ana", 30, "normal")]);
            r.Success? && RenderText(r.value) == "Ordem de Atendimento: Ana"
  {
    var ana := Booked("Ana", 30, "normal", 0);
    var s0 := NewSystem("Clinica");
    var s1 := System("Clinica", [ana]);
    assert Book(s0, [("Ana", 30, "normal"), ("Ana", 30, "normal")]) == Success(s1) by {
      assert OrderAppointments([ana]) == [ana];
      BookNew(s0, "Ana", 30, "normal", 0, [ana]);
      assert MakeAnAppointment(s1, "Ana", 30, "normal") == (Success(false), s1);
      BookTwo(s0, ("Ana", 30, "normal"), ("Ana", 30, "normal"));
    }
    assert RenderText(s1) == "Ordem de Atendimento: Ana" by {
      assert Names([ana]) == ["Ana"];
    }
  }

  lemma EqualKeysKeepArrivalOrder()
    ensures var r := Book(NewSystem("Clinica"), [("Ana", 40, "normal"), ("Bia", 40, "normal"), ("Caio", 50, "normal")]);
            r.Success? && RenderText(r.value) == "Ordem de Atendimento: Caio, Ana, Bia"
  {
    BookArrivals();
    RenderCaioAnaBia(System("Clinica", [Booked("Caio", 50, "normal", 0), Booked("Ana", 40, "normal", 0), Booked("Bia", 40, "normal", 0)]));
  }

  lemma RenderCaioAnaBia(sys: System)
    requires |sys.appointments| == 3
    requires sys.appointments[0].patient.name == "Caio"
    requires sys.appointments[1].patient.name == "Ana"
    requires sys.appointments[2].patient.name == "Bia"
    ensures RenderText(sys) == "Ordem de Atendimento: Caio, Ana, Bia"
  {
    var names := Names(sys.appointments);
    assert names == ["Caio", "Ana", "Bia"];
    JoinThree("Caio", "Ana", "Bia");
  }

  lemma JoinThree(a: string, b: string, c: string)
    ensures Text.Join([a, b, c], ", ") == a + ", " + b + ", " + c
  {
    assert [a, b, c][1..] == [b, c];
    assert [b, c][1..] == [c];
    assert Text.Join([b, c], ", ") == b + ", " + c;
    assert Text.Join([a, b, c], ", ") == a + ", " + (b + ", " + c);
  }

  lemma BookArrivals()
    ensures Book(NewSystem("Clinica"), [("Ana", 40, "normal"), ("Bia", 40, "normal"), ("Caio", 50, "normal")])
         == Success(System("Clinica", [Booked("Caio", 50, "normal", 0), Booked("Ana", 40, "normal", 0), Booked("Bia", 40, "normal", 0)]))
  {
    var ana := Booked("Ana", 40, "normal", 0);
    var bia := Booked("Bia", 40, "normal", 0);
    var caio := Booked("Caio", 50, "normal", 0);
    var s0 := NewSystem("Clinica");
    var s1 := System("Clinica", [ana]);
    var s2 := System("Clinica", [ana, bia]);
    var s3 := System("Clinica", [caio, ana, bia]);
    var recs := [("Ana", 40, "normal"), ("Bia", 40, "normal"), ("Caio", 50, "normal")];
    OrderOne(ana);
    BookNew(s0, "Ana", 40, "normal", 0, [ana]);
    OrderTwoTied(ana, bia);
    BookNew(s1, "Bia", 40, "normal", 0, [ana, bia]);
    OrderLateArrivalFirst(ana, bia, caio);
    BookNew(s2, "Caio", 50, "normal", 0, [caio, ana, bia]);
    assert Book(s0, recs) == Book(s1, recs[1..]);
    assert Book(s1, recs[1..]) == Book(s2, recs[2..]);
    assert Book(s2, recs[2..]) == Book(s3, []);
  }

  lemma OrderOne(a: Appointment)
    ensures OrderAppointments([] + [a]) == [a]
  {
    assert [] + [a] == [a];
  }

  /** Two appointments with the same key stay in arrival order. */
  lemma OrderTwoTied(a: Appointment, b: Appointment)
    requires Key(a) == Key(b)
    ensures OrderAppointments([a] + [b]) == [a, b]
  {
    assert [a] + [b] == [a, b];
    assert [a, b][1..] == [b];
    assert OrderAppointments([b]) == [b];
  }

  /** A later arrival with a strictly greater key goes ahead of two tied earlier ones. */
  lemma OrderLateArrivalFirst(a: Appointment, b: Appointment, c: Appointment)
    requires Key(a) == Key(b)
    requires KeyAtLeast(c, a) && !KeyAtLeast(a, c)
    ensures OrderAppointments([a, b] + [c]) == [c, a, b]
  {
    assert [a, b] + [c] == [a, b, c];
    assert [a, b, c][1..] == [b, c];
    OrderOutranked(b, c);
    InsertAfterHead(a, b, c);
  }

  lemma OrderOutranked(b: Appointment, c: Appointment)
    requires KeyAtLeast(c, b) && !KeyAtLeast(b, c)
    ensures OrderAppointments([b, c]) == [c, b]
  {
    assert [b, c][1..] == [c];
    assert OrderAppointments([c]) == [c];
  }

  lemma InsertAfterHead(a: Appointment, b: Appointment, c: Appointment)
    requires Key(a) == Key(b)
    requires KeyAtLeast(c, b) && !KeyAtLeast(a, c)
    ensures InsertByKey(a, [c, b]) == [c, a, b]
  {
    assert [c, b][1..] == [b];
    assert InsertByKey(a, [b]) == [a, b];
  }
}
