/** `MedicalManagementSystem`: the appointment queue. Each successful insertion appends
    and re-sorts the whole list; an appointment equal to one already held is refused. */
module ManagementSystem {
  import Text
  import opened Appointments
  import opened Ordering

  datatype System = System(name: string, appointments: seq<Appointment>)

  /** No appointment occurs twice. */
  predicate NoDup(s: seq<Appointment>) {
    forall i, j | 0 <= i < j < |s| :: s[i] != s[j]
  }

  /** The queue's invariant: sorted by key and free of duplicates. */
  predicate WellFormed(sys: System) {
    Sorted(sys.appointments) && NoDup(sys.appointments)
  }

  /** A new system holds its name and no appointments. */
  function NewSystem(name: string): (r: System)
    ensures r.name == name && r.appointments == []
    ensures WellFormed(r)
  {
    System(name, [])
  }

  /** Python's `a in s`, which compares with `MedicalAppointment.__eq__`. */
  predicate Contains(s: seq<Appointment>, a: Appointment) {
    exists i | 0 <= i < |s| :: AppointmentEq(s[i], a)
  }

  lemma {:induction false} NoDupCounts(s: seq<Appointment>)
    ensures NoDup(s) <==> forall x :: multiset(s)[x] <= 1
    decreases |s|
  {
    if |s| > 0 {
      var h, t := s[0], s[1..];
      NoDupCounts(t);
      assert s == [h] + t;
      assert NoDup(s) <==> h !in t && NoDup(t) by {
        if NoDup(s) {
          forall i, j | 0 <= i < j < |t|
            ensures t[i] != t[j]
          {
            assert t[i] == s[i + 1] && t[j] == s[j + 1];
          }
          forall i | 0 <= i < |t|
            ensures t[i] != h
          {
            assert t[i] == s[i + 1];
          }
        }
        if h !in t && NoDup(t) {
          forall i, j | 0 <= i < j < |s|
            ensures s[i] != s[j]
          {
            assert s[j] == t[j - 1];
            if i > 0 {
              assert s[i] == t[i - 1];
            }
          }
        }
      }
      if forall x :: multiset(s)[x] <= 1 {
        assert multiset(s)[h] == multiset(t)[h] + 1;
        forall x
          ensures multiset(t)[x] <= 1
        {
          assert multiset(s)[x] <= 1;
        }
      }
    }
  }

  /** A sequence with one more element than a duplicate-free one, that element new,
      reordered any way, is still duplicate-free. */
  lemma NoDupAfterAdding(s: seq<Appointment>, a: Appointment, r: seq<Appointment>)
    requires a !in s
    requires multiset(r) == multiset(s) + multiset{a}
    ensures NoDup(s) ==> NoDup(r)
  {
    if NoDup(s) {
      NoDupCounts(s);
      NoDupCounts(r);
      forall x
        ensures multiset(r)[x] <= 1
      {
        assert multiset(s)[x] <= 1;
        if x == a {
          assert multiset(s)[a] == 0;
        }
      }
    }
  }

  /** `add_appointment`: the flag tells whether the appointment was new, and the system
      after the call is returned beside it. */
  function AddAppointment(sys: System, a: Appointment): (r: (bool, System))
    ensures r.0 <==> a !in sys.appointments
    ensures r.1.name == sys.name
    ensures !r.0 ==> r.1 == sys
    ensures r.0 ==> multiset(r.1.appointments) == multiset(sys.appointments) + multiset{a}
    ensures r.0 ==> Sorted(r.1.appointments)
    ensures r.0 ==> SameOrderPerKey(r.1.appointments, sys.appointments + [a])
    ensures NoDup(sys.appointments) ==> NoDup(r.1.appointments)
  {
    if Contains(sys.appointments, a) then (false, sys)
    else
      var s := sys.appointments + [a];
      var q := OrderAppointments(s);
      OrderKeepsOrderPerKey(s);
      NoDupAfterAdding(sys.appointments, a, q);
      (true, sys.(appointments := q))
  }

  /** Every call keeps the queue's invariant. */
  lemma AddKeepsWellFormed(sys: System, a: Appointment)
    requires WellFormed(sys)
    ensures WellFormed(AddAppointment(sys, a).1)
  {
  }

  /** A queue built by successive insertions is the stable sort of the insertion history:
      appointments with equal keys stay in the order they were inserted. */
  lemma AddFollowsHistory(name: string, h: seq<Appointment>, a: Appointment)
    requires a !in h
    ensures AddAppointment(System(name, OrderAppointments(h)), a) == (true, System(name, OrderAppointments(h + [a])))
  {
    assert a !in multiset(h);
    OrderAfterAppend(h, a);
  }

  /** The arrivals, first occurrences only: an appointment equal to an earlier one is
      dropped, as `add_appointment` refuses it. */
  function Distinct(xs: seq<Appointment>): (r: seq<Appointment>)
    ensures NoDup(r)
    ensures forall x :: x in r <==> x in xs
  {
    if |xs| == 0 then []
    else
      var d := Distinct(xs[..|xs| - 1]);
      var x := xs[|xs| - 1];
      assert forall y :: y in xs <==> y in xs[..|xs| - 1] || y == x;
      if x in d then d
      else
        assert multiset(d + [x]) == multiset(d) + multiset{x};
        NoDupAfterAdding(d, x, d + [x]);
        d + [x]
  }

  /** Successive `add_appointment` calls, one per arrival, in arrival order. */
  function AddAll(sys: System, xs: seq<Appointment>): System
  {
    if |xs| == 0 then sys
    else AddAppointment(AddAll(sys, xs[..|xs| - 1]), xs[|xs| - 1]).1
  }

  /** A queue built from an empty system by successive insertions is the stable sort of
      its distinct arrivals: appointments with equal keys are served in arrival order. */
  lemma {:induction false} AddAllFollowsHistory(name: string, xs: seq<Appointment>)
    ensures AddAll(NewSystem(name), xs) == System(name, OrderAppointments(Distinct(xs)))
  {
    if |xs| == 0 {
      assert NewSystem(name) == System(name, OrderAppointments([]));
    } else {
      var init := xs[..|xs| - 1];
      var x := xs[|xs| - 1];
      var d := Distinct(init);
      AddAllFollowsHistory(name, init);
      assert x in OrderAppointments(d) <==> x in d by {
        assert x in multiset(OrderAppointments(d)) <==> x in multiset(d);
      }
      if x !in d {
        AddFollowsHistory(name, d, x);
      }
    }
  }

  const RenderLabel: string := "Ordem de Atendimento: "

  /** The patient names of a list of appointments, in list order. */
  function Names(s: seq<Appointment>): (r: seq<string>)
    ensures |r| == |s|
    ensures forall i | 0 <= i < |s| :: r[i] == s[i].patient.name
  {
    seq(|s|, i requires 0 <= i < |s| => s[i].patient.name)
  }

  /** `__str__`: the label, then the patient names joined by ", ". */
  function RenderText(sys: System): (r: string)
    ensures |r| >= |RenderLabel| && r[..|RenderLabel|] == RenderLabel
    ensures sys.appointments == [] ==> r == RenderLabel
  {
    RenderLabel + Text.Join(Names(sys.appointments), ", ")
  }

  /** The rendering can be read back: for a non-empty queue of comma-free names, splitting
      what follows the label at ", " gives the names in queue order. */
  lemma RenderSplitsBack(sys: System)
    ensures |sys.appointments| >= 1 && (forall i | 0 <= i < |sys.appointments| :: Text.NoComma(sys.appointments[i].patient.name))
            ==> Text.SplitOnCommaSpace(RenderText(sys)[|RenderLabel|..]) == Names(sys.appointments)
  {
    var names := Names(sys.appointments);
    assert RenderText(sys)[|RenderLabel|..] == Text.Join(names, ", ");
    if |names| >= 1 && (forall i | 0 <= i < |names| :: Text.NoComma(names[i])) {
      Text.SplitJoin(names);
    }
  }

  /** The rendering loop: collects the names in list order, then joins them. */
  method Render(sys: System) returns (text: string)
    ensures text == RenderText(sys)
  {
    var s := sys.appointments;
    var names: seq<string> := [];
    var i := 0;
    while i < |s|
      invariant 0 <= i <= |s|
      invariant names == Names(s[..i])
    {
      names := names + [s[i].patient.name];
      i := i + 1;
    }
    assert s[..i] == s;
    text := RenderLabel + Text.Join(names, ", ");
  }
}
