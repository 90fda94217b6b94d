/** A patient: a name (not validated) and an Age. */
module Patients {
  import opened Ages

  datatype Patient = Patient(name: string, age: Age)

  /** The name setter: only the name changes. */
  function WithName(p: Patient, name: string): (r: Patient)
    ensures r.name == name && r.age == p.age
  {
    p.(name := name)
  }

  /** The age setter: only the age changes. */
  function WithAge(p: Patient, age: Age): (r: Patient)
    ensures r.name == p.name && r.age == age
  {
    p.(age := age)
  }

  /** `Patient.__eq__`: equal names and ages equal by value. */
  function PatientEq(a: Patient, b: Patient): (r: bool)
    ensures r <==> a == b
  {
    a.name == b.name && AgeEq(a.age, b.age)
  }

  /** The same name with different ages gives distinct patients. */
  lemma SameNameDifferentAges(name: string, a: Age, b: Age)
    requires a.value != b.value
    ensures !PatientEq(Patient(name, a), Patient(name, b))
  {
  }

  const PatientLabel: string := "Nome do paciente: "

  /** `Patient.__str__` of the package: the name, a line break, then the age. */
  function PatientString(p: Patient): string
  {
    PatientLabel + p.name + "\n" + AgeString(p.age)
  }

  /** `Patient.__str__` of the single-file copy: " e " in place of the line break. */
  function PatientStringFlat(p: Patient): string
  {
    PatientLabel + p.name + " e " + AgeString(p.age)
  }

  /** After the line break that ends the name, the rendering holds no other line break. */
  lemma BreakEndsName(p: Patient)
    ensures var s := PatientString(p); var k := |PatientLabel| + |p.name|;
            && s[k] == '\n'
            && forall i | k < i < |s| :: s[i] != '\n'
  {
  }

  /** Two valid patients render alike only if they are equal: the last line break
      separates the name from the age, whatever the name holds. */
  lemma PatientStringInjective(p: Patient, q: Patient)
    requires Valid(p.age) && Valid(q.age)
    requires PatientString(p) == PatientString(q)
    ensures p == q
  {
    var s := PatientString(p);
    var kp, kq := |PatientLabel| + |p.name|, |PatientLabel| + |q.name|;
    BreakEndsName(p);
    BreakEndsName(q);
    assert kp == kq;
    assert p.name == s[|PatientLabel|..kp] == q.name;
    assert AgeString(p.age) == s[kp + 1..] == AgeString(q.age);
    AgeStringInjective(p.age, q.age);
  }

  /** Both renderings open with the label and the name and close with the age; only the
      joiner between them differs. */
  lemma PatientStringsAgree(p: Patient)
    ensures var s := PatientString(p); var f := PatientStringFlat(p);
            var k := |PatientLabel| + |p.name|;
            && |f| == |s| + 2
            && s[..k] == f[..k] == PatientLabel + p.name
            && s[k..k + 1] == "\n" && f[k..k + 3] == " e "
            && s[k + 1..] == f[k + 3..] == AgeString(p.age)
  {
  }
}
