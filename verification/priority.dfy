/** Triage priority: a name from a closed list and the weight looked up for it. */
module Priorities {
  import opened Wrappers
  import opened Errors
  import Text

  /** The recognised names, spelt as in the code ("urgente", not "urgent"). */
  const PriorityNames: seq<string> := ["normal", "urgente"]
  const PriorityWeights: map<string, int> := map["normal" := 0, "urgente" := 1]
  const DefaultPriority: string := "normal"

  datatype Priority = Priority(name: string, weight: int)

  /** The weight is the one the table gives for the name. */
  predicate Consistent(p: Priority) {
    p.name in PriorityWeights && p.weight == PriorityWeights[p.name]
  }

  /** The constructor's weight lookup, with its fallback to the default priority's weight. */
  function FallbackWeight(name: string): int
  {
    if name in PriorityWeights then PriorityWeights[name] else PriorityWeights[DefaultPriority]
  }

  /** The name setter: rejects names outside the list and never recomputes the weight. */
  function SetName(p: Priority, name: string): (r: (Priority, Option<ValidationError>))
    ensures r.1.None? <==> name == "normal" || name == "urgente"
    ensures r.1.None? ==> r.0.name == name && r.0.weight == p.weight
    ensures r.1.Some? ==> r.0 == p && r.1.value == PriorityNotFound
  {
    if name !in PriorityNames then (p, Some(PriorityNotFound)) else (p.(name := name), None)
  }

  /** The weight setter performs no check. */
  function SetWeight(p: Priority, weight: int): (r: Priority)
    ensures r.name == p.name && r.weight == weight
  {
    p.(weight := weight)
  }

  /** The constructor: the name setter first, then the weight from the table. */
  function MakePriority(name: string): (r: Result<Priority, ValidationError>)
    ensures r.Success? <==> name == "normal" || name == "urgente"
    ensures r.Success? ==> r.value.name == name && Consistent(r.value)
    ensures r.Success? ==> r.value.weight == 0 || r.value.weight == 1
    ensures r.Failure? ==> r.error == PriorityNotFound
  {
    match SetName(Priority("", 0), name)
    case (_, Some(e)) => Failure(e)
    case (p, None) => Success(SetWeight(p, FallbackWeight(name)))
  }

  /** Every name the setter accepts has its own table entry, so the default-priority
      fallback in the constructor's lookup is never taken. */
  lemma FallbackUnreachable(name: string)
    requires SetName(Priority("", 0), name).1.None?
    ensures name in PriorityWeights
    ensures FallbackWeight(name) == PriorityWeights[name]
  {
  }

  /** "urgente" strictly outweighs "normal". */
  lemma UrgentOutweighsNormal()
    ensures MakePriority("urgente").Success? && MakePriority("normal").Success?
    ensures MakePriority("urgente").value.weight > MakePriority("normal").value.weight
  {
  }

  /** Renaming through the setter keeps the old weight, so it can leave a priority whose
      weight no longer matches its name. */
  lemma SetNameBreaksConsistency()
    ensures MakePriority("normal").Success?
    ensures var (p, e) := SetName(MakePriority("normal").value, "urgente");
            e.None? && !Consistent(p)
  {
  }

  /** `Priority.__eq__`: names and weights both match. */
  function PriorityEq(a: Priority, b: Priority): (r: bool)
    ensures r <==> a == b
  {
    a.name == b.name && a.weight == b.weight
  }

  /** `Priority.__str__` of the single-file copy. */
  function PriorityString(p: Priority): string
  {
    "Prioridade: " + p.name + " e peso " + Text.IntToString(p.weight)
  }

  /** A constructed priority renders as one of exactly two texts. */
  lemma PriorityStringOfConstructed(name: string)
    requires MakePriority(name).Success?
    ensures var s := PriorityString(MakePriority(name).value);
            s == "Prioridade: normal e peso 0" || s == "Prioridade: urgente e peso 1"
  {
  }
}
