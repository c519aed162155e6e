/**
 The in-memory trait the compiler builds, standing for the code generator's
 trait and method generators. Rendering it to PHP text is not modelled.
 */
module TraitModel {
  import opened Wrappers
  import opened Reflection

  /** A method of the generated trait. `docBlock` holds the parsed tags of
      the copied documentation, when there is one. */
  datatype GeneratedMethod = GeneratedMethod(
    name: string,
    visibility: Visibility,
    isStatic: bool,
    isFinal: bool,
    isAbstract: bool,
    params: seq<Param>,
    docBlock: Option<seq<Tag>>)

  /** The generated trait: its name and namespace, its methods in the order
      they were added, and its imports in the order they were first added. */
  datatype Trait = Trait(
    name: string,
    namespace: string,
    methods: seq<GeneratedMethod>,
    uses: seq<string>)

  predicate NoDuplicates<T(==)>(s: seq<T>)
  {
    forall i, j :: 0 <= i < j < |s| ==> s[i] != s[j]
  }

  /** Registering an import: the generator keys its imports by name, so a
      name registered twice is kept once. Keeping it at the position of its
      first registration is this model's choice of order; the generator's
      own order of a re-registered name is not modelled. */
  function AddUse(uses: seq<string>, t: string): (r: seq<string>)
    ensures forall x :: x in r <==> x in uses || x == t
    ensures |uses| <= |r| && r[..|uses|] == uses
    ensures NoDuplicates(uses) ==> NoDuplicates(r)
  {
    if t in uses then uses else uses + [t]
  }

  /** Appends a generated method to the trait. */
  function AddMethod(t: Trait, m: GeneratedMethod): (r: Trait)
    ensures r.methods == t.methods + [m]
    ensures r.name == t.name && r.namespace == t.namespace && r.uses == t.uses
  {
    t.(methods := t.methods + [m])
  }
}
