/** The records the extractor returns: one per target, with the variables its recipe uses. */
module Model {
  import opened Wrappers

  /** A variable a recipe refers to. `default` is its value in the global table, if bound. */
  datatype MakeVariable = MakeVariable(
    name: string,
    default: Option<string>,
    required: bool,
    description: Option<string>)

  /** A target declaration with what was found around it. */
  datatype MakeTarget = MakeTarget(
    name: string,
    description: string,
    dependencies: seq<string>,
    variables: seq<MakeVariable>,
    usageHint: Option<string>)

  /** The names of `vs`, in order. */
  function Names(vs: seq<MakeVariable>): (r: seq<string>)
    ensures |r| == |vs|
    ensures forall k :: 0 <= k < |vs| ==> r[k] == vs[k].name
  {
    if vs == [] then [] else [vs[0].name] + Names(vs[1..])
  }

  /** The names of a concatenation are the concatenated names. */
  lemma NamesAppend(a: seq<MakeVariable>, b: seq<MakeVariable>)
    ensures Names(a + b) == Names(a) + Names(b)
  {
  }
}
