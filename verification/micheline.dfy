/**
 * The generic Micheline tree that typed instructions are encoded into and
 * decoded from: integer, string and byte leaves, primitive applications
 * (a name, an optional argument list, optional annotations) and sequences.
 */
module MichelineTree {
  import opened Results

  datatype Micheline =
    | Int(value: int)
    | Str(text: string)
    | Bytes(bytes: seq<bv8>)
    | Prim(app: PrimitiveApplication)
    | Seq(items: seq<Micheline>)

  /** The `Option<Vec<Micheline>>` argument list of a primitive application. */
  datatype ArgList = NoArgs | Args(items: seq<Micheline>)

  datatype PrimitiveApplication = PrimitiveApplication(prim: string, args: ArgList, annots: Option<seq<string>>)

  /** `to_args().unwrap_or(vec![])`: a missing argument list reads as the empty one. */
  function ArgsOf(app: PrimitiveApplication): seq<Micheline> {
    match app.args
    case NoArgs => []
    case Args(items) => items
  }

  /** Every argument is a proper sub-term of its application, which is what makes decoding terminate. */
  lemma ArgBelow(app: PrimitiveApplication, i: nat)
    requires i < |ArgsOf(app)|
    ensures ArgsOf(app)[i] < app
  {
    assert ArgsOf(app)[i] in app.args.items;
  }
}
