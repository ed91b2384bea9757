/**
 * The schema-driven instruction engine generated by make_instruction! and
 * make_instructions!, modelled once over a schema descriptor instead of once
 * per instruction.
 *
 * A schema declares a primitive name, a tag byte, how many required,
 * optional and boxed (recursive instruction) fields the instruction has, and
 * whether it carries a metadata block of annotations. A typed instruction is
 * a `Node` filled in against its schema; `Instruction` is the union of all
 * declared instructions plus `Sequence`, with the schema standing for the
 * variant. Leaf fields are held as the Micheline they convert to and from,
 * and metadata as its list of annotation strings.
 *
 * The functions here are the pure readings: encoding to a primitive
 * application, decoding back from one, the instruction-wide dispatch and the
 * up- and downcasts through the `Michelson` and `Data` unions.
 */
module Instructions {
  import opened Results
  import opened MichelineTree

  /** One make_instruction! invocation: `$code`, `$tag` and the shape of the generated struct. */
  datatype Schema = Schema(
    name: string,
    tag: bv8,
    nRequired: nat,
    nOptional: nat,
    nBoxed: nat,
    hasMetadata: bool)

  /**
   * The fields of a generated struct, in declaration order; `$name::new` is
   * the constructor and the generated accessors are the field selectors.
   * Without a metadata block the annotations are the empty list.
   */
  datatype Node = Node(
    required: seq<Micheline>,
    optional: seq<Option<Micheline>>,
    boxed: seq<Instruction>,
    annotations: seq<string>)

  /** The generated `Instruction` enum: `Sequence` or one variant per declared schema. */
  datatype Instruction =
    | Sequence(items: seq<Micheline>)
    | Op(schema: Schema, node: Node)

  /** The parts of the `Data` and `Michelson` unions the downcasts look through. */
  datatype Data = DataInstruction(instruction: Instruction) | OtherData(value: Micheline)
  datatype Michelson = MichelsonData(data: Data) | MichelsonType(ty: Micheline)

  /** `PRIM`: the name and tag a schema registers (the source's `Prim`). */
  datatype PrimDef = PrimDef(name: string, tags: seq<bv8>)

  function PrimOf(s: Schema): PrimDef {
    PrimDef(s.name, [s.tag])
  }

  /** `prim_values()`: the PRIM of every declared instruction, in declaration order. */
  function PrimValues(registry: seq<Schema>): (r: seq<PrimDef>)
    ensures |r| == |registry|
    ensures forall i :: 0 <= i < |registry| ==> r[i] == PrimOf(registry[i])
  {
    if registry == [] then [] else [PrimOf(registry[0])] + PrimValues(registry[1..])
  }

  /** A node has exactly the fields its schema declares. */
  predicate Fits(s: Schema, node: Node) {
    && |node.required| == s.nRequired
    && |node.optional| == s.nOptional
    && |node.boxed| == s.nBoxed
    && (!s.hasMetadata ==> node.annotations == [])
  }

  /** The first declared schema with this primitive name, as the arms of the generated `match` are tried. */
  function Lookup(registry: seq<Schema>, name: string): (r: Option<Schema>)
    ensures r.None? <==> forall i :: 0 <= i < |registry| ==> registry[i].name != name
    ensures r.Some? ==> r.value.name == name && exists i :: (0 <= i < |registry| && registry[i] == r.value
      && forall j :: 0 <= j < i ==> registry[j].name != name)
  {
    if registry == [] then None
    else if registry[0].name == name then Some(registry[0])
    else
      var r := Lookup(registry[1..], name);
      assert r.Some? ==> exists i :: (0 <= i < |registry| && registry[i] == r.value
        && forall j :: 0 <= j < i ==> registry[j].name != name) by {
        if r.Some? {
          var i :| 0 <= i < |registry[1..]| && registry[1..][i] == r.value
            && forall j :: 0 <= j < i ==> registry[1..][j].name != name;
          assert registry[i + 1] == r.value;
          assert forall j :: 0 <= j < i + 1 ==> registry[j].name != name by {
            forall j | 0 <= j < i + 1 ensures registry[j].name != name {
              if j > 0 {
                assert registry[j] == registry[1..][j - 1];
              }
            }
          }
        }
      }
      r
  }

  function Min(a: nat, b: nat): nat {
    if a <= b then a else b
  }

  // ---------------------------------------------------------------------
  // Encoding: From<$name> for Micheline, From<Instruction> for Micheline
  // ---------------------------------------------------------------------

  /** The values of the optional fields that are present, in order. */
  function PresentValues(optional: seq<Option<Micheline>>): (r: seq<Micheline>)
    ensures |r| <= |optional|
  {
    if optional == [] then []
    else (if optional[0].Some? then [optional[0].value] else []) + PresentValues(optional[1..])
  }

  function EncodeInstruction(i: Instruction): Micheline
    decreases i, 2
  {
    match i
    case Sequence(items) => Seq(items)
    case Op(s, node) => Prim(EncodeNode(s, node))
  }

  function EncodeNode(s: Schema, node: Node): PrimitiveApplication
    decreases node, 1
  {
    PrimitiveApplication(
      s.name,
      Args(node.required + PresentValues(node.optional) + EncodeAll(node.boxed)),
      Some(if s.hasMetadata then node.annotations else []))
  }

  function EncodeAll(instructions: seq<Instruction>): (r: seq<Micheline>)
    ensures |r| == |instructions|
    decreases instructions, 0
  {
    if instructions == [] then []
    else [EncodeInstruction(instructions[0])] + EncodeAll(instructions[1..])
  }

  /** Element j of the encoded list is boxed instruction j encoded. */
  lemma {:induction false} EncodeAllElements(instructions: seq<Instruction>)
    ensures forall j :: 0 <= j < |instructions| ==> EncodeAll(instructions)[j] == EncodeInstruction(instructions[j])
  {
    if instructions != [] {
      EncodeAllElements(instructions[1..]);
      assert forall j :: 1 <= j < |instructions| ==> instructions[1..][j - 1] == instructions[j];
    }
  }

  // ---------------------------------------------------------------------
  // Decoding: TryFrom<PrimitiveApplication> for $name and for Instruction,
  // TryFrom<Micheline> for Instruction
  // ---------------------------------------------------------------------

  /** Optional field j takes argument `start + j` when there is one. */
  function OptionalsFrom(args: seq<Micheline>, start: nat, n: nat): (r: seq<Option<Micheline>>)
    ensures |r| == n
  {
    seq(n, j requires 0 <= j < n => if start + j < |args| then Some(args[start + j]) else None)
  }

  /** The index of the first argument after the required and the optional fields. */
  function BoxedStart(s: Schema, args: seq<Micheline>): nat
    requires |args| >= s.nRequired
  {
    s.nRequired + Min(s.nOptional, |args| - s.nRequired)
  }

  /**
   * TryFrom<PrimitiveApplication> for $name: the name is checked first; then
   * the required fields, the optional ones while arguments remain, and the
   * boxed ones, each popped off the front; whatever is left is ignored.
   */
  function DecodeNode(registry: seq<Schema>, s: Schema, app: PrimitiveApplication): Result<Node>
    decreases app, 1, 0
  {
    if app.prim != s.name then Err(InvalidPrimitiveApplication)
    else
      var annotations := if s.hasMetadata then app.annots.GetOr([]) else [];
      var args := ArgsOf(app);
      if |args| < s.nRequired then Err(InvalidPrimitiveApplication)
      else
        var boxed :- DecodeBoxed(registry, app, BoxedStart(s, args), s.nBoxed);
        Ok(Node(args[..s.nRequired], OptionalsFrom(args, s.nRequired, s.nOptional), boxed, annotations))
  }

  /** n boxed fields from argument `from` on; running out of arguments is an error. */
  function DecodeBoxed(registry: seq<Schema>, app: PrimitiveApplication, from: nat, n: nat): Result<seq<Instruction>>
    decreases app, 0, n
  {
    if n == 0 then Ok([])
    else if from >= |ArgsOf(app)| then Err(InvalidPrimitiveApplication)
    else
      ArgBelow(app, from);
      var first :- DecodeInstruction(registry, ArgsOf(app)[from]);
      var rest :- DecodeBoxed(registry, app, from + 1, n - 1);
      Ok([first] + rest)
  }

  /** TryFrom<PrimitiveApplication> for Instruction: the name selects the variant. */
  function DecodeApplication(registry: seq<Schema>, app: PrimitiveApplication): Result<Instruction>
    decreases app, 2, 0
  {
    match Lookup(registry, app.prim)
    case None => Err(InvalidPrimitiveApplication)
    case Some(s) =>
      var node :- DecodeNode(registry, s, app);
      Ok(Op(s, node))
  }

  /** TryFrom<Micheline> for Instruction: a sequence short-circuits; anything else must be an application. */
  function DecodeInstruction(registry: seq<Schema>, m: Micheline): Result<Instruction>
    decreases m, 3, 0
  {
    match m
    case Seq(items) => Ok(Sequence(items))
    case Prim(app) => DecodeApplication(registry, app)
    case _ => Err(NotPrimitiveApplication)
  }

  // ---------------------------------------------------------------------
  // Up- and downcasts
  // ---------------------------------------------------------------------

  /** From<Instruction> for Michelson; the downcast takes it back. */
  function InstructionToMichelson(i: Instruction): (r: Michelson)
    ensures MichelsonToInstruction(r) == Ok(i)
  {
    MichelsonData(DataInstruction(i))
  }

  /** TryFrom<Michelson> for Instruction: succeeds exactly on `Data::Instruction`, returning it unchanged. */
  function MichelsonToInstruction(m: Michelson): (r: Result<Instruction>)
    ensures r.Ok? <==> m.MichelsonData? && m.data.DataInstruction?
    ensures r.Ok? ==> m == MichelsonData(DataInstruction(r.value))
    ensures r.Err? ==> r.error == InvalidMichelsonInstruction
  {
    if m.MichelsonData? && m.data.DataInstruction? then Ok(m.data.instruction)
    else Err(InvalidMichelsonInstruction)
  }

  /** From<$name> for Instruction; only this schema's downcast takes it back. */
  function NodeToInstruction(s: Schema, node: Node): (r: Instruction)
    ensures InstructionToNode(s, r) == Ok(node)
    ensures forall t :: t != s ==> InstructionToNode(t, r) == Err(InvalidMichelsonInstruction)
  {
    Op(s, node)
  }

  /** TryFrom<Instruction> for $name: succeeds exactly on the variant of this schema. */
  function InstructionToNode(s: Schema, i: Instruction): (r: Result<Node>)
    ensures r.Ok? <==> i.Op? && i.schema == s
    ensures r.Ok? ==> i == Op(s, r.value)
    ensures r.Err? ==> r.error == InvalidMichelsonInstruction
  {
    if i.Op? && i.schema == s then Ok(i.node) else Err(InvalidMichelsonInstruction)
  }

  /** From<$name> for Michelson; the downcast takes it back. */
  function NodeToMichelson(s: Schema, node: Node): (r: Michelson)
    ensures MichelsonToNode(s, r) == Ok(node)
  {
    InstructionToMichelson(NodeToInstruction(s, node))
  }

  /** TryFrom<Michelson> for $name: succeeds exactly on `Data::Instruction` holding this schema's variant. */
  function MichelsonToNode(s: Schema, m: Michelson): (r: Result<Node>)
    ensures r.Ok? <==> m.MichelsonData? && m.data.DataInstruction? && m.data.instruction.Op? && m.data.instruction.schema == s
    ensures r.Ok? ==> m == MichelsonData(DataInstruction(Op(s, r.value)))
    ensures r.Err? ==> r.error == InvalidMichelsonInstruction
  {
    var i :- MichelsonToInstruction(m);
    InstructionToNode(s, i)
  }

  /** The `$mod_name` free function: the node with these fields and default (empty) metadata, lifted to Michelson. */
  function Make(s: Schema, required: seq<Micheline>, optional: seq<Option<Micheline>>, boxed: seq<Instruction>): (r: Michelson)
    ensures MichelsonToNode(s, r) == Ok(Node(required, optional, boxed, []))
  {
    NodeToMichelson(s, Node(required, optional, boxed, []))
  }
}
