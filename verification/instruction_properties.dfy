/**
 * What the generated conversions promise: the layout of an encoded node,
 * when decoding a node fails and what it fills in when it succeeds, the
 * round trip and exactly when it holds, and the instruction-wide dispatch.
 */
module InstructionProperties {
  import opened Results
  import opened MichelineTree
  import opened Instructions

  // ---------------------------------------------------------------------
  // Well-formedness
  // ---------------------------------------------------------------------

  /** No present optional field after an absent one. */
  predicate Packed(optional: seq<Option<Micheline>>) {
    forall j, k :: 0 <= j < k < |optional| && optional[j].None? ==> optional[k].None?
  }

  /**
   * A node the decoder can read back from its encoding: it fits its schema,
   * its optional fields are packed, and none is absent when boxed fields follow.
   */
  predicate Recoverable(s: Schema, node: Node) {
    && Fits(s, node)
    && Packed(node.optional)
    && (s.nBoxed > 0 ==> forall j :: 0 <= j < |node.optional| ==> node.optional[j].Some?)
  }

  /** An instruction whose every node is recoverable and whose every schema is the one its name dispatches to. */
  predicate WellFormed(registry: seq<Schema>, i: Instruction)
    decreases i
  {
    match i
    case Sequence(_) => true
    case Op(s, node) =>
      && Lookup(registry, s.name) == Some(s)
      && Recoverable(s, node)
      && forall j :: 0 <= j < |node.boxed| ==> WellFormed(registry, node.boxed[j])
  }

  /** The arguments from index `from` on are the given instructions encoded, in order. */
  predicate EncodedFrom(args: seq<Micheline>, from: nat, boxed: seq<Instruction>) {
    && from + |boxed| <= |args|
    && forall k :: from <= k < from + |boxed| ==> args[k] == EncodeInstruction(boxed[k - from])
  }

  lemma EncodedFromTail(args: seq<Micheline>, from: nat, boxed: seq<Instruction>)
    requires boxed != [] && EncodedFrom(args, from, boxed)
    ensures args[from] == EncodeInstruction(boxed[0]) && EncodedFrom(args, from + 1, boxed[1..])
  {
    var tail := boxed[1..];
    forall k | from + 1 <= k < from + 1 + |tail|
      ensures args[k] == EncodeInstruction(tail[k - (from + 1)])
    {
      assert tail[k - (from + 1)] == boxed[k - from];
    }
  }

  predicate UniqueNames(registry: seq<Schema>) {
    forall i, j :: 0 <= i < j < |registry| ==> registry[i].name != registry[j].name
  }

  /** With unique names, every declared schema is the one its name dispatches to. */
  lemma DeclaredSchemaIsFound(registry: seq<Schema>, i: nat)
    requires UniqueNames(registry) && i < |registry|
    ensures Lookup(registry, registry[i].name) == Some(registry[i])
  {
    var r := Lookup(registry, registry[i].name);
    var k :| 0 <= k < |registry| && registry[k] == r.value
      && forall j :: 0 <= j < k ==> registry[j].name != registry[i].name;
    if k < i {
      assert registry[k].name == registry[i].name;
    }
  }

  /** A name dispatches to some schema exactly when it is among prim_values(); otherwise decoding fails. */
  lemma DispatchAcceptsDeclaredNames(registry: seq<Schema>, app: PrimitiveApplication)
    ensures Lookup(registry, app.prim).Some?
        <==> exists i :: 0 <= i < |PrimValues(registry)| && PrimValues(registry)[i].name == app.prim
    ensures Lookup(registry, app.prim).None? ==> DecodeApplication(registry, app) == Err(InvalidPrimitiveApplication)
  {
    if Lookup(registry, app.prim).Some? {
      var i :| 0 <= i < |registry| && registry[i] == Lookup(registry, app.prim).value;
      assert PrimValues(registry)[i].name == app.prim;
    }
  }

  // ---------------------------------------------------------------------
  // Encoding
  // ---------------------------------------------------------------------

  /** In a packed list the present fields are the first |PresentValues| ones, and PresentValues lists their values. */
  lemma {:induction false} PackedPresent(optional: seq<Option<Micheline>>)
    requires Packed(optional)
    ensures forall j :: 0 <= j < |optional| ==> (optional[j].Some? <==> j < |PresentValues(optional)|)
    ensures forall j :: 0 <= j < |PresentValues(optional)| ==> PresentValues(optional)[j] == optional[j].value
  {
    if optional != [] {
      var tail := optional[1..];
      assert Packed(tail) by {
        forall j, k | 0 <= j < k < |tail| && tail[j].None? ensures tail[k].None? {
          assert optional[j + 1].None?;
        }
      }
      PackedPresent(tail);
      if optional[0].None? {
        assert forall k :: 0 < k < |optional| ==> optional[k].None?;
      }
    }
  }

  /**
   * From<$name> for Micheline lays the arguments out as: the required fields,
   * the present optional values, then each boxed instruction encoded; the name
   * is the schema's and the annotations are the metadata's or empty.
   */
  lemma EncodeNodeLayout(s: Schema, node: Node)
    ensures var app := EncodeNode(s, node);
      var args := ArgsOf(app);
      var present := |PresentValues(node.optional)|;
      && app.prim == s.name
      && app.args.Args?
      && |args| == |node.required| + present + |node.boxed|
      && (forall j :: 0 <= j < |node.required| ==> args[j] == node.required[j])
      && (forall k :: |node.required| + present <= k < |args| ==> args[k] == EncodeInstruction(node.boxed[k - |node.required| - present]))
      && (s.hasMetadata ==> app.annots == Some(node.annotations))
      && (!s.hasMetadata ==> app.annots == Some([]))
    ensures Packed(node.optional) ==>
      forall j :: 0 <= j < |node.optional| && node.optional[j].Some? ==>
        && |node.required| + j < |ArgsOf(EncodeNode(s, node))|
        && ArgsOf(EncodeNode(s, node))[|node.required| + j] == node.optional[j].value
  {
    EncodeAllElements(node.boxed);
    if Packed(node.optional) {
      PackedPresent(node.optional);
    }
  }

  // ---------------------------------------------------------------------
  // Decoding
  // ---------------------------------------------------------------------

  /**
   * The boxed fields decode exactly when enough arguments remain and each of
   * them decodes; running out with no earlier failure is InvalidPrimitiveApplication.
   */
  lemma {:induction false} DecodeBoxedCases(registry: seq<Schema>, app: PrimitiveApplication, from: nat, n: nat)
    requires from <= |ArgsOf(app)|
    ensures var r := DecodeBoxed(registry, app, from, n);
      var args := ArgsOf(app);
      r.Ok? <==> (from + n <= |args|
        && forall k :: from <= k < from + n ==> DecodeInstruction(registry, args[k]).Ok?)
    ensures var r := DecodeBoxed(registry, app, from, n);
      var args := ArgsOf(app);
      r.Ok? ==> (|r.value| == n
        && forall k :: from <= k < from + n ==> DecodeInstruction(registry, args[k]) == Ok(r.value[k - from]))
    ensures var args := ArgsOf(app);
      (from + n > |args| && forall k :: from <= k < |args| ==> DecodeInstruction(registry, args[k]).Ok?)
      ==> DecodeBoxed(registry, app, from, n) == Err(InvalidPrimitiveApplication)
    decreases n
  {
    var args := ArgsOf(app);
    if n > 0 && from < |args| {
      DecodeBoxedCases(registry, app, from + 1, n - 1);
      var r := DecodeBoxed(registry, app, from, n);
      var first := DecodeInstruction(registry, args[from]);
      var rest := DecodeBoxed(registry, app, from + 1, n - 1);
      if first.Ok? && rest.Ok? {
        assert r.value == [first.value] + rest.value;
      }
    }
  }

  /**
   * The `?` on each boxed field: when every field before argument k decodes
   * and argument k does not, the boxed decode fails with argument k's own
   * error.
   */
  lemma {:induction false} DecodeBoxedPassesError(registry: seq<Schema>, app: PrimitiveApplication, from: nat, n: nat, k: nat)
    requires from <= k < from + n && k < |ArgsOf(app)|
    requires forall j :: from <= j < k ==> DecodeInstruction(registry, ArgsOf(app)[j]).Ok?
    requires DecodeInstruction(registry, ArgsOf(app)[k]).Err?
    ensures DecodeBoxed(registry, app, from, n) == Err(DecodeInstruction(registry, ArgsOf(app)[k]).error)
    decreases n
  {
    if from < k {
      DecodeBoxedPassesError(registry, app, from + 1, n - 1, k);
    }
  }

  /**
   * When TryFrom<PrimitiveApplication> for $name fails, and that it fails
   * exactly then: a wrong name (checked before any argument), too few
   * arguments for the required fields, or boxed fields that run out or do not
   * decode.
   */
  lemma DecodeNodeFails(registry: seq<Schema>, s: Schema, app: PrimitiveApplication)
    ensures app.prim != s.name ==> DecodeNode(registry, s, app) == Err(InvalidPrimitiveApplication)
    ensures app.prim == s.name && |ArgsOf(app)| < s.nRequired ==> DecodeNode(registry, s, app) == Err(InvalidPrimitiveApplication)
    ensures var args := ArgsOf(app);
      (app.prim == s.name && |args| >= s.nRequired && BoxedStart(s, args) + s.nBoxed > |args|
        && forall k :: BoxedStart(s, args) <= k < |args| ==> DecodeInstruction(registry, args[k]).Ok?)
      ==> DecodeNode(registry, s, app) == Err(InvalidPrimitiveApplication)
    ensures var args := ArgsOf(app);
      DecodeNode(registry, s, app).Ok? <==>
        && app.prim == s.name
        && |args| >= s.nRequired
        && BoxedStart(s, args) + s.nBoxed <= |args|
        && forall k :: BoxedStart(s, args) <= k < BoxedStart(s, args) + s.nBoxed ==> DecodeInstruction(registry, args[k]).Ok?
  {
    var args := ArgsOf(app);
    if app.prim == s.name && |args| >= s.nRequired {
      DecodeBoxedCases(registry, app, BoxedStart(s, args), s.nBoxed);
    }
  }

  /**
   * What a successful decode fills in: the required fields from the first
   * arguments, optional field j present exactly when argument nRequired + j
   * exists, each boxed field decoded from the arguments after those, and the
   * annotations when the schema has metadata. The result fits the schema.
   */
  lemma DecodeNodeFields(registry: seq<Schema>, s: Schema, app: PrimitiveApplication)
    requires DecodeNode(registry, s, app).Ok?
    ensures var node := DecodeNode(registry, s, app).value;
      var args := ArgsOf(app);
      && Fits(s, node)
      && |args| >= s.nRequired
      && node.required == args[..s.nRequired]
      && (forall j :: 0 <= j < s.nOptional ==> (node.optional[j].Some? <==> s.nRequired + j < |args|))
      && (forall j :: 0 <= j < s.nOptional && s.nRequired + j < |args| ==> node.optional[j].value == args[s.nRequired + j])
      && BoxedStart(s, args) + s.nBoxed <= |args|
      && (forall k :: BoxedStart(s, args) <= k < BoxedStart(s, args) + s.nBoxed ==>
            DecodeInstruction(registry, args[k]) == Ok(node.boxed[k - BoxedStart(s, args)]))
      && node.annotations == (if s.hasMetadata then app.annots.GetOr([]) else [])
  {
    DecodeBoxedCases(registry, app, BoxedStart(s, ArgsOf(app)), s.nBoxed);
  }

  /** The boxed decode reads nothing of the application but the arguments it is pointed at. */
  lemma {:induction false} BoxedSeeOnlyTheirArguments(registry: seq<Schema>, a: PrimitiveApplication, b: PrimitiveApplication, from: nat, n: nat)
    requires || ArgsOf(a) == ArgsOf(b)
             || (from + n <= |ArgsOf(a)| && from + n <= |ArgsOf(b)| && ArgsOf(a)[..from + n] == ArgsOf(b)[..from + n])
    ensures DecodeBoxed(registry, a, from, n) == DecodeBoxed(registry, b, from, n)
    decreases n
  {
    if n > 0 {
      if ArgsOf(a) != ArgsOf(b) {
        assert ArgsOf(a)[from] == ArgsOf(a)[..from + n][from];
      }
      BoxedSeeOnlyTheirArguments(registry, a, b, from + 1, n - 1);
    }
  }

  /** A missing argument list decodes as the empty one. */
  lemma MissingArgumentsReadAsEmpty(registry: seq<Schema>, s: Schema, app: PrimitiveApplication)
    ensures DecodeNode(registry, s, app.(args := NoArgs)) == DecodeNode(registry, s, app.(args := Args([])))
  {
    var a, b := app.(args := NoArgs), app.(args := Args([]));
    if |ArgsOf(a)| >= s.nRequired {
      BoxedSeeOnlyTheirArguments(registry, a, b, BoxedStart(s, ArgsOf(a)), s.nBoxed);
    }
  }

  /** Arguments beyond those the fields take are ignored, not rejected. */
  lemma ExtraArgumentsIgnored(registry: seq<Schema>, s: Schema, app: PrimitiveApplication, extra: seq<Micheline>)
    requires |ArgsOf(app)| >= s.nRequired + s.nOptional + s.nBoxed
    ensures DecodeNode(registry, s, app.(args := Args(ArgsOf(app) + extra))) == DecodeNode(registry, s, app)
  {
    var longer := app.(args := Args(ArgsOf(app) + extra));
    var args, more := ArgsOf(app), ArgsOf(longer);
    assert BoxedStart(s, args) == BoxedStart(s, more) == s.nRequired + s.nOptional;
    assert more[..s.nRequired] == args[..s.nRequired];
    assert OptionalsFrom(more, s.nRequired, s.nOptional) == OptionalsFrom(args, s.nRequired, s.nOptional);
    assert more[..s.nRequired + s.nOptional + s.nBoxed] == args[..s.nRequired + s.nOptional + s.nBoxed];
    BoxedSeeOnlyTheirArguments(registry, app, longer, s.nRequired + s.nOptional, s.nBoxed);
  }

  // ---------------------------------------------------------------------
  // The round trip
  // ---------------------------------------------------------------------

  /** Decoding the encoding of a well-formed instruction gives it back. */
  lemma {:induction false} RoundTrip(registry: seq<Schema>, i: Instruction)
    requires WellFormed(registry, i)
    ensures DecodeInstruction(registry, EncodeInstruction(i)) == Ok(i)
    decreases i, 2
  {
    match i
    case Sequence(_) =>
    case Op(s, node) =>
      RoundTripNode(registry, s, node);
  }

  /** The encoding of a recoverable node: the optional fields are read back into the same slots and the boxed ones start right after the present ones. */
  lemma OptionalsRecovered(s: Schema, node: Node)
    requires Recoverable(s, node)
    ensures var args := ArgsOf(EncodeNode(s, node));
      var present := |PresentValues(node.optional)|;
      && |args| == s.nRequired + present + s.nBoxed
      && BoxedStart(s, args) == s.nRequired + present
      && args[..s.nRequired] == node.required
      && OptionalsFrom(args, s.nRequired, s.nOptional) == node.optional
  {
    BoxedStartEncoded(s, node);
    RequiredRecovered(s, node);
    SlotsRecovered(s, node);
  }

  /** In a recoverable node's encoding, the boxed fields start right after the present optionals. */
  lemma BoxedStartEncoded(s: Schema, node: Node)
    requires Recoverable(s, node)
    ensures var args := ArgsOf(EncodeNode(s, node));
      var present := |PresentValues(node.optional)|;
      && |args| == s.nRequired + present + s.nBoxed
      && BoxedStart(s, args) == s.nRequired + present
  {
    PackedPresent(node.optional);
    EncodeNodeLayout(s, node);
    if s.nBoxed > 0 && s.nOptional > 0 {
      assert node.optional[s.nOptional - 1].Some?;
    }
  }

  lemma RequiredRecovered(s: Schema, node: Node)
    requires Fits(s, node)
    ensures var args := ArgsOf(EncodeNode(s, node));
      s.nRequired <= |args| && args[..s.nRequired] == node.required
  {
    EncodeNodeLayout(s, node);
  }

  lemma SlotsRecovered(s: Schema, node: Node)
    requires Recoverable(s, node)
    ensures OptionalsFrom(ArgsOf(EncodeNode(s, node)), s.nRequired, s.nOptional) == node.optional
  {
    PackedPresent(node.optional);
    EncodeNodeLayout(s, node);
  }

  /** The boxed fields of an encoded node are encoded right after the required and present optional ones. */
  lemma BoxedArgumentsEncoded(s: Schema, node: Node)
    requires Fits(s, node)
    ensures EncodedFrom(ArgsOf(EncodeNode(s, node)), s.nRequired + |PresentValues(node.optional)|, node.boxed)
  {
    EncodeNodeLayout(s, node);
  }

  /** DecodeNode succeeds with the node whose parts the arguments yield. */
  lemma DecodeNodeAssembles(registry: seq<Schema>, s: Schema, app: PrimitiveApplication, node: Node)
    requires app.prim == s.name && |ArgsOf(app)| >= s.nRequired
    requires node.required == ArgsOf(app)[..s.nRequired]
    requires node.optional == OptionalsFrom(ArgsOf(app), s.nRequired, s.nOptional)
    requires DecodeBoxed(registry, app, BoxedStart(s, ArgsOf(app)), s.nBoxed) == Ok(node.boxed)
    requires node.annotations == if s.hasMetadata then app.annots.GetOr([]) else []
    ensures DecodeNode(registry, s, app) == Ok(node)
  {
  }

  /** Decoding a recoverable node's encoding against its own schema gives it back. */
  lemma {:induction false} RoundTripNode(registry: seq<Schema>, s: Schema, node: Node)
    requires Recoverable(s, node)
    requires forall j :: 0 <= j < |node.boxed| ==> WellFormed(registry, node.boxed[j])
    ensures DecodeNode(registry, s, EncodeNode(s, node)) == Ok(node)
    decreases node, 2
  {
    var app := EncodeNode(s, node);
    OptionalsRecovered(s, node);
    BoxedRecovered(registry, s, node);
    DecodeNodeAssembles(registry, s, app, node);
  }

  /** The boxed fields of a recoverable node come back from the arguments after its required and optional ones. */
  lemma {:induction false} BoxedRecovered(registry: seq<Schema>, s: Schema, node: Node)
    requires Recoverable(s, node)
    requires forall j :: 0 <= j < |node.boxed| ==> WellFormed(registry, node.boxed[j])
    ensures var app := EncodeNode(s, node);
      |ArgsOf(app)| >= s.nRequired && DecodeBoxed(registry, app, BoxedStart(s, ArgsOf(app)), s.nBoxed) == Ok(node.boxed)
    decreases node, 1
  {
    BoxedStartEncoded(s, node);
    BoxedRoundTrip(registry, s, node);
  }

  /** The boxed fields of a node that fits its schema decode back from its encoding, read from where they were pushed. */
  lemma {:induction false} BoxedRoundTrip(registry: seq<Schema>, s: Schema, node: Node)
    requires Fits(s, node)
    requires forall j :: 0 <= j < |node.boxed| ==> WellFormed(registry, node.boxed[j])
    ensures DecodeBoxed(registry, EncodeNode(s, node), s.nRequired + |PresentValues(node.optional)|, s.nBoxed) == Ok(node.boxed)
    decreases node, 0
  {
    BoxedArgumentsEncoded(s, node);
    RoundTripBoxed(registry, EncodeNode(s, node), s.nRequired + |PresentValues(node.optional)|, s.nBoxed, node.boxed);
  }

  lemma {:induction false} RoundTripBoxed(registry: seq<Schema>, app: PrimitiveApplication, from: nat, n: nat, boxed: seq<Instruction>)
    requires n == |boxed| && EncodedFrom(ArgsOf(app), from, boxed)
    requires forall j :: 0 <= j < |boxed| ==> WellFormed(registry, boxed[j])
    ensures DecodeBoxed(registry, app, from, n) == Ok(boxed)
    decreases boxed, 0
  {
    if boxed != [] {
      var tail := boxed[1..];
      EncodedFromTail(ArgsOf(app), from, boxed);
      RoundTrip(registry, boxed[0]);
      forall j | 0 <= j < |tail|
        ensures WellFormed(registry, tail[j])
      {
        assert tail[j] == boxed[j + 1];
      }
      RoundTripBoxed(registry, app, from + 1, n - 1, tail);
      assert [boxed[0]] + tail == boxed;
    }
  }

  /**
   * The converse: a node that fits its schema comes back from its encoding
   * only if it is recoverable. An absent optional before a present one, or
   * before any boxed field, shifts a later argument into its slot.
   */
  lemma RoundTripNeedsRecoverable(registry: seq<Schema>, s: Schema, node: Node)
    requires Fits(s, node)
    requires DecodeNode(registry, s, EncodeNode(s, node)) == Ok(node)
    ensures Recoverable(s, node)
  {
    var args := ArgsOf(EncodeNode(s, node));
    var present := |PresentValues(node.optional)|;
    EncodeNodeLayout(s, node);
    DecodeNodeFields(registry, s, EncodeNode(s, node));
    assert Packed(node.optional) by {
      forall j, k | 0 <= j < k < |node.optional| && node.optional[j].None? ensures node.optional[k].None? {
        assert !(s.nRequired + j < |args|);
      }
    }
    PackedPresent(node.optional);
  }

  /** For a node that fits its schema and whose boxed instructions round-trip: it comes back exactly when it is recoverable. */
  lemma RoundTripExactly(registry: seq<Schema>, s: Schema, node: Node)
    requires Fits(s, node)
    requires forall j :: 0 <= j < |node.boxed| ==> WellFormed(registry, node.boxed[j])
    ensures DecodeNode(registry, s, EncodeNode(s, node)) == Ok(node) <==> Recoverable(s, node)
  {
    if Recoverable(s, node) {
      RoundTripNode(registry, s, node);
    } else if DecodeNode(registry, s, EncodeNode(s, node)) == Ok(node) {
      RoundTripNeedsRecoverable(registry, s, node);
    }
  }

  // ---------------------------------------------------------------------
  // Instruction-wide dispatch
  // ---------------------------------------------------------------------

  /**
   * TryFrom<Micheline> for Instruction: a sequence becomes Sequence with no
   * name lookup; other leaves are not applications; an application becomes
   * the variant of the first schema with its name, or fails when none has it.
   */
  lemma DecodeInstructionCases(registry: seq<Schema>, m: Micheline)
    ensures m.Seq? ==> DecodeInstruction(registry, m) == Ok(Sequence(m.items))
    ensures (m.Int? || m.Str? || m.Bytes?) ==> DecodeInstruction(registry, m) == Err(NotPrimitiveApplication)
    ensures m.Prim? && (forall i :: 0 <= i < |registry| ==> registry[i].name != m.app.prim)
      ==> DecodeInstruction(registry, m) == Err(InvalidPrimitiveApplication)
    ensures var r := DecodeInstruction(registry, m);
      r.Ok? && r.value.Sequence? ==> m == Seq(r.value.items)
    ensures var r := DecodeInstruction(registry, m);
      r.Ok? && r.value.Op? ==>
        && m.Prim?
        && r.value.schema.name == m.app.prim
        && Lookup(registry, m.app.prim) == Some(r.value.schema)
        && DecodeNode(registry, r.value.schema, m.app) == Ok(r.value.node)
    ensures m.Prim? && Lookup(registry, m.app.prim).Some? ==>
      var s := Lookup(registry, m.app.prim).value;
      var d := DecodeNode(registry, s, m.app);
      && (d.Ok? ==> DecodeInstruction(registry, m) == Ok(Op(s, d.value)))
      && (d.Err? ==> DecodeInstruction(registry, m) == Err(d.error))
  {
  }
}
