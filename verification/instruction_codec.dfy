/**
 * The two generated conversions that work step by step: the encoder pushes
 * onto a growing argument vector, the decoder pops arguments off the front
 * of a local copy of the application's list. Each is proved equal to its
 * pure reading in Instructions; the properties are proved about those.
 */
module InstructionCodec {
  import opened Results
  import opened MichelineTree
  import opened Instructions

  lemma {:induction false} PresentValuesSnoc(optional: seq<Option<Micheline>>, x: Option<Micheline>)
    ensures PresentValues(optional + [x]) == PresentValues(optional) + (if x.Some? then [x.value] else [])
  {
    if optional != [] {
      assert (optional + [x])[1..] == optional[1..] + [x];
      PresentValuesSnoc(optional[1..], x);
    } else {
      assert [] + [x] == [x];
    }
  }

  lemma {:induction false} EncodeAllSnoc(instructions: seq<Instruction>, x: Instruction)
    ensures EncodeAll(instructions + [x]) == EncodeAll(instructions) + [EncodeInstruction(x)]
  {
    if instructions != [] {
      assert (instructions + [x])[1..] == instructions[1..] + [x];
      EncodeAllSnoc(instructions[1..], x);
    }
  }

  /** The optional-field pushes: each present value appended, in order. */
  method PushPresent(args: seq<Micheline>, optional: seq<Option<Micheline>>) returns (r: seq<Micheline>)
    ensures r == args + PresentValues(optional)
  {
    r := args;
    for j := 0 to |optional|
      invariant r == args + PresentValues(optional[..j])
    {
      assert optional[..j + 1] == optional[..j] + [optional[j]];
      PresentValuesSnoc(optional[..j], optional[j]);
      if optional[j].Some? {
        r := r + [optional[j].value];
      }
    }
    assert optional[..|optional|] == optional;
  }

  /** The boxed-field pushes: each boxed instruction encoded and appended, in order. */
  method PushEncoded(args: seq<Micheline>, boxed: seq<Instruction>) returns (r: seq<Micheline>)
    ensures r == args + EncodeAll(boxed)
  {
    r := args;
    for j := 0 to |boxed|
      invariant r == args + EncodeAll(boxed[..j])
    {
      assert boxed[..j + 1] == boxed[..j] + [boxed[j]];
      EncodeAllSnoc(boxed[..j], boxed[j]);
      r := r + [EncodeInstruction(boxed[j])];
    }
    assert boxed[..|boxed|] == boxed;
  }

  /**
   * From<$name> for Micheline: the required fields, then each optional field
   * that is present, then each boxed field encoded; annotations come from the
   * metadata block when there is one and are otherwise empty.
   */
  method NodeToMicheline(s: Schema, node: Node) returns (m: Micheline)
    ensures m == Prim(EncodeNode(s, node))
  {
    var args: seq<Micheline> := [];
    for j := 0 to |node.required|
      invariant args == node.required[..j]
    {
      args := args + [node.required[j]];
    }
    assert node.required[..|node.required|] == node.required;
    args := PushPresent(args, node.optional);
    args := PushEncoded(args, node.boxed);
    var annots: seq<string> := [];
    if s.hasMetadata {
      annots := node.annotations;
    }
    m := Prim(PrimitiveApplication(s.name, Args(args), Some(annots)));
  }

  /** The decoded boxed fields so far in front of the decode of the rest. */
  function Prefixed(done: seq<Instruction>, rest: Result<seq<Instruction>>): Result<seq<Instruction>> {
    match rest
    case Ok(more) => Ok(done + more)
    case Err(e) => Err(e)
  }

  lemma PrefixedEmpty(rest: Result<seq<Instruction>>)
    ensures Prefixed([], rest) == rest
  {
    if rest.Ok? {
      assert [] + rest.value == rest.value;
    }
  }

  /** One boxed field decoded: the rest follows it, or its error stops the decode. */
  lemma BoxedStep(registry: seq<Schema>, app: PrimitiveApplication, from: nat, n: nat, done: seq<Instruction>)
    requires n > 0 && from < |ArgsOf(app)|
    ensures var first := DecodeInstruction(registry, ArgsOf(app)[from]);
      && (first.Err? ==> Prefixed(done, DecodeBoxed(registry, app, from, n)) == Err(first.error))
      && (first.Ok? ==> Prefixed(done, DecodeBoxed(registry, app, from, n))
                        == Prefixed(done + [first.value], DecodeBoxed(registry, app, from + 1, n - 1)))
  {
    var later := DecodeBoxed(registry, app, from + 1, n - 1);
    if later.Ok? {
      var first := DecodeInstruction(registry, ArgsOf(app)[from]);
      if first.Ok? {
        assert done + ([first.value] + later.value) == done + [first.value] + later.value;
      }
    }
  }

  /**
   * The boxed fields of TryFrom<PrimitiveApplication> for $name: n arguments
   * popped off the front of what is left from argument `from` on, failing when
   * they run out or one does not decode.
   */
  method PopBoxed(registry: seq<Schema>, app: PrimitiveApplication, from: nat, n: nat, left: seq<Micheline>)
    returns (r: Result<seq<Instruction>>)
    requires from <= |ArgsOf(app)| && left == ArgsOf(app)[from..]
    ensures r == DecodeBoxed(registry, app, from, n)
  {
    var args := left;
    var boxed: seq<Instruction> := [];
    PrefixedEmpty(DecodeBoxed(registry, app, from, n));
    for j := 0 to n
      invariant from + j <= |ArgsOf(app)| && args == ArgsOf(app)[from + j..]
      invariant DecodeBoxed(registry, app, from, n) == Prefixed(boxed, DecodeBoxed(registry, app, from + j, n - j))
    {
      if args == [] {
        return Err(InvalidPrimitiveApplication);
      }
      BoxedStep(registry, app, from + j, n - j, boxed);
      var b := DecodeInstruction(registry, args[0]);
      if b.Err? {
        return Err(b.error);
      }
      boxed := boxed + [b.value];
      args := args[1..];
    }
    assert boxed + [] == boxed;
    r := Ok(boxed);
  }

  /**
   * TryFrom<PrimitiveApplication> for $name: checks the name, then pops the
   * required fields (failing when the arguments run out), the optional ones
   * (None once they have run out) and the boxed ones (failing when they have
   * run out or one does not decode); leftover arguments are dropped.
   */
  method NodeFromApplication(registry: seq<Schema>, s: Schema, app: PrimitiveApplication) returns (r: Result<Node>)
    ensures r == DecodeNode(registry, s, app)
  {
    if app.prim != s.name {
      return Err(InvalidPrimitiveApplication);
    }
    var annotations: seq<string> := [];
    if s.hasMetadata {
      annotations := app.annots.GetOr([]);
    }
    var args := ArgsOf(app);
    var all := args;
    var required: seq<Micheline> := [];
    for j := 0 to s.nRequired
      invariant j <= |all| && required == all[..j] && args == all[j..]
    {
      if args == [] {
        return Err(InvalidPrimitiveApplication);
      }
      assert all[..j + 1] == all[..j] + [args[0]];
      required := required + [args[0]];
      args := args[1..];
    }
    var optional: seq<Option<Micheline>> := [];
    for j := 0 to s.nOptional
      invariant optional == OptionalsFrom(all, s.nRequired, j)
      invariant args == all[s.nRequired + Min(j, |all| - s.nRequired)..]
    {
      if args != [] {
        optional := optional + [Some(args[0])];
        args := args[1..];
      } else {
        optional := optional + [None];
      }
    }
    var boxed :- PopBoxed(registry, app, BoxedStart(s, all), s.nBoxed, args);
    r := Ok(Node(required, optional, boxed, annotations));
  }
}
