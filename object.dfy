/**
 * An object is a list of instructions. `Codegen` writes every instruction,
 * in list order, into a fresh generator and then finalizes it.
 *
 * `EmitAll` folds `Emit` over the list and `Compile` finalizes the result.
 * Together they specify the method. Neither takes the base address, so the
 * base address cannot affect the output.
 */
module ObjectCode {
  import opened Wrappers
  import opened Bytes
  import opened Ir
  import opened X64Codegen

  /** `write` each instruction in order; the first failure stops the run. */
  function EmitAll(g: Gen, insts: seq<Instruction>): (r: Result<Gen, CodegenError>)
    ensures WellFormed(g) && r.Ok? ==> WellFormed(r.value)
    decreases |insts|
  {
    if insts == [] then Ok(g)
    else
      match Emit(g, insts[0])
      case Err(e) => Err(e)
      case Ok(g') =>
        if WellFormed(g) then EmitKeepsWellFormed(g, insts[0]); EmitAll(g', insts[1..])
        else EmitAll(g', insts[1..])
  }

  /** The generator state before the first `write`. */
  const Fresh: Gen := Gen([], [], map[])

  /** The bytes `Object::codegen` returns, or the panic it stops with. */
  function Compile(insts: seq<Instruction>): (r: Result<seq<U8>, CodegenError>)
    ensures r.Ok? ==> EmitAll(Fresh, insts).Ok? && |r.value| == |EmitAll(Fresh, insts).value.code|
  {
    match EmitAll(Fresh, insts)
    case Err(e) => Err(e)
    case Ok(g) => Finalized(g.code, g.refs, g.locations)
  }

  datatype Object = Object(instructions: seq<Instruction>) {
    /** `Object::codegen`: a fresh generator, one `write` per instruction, then `finalize`. */
    method Codegen(baseAddress: U64) returns (r: Result<seq<U8>, CodegenError>)
      ensures r == Compile(instructions)
    {
      var cg := new X64Codegen.Codegen(baseAddress);
      for i := 0 to |instructions|
        invariant cg.Valid()
        invariant EmitAll(Fresh, instructions) == EmitAll(cg.State(), instructions[i..])
      {
        assert instructions[i..][0] == instructions[i];
        assert instructions[i..][1..] == instructions[i + 1..];
        var w := cg.Write(instructions[i]);
        if w.Fail? {
          return Err(w.error);
        }
      }
      assert instructions[|instructions|..] == [];
      r := cg.Finalize();
    }
  }

  /**
   * The length check of the Windows loader: generating the same object at
   * two base addresses yields the same bytes, so in particular the same length.
   */
  method CodegenTwice(obj: Object, first: U64, second: U64) returns (a: Result<seq<U8>, CodegenError>, b: Result<seq<U8>, CodegenError>)
    ensures a == b
    ensures a.Ok? ==> |a.value| == |b.value|
  {
    a := obj.Codegen(first);
    b := obj.Codegen(second);
  }

  /** An empty object compiles to no bytes at all. */
  lemma CompileEmpty()
    ensures Compile([]) == Ok([])
  {
  }

  /**
   * The concatenation of every instruction's bytes, failing at the first
   * instruction whose encoding fails: an independent account of what
   * `write` appends, ignoring labels and references.
   */
  function AllCode(insts: seq<Instruction>): Result<seq<U8>, CodegenError>
    decreases |insts|
  {
    if insts == [] then Ok([])
    else
      match InstCode(insts[0])
      case Err(e) => Err(e)
      case Ok(c) =>
        match AllCode(insts[1..])
        case Err(e) => Err(e)
        case Ok(rest) => Ok(c + rest)
  }

  /** Writing a list appends exactly the concatenated encodings to the buffer. */
  lemma {:induction false} EmitAllAppends(g: Gen, insts: seq<Instruction>)
    requires EmitAll(g, insts).Ok?
    ensures AllCode(insts).Ok?
    ensures EmitAll(g, insts).value.code == g.code + AllCode(insts).value
    decreases |insts|
  {
    if insts != [] {
      var g' := Emit(g, insts[0]).value;
      assert EmitAll(g, insts) == EmitAll(g', insts[1..]);
      EmitAllAppends(g', insts[1..]);
      var c := InstCode(insts[0]).value;
      assert g'.code == g.code + c;
      assert AllCode(insts) == Ok(c + AllCode(insts[1..]).value);
      Assoc(g.code, c, AllCode(insts[1..]).value);
    }
  }

  /**
   * The output is as long as all instructions' encodings together:
   * finalization patches bytes in place and never changes the length.
   */
  lemma CompileLength(insts: seq<Instruction>)
    requires Compile(insts).Ok?
    ensures AllCode(insts).Ok?
    ensures |Compile(insts).value| == |AllCode(insts).value|
  {
    EmitAllAppends(Fresh, insts);
  }

  /** Whether the list defines label `l`. */
  predicate Defines(insts: seq<Instruction>, l: Label) {
    exists i :: 0 <= i < |insts| && insts[i] == Label(l)
  }

  /** Writing a list defines exactly the labels defined before plus those of the list. */
  lemma {:induction false} EmitAllLocations(g: Gen, insts: seq<Instruction>, l: Label)
    requires EmitAll(g, insts).Ok?
    ensures l in EmitAll(g, insts).value.locations <==> l in g.locations || Defines(insts, l)
    decreases |insts|
  {
    if insts != [] {
      var g' := Emit(g, insts[0]).value;
      EmitAllLocations(g', insts[1..], l);
      EmitLabelKeys(g, insts[0], l);
      if Defines(insts[1..], l) {
        var i :| 0 <= i < |insts[1..]| && insts[1..][i] == Label(l);
        assert insts[i + 1] == Label(l);
      }
      if Defines(insts, l) && insts[0] != Label(l) {
        var i :| 0 <= i < |insts| && insts[i] == Label(l);
        assert insts[1..][i - 1] == Label(l);
      }
    }
  }

  /** One `write` defines `l` afterwards exactly when it was defined before or the instruction is `Label(l)`. */
  lemma EmitLabelKeys(g: Gen, inst: Instruction, l: Label)
    requires Emit(g, inst).Ok?
    ensures l in Emit(g, inst).value.locations <==> l in g.locations || inst == Label(l)
  {
  }

  /** Writing a list only adds references; those present before are kept in place. */
  lemma {:induction false} EmitAllKeepsRefs(g: Gen, insts: seq<Instruction>)
    requires EmitAll(g, insts).Ok?
    ensures g.refs <= EmitAll(g, insts).value.refs
    decreases |insts|
  {
    if insts != [] {
      var g' := Emit(g, insts[0]).value;
      EmitAllKeepsRefs(g', insts[1..]);
    }
  }

  /** Every `JIf` that emits a jump leaves a reference to its target behind. */
  lemma {:induction false} EmitAllRefersTo(g: Gen, insts: seq<Instruction>, i: nat)
    requires EmitAll(g, insts).Ok?
    requires i < |insts| && insts[i].JIf? && JumpEmitted(insts[i].src)
    ensures exists j :: 0 <= j < |EmitAll(g, insts).value.refs| && EmitAll(g, insts).value.refs[j].target == insts[i].target
    decreases |insts|
  {
    var g' := Emit(g, insts[0]).value;
    if i == 0 {
      EmitAllKeepsRefs(g', insts[1..]);
      var refs := EmitAll(g, insts).value.refs;
      assert g'.refs[|g'.refs| - 1].target == insts[0].target;
      assert refs[|g'.refs| - 1] == g'.refs[|g'.refs| - 1];
    } else {
      assert insts[1..][i - 1] == insts[i];
      EmitAllRefersTo(g', insts[1..], i - 1);
    }
  }

  /** A jump to a label the object never defines makes code generation fail. */
  lemma UndefinedLabelFails(insts: seq<Instruction>, i: nat)
    requires i < |insts| && insts[i].JIf? && JumpEmitted(insts[i].src)
    requires !Defines(insts, insts[i].target)
    ensures Compile(insts).Err?
  {
    if EmitAll(Fresh, insts).Ok? {
      var g := EmitAll(Fresh, insts).value;
      EmitAllRefersTo(Fresh, insts, i);
      EmitAllLocations(Fresh, insts, insts[i].target);
      var j :| 0 <= j < |g.refs| && g.refs[j].target == insts[i].target;
      assert g.refs[j].target !in g.locations;
    }
  }

  /** Once `l` is defined, a further `Label(l)` in the rest of the list makes writing fail. */
  lemma {:induction false} RedefinitionFails(g: Gen, insts: seq<Instruction>, l: Label, i: nat)
    requires l in g.locations
    requires i < |insts| && insts[i] == Label(l)
    ensures EmitAll(g, insts).Err?
    decreases |insts|
  {
    if i > 0 {
      match Emit(g, insts[0])
      case Err(_) =>
      case Ok(g') =>
        EmitLabelKeys(g, insts[0], l);
        assert insts[1..][i - 1] == Label(l);
        RedefinitionFails(g', insts[1..], l, i - 1);
    }
  }

  /** Writing a defined label reaches the rest of the list with that label defined. */
  lemma {:induction false} DefinedAfter(g: Gen, insts: seq<Instruction>, l: Label, i: nat)
    requires i < |insts| && insts[i] == Label(l)
    requires EmitAll(g, insts[..i + 1]).Ok?
    ensures l in EmitAll(g, insts[..i + 1]).value.locations
  {
    EmitAllLocations(g, insts[..i + 1], l);
    assert insts[..i + 1][i] == Label(l);
  }

  /** Defining the same label twice makes code generation fail. */
  lemma DuplicateLabelFails(insts: seq<Instruction>, i: nat, j: nat, l: Label)
    requires i < j < |insts| && insts[i] == Label(l) && insts[j] == Label(l)
    ensures Compile(insts).Err?
  {
    EmitAllSplit(Fresh, insts[..i + 1], insts[i + 1..]);
    assert insts[..i + 1] + insts[i + 1..] == insts;
    if EmitAll(Fresh, insts[..i + 1]).Ok? {
      DefinedAfter(Fresh, insts, l, i);
      assert insts[i + 1..][j - i - 1] == Label(l);
      RedefinitionFails(EmitAll(Fresh, insts[..i + 1]).value, insts[i + 1..], l, j - i - 1);
    }
  }

  /** Writing two lists in turn is writing their concatenation. */
  lemma {:induction false} EmitAllSplit(g: Gen, a: seq<Instruction>, b: seq<Instruction>)
    ensures EmitAll(g, a + b) ==
      match EmitAll(g, a)
      case Err(e) => Err(e)
      case Ok(g') => EmitAll(g', b)
    decreases |a|
  {
    if a == [] {
      assert a + b == b;
    } else {
      assert (a + b)[0] == a[0];
      assert (a + b)[1..] == a[1..] + b;
      match Emit(g, a[0])
      case Err(_) =>
      case Ok(g') => EmitAllSplit(g', a[1..], b);
    }
  }
}
