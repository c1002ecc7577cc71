/**
 * The x86-64 byte emitter. `Codegen` appends the encoding of each
 * instruction to a byte buffer, leaving four zero bytes wherever a jump's
 * target is not yet known and recording a `LabelReference` for it;
 * `Finalize` then patches every placeholder with the distance to the
 * label's recorded location.
 *
 * The pure functions below give the exact bytes each step appends; the
 * class's methods append them piece by piece, as the source does, and are
 * proved to agree with the functions.
 */
module X64Codegen {
  import opened Wrappers
  import opened Bytes
  import opened Ir

  /**
   * A pending patch: `at` is the buffer index of the placeholder, `target`
   * the label, and `relativeTo` the index the 32-bit distance is measured
   * from (`None` would ask for an absolute 64-bit location).
   */
  datatype LabelReference = LabelReference(at: nat, target: Label, relativeTo: Option<nat>) {
    function Width(): nat {
      if relativeTo.Some? then 4 else 8
    }
  }

  /** Why code generation is refused (each is a panic in the source). */
  datatype CodegenError =
    | DuplicateLabel(name: Label)
    | SizeMismatch
    | OffsetOverflow
    | UndefinedLabel(name: Label)

  /** The generator's state: the buffer, pending references, label locations. */
  datatype Gen = Gen(code: seq<U8>, refs: seq<LabelReference>, locations: map<Label, nat>)

  // ---------------------------------------------------------------------
  // Byte encodings

  /** `movzx eax, [rax]` / `mov eax, [rax]` / `mov rax, [rax]` without displacement. */
  function LoadZeroForm(sz: Size): seq<U8> {
    match sz
    case B => [0x0F, 0xB6, 0x00]
    case H => [0x0F, 0xB7, 0x00]
    case D => [0x8B, 0x00]
    case Q => [0x48, 0x8B, 0x00]
  }

  /** The same loads with a 32-bit displacement (`[rax + disp32]`). */
  function LoadDispForm(sz: Size): seq<U8> {
    match sz
    case B => [0x0F, 0xB6, 0x80]
    case H => [0x0F, 0xB7, 0x80]
    case D => [0x8B, 0x80]
    case Q => [0x48, 0x8B, 0x80]
  }

  /** `mov [rcx + disp32], al/ax/eax/rax`. */
  function StoreDispForm(sz: Size): seq<U8> {
    match sz
    case B => [0x88, 0x81]
    case H => [0x66, 0x89, 0x81]
    case D => [0x89, 0x81]
    case Q => [0x48, 0x89, 0x81]
  }

  /**
   * `load_relative_to_rax`. A zero offset emits the `[rax]` form AND the
   * displacement form after it: the source's `if` has no `else`.
   */
  function LoadRelativeToRaxCode(offset: I32, sz: Size): seq<U8> {
    (if offset == 0 then LoadZeroForm(sz) else []) + LoadDispForm(sz) + I32Le(offset)
  }

  /** `store_relative_to_rcx`: always the displacement form. */
  function StoreRelativeToRcxCode(offset: I32, sz: Size): seq<U8> {
    StoreDispForm(sz) + I32Le(offset)
  }

  const MOV_RAX_RBP: seq<U8> := [0x48, 0x89, 0xE8]
  const MOV_RCX_RBP: seq<U8> := [0x48, 0x89, 0xE9]
  const MOV_RCX_RAX: seq<U8> := [0x48, 0x89, 0xC1]

  /** `load_rax`: bring an operand into rax. */
  function LoadRaxCode(src: Src): seq<U8> {
    match src
    case Uninitialized => []
    case Imm(x) => if x == 0 then [0x31, 0xC0] else [0x48, 0xB8] + LeBytes(x, 8)
    case Ptr(p, f, sz) => MOV_RAX_RBP + LoadRelativeToRaxCode(p, Size.Q) + LoadRelativeToRaxCode(f, sz)
    case Here(o, sz) => MOV_RAX_RBP + LoadRelativeToRaxCode(o, sz)
  }

  /** `store_rax`: write rax to a destination. */
  function StoreRaxCode(dest: Dest): seq<U8> {
    match dest
    case Nowhere => []
    case Ptr(p, f, sz) =>
      MOV_RAX_RBP + LoadRelativeToRaxCode(p, Size.Q) + MOV_RCX_RAX + StoreRelativeToRcxCode(f, sz)
    case Here(o, sz) => MOV_RCX_RBP + StoreRelativeToRcxCode(o, sz)
  }

  /** `push rbp; mov rbp, rsp`. */
  const PROLOGUE: seq<U8> := [0x55, 0x48, 0x89, 0xE5]

  /** `mov rsp, rbp; pop rbp; ret`. */
  const EPILOGUE: seq<U8> := [0x48, 0x89, 0xEC, 0x5D, 0xC3]

  /** `mov rax, rdi/rsi/rdx/rcx/r8/r9`: the System V AMD64 integer argument registers in order. */
  const ARG_MOVES: seq<seq<U8>> := [
    [0x48, 0x89, 0xF8], [0x48, 0x89, 0xF0], [0x48, 0x89, 0xD0],
    [0x48, 0x89, 0xC8], [0x4C, 0x89, 0xC0], [0x4C, 0x89, 0xC8]]

  /** `push reg; mov reg, rax` for the six argument registers. */
  const PUSH_MOVES: seq<seq<U8>> := [
    [0x57, 0x48, 0x89, 0xC7], [0x56, 0x48, 0x89, 0xC6], [0x52, 0x48, 0x89, 0xC2],
    [0x51, 0x48, 0x89, 0xC1], [0x41, 0x50, 0x49, 0x89, 0xC0], [0x41, 0x51, 0x49, 0x89, 0xC1]]

  /** `pop reg` for the six argument registers. */
  const POPS: seq<seq<U8>> := [[0x5F], [0x5E], [0x5A], [0x59], [0x41, 0x58], [0x41, 0x59]]

  /** Prologue plus `sub rsp, imm32` when a frame is requested; `n as u32` truncates. */
  function FrameSetupCode(n: U64): seq<U8> {
    PROLOGUE + (if n > 0 then [0x48, 0x81, 0xEC] + LeBytes(n % TWO_32, 4) else [])
  }

  /** The argument stores of `Begin` for slots `0..k`. */
  function StoreArgsCode(args: DestSlots, k: nat): seq<U8>
    requires k <= 6
  {
    if k == 0 then []
    else
      StoreArgsCode(args, k - 1) + ArgStoreCode(args, k - 1)
  }

  /** `mov rax, <argument register i>` and the store of rax into slot `i`, unless the slot is `Nowhere`. */
  function ArgStoreCode(args: DestSlots, i: nat): seq<U8>
    requires i < 6
  {
    if args[i].NeedsStore() then ARG_MOVES[i] + StoreRaxCode(args[i]) else []
  }

  /** The bytes of `Begin`: the frame setup, then the argument stores. */
  function BeginCode(n: U64, args: DestSlots): seq<U8> {
    FrameSetupCode(n) + StoreArgsCode(args, 6)
  }

  function RetCode(src: Src): seq<U8> {
    LoadRaxCode(src) + EPILOGUE
  }

  /**
   * The load/store pairs of a bulk copy for `i` in `0..n`, each on both
   * operands shifted by `i as i32` bytes; the first shift that overflows
   * `i32` fails.
   */
  function CopyPairsCode(dest: Dest, src: Src, n: nat): (r: Result<seq<U8>, CodegenError>)
    ensures r.Err? ==> r.error == OffsetOverflow
  {
    if n == 0 then Ok([])
    else
      match CopyPairsCode(dest, src, n - 1)
      case Err(e) => Err(e)
      case Ok(prefix) =>
        var amt := WrapI32(n - 1);
        match (src.Offset(amt), dest.Offset(amt))
        case (Some(s), Some(d)) => Ok(prefix + LoadRaxCode(s) + StoreRaxCode(d))
        case _ => Err(OffsetOverflow)
  }

  /**
   * The bytes of `Copy`: refused when a repeated copy mixes widths, nothing
   * for a discarding destination, otherwise the shifted load/store pairs.
   */
  function CopyCode(dest: Dest, src: Src, count: Count): (r: Result<seq<U8>, CodegenError>)
    ensures r == Err(SizeMismatch) <==> count != 1 && !SameSize(dest, src)
    ensures r.Err? ==> r.error == SizeMismatch || r.error == OffsetOverflow
    ensures !dest.NeedsStore() && r.Ok? ==> r.value == []
  {
    if count != 1 && !SameSize(dest, src) then Err(SizeMismatch)
    else if dest.NeedsStore() then CopyPairsCode(dest, src, count)
    else Ok([])
  }

  /** Whether a `JIf` on this operand emits a jump (only the constant zero does not). */
  predicate JumpEmitted(src: Src) {
    src != Src.Imm(0)
  }

  /** `jmp rel32` for a nonzero constant, `test rax, rax; jnz rel32` otherwise; zero placeholders. */
  function JIfCode(src: Src): (r: seq<U8>)
    ensures JumpEmitted(src) ==> |r| >= 5
  {
    if src == Src.Imm(0) then []
    else if src.Imm? then [0xE9, 0, 0, 0, 0]
    else LoadRaxCode(src) + [0x48, 0x85, 0xC0] + [0x0F, 0x85] + [0, 0, 0, 0]
  }

  /** The slots below `n` whose operand is loaded and pushed, in push order. */
  function PushedSlots(args: SrcSlots, n: nat): seq<nat>
    requires n <= 6
  {
    if n == 0 then [] else PushedSlots(args, n - 1) + (if args[n - 1].NeedsLoad() then [n - 1] else [])
  }

  /** The slots from `n` up whose register is popped, in pop order (5 down to `n`). */
  function PoppedSlots(args: SrcSlots, n: nat): seq<nat>
    requires n <= 6
    decreases 6 - n
  {
    if n == 6 then [] else PoppedSlots(args, n + 1) + (if args[n].NeedsLoad() then [n] else [])
  }

  predicate AllSlots(slots: seq<nat>) {
    forall k :: 0 <= k < |slots| ==> slots[k] < 6
  }

  function PushesCode(args: SrcSlots, slots: seq<nat>): seq<U8>
    requires AllSlots(slots)
  {
    if slots == [] then []
    else
      var last := slots[|slots| - 1];
      PushesCode(args, slots[..|slots| - 1]) + LoadRaxCode(args[last]) + PUSH_MOVES[last]
  }

  function PopsCode(slots: seq<nat>): seq<U8>
    requires AllSlots(slots)
  {
    if slots == [] then [] else PopsCode(slots[..|slots| - 1]) + POPS[slots[|slots| - 1]]
  }

  lemma {:induction false} SlotsInRange(args: SrcSlots, n: nat)
    requires n <= 6
    ensures AllSlots(PushedSlots(args, n)) && AllSlots(PoppedSlots(args, n))
  {
    PushedInRange(args, n);
    PoppedInRange(args, n);
  }

  lemma {:induction false} PushedInRange(args: SrcSlots, n: nat)
    requires n <= 6
    ensures AllSlots(PushedSlots(args, n))
  {
    if n > 0 {
      PushedInRange(args, n - 1);
    }
  }

  lemma {:induction false} PoppedInRange(args: SrcSlots, n: nat)
    requires n <= 6
    ensures AllSlots(PoppedSlots(args, n))
    decreases 6 - n
  {
    if n < 6 {
      PoppedInRange(args, n + 1);
    }
  }

  lemma PushesAppend(args: SrcSlots, slots: seq<nat>, x: nat)
    requires AllSlots(slots) && x < 6
    ensures AllSlots(slots + [x])
    ensures PushesCode(args, slots + [x]) == PushesCode(args, slots) + LoadRaxCode(args[x]) + PUSH_MOVES[x]
  {
    assert (slots + [x])[..|slots|] == slots;
  }

  lemma PopsAppend(slots: seq<nat>, x: nat)
    requires AllSlots(slots) && x < 6
    ensures AllSlots(slots + [x])
    ensures PopsCode(slots + [x]) == PopsCode(slots) + POPS[x]
  {
    assert (slots + [x])[..|slots|] == slots;
  }

  lemma PushesStep(args: SrcSlots, i: nat)
    requires i < 6
    ensures AllSlots(PushedSlots(args, i)) && AllSlots(PushedSlots(args, i + 1))
    ensures PushesCode(args, PushedSlots(args, i + 1)) == PushesCode(args, PushedSlots(args, i)) +
      (if args[i].NeedsLoad() then LoadRaxCode(args[i]) + PUSH_MOVES[i] else [])
  {
    PushedInRange(args, i + 1);
    PushedInRange(args, i);
    if args[i].NeedsLoad() {
      assert PushedSlots(args, i + 1) == PushedSlots(args, i) + [i];
      PushesAppend(args, PushedSlots(args, i), i);
    } else {
      assert PushedSlots(args, i + 1) == PushedSlots(args, i);
    }
  }

  lemma PopsStep(args: SrcSlots, i: nat)
    requires i < 6
    ensures AllSlots(PoppedSlots(args, i)) && AllSlots(PoppedSlots(args, i + 1))
    ensures PopsCode(PoppedSlots(args, i)) == PopsCode(PoppedSlots(args, i + 1)) +
      (if args[i].NeedsLoad() then POPS[i] else [])
  {
    PoppedInRange(args, i + 1);
    PoppedInRange(args, i);
    if args[i].NeedsLoad() {
      assert PoppedSlots(args, i) == PoppedSlots(args, i + 1) + [i];
      PopsAppend(PoppedSlots(args, i + 1), i);
    } else {
      assert PoppedSlots(args, i) == PoppedSlots(args, i + 1);
    }
  }

  /** `mov rax, <address>; call rax`. */
  function CallCode(address: U64): seq<U8> {
    [0x48, 0xB8] + LeBytes(address, 8) + [0xFF, 0xD0]
  }

  /** `write_fficall`: save and fill the argument registers, call, store, restore. */
  function FfiCallCode(dest: Dest, args: SrcSlots, address: U64): (r: seq<U8>)
    ensures |r| >= 12
  {
    SlotsInRange(args, 6);
    SlotsInRange(args, 0);
    PushesCode(args, PushedSlots(args, 6)) + CallCode(address) +
    (if dest.NeedsStore() then StoreRaxCode(dest) else []) + PopsCode(PoppedSlots(args, 0))
  }

  /** The bytes `write` appends for one instruction (a label appends none). */
  function InstCode(inst: Instruction): (r: Result<seq<U8>, CodegenError>)
    ensures r.Err? ==> inst.Copy? && (r.error == SizeMismatch || r.error == OffsetOverflow)
    ensures inst.Label? ==> r == Ok([])
  {
    match inst
    case Begin(n, args) => Ok(BeginCode(n, args))
    case Ret(src) => Ok(RetCode(src))
    case Copy(dest, src, count) => CopyCode(dest, src, count)
    case JIf(src, _) => Ok(JIfCode(src))
    case Label(_) => Ok([])
    case FFICall(dest, args, address) => Ok(FfiCallCode(dest, args, address))
  }

  /** Three appended pieces make up the whole of `FfiCallCode`. */
  lemma FfiCallCodeSplit(c0: seq<U8>, c1: seq<U8>, c2: seq<U8>, c3: seq<U8>, dest: Dest, args: SrcSlots, address: U64)
    requires AllSlots(PushedSlots(args, 6)) && AllSlots(PoppedSlots(args, 0))
    requires c1 == c0 + PushesCode(args, PushedSlots(args, 6))
    requires c2 == c1 + CallCode(address) + (if dest.NeedsStore() then StoreRaxCode(dest) else [])
    requires c3 == c2 + PopsCode(PoppedSlots(args, 0))
    ensures c3 == c0 + FfiCallCode(dest, args, address)
  {
    var p := PushesCode(args, PushedSlots(args, 6));
    var c := CallCode(address);
    var st := if dest.NeedsStore() then StoreRaxCode(dest) else [];
    var q := PopsCode(PoppedSlots(args, 0));
    assert FfiCallCode(dest, args, address) == ((p + c) + st) + q;
    Assoc(c0, p, c);
    Assoc(c0, p + c, st);
    Assoc(c0, (p + c) + st, q);
  }

  /**
   * `write_fficall` places `movabs rax, f; call rax` right after the argument
   * pushes, and the eight bytes of the `movabs` read back as the address; the
   * optional store and the pops follow.
   */
  lemma FfiCallShape(dest: Dest, args: SrcSlots, address: U64)
    ensures AllSlots(PushedSlots(args, 6)) && AllSlots(PoppedSlots(args, 0))
    ensures var p := PushesCode(args, PushedSlots(args, 6));
      var c := FfiCallCode(dest, args, address);
      var q := |p|;
      q + 12 <= |c| && c[..q] == p &&
      c[q..q + 2] == [0x48, 0xB8] && LeValue(c[q + 2..q + 10]) == address && c[q + 10..q + 12] == [0xFF, 0xD0] &&
      c[q + 12..] == (if dest.NeedsStore() then StoreRaxCode(dest) else []) + PopsCode(PoppedSlots(args, 0))
  {
    SlotsInRange(args, 6);
    SlotsInRange(args, 0);
    var p := PushesCode(args, PushedSlots(args, 6));
    var cc := CallCode(address);
    var st := if dest.NeedsStore() then StoreRaxCode(dest) else [];
    var po := PopsCode(PoppedSlots(args, 0));
    assert FfiCallCode(dest, args, address) == p + cc + st + po;
    CallBytes(address);
    SplitAt(FfiCallCode(dest, args, address), p, cc, st, po);
  }

  /** The three pieces of `CallCode`, and the address read back from its operand. */
  lemma CallBytes(address: U64)
    ensures var cc := CallCode(address);
      |cc| == 12 && cc[..2] == [0x48, 0xB8] && LeValue(cc[2..10]) == address && cc[10..] == [0xFF, 0xD0]
  {
    var cc := CallCode(address);
    assert cc[2..10] == LeBytes(address, 8);
    LeValueOfLeBytes(address, 8);
    Pow256Widths();
  }

  /** Slicing `p + cc + st + po` at the borders of a twelve-byte `cc`. */
  lemma SplitAt(c: seq<U8>, p: seq<U8>, cc: seq<U8>, st: seq<U8>, po: seq<U8>)
    requires c == p + cc + st + po && |cc| == 12
    ensures c[..|p|] == p && c[|p| + 12..] == st + po
    ensures c[|p|..|p| + 2] == cc[..2] && c[|p| + 2..|p| + 10] == cc[2..10] && c[|p| + 10..|p| + 12] == cc[10..]
  {
  }

  // ---------------------------------------------------------------------
  // The generator state and `write`

  predicate Fits(n: nat, refs: seq<LabelReference>) {
    forall j :: 0 <= j < |refs| ==> refs[j].at + refs[j].Width() <= n
  }

  lemma FitsFrom(n: nat, refs: seq<LabelReference>, i: nat)
    requires Fits(n, refs) && i <= |refs|
    ensures Fits(n, refs[i..])
  {
    assert forall j :: 0 <= j < |refs| - i ==> refs[i..][j] == refs[i + j];
  }

  /** Patch windows appear in buffer order and never overlap. */
  predicate Disjoint(refs: seq<LabelReference>) {
    forall i, j :: 0 <= i < j < |refs| ==> refs[i].at + refs[i].Width() <= refs[j].at
  }

  /** The invariant `write` keeps: every placeholder lies inside the buffer, in order. */
  predicate WellFormed(g: Gen) {
    Fits(|g.code|, g.refs) && Disjoint(g.refs)
  }

  /**
   * The effect of `write` on the generator state: the instruction's bytes are
   * appended; an emitted jump adds a reference to its placeholder measured
   * from the end of the jump; a label records the current length.
   */
  function Emit(g: Gen, inst: Instruction): (r: Result<Gen, CodegenError>)
    ensures r.Err? <==> InstCode(inst).Err? || (inst.Label? && inst.name in g.locations)
    ensures r.Ok? ==> r.value.code == g.code + InstCode(inst).value
  {
    match inst
    case Label(l) =>
      if l in g.locations then Err(DuplicateLabel(l))
      else Ok(g.(locations := g.locations[l := |g.code|]))
    case JIf(src, l) =>
      var code := g.code + JIfCode(src);
      var refs := if JumpEmitted(src) then g.refs + [LabelReference(|code| - 4, l, Some(|code|))] else g.refs;
      Ok(Gen(code, refs, g.locations))
    case Begin(n, args) => Ok(g.(code := g.code + BeginCode(n, args)))
    case Ret(src) => Ok(g.(code := g.code + RetCode(src)))
    case FFICall(dest, args, address) => Ok(g.(code := g.code + FfiCallCode(dest, args, address)))
    case Copy(dest, src, count) =>
      match CopyCode(dest, src, count)
      case Ok(bytes) => Ok(g.(code := g.code + bytes))
      case Err(e) => Err(e)
  }

  /** An instruction other than a label or a jump only appends its bytes. */
  lemma EmitCode(g: Gen, inst: Instruction, code: seq<U8>)
    requires WellFormed(g)
    requires !inst.Label? && !inst.JIf? && InstCode(inst).Ok? && code == g.code + InstCode(inst).value
    ensures Emit(g, inst) == Ok(Gen(code, g.refs, g.locations))
    ensures WellFormed(Gen(code, g.refs, g.locations))
  {
    EmitKeepsWellFormed(g, inst);
  }

  /** `write` keeps every placeholder inside the buffer and the windows in order. */
  lemma EmitKeepsWellFormed(g: Gen, inst: Instruction)
    requires WellFormed(g) && Emit(g, inst).Ok?
    ensures WellFormed(Emit(g, inst).value)
  {
  }

  // ---------------------------------------------------------------------
  // Finalization

  /** The bytes written into a placeholder for a label at `location`. */
  function RelocationBytes(r: LabelReference, location: nat): (bs: seq<U8>)
    ensures |bs| == r.Width()
  {
    match r.relativeTo
    case Some(rel) => I32Le(WrapI32(location - rel))
    case None => LeBytes(location, 8)
  }

  function Patch(code: seq<U8>, r: LabelReference, location: nat): (c: seq<U8>)
    requires r.at + r.Width() <= |code|
    ensures |c| == |code|
  {
    code[..r.at] + RelocationBytes(r, location) + code[r.at + r.Width()..]
  }

  /**
   * `finalize`: patch the references in order; the first whose label has no
   * location fails. Patching never changes the length of the buffer.
   */
  function Finalized(code: seq<U8>, refs: seq<LabelReference>, locations: map<Label, nat>): (r: Result<seq<U8>, CodegenError>)
    requires Fits(|code|, refs)
    ensures r.Ok? ==> |r.value| == |code|
    ensures r.Err? <==> exists j :: 0 <= j < |refs| && refs[j].target !in locations
    decreases |refs|
  {
    if refs == [] then Ok(code)
    else if refs[0].target !in locations then Err(UndefinedLabel(refs[0].target))
    else
      var code' := Patch(code, refs[0], locations[refs[0].target]);
      assert Fits(|code'|, refs[1..]);
      var r := Finalized(code', refs[1..], locations);
      assert forall j :: 1 <= j < |refs| ==> refs[j] == refs[1..][j - 1];
      r
  }

  /** One step of `Finalized`, at index `i` of the reference list. */
  lemma FinalizedStep(code: seq<U8>, refs: seq<LabelReference>, locations: map<Label, nat>, i: nat)
    requires i < |refs| && Fits(|code|, refs[i..])
    ensures refs[i].at + refs[i].Width() <= |code|
    ensures Fits(|code|, refs[i + 1..])
    ensures refs[i].target !in locations ==> Finalized(code, refs[i..], locations) == Err(UndefinedLabel(refs[i].target))
    ensures refs[i].target in locations ==>
      Finalized(code, refs[i..], locations) ==
      Finalized(Patch(code, refs[i], locations[refs[i].target]), refs[i + 1..], locations)
  {
    assert refs[i..][0] == refs[i];
    assert refs[i..][1..] == refs[i + 1..];
  }

  // ---------------------------------------------------------------------
  // The imperative generator

  class Codegen {
    /** Recorded by `new`, never read afterwards. */
    const baseAddress: U64
    var code: seq<U8>
    var labelReferences: seq<LabelReference>
    var labelLocations: map<Label, nat>

    function State(): Gen
      reads this
    {
      Gen(code, labelReferences, labelLocations)
    }

    ghost predicate Valid()
      reads this
    {
      WellFormed(State())
    }

    constructor (baseAddress: U64)
      ensures Valid() && this.baseAddress == baseAddress
      ensures State() == Gen([], [], map[])
    {
      this.baseAddress := baseAddress;
      code := [];
      labelReferences := [];
      labelLocations := map[];
    }

    method Finalize() returns (r: Result<seq<U8>, CodegenError>)
      requires Valid()
      modifies this`code
      ensures r == Finalized(old(code), labelReferences, labelLocations)
    {
      var i := 0;
      FitsFrom(|code|, labelReferences, 0);
      while i < |labelReferences|
        invariant 0 <= i <= |labelReferences|
        invariant |code| == |old(code)|
        invariant Fits(|code|, labelReferences[i..])
        invariant Finalized(old(code), labelReferences, labelLocations) ==
          Finalized(code, labelReferences[i..], labelLocations)
      {
        var ref := labelReferences[i];
        FinalizedStep(code, labelReferences, labelLocations, i);
        if ref.target !in labelLocations {
          return Err(UndefinedLabel(ref.target));
        }
        var location := labelLocations[ref.target];
        PatchAt(ref, location);
        i := i + 1;
      }
      assert labelReferences[i..] == [];
      r := Ok(code);
    }

    /** Overwrite one placeholder window with its relocation bytes. */
    method PatchAt(ref: LabelReference, location: nat)
      requires ref.at + ref.Width() <= |code|
      modifies this`code
      ensures code == Patch(old(code), ref, location)
    {
      match ref.relativeTo {
        case Some(rel) =>
          var bytes := I32Le(WrapI32(location - rel));
          code := code[..ref.at] + bytes + code[ref.at + 4..];
        case None =>
          var bytes := LeBytes(location, 8);
          code := code[..ref.at] + bytes + code[ref.at + 8..];
      }
    }

    method Write(inst: Instruction) returns (r: Outcome<CodegenError>)
      requires Valid()
      modifies this`code, this`labelReferences, this`labelLocations
      ensures Valid()
      ensures r.Pass? ==> Emit(old(State()), inst) == Ok(State())
      ensures r.Fail? ==> Emit(old(State()), inst) == Err(r.error)
    {
      ghost var g0 := State();
      match inst {
        case JIf(src, l) =>
          WriteJIf(src, l);
          EmitJIf(g0, src, l, code, labelReferences);
          EmitKeepsWellFormed(g0, inst);
          r := Pass;
        case Label(l) =>
          var existing := l in labelLocations;
          labelLocations := labelLocations[l := |code|];
          if existing {
            r := Fail(DuplicateLabel(l));
          } else {
            EmitLabel(g0, l);
            r := Pass;
          }
        case _ =>
          r := WriteAppending(inst);
      }
    }

    /** The instructions that only append bytes: `Begin`, `Ret`, `Copy` and `FFICall`. */
    method WriteAppending(inst: Instruction) returns (r: Outcome<CodegenError>)
      requires Valid() && !inst.Label? && !inst.JIf?
      modifies this`code
      ensures Valid()
      ensures r.Pass? ==> Emit(old(State()), inst) == Ok(State())
      ensures r.Fail? ==> Emit(old(State()), inst) == Err(r.error)
    {
      ghost var g0 := State();
      match inst {
        case Begin(n, args) =>
          WriteBegin(n, args);
          r := Pass;
        case Ret(src) =>
          WriteRet(src);
          r := Pass;
        case Copy(dest, src, count) =>
          r := WriteCopy(dest, src, count);
        case FFICall(dest, args, address) =>
          WriteFfiCall(dest, args, address);
          r := Pass;
      }
      if r.Pass? {
        EmitCode(g0, inst, code);
      }
    }

    method WriteRet(src: Src)
      modifies this`code
      ensures code == old(code) + RetCode(src)
    {
      LoadRax(src);
      code := code + EPILOGUE;
    }

    /** `push rbp; mov rbp, rsp`, then `sub rsp, n` when the frame is not empty. */
    method WriteFrameSetup(n: U64)
      modifies this`code
      ensures code == old(code) + FrameSetupCode(n)
    {
      code := code + PROLOGUE;
      if n > 0 {
        code := code + [0x48, 0x81, 0xEC];
        code := code + LeBytes(n % TWO_32, 4);
        Assoc(old(code) + PROLOGUE, [0x48, 0x81, 0xEC], LeBytes(n % TWO_32, 4));
      }
      Assoc(old(code), PROLOGUE, if n > 0 then [0x48, 0x81, 0xEC] + LeBytes(n % TWO_32, 4) else []);
    }

    /** Copies argument register `i` into its slot, when the slot is not `Nowhere`. */
    method WriteArgStore(args: DestSlots, i: nat)
      requires i < 6
      modifies this`code
      ensures code == old(code) + ArgStoreCode(args, i)
    {
      if args[i].NeedsStore() {
        code := code + ARG_MOVES[i];
        StoreRax(args[i]);
        Assoc(old(code), ARG_MOVES[i], StoreRaxCode(args[i]));
      }
    }

    method WriteBegin(n: U64, args: DestSlots)
      modifies this`code
      ensures code == old(code) + BeginCode(n, args)
    {
      WriteFrameSetup(n);
      ghost var setup := code;
      for i := 0 to 6
        invariant code == setup + StoreArgsCode(args, i)
      {
        WriteArgStore(args, i);
        Assoc(setup, StoreArgsCode(args, i), ArgStoreCode(args, i));
      }
      Assoc(old(code), FrameSetupCode(n), StoreArgsCode(args, 6));
    }

    /** The `Copy` arm of `write`: on failure the buffer keeps what was appended so far. */
    method WriteCopy(dest: Dest, src: Src, count: Count) returns (r: Outcome<CodegenError>)
      modifies this`code
      ensures |old(code)| <= |code|
      ensures r.Pass? ==> CopyCode(dest, src, count).Ok? && code == old(code) + CopyCode(dest, src, count).value
      ensures r.Fail? ==> CopyCode(dest, src, count) == Err(r.error)
    {
      if count != 1 && !SameSize(dest, src) {
        return Fail(SizeMismatch);
      }
      if dest.NeedsStore() {
        ghost var emitted: seq<U8> := [];
        for i := 0 to count
          invariant code == old(code) + emitted
          invariant CopyPairsCode(dest, src, i) == Ok(emitted)
        {
          var amt := WrapI32(i);
          var s := src.Offset(amt);
          if s.None? {
            CopyPairsErrorPersists(dest, src, i + 1, count);
            return Fail(OffsetOverflow);
          }
          LoadRax(s.value);
          var d := dest.Offset(amt);
          if d.None? {
            CopyPairsErrorPersists(dest, src, i + 1, count);
            return Fail(OffsetOverflow);
          }
          StoreRax(d.value);
          Assoc(old(code), emitted, LoadRaxCode(s.value));
          Assoc(old(code), emitted + LoadRaxCode(s.value), StoreRaxCode(d.value));
          emitted := emitted + LoadRaxCode(s.value) + StoreRaxCode(d.value);
        }
      }
      r := Pass;
    }

    /** The three `JIf` arms of `write`. */
    method WriteJIf(src: Src, l: Label)
      modifies this`code, this`labelReferences
      ensures code == old(code) + JIfCode(src)
      ensures labelReferences ==
        if JumpEmitted(src) then old(labelReferences) + [LabelReference(|code| - 4, l, Some(|code|))] else old(labelReferences)
    {
      if src == Src.Imm(0) {
        // the branch can never be taken: nothing is emitted
      } else if src.Imm? {
        WriteJump(src, l);
      } else {
        WriteTestJump(src, l);
      }
    }

    /** `jmp rel32` with a placeholder: a jump on a nonzero constant. */
    method WriteJump(src: Src, l: Label)
      requires src.Imm? && src != Src.Imm(0)
      modifies this`code, this`labelReferences
      ensures code == old(code) + JIfCode(src)
      ensures labelReferences == old(labelReferences) + [LabelReference(|code| - 4, l, Some(|code|))]
    {
      ghost var c0 := code;
      code := code + [0xE9];
      WritePlaceholder(l);
      JumpBytes(src, c0, code);
    }

    /** `test rax, rax; jnz rel32` with a placeholder, after loading the operand. */
    method WriteTestJump(src: Src, l: Label)
      requires !src.Imm?
      modifies this`code, this`labelReferences
      ensures code == old(code) + JIfCode(src)
      ensures labelReferences == old(labelReferences) + [LabelReference(|code| - 4, l, Some(|code|))]
    {
      ghost var c0 := code;
      LoadRax(src);
      code := code + [0x48, 0x85, 0xC0];
      code := code + [0x0F, 0x85];
      WritePlaceholder(l);
      TestJumpBytes(src, c0, code);
    }

    /** Four zero bytes, and a reference that will patch them with the distance to `l`. */
    method WritePlaceholder(l: Label)
      modifies this`code, this`labelReferences
      ensures code == old(code) + [0, 0, 0, 0]
      ensures labelReferences == old(labelReferences) + [LabelReference(|code| - 4, l, Some(|code|))]
    {
      var at := |code|;
      code := code + [0, 0, 0, 0];
      labelReferences := labelReferences + [LabelReference(at, l, Some(|code|))];
    }

    method WriteFfiCall(dest: Dest, args: SrcSlots, address: U64)
      modifies this`code
      ensures code == old(code) + FfiCallCode(dest, args, address)
    {
      PushArgs(args);
      ghost var pushed := code;
      CallAndStore(dest, address);
      ghost var called := code;
      PopArgs(args);
      FfiCallCodeSplit(old(code), pushed, called, code, dest, args, address);
    }

    /** Load the function's address into rax, call it, and store the result. */
    method CallAndStore(dest: Dest, address: U64)
      modifies this`code
      ensures code == old(code) + CallCode(address) + (if dest.NeedsStore() then StoreRaxCode(dest) else [])
    {
      code := code + [0x48, 0xB8];
      code := code + LeBytes(address, 8);
      code := code + [0xFF, 0xD0];
      assert code == old(code) + CallCode(address);
      if dest.NeedsStore() {
        StoreRax(dest);
      }
    }

    /** Load and push every operand that needs a load, slots 0 to 5. */
    method PushArgs(args: SrcSlots)
      modifies this`code
      ensures AllSlots(PushedSlots(args, 6))
      ensures code == old(code) + PushesCode(args, PushedSlots(args, 6))
    {
      SlotsInRange(args, 0);
      for i := 0 to 6
        invariant AllSlots(PushedSlots(args, i))
        invariant code == old(code) + PushesCode(args, PushedSlots(args, i))
      {
        PushesStep(args, i);
        ghost var before := code;
        if args[i].NeedsLoad() {
          LoadRax(args[i]);
          code := code + PUSH_MOVES[i];
          Assoc(before, LoadRaxCode(args[i]), PUSH_MOVES[i]);
        }
        Assoc(old(code), PushesCode(args, PushedSlots(args, i)),
          if args[i].NeedsLoad() then LoadRaxCode(args[i]) + PUSH_MOVES[i] else []);
      }
    }

    /** Pop the pushed registers again, slots 5 down to 0. */
    method PopArgs(args: SrcSlots)
      modifies this`code
      ensures AllSlots(PoppedSlots(args, 0))
      ensures code == old(code) + PopsCode(PoppedSlots(args, 0))
    {
      SlotsInRange(args, 6);
      var i := 6;
      while i > 0
        invariant 0 <= i <= 6
        invariant AllSlots(PoppedSlots(args, i))
        invariant code == old(code) + PopsCode(PoppedSlots(args, i))
      {
        i := i - 1;
        PopsStep(args, i);
        if args[i].NeedsLoad() {
          Assoc(old(code), PopsCode(PoppedSlots(args, i + 1)), POPS[i]);
          code := code + POPS[i];
        }
      }
    }

    method LoadRax(src: Src)
      modifies this`code
      ensures code == old(code) + LoadRaxCode(src)
    {
      match src {
        case Uninitialized =>
        case Imm(x) =>
          if x == 0 {
            code := code + [0x31, 0xC0];
          } else {
            code := code + [0x48, 0xB8];
            code := code + LeBytes(x, 8);
            Assoc(old(code), [0x48, 0xB8], LeBytes(x, 8));
          }
        case Ptr(p, f, sz) =>
          code := code + MOV_RAX_RBP;
          LoadRelativeToRax(p, Size.Q);
          LoadRelativeToRax(f, sz);
          Assoc(old(code), MOV_RAX_RBP, LoadRelativeToRaxCode(p, Size.Q));
          Assoc(old(code), MOV_RAX_RBP + LoadRelativeToRaxCode(p, Size.Q), LoadRelativeToRaxCode(f, sz));
        case Here(o, sz) =>
          code := code + MOV_RAX_RBP;
          LoadRelativeToRax(o, sz);
          Assoc(old(code), MOV_RAX_RBP, LoadRelativeToRaxCode(o, sz));
      }
    }

    method LoadRelativeToRax(offset: I32, sz: Size)
      modifies this`code
      ensures code == old(code) + LoadRelativeToRaxCode(offset, sz)
    {
      if offset == 0 {
        code := code + LoadZeroForm(sz);
      }
      code := code + LoadDispForm(sz);
      code := code + I32Le(offset);
    }

    method StoreRax(dest: Dest)
      modifies this`code
      ensures code == old(code) + StoreRaxCode(dest)
    {
      ghost var c0 := code;
      match dest {
        case Nowhere =>
        case Ptr(p, f, sz) =>
          code := code + MOV_RAX_RBP;
          LoadRelativeToRax(p, Size.Q);
          Assoc(c0, MOV_RAX_RBP, LoadRelativeToRaxCode(p, Size.Q));
          code := code + MOV_RCX_RAX;
          Assoc(c0, MOV_RAX_RBP + LoadRelativeToRaxCode(p, Size.Q), MOV_RCX_RAX);
          StoreRelativeToRcx(f, sz);
          Assoc(c0, MOV_RAX_RBP + LoadRelativeToRaxCode(p, Size.Q) + MOV_RCX_RAX, StoreRelativeToRcxCode(f, sz));
        case Here(o, sz) =>
          code := code + MOV_RCX_RBP;
          StoreRelativeToRcx(o, sz);
          Assoc(c0, MOV_RCX_RBP, StoreRelativeToRcxCode(o, sz));
      }
    }

    method StoreRelativeToRcx(offset: I32, sz: Size)
      modifies this`code
      ensures code == old(code) + StoreRelativeToRcxCode(offset, sz)
    {
      code := code + StoreDispForm(sz);
      code := code + I32Le(offset);
    }
  }

  /** The pieces `WriteJIf` appends for an unconditional jump. */
  lemma JumpBytes(src: Src, c0: seq<U8>, c: seq<U8>)
    requires src.Imm? && src != Src.Imm(0)
    requires c == c0 + [0xE9] + [0, 0, 0, 0]
    ensures c == c0 + JIfCode(src)
  {
    assert JIfCode(src) == [0xE9] + [0, 0, 0, 0];
  }

  /** The pieces `WriteJIf` appends for a jump on a loaded operand. */
  lemma TestJumpBytes(src: Src, c0: seq<U8>, c: seq<U8>)
    requires !src.Imm?
    requires c == c0 + LoadRaxCode(src) + [0x48, 0x85, 0xC0] + [0x0F, 0x85] + [0, 0, 0, 0]
    ensures c == c0 + JIfCode(src)
  {
    var load := LoadRaxCode(src);
    assert c == c0 + (load + [0x48, 0x85, 0xC0] + [0x0F, 0x85] + [0, 0, 0, 0]);
  }

  lemma Assoc(a: seq<U8>, b: seq<U8>, c: seq<U8>)
    ensures (a + b) + c == a + (b + c)
  {
  }

  /** Once a shift overflows, every longer run of pairs fails the same way. */
  lemma {:induction false} CopyPairsErrorPersists(dest: Dest, src: Src, n: nat, m: nat)
    requires n <= m
    requires CopyPairsCode(dest, src, n).Err?
    ensures CopyPairsCode(dest, src, m) == CopyPairsCode(dest, src, n)
    decreases m - n
  {
    if n < m {
      CopyPairsErrorPersists(dest, src, n, m - 1);
    }
  }

  // ---------------------------------------------------------------------
  // Properties of the encodings

  /** `load_rax` on an immediate: zero is `xor eax, eax`; anything else is `movabs rax, imm64` whose operand reads back as the value. */
  lemma LoadRaxImmediate(x: U64)
    ensures x == 0 ==> LoadRaxCode(Src.Imm(x)) == [0x31, 0xC0]
    ensures x != 0 ==>
      (|LoadRaxCode(Src.Imm(x))| == 10 && LoadRaxCode(Src.Imm(x))[..2] == [0x48, 0xB8] &&
       LeValue(LoadRaxCode(Src.Imm(x))[2..]) == x)
  {
    if x != 0 {
      var c := LoadRaxCode(Src.Imm(x));
      assert c[2..] == LeBytes(x, 8);
      LeValueOfLeBytes(x, 8);
      Pow256Widths();
    }
  }

  /** `load_rax` emits bytes exactly for operands that need a load, `store_rax` exactly for destinations that need a store. */
  lemma LoadStoreEmpty(src: Src, dest: Dest)
    ensures LoadRaxCode(src) == [] <==> !src.NeedsLoad()
    ensures StoreRaxCode(dest) == [] <==> !dest.NeedsStore()
  {
  }

  /**
   * `load_relative_to_rax`: the displacement form is always emitted and its
   * last four bytes read back as the offset; the extra `[rax]` form comes
   * first exactly when the offset is zero.
   */
  lemma LoadRelativeDisplacement(offset: I32, sz: Size)
    ensures var c := LoadRelativeToRaxCode(offset, sz);
      |c| == (if offset == 0 then |LoadZeroForm(sz)| else 0) + |LoadDispForm(sz)| + 4 &&
      (offset == 0 ==> c[..|LoadZeroForm(sz)|] == LoadZeroForm(sz)) &&
      c[|c| - 4 - |LoadDispForm(sz)|..|c| - 4] == LoadDispForm(sz) &&
      WrapI32(LeValue(c[|c| - 4..])) == offset
  {
    var c := LoadRelativeToRaxCode(offset, sz);
    var z := if offset == 0 then LoadZeroForm(sz) else [];
    assert c == z + LoadDispForm(sz) + I32Le(offset);
    assert c[|c| - 4..] == I32Le(offset);
    assert c[|c| - 4 - |LoadDispForm(sz)|..|c| - 4] == LoadDispForm(sz);
  }

  /** `store_relative_to_rcx`: one store opcode followed by the offset as a 32-bit displacement. */
  lemma StoreRelativeDisplacement(offset: I32, sz: Size)
    ensures var c := StoreRelativeToRcxCode(offset, sz);
      |c| == |StoreDispForm(sz)| + 4 && c[..|StoreDispForm(sz)|] == StoreDispForm(sz) &&
      WrapI32(LeValue(c[|c| - 4..])) == offset
  {
    var c := StoreRelativeToRcxCode(offset, sz);
    assert c[|c| - 4..] == I32Le(offset);
  }

  /**
   * `Begin` opens a frame: `push rbp; mov rbp, rsp`, then `sub rsp, imm32`
   * exactly when bytes are requested, with `n as u32` as the immediate.
   */
  lemma BeginFrame(n: U64, args: DestSlots)
    ensures var c := BeginCode(n, args);
      c[..4] == PROLOGUE &&
      (n == 0 ==> c[4..] == StoreArgsCode(args, 6)) &&
      (n > 0 ==> c[4..7] == [0x48, 0x81, 0xEC] && LeValue(c[7..11]) == n % TWO_32 && c[11..] == StoreArgsCode(args, 6))
  {
    var c := BeginCode(n, args);
    var rest := StoreArgsCode(args, 6);
    if n > 0 {
      var imm := LeBytes(n % TWO_32, 4);
      assert c == (PROLOGUE + ([0x48, 0x81, 0xEC] + imm)) + rest;
      SubtractImmediate(c, n % TWO_32, rest);
    } else {
      assert c == PROLOGUE + rest;
    }
  }

  /** The pieces of `push rbp; mov rbp, rsp; sub rsp, imm32` followed by `rest`. */
  lemma SubtractImmediate(c: seq<U8>, v: nat, rest: seq<U8>)
    requires v < TWO_32
    requires c == (PROLOGUE + ([0x48, 0x81, 0xEC] + LeBytes(v, 4))) + rest
    ensures c[..4] == PROLOGUE && c[4..7] == [0x48, 0x81, 0xEC] && LeValue(c[7..11]) == v && c[11..] == rest
  {
    var imm := LeBytes(v, 4);
    Assoc(PROLOGUE, [0x48, 0x81, 0xEC], imm);
    FourPieces(PROLOGUE, [0x48, 0x81, 0xEC], imm, rest);
    assert c[7..11] == imm;
    LeValueOfLeBytes(v, 4);
    Pow256Widths();
  }

  lemma FourPieces(a: seq<U8>, b: seq<U8>, c: seq<U8>, d: seq<U8>)
    ensures var s := a + b + c + d;
      s[..|a|] == a && s[|a|..|a| + |b|] == b && s[|a| + |b|..|a| + |b| + |c|] == c && s[|a| + |b| + |c|..] == d
  {
    var s := a + b + c + d;
    assert s[..|a|] == a;
    assert s[|a|..|a| + |b|] == b;
    assert s[|a| + |b|..|a| + |b| + |c|] == c;
    assert s[|a| + |b| + |c|..] == d;
  }

  /**
   * The argument stores of slots `0..k` are empty exactly when every one of
   * those slots is `Nowhere`: each other slot costs a register move and a store.
   */
  lemma {:induction false} StoreArgsNone(args: DestSlots, k: nat)
    requires k <= 6
    ensures StoreArgsCode(args, k) == [] <==> forall i :: 0 <= i < k ==> !args[i].NeedsStore()
  {
    if k > 0 {
      StoreArgsNone(args, k - 1);
      assert |ARG_MOVES[k - 1]| > 0;
      assert ArgStoreCode(args, k - 1) == [] <==> !args[k - 1].NeedsStore();
    }
  }

  /** A `Ret` loads the result into rax and ends with the epilogue. */
  lemma RetShape(src: Src)
    ensures var c := RetCode(src);
      c[..|c| - 5] == LoadRaxCode(src) && c[|c| - 5..] == EPILOGUE
  {
  }

  /** The reverse of a sequence. */
  function Reverse(s: seq<nat>): (r: seq<nat>)
    ensures |r| == |s|
  {
    if s == [] then [] else Reverse(s[1..]) + [s[0]]
  }

  lemma {:induction false} ReverseAppend(a: seq<nat>, b: seq<nat>)
    ensures Reverse(a + b) == Reverse(b) + Reverse(a)
    decreases |a|
  {
    if a == [] {
      assert a + b == b;
    } else {
      assert (a + b)[1..] == a[1..] + b;
      assert (a + b)[0] == a[0];
      ReverseAppend(a[1..], b);
    }
  }

  /**
   * `write_fficall` restores registers in the reverse order it saved them:
   * the popped slots, read backwards, are exactly the pushed ones.
   */
  lemma {:induction false} PopsMirrorPushes(args: SrcSlots, n: nat)
    requires n <= 6
    ensures PushedSlots(args, 6) == PushedSlots(args, n) + Reverse(PoppedSlots(args, n))
    decreases 6 - n
  {
    if n < 6 {
      PopsMirrorPushes(args, n + 1);
      var e: seq<nat> := if args[n].NeedsLoad() then [n] else [];
      assert PushedSlots(args, n + 1) == PushedSlots(args, n) + e;
      assert PoppedSlots(args, n) == PoppedSlots(args, n + 1) + e;
      ReverseAppend(PoppedSlots(args, n + 1), e);
      assert Reverse(e) == e;
    }
  }

  lemma PopsReversePushes(args: SrcSlots)
    ensures Reverse(PoppedSlots(args, 0)) == PushedSlots(args, 6)
  {
    PopsMirrorPushes(args, 0);
  }

  // ---------------------------------------------------------------------
  // Properties of `write` and `finalize`

  /** `Emit` on a `JIf`, from the bytes and the reference it adds. */
  lemma EmitJIf(g: Gen, src: Src, l: Label, code: seq<U8>, refs: seq<LabelReference>)
    requires code == g.code + JIfCode(src)
    requires refs == if JumpEmitted(src) then g.refs + [LabelReference(|code| - 4, l, Some(|code|))] else g.refs
    ensures Emit(g, JIf(src, l)) == Ok(Gen(code, refs, g.locations))
  {
    match src
    case Imm(x) =>
      if x == 0 { } else { }
    case _ =>
  }

  /** A jump's bytes end in the four-byte placeholder; a jump on constant zero has none. */
  lemma JIfCodeShape(src: Src)
    ensures JumpEmitted(src) ==> |JIfCode(src)| >= 5 && JIfCode(src)[|JIfCode(src)| - 4..] == [0, 0, 0, 0]
    ensures !JumpEmitted(src) ==> JIfCode(src) == []
  {
    if JumpEmitted(src) && !src.Imm? {
      var front := LoadRaxCode(src) + [0x48, 0x85, 0xC0] + [0x0F, 0x85];
      assert JIfCode(src) == front + [0, 0, 0, 0];
      SuffixOfAppend(front, [0, 0, 0, 0], 4);
    }
  }

  lemma SuffixOfAppend(a: seq<U8>, b: seq<U8>, k: nat)
    requires k <= |b|
    ensures (a + b)[|a + b| - k..] == b[|b| - k..]
  {
  }

  /**
   * `g'` is `g` with a jump appended: the new bytes end in a four-byte zero
   * placeholder, and one reference to it, measured from the end of the
   * jump, is recorded after the old ones.
   */
  predicate PlaceholderRecorded(g: Gen, g': Gen, l: Label) {
    |g'.code| >= |g.code| + 5 && g'.code[|g'.code| - 4..] == [0, 0, 0, 0] && g'.locations == g.locations &&
    g'.refs == g.refs + [LabelReference(|g'.code| - 4, l, Some(|g'.code|))]
  }

  /** A jump on the constant zero emits nothing and records nothing. */
  lemma EmitJIfNever(g: Gen, src: Src, l: Label)
    requires !JumpEmitted(src)
    ensures Emit(g, JIf(src, l)) == Ok(g)
  {
    JIfCodeShape(src);
    assert g.code + JIfCode(src) == g.code;
    EmitJIf(g, src, l, g.code, g.refs);
  }

  /**
   * Any other jump ends in a four-byte zero placeholder and records one
   * reference to it, measured from the end of the jump.
   */
  lemma EmitJIfReference(g: Gen, src: Src, l: Label)
    requires JumpEmitted(src)
    ensures Emit(g, JIf(src, l)).Ok?
    ensures PlaceholderRecorded(g, Emit(g, JIf(src, l)).value, l)
  {
    var bytes := JIfCode(src);
    var code := g.code + bytes;
    JIfCodeShape(src);
    EmitJIf(g, src, l, code, g.refs + [LabelReference(|code| - 4, l, Some(|code|))]);
    PlaceholderAtEnd(g, Emit(g, JIf(src, l)), bytes, l);
  }

  lemma PlaceholderAtEnd(g: Gen, e: Result<Gen, CodegenError>, bytes: seq<U8>, l: Label)
    requires |bytes| >= 5 && bytes[|bytes| - 4..] == [0, 0, 0, 0]
    requires e == Ok(Gen(g.code + bytes, g.refs + [LabelReference(|g.code + bytes| - 4, l, Some(|g.code + bytes|))], g.locations))
    ensures e.Ok? && PlaceholderRecorded(g, e.value, l)
  {
    SuffixOfAppend(g.code, bytes, 4);
  }

  /** A label records the current length of the buffer; a second definition is refused. */
  lemma EmitLabel(g: Gen, l: Label)
    ensures l in g.locations <==> Emit(g, Label(l)) == Err(DuplicateLabel(l))
    ensures l !in g.locations ==> Emit(g, Label(l)) == Ok(Gen(g.code, g.refs, g.locations[l := |g.code|]))
  {
  }

  /** Every instruction other than `Label` and `JIf` only appends bytes. */
  lemma EmitOnlyAppends(g: Gen, inst: Instruction)
    requires !inst.Label? && !inst.JIf?
    ensures Emit(g, inst).Ok? ==> Emit(g, inst).value.refs == g.refs && Emit(g, inst).value.locations == g.locations
  {
  }

  /** Patching never touches a byte outside every placeholder window. */
  lemma {:induction false} FinalizedOutside(code: seq<U8>, refs: seq<LabelReference>, locations: map<Label, nat>, k: nat)
    requires Fits(|code|, refs) && Finalized(code, refs, locations).Ok?
    requires k < |code|
    requires forall j :: 0 <= j < |refs| ==> !(refs[j].at <= k < refs[j].at + refs[j].Width())
    ensures Finalized(code, refs, locations).value[k] == code[k]
    decreases |refs|
  {
    if refs != [] {
      var code' := Patch(code, refs[0], locations[refs[0].target]);
      assert Fits(|code'|, refs[1..]);
      assert forall j :: 0 <= j < |refs| - 1 ==> refs[1..][j] == refs[j + 1];
      FinalizedOutside(code', refs[1..], locations, k);
      assert code'[k] == code[k];
    }
  }

  /** The later patches leave the first window as the first patch wrote it. */
  lemma FinalizedFirstWindow(code': seq<U8>, refs: seq<LabelReference>, locations: map<Label, nat>)
    requires |refs| > 0 && refs[0].at + refs[0].Width() <= |code'|
    requires Fits(|code'|, refs[1..]) && Disjoint(refs) && Finalized(code', refs[1..], locations).Ok?
    ensures var r0 := refs[0];
      Finalized(code', refs[1..], locations).value[r0.at..r0.at + r0.Width()] == code'[r0.at..r0.at + r0.Width()]
  {
    var r0 := refs[0];
    var out := Finalized(code', refs[1..], locations).value;
    forall k | r0.at <= k < r0.at + r0.Width()
      ensures out[k] == code'[k]
    {
      assert forall i :: 0 <= i < |refs| - 1 ==> refs[1..][i] == refs[i + 1];
      FinalizedOutside(code', refs[1..], locations, k);
    }
  }

  /** With disjoint windows, each one ends up holding its label's relocation. */
  lemma {:induction false} FinalizedPatches(code: seq<U8>, refs: seq<LabelReference>, locations: map<Label, nat>, j: nat)
    requires Fits(|code|, refs) && Disjoint(refs) && Finalized(code, refs, locations).Ok?
    requires j < |refs|
    ensures refs[j].target in locations
    ensures Finalized(code, refs, locations).value[refs[j].at..refs[j].at + refs[j].Width()] ==
      RelocationBytes(refs[j], locations[refs[j].target])
    decreases |refs|
  {
    var r0 := refs[0];
    var code' := Patch(code, r0, locations[r0.target]);
    assert Fits(|code'|, refs[1..]);
    assert forall i :: 0 <= i < |refs| - 1 ==> refs[1..][i] == refs[i + 1];
    var out := Finalized(code, refs, locations).value;
    assert out == Finalized(code', refs[1..], locations).value;
    if j == 0 {
      FinalizedFirstWindow(code', refs, locations);
    } else {
      FinalizedPatches(code', refs[1..], locations, j - 1);
    }
  }

  /**
   * After `finalize`, a relative placeholder holds the signed distance from
   * the end of its jump to the label: when that distance fits in `i32`, the
   * jump lands exactly on the label's location.
   */
  lemma FinalizedJumpLands(code: seq<U8>, refs: seq<LabelReference>, locations: map<Label, nat>, j: nat)
    requires Fits(|code|, refs) && Disjoint(refs) && Finalized(code, refs, locations).Ok?
    requires j < |refs| && refs[j].relativeTo.Some?
    ensures refs[j].target in locations
    ensures |Finalized(code, refs, locations).value| == |code|
    ensures JumpLands(Finalized(code, refs, locations).value, refs[j], locations[refs[j].target])
  {
    FinalizedPatches(code, refs, locations, j);
    WindowJump(Finalized(code, refs, locations).value, refs[j], locations[refs[j].target]);
  }

  /**
   * The 32-bit displacement in `r`'s window, added to `relativeTo`, reaches
   * `loc` modulo 2^32, and exactly when the distance fits in `i32`.
   */
  predicate JumpLands(out: seq<U8>, r: LabelReference, loc: int)
    requires r.relativeTo.Some? && r.at + 4 <= |out|
  {
    var rel := r.relativeTo.value;
    var disp := WrapI32(LeValue(out[r.at..r.at + 4]));
    (loc - rel - disp) % TWO_32 == 0 && (IsI32(loc - rel) ==> rel + disp == loc)
  }

  /** A patched relative window holds the distance from `relativeTo` to the location. */
  lemma WindowJump(out: seq<U8>, r: LabelReference, loc: nat)
    requires r.relativeTo.Some? && r.at + 4 <= |out|
    requires out[r.at..r.at + r.Width()] == RelocationBytes(r, loc)
    ensures JumpLands(out, r, loc)
  {
    JumpDistance(out[r.at..r.at + 4], loc, r.relativeTo.value);
  }

  /** The displacement read back from a relocation is the distance, up to 32-bit wrap-around. */
  lemma JumpDistance(w: seq<U8>, loc: int, rel: int)
    requires w == I32Le(WrapI32(loc - rel))
    ensures (loc - rel - WrapI32(LeValue(w))) % TWO_32 == 0
    ensures IsI32(loc - rel) ==> rel + WrapI32(LeValue(w)) == loc
  {
  }
}
