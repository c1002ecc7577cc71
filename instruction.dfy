/**
 * The intermediate representation shared by the code generator, the
 * interpreter and the parser: operand kinds, value widths, labels and the
 * six instructions, with the small helpers `needs_load`, `needs_store`,
 * `offset` and `same_size`.
 */
module Ir {
  import opened Wrappers
  import opened Bytes

  /** Value width: one, two, four or eight bytes. */
  datatype Size = B | H | D | Q {
    function Bytes(): (n: nat)
      ensures n in {1, 2, 4, 8}
    {
      match this
      case B => 1
      case H => 2
      case D => 4
      case Q => 8
    }
  }

  /**
   * A place a value is written to: discarded, through a pointer kept in the
   * frame (pointer offset, field offset past the pointer, width), or
   * directly in the frame (offset from the frame base, width).
   */
  datatype Dest = Nowhere | Ptr(ptrOffset: I32, farOffset: I32, size: Size) | Here(offset: I32, size: Size) {

    /** `needs_store`: only the discarding destination stores nothing. */
    predicate NeedsStore()
      ensures NeedsStore() <==> Ptr? || Here?
    {
      !Nowhere?
    }

    /**
     * Shifts the far offset by `amt` bytes. The source adds two `i32`s,
     * which overflows (a panic) when the sum leaves the `i32` range: `None`.
     */
    function Offset(amt: I32): (r: Option<Dest>)
      ensures r.None? <==> (Ptr? && !IsI32(farOffset + amt)) || (Here? && !IsI32(offset + amt))
    {
      match this
      case Nowhere => Some(Nowhere)
      case Ptr(stack, far, sz) => if IsI32(far + amt) then Some(Dest.Ptr(stack, far + amt, sz)) else None
      case Here(stack, sz) => if IsI32(stack + amt) then Some(Dest.Here(stack + amt, sz)) else None
    }
  }

  /** A place a value is read from: as `Dest`, plus the sentinel and an immediate. */
  datatype Src = Uninitialized | Imm(value: U64) | Ptr(ptrOffset: I32, farOffset: I32, size: Size) | Here(offset: I32, size: Size) {

    /** `needs_load`: every operand but the sentinel carries a value to load. */
    predicate NeedsLoad()
      ensures NeedsLoad() <==> Imm? || Ptr? || Here?
    {
      !Uninitialized?
    }

    /** As `Dest::offset`; the sentinel and immediates have no offset to move. */
    function Offset(amt: I32): (r: Option<Src>)
      ensures r.None? <==> (Ptr? && !IsI32(farOffset + amt)) || (Here? && !IsI32(offset + amt))
    {
      match this
      case Uninitialized => Some(Uninitialized)
      case Imm(x) => Some(Imm(x))
      case Ptr(stack, far, sz) => if IsI32(far + amt) then Some(Src.Ptr(stack, far + amt, sz)) else None
      case Here(stack, sz) => if IsI32(stack + amt) then Some(Src.Here(stack + amt, sz)) else None
    }
  }

  /** `Count(u64)`: how many times a `Copy` repeats. */
  type Count = U64

  /** `Label(u64)`: an opaque jump target. */
  type Label = U64

  type DestSlots = s: seq<Dest> | |s| == 6 witness [Nowhere, Nowhere, Nowhere, Nowhere, Nowhere, Nowhere]
  type SrcSlots = s: seq<Src> | |s| == 6
    witness [Uninitialized, Uninitialized, Uninitialized, Uninitialized, Uninitialized, Uninitialized]

  /**
   * The six instructions. `FFICall` carries the foreign function's address
   * as an opaque 64-bit value: the code generator embeds it, the interpreter
   * hands it to a caller-supplied function.
   */
  datatype Instruction =
    | Begin(frameSize: U64, args: DestSlots)
    | Ret(src: Src)
    | Copy(dest: Dest, src: Src, count: Count)
    | JIf(src: Src, target: Label)
    | Label(name: Label)
    | FFICall(dest: Dest, operands: SrcSlots, address: U64)

  /**
   * Whether a copy moves values of one width: always when the destination
   * discards or the source has no width; otherwise the two widths agree.
   */
  predicate SameSize(dest: Dest, src: Src)
    ensures SameSize(dest, src) <==> dest.Nowhere? || src.Uninitialized? || src.Imm? || dest.size == src.size
  {
    match (dest, src)
    case (Nowhere, _) => true
    case (_, Uninitialized) => true
    case (_, Imm(_)) => true
    case (_, _) => dest.size == src.size
  }

  // ---------------------------------------------------------------------
  // Properties of the helpers

  /**
   * `offset` leaves the sentinel and immediates unchanged, moves only the
   * far offset of `Ptr` (never the pointer slot) and the frame offset of
   * `Here`, and keeps the variant, the width and `needs_load`.
   */
  lemma SrcOffsetShape(src: Src, amt: I32)
    ensures src.Uninitialized? || src.Imm? ==> src.Offset(amt) == Some(src)
    ensures src.Ptr? && IsI32(src.farOffset + amt) ==>
      src.Offset(amt) == Some(Src.Ptr(src.ptrOffset, src.farOffset + amt, src.size))
    ensures src.Here? && IsI32(src.offset + amt) ==>
      src.Offset(amt) == Some(Src.Here(src.offset + amt, src.size))
    ensures src.Offset(amt).Some? ==>
      var s' := src.Offset(amt).value;
      && s'.NeedsLoad() == src.NeedsLoad()
      && (src.Ptr? <==> s'.Ptr?) && (src.Here? <==> s'.Here?) && (src.Imm? <==> s'.Imm?)
      && (src.Ptr? || src.Here? ==> s'.size == src.size)
  {
  }

  lemma DestOffsetShape(dest: Dest, amt: I32)
    ensures dest.Nowhere? ==> dest.Offset(amt) == Some(Nowhere)
    ensures dest.Ptr? && IsI32(dest.farOffset + amt) ==>
      dest.Offset(amt) == Some(Dest.Ptr(dest.ptrOffset, dest.farOffset + amt, dest.size))
    ensures dest.Here? && IsI32(dest.offset + amt) ==>
      dest.Offset(amt) == Some(Dest.Here(dest.offset + amt, dest.size))
    ensures dest.Offset(amt).Some? ==>
      var d' := dest.Offset(amt).value;
      && d'.NeedsStore() == dest.NeedsStore()
      && (dest.Ptr? <==> d'.Ptr?) && (dest.Here? <==> d'.Here?)
      && (dest.Ptr? || dest.Here? ==> d'.size == dest.size)
  {
  }

  /** `offset(0)` is the identity. */
  lemma OffsetZero(src: Src, dest: Dest)
    ensures src.Offset(0) == Some(src)
    ensures dest.Offset(0) == Some(dest)
  {
  }

  /** `offset(a)` then `offset(b)` is `offset(a + b)` when nothing overflows. */
  lemma OffsetCompose(src: Src, dest: Dest, a: I32, b: I32)
    requires IsI32(a + b)
    ensures src.Offset(a).Some? && src.Offset(a).value.Offset(b).Some? ==>
      src.Offset(a + b) == src.Offset(a).value.Offset(b)
    ensures dest.Offset(a).Some? && dest.Offset(a).value.Offset(b).Some? ==>
      dest.Offset(a + b) == dest.Offset(a).value.Offset(b)
  {
  }

  /** Shifting both operands keeps `same_size`: a bulk copy stays well formed element by element. */
  lemma SameSizeOffset(dest: Dest, src: Src, amt: I32)
    requires dest.Offset(amt).Some? && src.Offset(amt).Some?
    ensures SameSize(dest.Offset(amt).value, src.Offset(amt).value) == SameSize(dest, src)
  {
  }
}
