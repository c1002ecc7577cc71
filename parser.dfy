/**
 * The surface syntax, parsed as the source does with nom 7 combinators:
 *
 *   nyeh 180 (bp-4 B, [bp-8] B, [bp-12]->4 D).     Begin, up to six argument slots
 *   ret bp-4 D.                                     Ret
 *   bp-4 D = [bp-8]->2 H (4x).                      Copy, the count defaulting to 1
 *
 * Each parser takes the remaining input and returns the rest and a value,
 * or `Fail` (nom's recoverable `Error`; no parser here raises `Failure`).
 * `ws(p)` skips spaces, tabs, CRs and LFs on both sides of `p`.
 */
module SurfaceParser {
  import opened Bytes
  import opened Ir

  datatype PResult<T> = Done(rest: string, value: T) | Fail

  // ---------------------------------------------------------------------
  // Characters, whitespace and tags

  /** The characters `multispace0` skips. */
  predicate IsSpace(c: char) {
    c == ' ' || c == '\t' || c == '\r' || c == '\n'
  }

  predicate IsDigit(c: char) {
    '0' <= c <= '9'
  }

  /** `multispace0`: drop the leading whitespace (never fails). */
  function SkipWs(s: string): (r: string)
    ensures |r| <= |s|
    ensures r == [] || !IsSpace(r[0])
  {
    if s != [] && IsSpace(s[0]) then SkipWs(s[1..]) else s
  }

  /** `tag(t)`: the input must start with `t`. */
  function Tag(t: string, s: string): (r: PResult<()>)
    ensures r.Done? ==> |r.rest| == |s| - |t|
  {
    if |t| <= |s| && s[..|t|] == t then Done(s[|t|..], ()) else Fail
  }

  /** `ws(tag(t))`. */
  function WsTag(t: string, s: string): (r: PResult<()>)
    ensures r.Done? ==> |r.rest| <= |s|
  {
    match Tag(t, SkipWs(s))
    case Fail => Fail
    case Done(rest, _) => Done(SkipWs(rest), ())
  }

  // ---------------------------------------------------------------------
  // Numbers

  /** How many digits `s` starts with. */
  function LeadingDigits(s: string): (n: nat)
    ensures n <= |s|
    ensures forall i :: 0 <= i < n ==> IsDigit(s[i])
    ensures n < |s| ==> !IsDigit(s[n])
  {
    if s != [] && IsDigit(s[0]) then 1 + LeadingDigits(s[1..]) else 0
  }

  function DigitValue(c: char): (d: nat)
    requires IsDigit(c)
    ensures d < 10
  {
    c as int - '0' as int
  }

  /** The decimal value of a string of digits. */
  function DecValue(ds: string): nat
    requires forall i :: 0 <= i < |ds| ==> IsDigit(ds[i])
  {
    if ds == [] then 0 else 10 * DecValue(ds[..|ds| - 1]) + DigitValue(ds[|ds| - 1])
  }

  /**
   * `character::complete::u64`: one or more digits, as many as follow. The
   * source checks every multiply-add for overflow; the partial values only
   * grow, so that is a check on the final value.
   */
  function U64Num(s: string): (r: PResult<U64>)
    ensures r.Done? ==> |r.rest| < |s|
  {
    var n := LeadingDigits(s);
    if n == 0 then Fail
    else
      var v := DecValue(s[..n]);
      if v < TWO_64 then Done(s[n..], v) else Fail
  }

  /**
   * `character::complete::i32`: an optional `-` or `+`, then one or more
   * digits. The value accumulates away from zero in the sign's direction, so
   * the overflow checks amount to the final value being an `i32`.
   */
  function I32Num(s: string): (r: PResult<I32>)
    ensures r.Done? ==> |r.rest| < |s|
  {
    var negative := s != [] && s[0] == '-';
    var t := if s != [] && (s[0] == '-' || s[0] == '+') then s[1..] else s;
    var n := LeadingDigits(t);
    if n == 0 then Fail
    else
      var mag: int := DecValue(t[..n]);
      var v := if negative then -mag else mag;
      if IsI32(v) then Done(t[n..], v) else Fail
  }

  /** `ws(u64)`. */
  function WsU64(s: string): (r: PResult<U64>)
    ensures r.Done? ==> |r.rest| < |s|
  {
    match U64Num(SkipWs(s))
    case Fail => Fail
    case Done(rest, v) => Done(SkipWs(rest), v)
  }

  /** `ws(i32)`. */
  function WsI32(s: string): (r: PResult<I32>)
    ensures r.Done? ==> |r.rest| < |s|
  {
    match I32Num(SkipWs(s))
    case Fail => Fail
    case Done(rest, v) => Done(SkipWs(rest), v)
  }

  // ---------------------------------------------------------------------
  // Operand pieces

  /** `parse_size`: one of the letters `B`, `H`, `D`, `Q`, tried in that order. */
  function ParseSize(s: string): (r: PResult<Size>)
    ensures r.Done? ==> |r.rest| < |s|
  {
    var t := SkipWs(s);
    if t != [] && t[0] == 'B' then Done(SkipWs(t[1..]), Size.B)
    else if t != [] && t[0] == 'H' then Done(SkipWs(t[1..]), Size.H)
    else if t != [] && t[0] == 'D' then Done(SkipWs(t[1..]), Size.D)
    else if t != [] && t[0] == 'Q' then Done(SkipWs(t[1..]), Size.Q)
    else Fail
  }

  /**
   * `parse_here_expr`: `bp - n` or `bp + n`. Negating `i32::MIN` overflows,
   * a panic in the source, and is refused here.
   */
  function ParseHereExpr(s: string): (r: PResult<I32>)
    ensures r.Done? ==> |r.rest| < |s|
  {
    match WsTag("bp", s)
    case Fail => Fail
    case Done(s1, _) =>
      var t := SkipWs(s1);
      var negative := t != [] && t[0] == '-';
      if !(t != [] && (t[0] == '-' || t[0] == '+')) then Fail
      else
        match WsI32(t[1..])
        case Fail => Fail
        case Done(s2, amt) =>
          var negated: int := -(amt as int);
          if !negative then Done(s2, amt)
          else if IsI32(negated) then Done(s2, negated)
          else Fail
  }

  /** `parse_field_tag`: `-> n`. */
  function ParseFieldTag(s: string): (r: PResult<I32>)
    ensures r.Done? ==> |r.rest| < |s|
  {
    match WsTag("->", s)
    case Fail => Fail
    case Done(s1, _) => WsI32(s1)
  }

  /** `opt(parse_field_tag)` with `unwrap_or(0)`. */
  function OptFieldTag(s: string): (r: PResult<I32>)
    ensures r.Done? && r.rest == s ==> r.value == 0
    ensures r.Done?
    ensures |r.rest| <= |s|
  {
    match ParseFieldTag(s)
    case Fail => Done(s, 0)
    case Done(rest, v) => Done(rest, v)
  }

  /** `[ here ] (-> n)? size`, shared by `parse_dest_ptr` and `parse_src_ptr`. */
  datatype PtrParts = PtrParts(ptrOffset: I32, farOffset: I32, size: Size)

  function ParsePtrParts(s: string): (r: PResult<PtrParts>)
    ensures r.Done? ==> |r.rest| < |s|
  {
    match WsTag("[", s)
    case Fail => Fail
    case Done(s1, _) =>
      match ParseHereExpr(s1)
      case Fail => Fail
      case Done(s2, p) =>
        match WsTag("]", s2)
        case Fail => Fail
        case Done(s3, _) =>
          match OptFieldTag(s3)
          case Fail => Fail
          case Done(s4, f) =>
            match ParseSize(s4)
            case Fail => Fail
            case Done(s5, sz) => Done(s5, PtrParts(p, f, sz))
  }

  /** `here size`, shared by `parse_dest_here` and `parse_src_here`. */
  function ParseHereParts(s: string): (r: PResult<(I32, Size)>)
    ensures r.Done? ==> |r.rest| < |s|
  {
    match ParseHereExpr(s)
    case Fail => Fail
    case Done(s1, o) =>
      match ParseSize(s1)
      case Fail => Fail
      case Done(s2, sz) => Done(s2, (o, sz))
  }

  /** `parse_dest`: `_`, then a pointer, then a frame slot. */
  function ParseDest(s: string): (r: PResult<Dest>)
    ensures r.Done? ==> |r.rest| < |s|
  {
    match WsTag("_", s)
    case Done(rest, _) => Done(rest, Dest.Nowhere)
    case Fail =>
      match ParsePtrParts(s)
      case Done(rest, pp) => Done(rest, Dest.Ptr(pp.ptrOffset, pp.farOffset, pp.size))
      case Fail =>
        match ParseHereParts(s)
        case Done(rest, h) => Done(rest, Dest.Here(h.0, h.1))
        case Fail => Fail
  }

  /** `parse_src`: an immediate, then a pointer, then a frame slot (there is no syntax for `Uninitialized`). */
  function ParseSrc(s: string): (r: PResult<Src>)
    ensures r.Done? ==> |r.rest| < |s| && !r.value.Uninitialized?
  {
    match WsU64(s)
    case Done(rest, x) => Done(rest, Src.Imm(x))
    case Fail =>
      match ParsePtrParts(s)
      case Done(rest, pp) => Done(rest, Src.Ptr(pp.ptrOffset, pp.farOffset, pp.size))
      case Fail =>
        match ParseHereParts(s)
        case Done(rest, h) => Done(rest, Src.Here(h.0, h.1))
        case Fail => Fail
  }

  /** `parse_count`: `( n x )`. */
  function ParseCount(s: string): (r: PResult<Count>)
    ensures r.Done? ==> |r.rest| < |s|
  {
    match WsTag("(", s)
    case Fail => Fail
    case Done(s1, _) =>
      match U64Num(SkipWs(s1))
      case Fail => Fail
      case Done(s2, n) =>
        match Tag("x", s2)
        case Fail => Fail
        case Done(s3, _) =>
          match WsTag(")", SkipWs(s3))
          case Fail => Fail
          case Done(s4, _) => Done(s4, n)
  }

  /** `parse_lineterm`: `.` */
  function ParseLineterm(s: string): (r: PResult<()>)
    ensures r.Done? ==> |r.rest| < |s|
  {
    WsTag(".", s)
  }

  /** `parse_argsep`: `,` */
  function ParseArgsep(s: string): (r: PResult<()>)
    ensures r.Done? ==> |r.rest| < |s|
  {
    WsTag(",", s)
  }

  // ---------------------------------------------------------------------
  // Lists

  /**
   * `separated_list0(parse_argsep, parse_dest)` after its first element:
   * a separator and an element, repeatedly. When the separator matches but
   * no element follows, the list ends before the separator.
   */
  function MoreDests(s: string): (r: PResult<seq<Dest>>)
    ensures r.Done? && |r.rest| <= |s|
    decreases |s|
  {
    match ParseArgsep(s)
    case Fail => Done(s, [])
    case Done(s1, _) =>
      match ParseDest(s1)
      case Fail => Done(s, [])
      case Done(s2, d) =>
        match MoreDests(s2)
        case Fail => Fail
        case Done(s3, ds) => Done(s3, [d] + ds)
  }

  /** `separated_list0(parse_argsep, parse_dest)`: possibly empty. */
  function DestList(s: string): (r: PResult<seq<Dest>>)
    ensures r.Done? && |r.rest| <= |s|
  {
    match ParseDest(s)
    case Fail => Done(s, [])
    case Done(s1, d) =>
      match MoreDests(s1)
      case Fail => Fail
      case Done(s2, ds) => Done(s2, [d] + ds)
  }

  /** `while args.len() < 6 { args.push(Dest::Nowhere) }`. */
  function PadArgs(args: seq<Dest>): (r: seq<Dest>)
    ensures |args| <= 6 ==> |r| == 6
    ensures |args| > 6 ==> r == args
    ensures r[..|args|] == args
    ensures forall i :: |args| <= i < |r| ==> r[i] == Dest.Nowhere
  {
    if |args| < 6 then args + seq(6 - |args|, _ => Dest.Nowhere) else args
  }

  /** The padding loop itself. */
  method PadArgsLoop(args: seq<Dest>) returns (r: seq<Dest>)
    ensures r == PadArgs(args)
  {
    r := args;
    while |r| < 6
      invariant |args| <= |r|
      invariant |args| < 6 ==> |r| <= 6 && r == args + seq(|r| - |args|, _ => Dest.Nowhere)
      invariant |args| >= 6 ==> r == args
      decreases 6 - |r|
    {
      r := r + [Dest.Nowhere];
    }
  }

  // ---------------------------------------------------------------------
  // Instructions

  /**
   * `parse_begin`: `nyeh n ( dests ) .`, the slots padded to six; more than
   * six fail. `ws` wraps the whole parenthesised list, so no whitespace is
   * skipped right after `(` or right before `)` beyond what the destinations
   * and separators skip themselves.
   */
  function ParseBegin(s: string): (r: PResult<Instruction>)
    ensures r.Done? ==> |r.rest| < |s| && r.value.Begin?
  {
    match WsTag("nyeh", s)
    case Fail => Fail
    case Done(s1, _) =>
      match WsU64(s1)
      case Fail => Fail
      case Done(s2, n) =>
        match Tag("(", SkipWs(s2))
        case Fail => Fail
        case Done(s3, _) =>
          match DestList(s3)
          case Fail => Fail
          case Done(s4, ds) =>
            match Tag(")", s4)
            case Fail => Fail
            case Done(s5, _) =>
              match ParseLineterm(SkipWs(s5))
              case Fail => Fail
              case Done(s6, _) =>
                var args := PadArgs(ds);
                if |args| > 6 then Fail
                else Done(s6, Begin(n, args))
  }

  /** `parse_ret`: `ret src .` */
  function ParseRet(s: string): (r: PResult<Instruction>)
    ensures r.Done? ==> |r.rest| < |s| && r.value.Ret?
  {
    match WsTag("ret", s)
    case Fail => Fail
    case Done(s1, _) =>
      match ParseSrc(s1)
      case Fail => Fail
      case Done(s2, src) =>
        match ParseLineterm(s2)
        case Fail => Fail
        case Done(s3, _) => Done(s3, Ret(src))
  }

  /** `opt(parse_count)` with `unwrap_or(Count(1))`. */
  function OptCount(s: string): (r: PResult<Count>)
    ensures r.Done? && |r.rest| <= |s|
  {
    match ParseCount(s)
    case Fail => Done(s, 1)
    case Done(rest, n) => Done(rest, n)
  }

  /** `parse_copy`: `dest = src (n x)? .` */
  function ParseCopy(s: string): (r: PResult<Instruction>)
    ensures r.Done? ==> |r.rest| < |s| && r.value.Copy?
  {
    match ParseDest(s)
    case Fail => Fail
    case Done(s1, dest) =>
      match WsTag("=", s1)
      case Fail => Fail
      case Done(s2, _) =>
        match ParseSrc(s2)
        case Fail => Fail
        case Done(s3, src) =>
          match OptCount(s3)
          case Fail => Fail
          case Done(s4, count) =>
            match ParseLineterm(s4)
            case Fail => Fail
            case Done(s5, _) => Done(s5, Copy(dest, src, count))
  }

  /** `parse_instruction`: `Begin`, then `Ret`, then `Copy`. */
  function ParseInstruction(s: string): (r: PResult<Instruction>)
    ensures r.Done? ==> |r.rest| < |s|
    ensures r.Done? ==> r.value.Begin? || r.value.Ret? || r.value.Copy?
  {
    match ParseBegin(s)
    case Done(rest, i) => Done(rest, i)
    case Fail =>
      match ParseRet(s)
      case Done(rest, i) => Done(rest, i)
      case Fail => ParseCopy(s)
  }

  /**
   * `many0(parse_instruction)`: as many instructions as parse. An element
   * that consumes nothing would make nom fail; none here can.
   */
  function ManyInstructions(s: string): (r: PResult<seq<Instruction>>)
    ensures r.Done? && |r.rest| <= |s|
    decreases |s|
  {
    match ParseInstruction(s)
    case Fail => Done(s, [])
    case Done(s1, i) =>
      if |s1| == |s| then Fail
      else
        match ManyInstructions(s1)
        case Fail => Fail
        case Done(s2, more) => Done(s2, [i] + more)
  }

  /** `parse_object`: whitespace, instructions, whitespace, and nothing left over. */
  function ParseObject(s: string): (r: PResult<seq<Instruction>>)
    ensures r.Done? ==> r.rest == []
  {
    match ManyInstructions(SkipWs(s))
    case Fail => Fail
    case Done(s1, insts) =>
      if SkipWs(s1) == [] then Done([], insts) else Fail
  }

  // ---------------------------------------------------------------------
  // Properties: what the grammar yields

  /** An object parses only into `Begin`, `Ret` and `Copy` instructions. */
  lemma {:induction false} ManyInstructionsKinds(s: string)
    ensures ManyInstructions(s).Done? ==> SurfaceKinds(ManyInstructions(s).value)
    decreases |s|
  {
    if ManyInstructions(s).value != [] {
      ManyInstructionsFirst(s);
      var p := ParseInstruction(s);
      ManyInstructionsKinds(p.rest);
      SurfaceKindsCons(p.value, ManyInstructions(p.rest).value);
    }
  }

  /** Every instruction is one of those the surface syntax writes. */
  predicate SurfaceKinds(insts: seq<Instruction>) {
    forall i :: 0 <= i < |insts| ==> insts[i].Begin? || insts[i].Ret? || insts[i].Copy?
  }

  lemma SurfaceKindsCons(x: Instruction, xs: seq<Instruction>)
    requires x.Begin? || x.Ret? || x.Copy?
    requires SurfaceKinds(xs)
    ensures SurfaceKinds([x] + xs)
  {
    assert forall i :: 1 <= i < |xs| + 1 ==> ([x] + xs)[i] == xs[i - 1];
  }

  /** A nonempty list read by `many0` is one instruction and the list read after it. */
  lemma ManyInstructionsFirst(s: string)
    requires ManyInstructions(s).value != []
    ensures ParseInstruction(s).Done? && ManyInstructions(ParseInstruction(s).rest).Done?
    ensures ManyInstructions(s).value == [ParseInstruction(s).value] + ManyInstructions(ParseInstruction(s).rest).value
  {
  }

  lemma ParseObjectKinds(s: string)
    ensures var r := ParseObject(s);
      r.Done? ==> forall i :: 0 <= i < |r.value| ==> r.value[i].Begin? || r.value[i].Ret? || r.value[i].Copy?
  {
    ManyInstructionsKinds(SkipWs(s));
  }

  // ---------------------------------------------------------------------
  // Printing

  function DigitChar(d: nat): (c: char)
    requires d < 10
    ensures IsDigit(c) && DigitValue(c) == d
  {
    ('0' as int + d) as char
  }

  /** The decimal digits of `n`, without leading zeros. */
  function Dec(n: nat): (r: string)
    ensures |r| >= 1 && forall i :: 0 <= i < |r| ==> IsDigit(r[i])
  {
    if n < 10 then [DigitChar(n)] else Dec(n / 10) + [DigitChar(n % 10)]
  }

  /** An `i32` as nom's `i32` reads it: `-` and the magnitude for negatives, else the digits. */
  function ShowI32(x: I32): (r: string)
    ensures |r| >= 1 && (r[0] == '-' || IsDigit(r[0]))
  {
    var m: int := -(x as int);
    if x < 0 then "-" + Dec(m) else Dec(x)
  }

  function SizeLetter(sz: Size): (c: char)
    ensures c == 'B' || c == 'H' || c == 'D' || c == 'Q'
  {
    match sz
    case B => 'B'
    case H => 'H'
    case D => 'D'
    case Q => 'Q'
  }

  /** A frame offset, always written `bp+` so that `i32::MIN` needs no negation. */
  function ShowHere(o: I32): string {
    "bp+" + ShowI32(o)
  }

  function ShowPtr(p: I32, f: I32, sz: Size): string {
    "[" + ShowHere(p) + "]" + "->" + ShowI32(f) + [SizeLetter(sz)]
  }

  function ShowDest(d: Dest): (r: string)
    ensures |r| >= 1 && (r[0] == '_' || r[0] == '[' || r[0] == 'b')
  {
    match d
    case Nowhere => "_"
    case Ptr(p, f, sz) => ShowPtr(p, f, sz)
    case Here(o, sz) => ShowHere(o) + [SizeLetter(sz)]
  }

  /** Every operand except `Uninitialized`, which has no syntax. */
  function ShowSrc(src: Src): (r: string)
    requires !src.Uninitialized?
    ensures |r| >= 1 && (IsDigit(r[0]) || r[0] == '[' || r[0] == 'b')
  {
    match src
    case Imm(x) => Dec(x)
    case Ptr(p, f, sz) => ShowPtr(p, f, sz)
    case Here(o, sz) => ShowHere(o) + [SizeLetter(sz)]
  }

  /** Destinations separated by `, `. */
  function ShowDests(ds: seq<Dest>): string {
    if ds == [] then "" else ShowDest(ds[0]) + ShowMoreDests(ds[1..])
  }

  /** Each destination after the first, behind its separator. */
  function ShowMoreDests(ds: seq<Dest>): (r: string)
    ensures r == [] || r[0] == ','
    decreases |ds|
  {
    if ds == [] then "" else ", " + ShowDest(ds[0]) + ShowMoreDests(ds[1..])
  }

  function ShowCount(n: Count): string {
    "(" + Dec(n) + "x)"
  }

  function ShowBegin(n: U64, ds: seq<Dest>): string {
    "nyeh " + Dec(n) + " (" + ShowDests(ds) + ")."
  }

  /** Which instructions have a surface form: `Begin`, `Ret` and `Copy`, without `Uninitialized`. */
  predicate Printable(inst: Instruction) {
    inst.Begin? || (inst.Ret? && !inst.src.Uninitialized?) || (inst.Copy? && !inst.src.Uninitialized?)
  }

  function ShowInstruction(inst: Instruction): (r: string)
    requires Printable(inst)
    ensures |r| >= 1 && !IsSpace(r[0])
  {
    match inst
    case Begin(n, args) => ShowBegin(n, args)
    case Ret(src) => "ret " + ShowSrc(src) + "."
    case Copy(dest, src, count) => ShowDest(dest) + " = " + ShowSrc(src) + " " + ShowCount(count) + "."
  }

  /** One instruction per line. */
  function ShowObject(insts: seq<Instruction>): (r: string)
    requires forall i :: 0 <= i < |insts| ==> Printable(insts[i])
    ensures r == [] || !IsSpace(r[0])
    decreases |insts|
  {
    if insts == [] then "" else ShowInstruction(insts[0]) + "\n" + ShowObject(insts[1..])
  }

  // ---------------------------------------------------------------------
  // Round trip: printing and parsing back

  /** Whether `s` does not continue a run of digits. */
  predicate NoDigitFirst(s: string) {
    s == [] || !IsDigit(s[0])
  }

  lemma SkipWsNone(s: string)
    requires s == [] || !IsSpace(s[0])
    ensures SkipWs(s) == s
  {
  }

  lemma SkipWsSpace(c: char, s: string)
    requires IsSpace(c)
    ensures SkipWs([c] + s) == SkipWs(s)
  {
    assert ([c] + s)[1..] == s;
  }

  /** Whitespace in front of an input does not change what `multispace0` leaves. */
  lemma {:induction false} SkipWsSpaces(w: string, s: string)
    requires forall i :: 0 <= i < |w| ==> IsSpace(w[i])
    ensures SkipWs(w + s) == SkipWs(s)
  {
    if w != [] {
      assert w + s == [w[0]] + (w[1..] + s);
      SkipWsSpace(w[0], w[1..] + s);
      SkipWsSpaces(w[1..], s);
    } else {
      assert w + s == s;
    }
  }

  lemma TagMatch(t: string, rest: string)
    ensures Tag(t, t + rest) == Done(rest, ())
  {
    assert (t + rest)[..|t|] == t;
    assert (t + rest)[|t|..] == rest;
  }

  lemma TagMismatch(t: string, s: string)
    requires |t| >= 1 && (s == [] || s[0] != t[0])
    ensures Tag(t, s) == Fail
  {
    if |t| <= |s| {
      assert s[..|t|][0] == s[0];
    }
  }

  lemma WsTagMatch(t: string, rest: string)
    requires |t| >= 1 && !IsSpace(t[0])
    ensures WsTag(t, t + rest) == Done(SkipWs(rest), ())
  {
    TagMatch(t, rest);
  }

  lemma WsTagMismatch(t: string, s: string)
    requires |t| >= 1 && (s == [] || (s[0] != t[0] && !IsSpace(s[0])))
    ensures WsTag(t, s) == Fail
  {
    TagMismatch(t, s);
  }

  /** Reading back the digits of `n` gives `n`. */
  lemma {:induction false} DecValueOfDec(n: nat)
    ensures DecValue(Dec(n)) == n
  {
    if n >= 10 {
      var d := Dec(n);
      assert d[..|d| - 1] == Dec(n / 10);
      DecValueOfDec(n / 10);
    }
  }

  /** The digits run ends where the digits do. */
  lemma {:induction false} LeadingDigitsOf(ds: string, rest: string)
    requires forall i :: 0 <= i < |ds| ==> IsDigit(ds[i])
    requires NoDigitFirst(rest)
    ensures LeadingDigits(ds + rest) == |ds|
  {
    if ds != [] {
      assert (ds + rest)[1..] == ds[1..] + rest;
      LeadingDigitsOf(ds[1..], rest);
    }
  }

  /** A printed number followed by a non-digit: the digits run, its text and its value. */
  lemma DecThenRest(n: nat, rest: string)
    requires NoDigitFirst(rest)
    ensures LeadingDigits(Dec(n) + rest) == |Dec(n)|
    ensures (Dec(n) + rest)[..|Dec(n)|] == Dec(n) && (Dec(n) + rest)[|Dec(n)|..] == rest
    ensures DecValue(Dec(n)) == n
  {
    var d := Dec(n);
    LeadingDigitsOf(d, rest);
    assert (d + rest)[..|d|] == d;
    assert (d + rest)[|d|..] == rest;
    DecValueOfDec(n);
  }

  /** `u64` reads back a printed number, when no digit follows it. */
  lemma U64NumDec(n: U64, rest: string)
    requires NoDigitFirst(rest)
    ensures U64Num(Dec(n) + rest) == Done(rest, n)
  {
    DecThenRest(n, rest);
  }

  /** `i32` reads back an unsigned number in its range. */
  lemma I32NumDec(n: nat, rest: string)
    requires IsI32(n) && NoDigitFirst(rest)
    ensures I32Num(Dec(n) + rest) == Done(rest, n)
  {
    DecThenRest(n, rest);
  }

  /** `i32` on a minus sign and a run of `k` digits worth `mag`. */
  lemma I32NumMinus(s: string, k: nat, mag: nat)
    requires s != [] && s[0] == '-'
    requires 0 < k == LeadingDigits(s[1..])
    requires DecValue(s[1..][..k]) == mag && IsI32(-(mag as int))
    ensures I32Num(s) == Done(s[1..][k..], -(mag as int))
  {
  }

  /** `i32` reads back a minus sign and a magnitude in its range. */
  lemma I32NumMinusDec(m: nat, rest: string)
    requires IsI32(-(m as int)) && NoDigitFirst(rest)
    ensures I32Num("-" + Dec(m) + rest) == Done(rest, -(m as int))
  {
    var s := "-" + Dec(m) + rest;
    assert s[1..] == Dec(m) + rest;
    DecThenRest(m, rest);
    I32NumMinus(s, |Dec(m)|, m);
  }

  /** `i32` reads back a printed number, sign included, when no digit follows it. */
  lemma I32NumShow(x: I32, rest: string)
    requires NoDigitFirst(rest)
    ensures I32Num(ShowI32(x) + rest) == Done(rest, x)
  {
    if x < 0 {
      var m: nat := -(x as int);
      I32NumMinusDec(m, rest);
    } else {
      I32NumDec(x, rest);
    }
  }

  lemma WsI32Show(x: I32, rest: string)
    requires NoDigitFirst(rest)
    ensures WsI32(ShowI32(x) + rest) == Done(SkipWs(rest), x)
  {
    SkipWsNone(ShowI32(x) + rest);
    I32NumShow(x, rest);
  }

  lemma ParseSizeShow(sz: Size, rest: string)
    ensures ParseSize([SizeLetter(sz)] + rest) == Done(SkipWs(rest), sz)
  {
    assert ([SizeLetter(sz)] + rest)[1..] == rest;
  }

  /** `parse_size` accepts exactly the four size letters. */
  lemma ParseSizeLetters(s: string)
    ensures ParseSize(s).Done? <==> SkipWs(s) != [] && SkipWs(s)[0] in "BHDQ"
    ensures ParseSize(s).Done? ==> SizeLetter(ParseSize(s).value) == SkipWs(s)[0]
  {
  }

  lemma ParseHereExprShow(o: I32, rest: string)
    requires NoDigitFirst(rest)
    ensures ParseHereExpr(ShowHere(o) + rest) == Done(SkipWs(rest), o)
  {
    HereText(o, rest);
    WsI32Show(o, rest);
    HerePlus(ShowHere(o) + rest, ShowI32(o) + rest, SkipWs(rest), o);
  }

  lemma HereText(o: I32, rest: string)
    ensures ShowHere(o) + rest == "bp+" + (ShowI32(o) + rest)
  {
  }

  /** `bp-n` is the frame offset `-n`, for every `n` that `i32` reads. */
  lemma ParseHereExprMinus(n: I32, rest: string)
    requires n >= 0 && NoDigitFirst(rest)
    ensures ParseHereExpr("bp-" + Dec(n) + rest) == Done(SkipWs(rest), -(n as int))
  {
    var x := Dec(n) + rest;
    assert ShowI32(n) == Dec(n);
    WsI32Show(n, rest);
    BpMinusThen(Dec(n), rest);
    HereMinus("bp-" + Dec(n) + rest, x, SkipWs(rest), n);
  }

  lemma HereSign(x: string)
    ensures "bp+" + x == "bp" + ("+" + x) && ("+" + x)[1..] == x
    ensures "bp-" + x == "bp" + ("-" + x) && ("-" + x)[1..] == x
  {
    assert "bp+" + x == "bp" + ("+" + x);
    assert "bp-" + x == "bp" + ("-" + x);
  }

  /** `bp+` followed by a number reads as that number. */
  lemma HerePlus(s: string, x: string, s2: string, amt: I32)
    requires s == "bp+" + x && WsI32(x) == Done(s2, amt)
    ensures ParseHereExpr(s) == Done(s2, amt)
  {
    var t := "+" + x;
    HereSign(x);
    WsTagMatch("bp", t);
    SignedHere(s, t, s2, amt);
  }

  /** `bp-` followed by a non-negative number reads as its negation. */
  lemma BpMinusThen(digits: string, rest: string)
    ensures "bp-" + digits + rest == "bp-" + (digits + rest)
  {
  }

  lemma HereMinus(s: string, x: string, s2: string, amt: I32)
    requires s == "bp-" + x && WsI32(x) == Done(s2, amt) && amt >= 0
    ensures ParseHereExpr(s) == Done(s2, -(amt as int))
  {
    var t := "-" + x;
    HereSign(x);
    WsTagMatch("bp", t);
    NegatedHere(s, t, s2, amt);
  }

  /** `bp +` followed by a number reads as that number. */
  lemma SignedHere(s: string, t: string, s2: string, amt: I32)
    requires WsTag("bp", s) == Done(t, ())
    requires t != [] && t[0] == '+'
    requires WsI32(t[1..]) == Done(s2, amt)
    ensures ParseHereExpr(s) == Done(s2, amt)
  {
    SkipWsNone(t);
  }

  lemma NegatedHere(s: string, t: string, s2: string, amt: I32)
    requires WsTag("bp", s) == Done(t, ())
    requires t != [] && t[0] == '-'
    requires WsI32(t[1..]) == Done(s2, amt)
    requires amt >= 0
    ensures ParseHereExpr(s) == Done(s2, -(amt as int))
  {
    SkipWsNone(t);
  }

  lemma ParseHerePartsShow(o: I32, sz: Size, rest: string)
    ensures ParseHereParts(ShowHere(o) + [SizeLetter(sz)] + rest) == Done(SkipWs(rest), (o, sz))
  {
    var t := [SizeLetter(sz)] + rest;
    ParseHereExprShow(o, t);
    ParseSizeShow(sz, rest);
    HerePartsStep(ShowHere(o), t, SkipWs(t), SkipWs(rest), o, sz);
  }

  lemma HerePartsStep(h: string, t: string, s1: string, s2: string, o: I32, sz: Size)
    requires ParseHereExpr(h + t) == Done(s1, o) && ParseSize(s1) == Done(s2, sz)
    requires |t| > 0
    ensures ParseHereParts(h + [t[0]] + t[1..]) == Done(s2, (o, sz))
  {
    assert h + [t[0]] + t[1..] == h + t;
  }

  /** `ParsePtrParts` from the results of its five stages. */
  lemma PtrPartsStages(s: string, a: string, b: string, c: string, e: string, s5: string, p: I32, f: I32, sz: Size)
    requires WsTag("[", s) == Done(a, ())
    requires ParseHereExpr(a) == Done(b, p)
    requires WsTag("]", b) == Done(c, ())
    requires OptFieldTag(c) == Done(e, f)
    requires ParseSize(e) == Done(s5, sz)
    ensures ParsePtrParts(s) == Done(s5, PtrParts(p, f, sz))
  {
  }

  lemma ShowPtrSplit(p: I32, f: I32, sz: Size, rest: string)
    ensures ShowPtr(p, f, sz) + rest == "[" + (ShowHere(p) + ("]" + ("->" + (ShowI32(f) + ([SizeLetter(sz)] + rest)))))
  {
  }

  /** `-> f` reads back when neither a digit nor whitespace follows. */
  lemma FieldTagShow(f: I32, e: string)
    requires e != [] && !IsDigit(e[0]) && !IsSpace(e[0])
    ensures OptFieldTag("->" + (ShowI32(f) + e)) == Done(e, f)
  {
    WsTagMatch("->", ShowI32(f) + e);
    WsI32Show(f, e);
    SkipWsNone(e);
  }

  /** `[ bp+p ]` reads back in front of anything that does not start with whitespace. */
  lemma BracketedHere(p: I32, c: string)
    requires c != [] && !IsSpace(c[0])
    ensures WsTag("[", "[" + (ShowHere(p) + ("]" + c))) == Done(ShowHere(p) + ("]" + c), ())
    ensures ParseHereExpr(ShowHere(p) + ("]" + c)) == Done("]" + c, p)
    ensures WsTag("]", "]" + c) == Done(c, ())
  {
    var b := "]" + c;
    var a := ShowHere(p) + b;
    WsTagMatch("[", a);
    SkipWsNone(a);
    ParseHereExprShow(p, b);
    WsTagMatch("]", c);
    SkipWsNone(c);
  }

  lemma ParsePtrPartsShow(p: I32, f: I32, sz: Size, rest: string)
    ensures ParsePtrParts(ShowPtr(p, f, sz) + rest) == Done(SkipWs(rest), PtrParts(p, f, sz))
  {
    var e := [SizeLetter(sz)] + rest;
    var c := "->" + (ShowI32(f) + e);
    ShowPtrSplit(p, f, sz, rest);
    BracketedHere(p, c);
    FieldTagShow(f, e);
    ParseSizeShow(sz, rest);
    PtrPartsStages(ShowPtr(p, f, sz) + rest, ShowHere(p) + ("]" + c), "]" + c, c, e, SkipWs(rest), p, f, sz);
  }

  lemma ShowNoFieldSplit(p: I32, sz: Size, rest: string)
    ensures "[" + ShowHere(p) + "]" + [SizeLetter(sz)] + rest == "[" + (ShowHere(p) + ("]" + ([SizeLetter(sz)] + rest)))
  {
  }

  /** Without `-> n` the field offset is 0. */
  lemma ParsePtrPartsNoField(p: I32, sz: Size, rest: string)
    ensures ParsePtrParts("[" + ShowHere(p) + "]" + [SizeLetter(sz)] + rest) == Done(SkipWs(rest), PtrParts(p, 0, sz))
  {
    var e := [SizeLetter(sz)] + rest;
    ShowNoFieldSplit(p, sz, rest);
    BracketedHere(p, e);
    WsTagMismatch("->", e);
    ParseSizeShow(sz, rest);
    PtrPartsStages("[" + ShowHere(p) + "]" + [SizeLetter(sz)] + rest, ShowHere(p) + ("]" + e), "]" + e, e, e, SkipWs(rest), p, 0, sz);
  }

  lemma ParseDestShow(d: Dest, rest: string)
    ensures ParseDest(ShowDest(d) + rest) == Done(SkipWs(rest), d)
  {
    var s := ShowDest(d) + rest;
    match d
    case Nowhere =>
      WsTagMatch("_", rest);
    case Ptr(p, f, sz) =>
      WsTagMismatch("_", s);
      ParsePtrPartsShow(p, f, sz, rest);
    case Here(o, sz) =>
      WsTagMismatch("_", s);
      WsTagMismatch("[", s);
      ParseHerePartsShow(o, sz, rest);
  }

  lemma ParseSrcShow(src: Src, rest: string)
    requires !src.Uninitialized?
    requires src.Imm? ==> NoDigitFirst(rest)
    ensures ParseSrc(ShowSrc(src) + rest) == Done(SkipWs(rest), src)
  {
    var s := ShowSrc(src) + rest;
    match src
    case Imm(x) =>
      U64NumDec(x, rest);
    case Ptr(p, f, sz) =>
      ParsePtrPartsShow(p, f, sz, rest);
    case Here(o, sz) =>
      WsTagMismatch("[", s);
      ParseHerePartsShow(o, sz, rest);
  }

  lemma ParseCountShow(n: Count, rest: string)
    ensures ParseCount(ShowCount(n) + rest) == Done(SkipWs(rest), n)
  {
    var c := ")" + rest;
    var b := "x" + c;
    var a := Dec(n) + b;
    var s := ShowCount(n) + rest;
    assert s == "(" + a;
    WsTagMatch("(", a);
    assert WsTag("(", s) == Done(a, ());
    U64NumDec(n, b);
    assert U64Num(SkipWs(a)) == Done(b, n);
    TagMatch("x", c);
    WsTagMatch(")", rest);
    assert WsTag(")", SkipWs(c)) == Done(SkipWs(rest), ());
  }

  lemma ShowMoreDestsSplit(ds: seq<Dest>, rest: string)
    requires ds != []
    ensures ShowMoreDests(ds) + rest == "," + (" " + (ShowDest(ds[0]) + (ShowMoreDests(ds[1..]) + rest)))
  {
  }

  /** `MoreDests` from the results of its stages, when a separator and a destination follow. */
  lemma MoreDestsStages(s: string, a: string, r: string, rest: string, d: Dest, ds: seq<Dest>)
    requires ParseArgsep(s) == Done(a, ())
    requires ParseDest(a) == Done(r, d)
    requires MoreDests(r) == Done(rest, ds)
    ensures MoreDests(s) == Done(rest, [d] + ds)
  {
  }

  /** A list of destinations after its first element reads back up to anything that is no separator. */
  lemma {:induction false} MoreDestsShow(ds: seq<Dest>, rest: string)
    requires rest == [] || (rest[0] != ',' && !IsSpace(rest[0]))
    ensures MoreDests(ShowMoreDests(ds) + rest) == Done(rest, ds)
    decreases |ds|
  {
    if ds == [] {
      WsTagMismatch(",", rest);
    } else {
      var r := ShowMoreDests(ds[1..]) + rest;
      var a := ShowDest(ds[0]) + r;
      ShowMoreDestsSplit(ds, rest);
      WsTagMatch(",", " " + a);
      SkipWsSpace(' ', a);
      SkipWsNone(a);
      ParseDestShow(ds[0], r);
      SkipWsNone(r);
      MoreDestsShow(ds[1..], rest);
      MoreDestsStages(ShowMoreDests(ds) + rest, a, r, rest, ds[0], ds[1..]);
      assert [ds[0]] + ds[1..] == ds;
    }
  }

  lemma DestListShow(ds: seq<Dest>, rest: string)
    requires |ds| >= 1
    requires rest == [] || (rest[0] != ',' && !IsSpace(rest[0]))
    ensures DestList(ShowDests(ds) + rest) == Done(rest, ds)
  {
    var r := ShowMoreDests(ds[1..]) + rest;
    assert ShowDests(ds) + rest == ShowDest(ds[0]) + r;
    ParseDestShow(ds[0], r);
    MoreDestsShow(ds[1..], rest);
    assert [ds[0]] + ds[1..] == ds;
  }

  /** `ParseDest` starts with one of `_`, `[` and `b`. */
  lemma ParseDestFirst(s: string)
    requires s == [] || (s[0] != '_' && s[0] != '[' && s[0] != 'b' && !IsSpace(s[0]))
    ensures ParseDest(s) == Fail
  {
    WsTagMismatch("_", s);
    WsTagMismatch("[", s);
    WsTagMismatch("bp", s);
  }

  /** `ParseBegin` from the results of its stages. */
  lemma BeginStages(s: string, b: string, c: string, d: string, e: string, f: string, s6: string, n: U64, ds: seq<Dest>)
    requires WsTag("nyeh", s) == Done(b, ())
    requires WsU64(b) == Done(c, n)
    requires Tag("(", SkipWs(c)) == Done(d, ())
    requires DestList(d) == Done(e, ds)
    requires Tag(")", e) == Done(f, ())
    requires ParseLineterm(SkipWs(f)) == Done(s6, ())
    ensures ParseBegin(s) == if |ds| <= 6 then Done(s6, Begin(n, PadArgs(ds))) else Fail
  {
  }

  lemma ShowBeginSplit(n: U64, ds: seq<Dest>, rest: string)
    ensures ShowBegin(n, ds) + rest == "nyeh" + (" " + (Dec(n) + (" " + ("(" + (ShowDests(ds) + (")" + ("." + rest)))))))
  {
  }

  /** `nyeh n (` reads back the frame size. */
  lemma BeginHead(n: U64, d: string)
    ensures WsTag("nyeh", "nyeh" + (" " + (Dec(n) + (" " + ("(" + d))))) == Done(Dec(n) + (" " + ("(" + d)), ())
    ensures WsU64(Dec(n) + (" " + ("(" + d))) == Done("(" + d, n)
    ensures Tag("(", SkipWs("(" + d)) == Done(d, ())
  {
    var c := " " + ("(" + d);
    var b := Dec(n) + c;
    WsTagMatch("nyeh", " " + b);
    SkipWsSpace(' ', b);
    SkipWsNone(b);
    U64NumDec(n, c);
    SkipWsSpace(' ', "(" + d);
    SkipWsNone("(" + d);
    TagMatch("(", d);
  }

  /** `d1, ..., dk).` reads back the destinations, also when there are none. */
  lemma BeginTail(ds: seq<Dest>, rest: string)
    ensures DestList(ShowDests(ds) + (")" + ("." + rest))) == Done(")" + ("." + rest), ds)
    ensures Tag(")", ")" + ("." + rest)) == Done("." + rest, ())
    ensures ParseLineterm(SkipWs("." + rest)) == Done(SkipWs(rest), ())
  {
    var f := "." + rest;
    var e := ")" + f;
    if ds == [] {
      assert ShowDests(ds) + e == e;
      ParseDestFirst(e);
    } else {
      DestListShow(ds, e);
    }
    TagMatch(")", f);
    SkipWsNone(f);
    WsTagMatch(".", rest);
  }

  /**
   * `nyeh n (d1, ..., dk).` is `Begin` with the `k` slots padded to six;
   * more than six slots fail.
   */
  lemma ParseBeginShow(n: U64, ds: seq<Dest>, rest: string)
    ensures ParseBegin(ShowBegin(n, ds) + rest) ==
      if |ds| <= 6 then Done(SkipWs(rest), Begin(n, PadArgs(ds))) else Fail
  {
    var f := "." + rest;
    var e := ")" + f;
    var d := ShowDests(ds) + e;
    ShowBeginSplit(n, ds, rest);
    BeginHead(n, d);
    BeginTail(ds, rest);
    BeginStages(ShowBegin(n, ds) + rest, Dec(n) + (" " + ("(" + d)), "(" + d, d, e, f, SkipWs(rest), n, ds);
  }

  lemma ShowRetSplit(src: Src, rest: string)
    requires !src.Uninitialized?
    ensures "ret " + ShowSrc(src) + "." + rest == "ret" + (" " + (ShowSrc(src) + ("." + rest)))
  {
  }

  /** An operand reads back in front of the line's final `.`. */
  lemma SrcThenDot(src: Src, rest: string)
    requires !src.Uninitialized?
    ensures ParseSrc(ShowSrc(src) + ("." + rest)) == Done("." + rest, src)
    ensures ParseLineterm("." + rest) == Done(SkipWs(rest), ())
  {
    ParseSrcShow(src, "." + rest);
    SkipWsNone("." + rest);
    WsTagMatch(".", rest);
  }

  lemma ParseRetShow(src: Src, rest: string)
    requires !src.Uninitialized?
    ensures ParseRet("ret " + ShowSrc(src) + "." + rest) == Done(SkipWs(rest), Ret(src))
  {
    var a := ShowSrc(src) + ("." + rest);
    ShowRetSplit(src, rest);
    WsTagMatch("ret", " " + a);
    SkipWsSpace(' ', a);
    SkipWsNone(a);
    SrcThenDot(src, rest);
  }

  /** `ParseCopy` from the results of its stages. */
  lemma CopyStages(s: string, b: string, c: string, d: string, e: string, s5: string, dest: Dest, src: Src, n: Count)
    requires ParseDest(s) == Done(b, dest)
    requires WsTag("=", b) == Done(c, ())
    requires ParseSrc(c) == Done(d, src)
    requires OptCount(d) == Done(e, n)
    requires ParseLineterm(e) == Done(s5, ())
    ensures ParseCopy(s) == Done(s5, Copy(dest, src, n))
  {
  }

  lemma ShowCopySplit(d: string, c: string, k: string, rest: string)
    ensures d + " = " + c + " " + k + "." + rest == d + (" " + ("=" + (" " + (c + (" " + (k + ("." + rest)))))))
  {
  }

  /** `dest = ` reads back in front of anything that does not start with whitespace. */
  lemma DestThenEquals(dest: Dest, c: string)
    requires c != [] && !IsSpace(c[0])
    ensures ParseDest(ShowDest(dest) + (" " + ("=" + (" " + c)))) == Done("=" + (" " + c), dest)
    ensures WsTag("=", "=" + (" " + c)) == Done(c, ())
  {
    var b := "=" + (" " + c);
    ParseDestShow(dest, " " + b);
    SkipWsSpace(' ', b);
    SkipWsNone(b);
    WsTagMatch("=", " " + c);
    SkipWsSpace(' ', c);
    SkipWsNone(c);
  }

  /** An operand reads back in front of ` (n x).` */
  lemma SrcThenCount(src: Src, n: Count, rest: string)
    requires !src.Uninitialized?
    ensures ParseSrc(ShowSrc(src) + (" " + (ShowCount(n) + ("." + rest)))) == Done(ShowCount(n) + ("." + rest), src)
    ensures OptCount(ShowCount(n) + ("." + rest)) == Done("." + rest, n)
    ensures ParseLineterm("." + rest) == Done(SkipWs(rest), ())
  {
    var e := "." + rest;
    var d := ShowCount(n) + e;
    ParseSrcShow(src, " " + d);
    SkipWsSpace(' ', d);
    SkipWsNone(d);
    ParseCountShow(n, e);
    SkipWsNone(e);
    WsTagMatch(".", rest);
  }

  lemma ParseCopyShow(dest: Dest, src: Src, n: Count, rest: string)
    requires !src.Uninitialized?
    ensures ParseCopy(ShowDest(dest) + " = " + ShowSrc(src) + " " + ShowCount(n) + "." + rest)
      == Done(SkipWs(rest), Copy(dest, src, n))
  {
    var e := "." + rest;
    var d := ShowCount(n) + e;
    var c := ShowSrc(src) + (" " + d);
    ShowCopySplit(ShowDest(dest), ShowSrc(src), ShowCount(n), rest);
    DestThenEquals(dest, c);
    SrcThenCount(src, n, rest);
    CopyStages(ShowDest(dest) + " = " + ShowSrc(src) + " " + ShowCount(n) + "." + rest, "=" + (" " + c), c, d, e, SkipWs(rest), dest, src, n);
  }

  lemma ShowNoCountSplit(d: string, c: string, rest: string)
    ensures d + " = " + c + "." + rest == d + (" " + ("=" + (" " + (c + ("." + rest)))))
  {
  }

  /** Without `(n x)` the count is 1. */
  lemma ParseCopyNoCount(dest: Dest, src: Src, rest: string)
    requires !src.Uninitialized?
    ensures ParseCopy(ShowDest(dest) + " = " + ShowSrc(src) + "." + rest)
      == Done(SkipWs(rest), Copy(dest, src, 1))
  {
    var e := "." + rest;
    var c := ShowSrc(src) + e;
    ShowNoCountSplit(ShowDest(dest), ShowSrc(src), rest);
    DestThenEquals(dest, c);
    SrcThenDot(src, rest);
    WsTagMismatch("(", e);
    CopyStages(ShowDest(dest) + " = " + ShowSrc(src) + "." + rest, "=" + (" " + c), c, e, e, SkipWs(rest), dest, src, 1);
  }

  /** Every printable instruction reads back as itself. */
  lemma ParseInstructionShow(inst: Instruction, rest: string)
    requires Printable(inst)
    ensures ParseInstruction(ShowInstruction(inst) + rest) == Done(SkipWs(rest), inst)
  {
    var s := ShowInstruction(inst) + rest;
    match inst
    case Begin(n, args) =>
      ParseBeginShow(n, args, rest);
      assert PadArgs(args) == args;
    case Ret(src) =>
      WsTagMismatch("nyeh", s);
      ParseRetShow(src, rest);
    case Copy(dest, src, n) =>
      WsTagMismatch("nyeh", s);
      WsTagMismatch("ret", s);
      ParseCopyShow(dest, src, n, rest);
  }

  lemma ParseInstructionEmpty()
    ensures ParseInstruction([]) == Fail
  {
    WsTagMismatch("nyeh", []);
    WsTagMismatch("ret", []);
    ParseDestFirst([]);
  }

  /** One instruction in front of a list that `many0` reads up to `rest`. */
  lemma ManyInstructionsCons(s: string, s1: string, rest: string, i: Instruction, more: seq<Instruction>)
    requires ParseInstruction(s) == Done(s1, i)
    requires ManyInstructions(s1) == Done(rest, more)
    ensures ManyInstructions(s) == Done(rest, [i] + more)
  {
  }

  /** Whether `u` starts no instruction: only `n`, `r`, `_`, `[` and `b` can, after whitespace. */
  predicate NoInstructionStart(u: string) {
    u == [] || (!IsSpace(u[0]) && u[0] != 'n' && u[0] != 'r' && u[0] != '_' && u[0] != '[' && u[0] != 'b')
  }

  lemma ParseInstructionNoStart(u: string)
    requires NoInstructionStart(u)
    ensures ParseInstruction(u) == Fail
  {
    if u == [] {
      ParseInstructionEmpty();
    } else {
      WsTagMismatch("nyeh", u);
      WsTagMismatch("ret", u);
      ParseDestFirst(u);
    }
  }

  /** `many0` reads nothing from text that starts no instruction. */
  lemma ManyInstructionsStop(u: string)
    requires NoInstructionStart(u)
    ensures ManyInstructions(u) == Done(u, [])
  {
    ParseInstructionNoStart(u);
  }

  /** `many0` reads a printed list and stops in front of text that starts no instruction. */
  lemma {:induction false} ManyInstructionsShowThen(insts: seq<Instruction>, u: string)
    requires forall i :: 0 <= i < |insts| ==> Printable(insts[i])
    requires NoInstructionStart(u)
    ensures ManyInstructions(ShowObject(insts) + u) == Done(u, insts)
    decreases |insts|
  {
    if insts == [] {
      assert ShowObject(insts) + u == u;
      ManyInstructionsStop(u);
    } else {
      ParseInstructionShowThen(insts, u);
      ManyInstructionsShowThen(insts[1..], u);
      ManyInstructionsCons(ShowObject(insts) + u, ShowObject(insts[1..]) + u, u, insts[0], insts[1..]);
      assert [insts[0]] + insts[1..] == insts;
    }
  }

  /** The first instruction of a printed list is read up to the start of the next line. */
  lemma ParseInstructionShowThen(insts: seq<Instruction>, u: string)
    requires |insts| > 0 && forall i :: 0 <= i < |insts| ==> Printable(insts[i])
    requires NoInstructionStart(u)
    ensures ParseInstruction(ShowObject(insts) + u) == Done(ShowObject(insts[1..]) + u, insts[0])
  {
    var t := ShowObject(insts[1..]) + u;
    ShowObjectThen(insts, u);
    ParseInstructionShow(insts[0], "\n" + t);
    SkipWsSpace('\n', t);
    SkipWsNone(t);
  }

  /** A printed list followed by `u`: its first line, then the rest followed by `u`. */
  lemma ShowObjectThen(insts: seq<Instruction>, u: string)
    requires |insts| > 0 && forall i :: 0 <= i < |insts| ==> Printable(insts[i])
    requires NoInstructionStart(u)
    ensures ShowObject(insts) + u == ShowInstruction(insts[0]) + ("\n" + (ShowObject(insts[1..]) + u))
    ensures var t := ShowObject(insts[1..]) + u; t == [] || !IsSpace(t[0])
  {
    var o := ShowObject(insts[1..]);
    assert ShowObject(insts) == ShowInstruction(insts[0]) + "\n" + o;
    LineThen(ShowInstruction(insts[0]), o, u);
    if o != [] {
      assert (o + u)[0] == o[0];
    } else {
      assert o + u == u;
    }
  }

  lemma LineThen(a: string, o: string, u: string)
    ensures (a + "\n" + o) + u == a + ("\n" + (o + u))
  {
  }

  /**
   * `all_consuming`: text left after the instructions that starts no
   * instruction makes the whole object fail.
   */
  lemma ParseObjectTrailing(insts: seq<Instruction>, u: string)
    requires forall i :: 0 <= i < |insts| ==> Printable(insts[i])
    requires u != [] && NoInstructionStart(u)
    ensures ParseObject(ShowObject(insts) + u) == Fail
  {
    var s := ShowObject(insts) + u;
    assert s == [] || !IsSpace(s[0]);
    SkipWsNone(s);
    ManyInstructionsShowThen(insts, u);
    SkipWsNone(u);
  }

  /** An object printed one instruction per line parses back to the same instructions. */
  lemma ParseObjectShow(insts: seq<Instruction>)
    requires forall i :: 0 <= i < |insts| ==> Printable(insts[i])
    ensures ParseObject(ShowObject(insts)) == Done([], insts)
  {
    ManyInstructionsShowThen(insts, []);
    assert ShowObject(insts) + [] == ShowObject(insts);
  }

  /** Leading whitespace never changes how an object parses. */
  lemma ParseObjectLeadingSpace(w: string, s: string)
    requires forall i :: 0 <= i < |w| ==> IsSpace(w[i])
    ensures ParseObject(w + s) == ParseObject(s)
  {
    SkipWsSpaces(w, s);
  }
}
