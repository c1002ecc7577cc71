/**
 * The reference interpreter. `InterpreterFn` keeps the program, the stack
 * size and a table from label to instruction index. `Run` executes the
 * program over a zeroed byte stack whose frame base `bp` is its end. Loads
 * are little-endian and zero-extend; stores truncate. Every panic of the
 * source is an `Err` here.
 *
 * The pure functions (`Load`, `Store`, `Step`, `Exec`) specify one step and
 * a whole run over the stack as a sequence. The class's methods do the same
 * work in place on an array and are proved to agree with them. The source's
 * loop may run forever; `Exec` and `Run` take a step budget (`fuel`) and
 * fail with `OutOfFuel` once it is spent.
 */
module Interpreter {
  import opened Wrappers
  import opened Bytes
  import opened Ir

  /** What `Uninitialized` loads: a recognisable nonzero constant. */
  const SENTINEL: U64 := 0x1234_5678_9ABC_DEF0

  /** The panics of `run`, plus the exhausted step budget. */
  datatype RunError =
    | IpEscaped
    | UndefinedLabel(name: Label)
    | SizeMismatch
    | OutOfRange
    | Overflow
    | OutOfFuel

  /** The six `u64` arguments `run` takes. */
  type Args = s: seq<U64> | |s| == 6 witness [0, 0, 0, 0, 0, 0]

  /** The foreign functions: given an address and six argument values, the result. */
  type Foreign = (U64, seq<U64>) -> U64

  // ---------------------------------------------------------------------
  // The stack

  /**
   * `(base as i32 + offset) as usize`. The `i32` sum may overflow (a panic
   * in a debug build). A negative sum becomes an index near 2^64, which no
   * stack slice can reach, so it also fails.
   */
  function Location(base: nat, offset: I32): (r: Result<nat, RunError>)
    ensures r.Err? ==> r.error == OutOfRange || r.error == Overflow
    ensures r.Ok? ==> r.value == WrapI32(base) + offset
    ensures r.Err? <==> !(0 <= WrapI32(base) + offset < 0x8000_0000)
  {
    var sum := WrapI32(base) + offset;
    if !IsI32(sum) then Err(Overflow)
    else if sum < 0 then Err(OutOfRange)
    else Ok(sum)
  }

  lemma PowBounds(sz: Size)
    ensures 0 < Pow256(sz.Bytes()) <= TWO_64
  {
    Pow256Widths();
  }

  /** `load_relative`: the `sz` little-endian bytes at `base + offset`, zero-extended. */
  function LoadRelative(stack: seq<U8>, base: nat, offset: I32, sz: Size): (r: Result<U64, RunError>)
    ensures r.Err? ==> r.error == OutOfRange || r.error == Overflow
    ensures r.Ok? ==> r.value < Pow256(sz.Bytes())
  {
    match Location(base, offset)
    case Err(e) => Err(e)
    case Ok(loc) =>
      if loc + sz.Bytes() > |stack| then Err(OutOfRange)
      else
        PowBounds(sz);
        Ok(LeValue(stack[loc..loc + sz.Bytes()]))
  }

  /** `store_relative`: overwrite the `sz` bytes at `base + offset` with the low bytes of `value`. */
  function StoreRelative(stack: seq<U8>, base: nat, offset: I32, sz: Size, value: U64): (r: Result<seq<U8>, RunError>)
    ensures r.Err? ==> r.error == OutOfRange || r.error == Overflow
    ensures r.Ok? ==> |r.value| == |stack|
    ensures r.Ok? <==> LoadRelative(stack, base, offset, sz).Ok?
  {
    match Location(base, offset)
    case Err(e) => Err(e)
    case Ok(loc) =>
      var k := sz.Bytes();
      if loc + k > |stack| then Err(OutOfRange)
      else Ok(stack[..loc] + LeBytes(value, 8)[..k] + stack[loc + k..])
  }

  /** `load`: an operand's value in the frame based at `bp`. */
  function Load(stack: seq<U8>, bp: nat, src: Src): (r: Result<U64, RunError>)
    ensures r.Err? ==> r.error == OutOfRange || r.error == Overflow
  {
    match src
    case Uninitialized => Ok(SENTINEL)
    case Imm(i) => Ok(i)
    case Ptr(p, f, sz) =>
      (match LoadRelative(stack, bp, p, Size.Q)
       case Err(e) => Err(e)
       case Ok(pointer) => LoadRelative(stack, pointer, f, sz))
    case Here(o, sz) => LoadRelative(stack, bp, o, sz)
  }

  /** `store`: write a value to a destination in the frame based at `bp`. */
  function Store(stack: seq<U8>, bp: nat, dest: Dest, value: U64): (r: Result<seq<U8>, RunError>)
    ensures r.Err? ==> r.error == OutOfRange || r.error == Overflow
    ensures r.Ok? ==> |r.value| == |stack|
  {
    match dest
    case Nowhere => Ok(stack)
    case Ptr(p, f, sz) =>
      (match LoadRelative(stack, bp, p, Size.Q)
       case Err(e) => Err(e)
       case Ok(pointer) => StoreRelative(stack, pointer, f, sz, value))
    case Here(o, sz) => StoreRelative(stack, bp, o, sz, value)
  }

  /** One iteration of `Copy`'s loop: load the source, store it to the destination. */
  function CopyOnce(stack: seq<U8>, bp: nat, dest: Dest, src: Src): (r: Result<seq<U8>, RunError>)
    ensures r.Err? ==> r.error == OutOfRange || r.error == Overflow
    ensures r.Ok? ==> |r.value| == |stack|
  {
    match Load(stack, bp, src)
    case Err(e) => Err(e)
    case Ok(v) => Store(stack, bp, dest, v)
  }

  /** `Copy`'s loop: the same load and store, `n` times over. */
  function CopyN(stack: seq<U8>, bp: nat, dest: Dest, src: Src, n: nat): (r: Result<seq<U8>, RunError>)
    ensures r.Err? ==> r.error == OutOfRange || r.error == Overflow
    ensures r.Ok? ==> |r.value| == |stack|
    decreases n
  {
    if n == 0 then Ok(stack)
    else
      match CopyOnce(stack, bp, dest, src)
      case Err(e) => Err(e)
      case Ok(s) => CopyN(s, bp, dest, src, n - 1)
  }

  /** `Begin`'s stores of the first `k` arguments into their slots, in slot order. */
  function BeginStores(stack: seq<U8>, bp: nat, dests: DestSlots, args: Args, k: nat): (r: Result<seq<U8>, RunError>)
    requires k <= 6
    ensures r.Err? ==> r.error == OutOfRange || r.error == Overflow
    ensures r.Ok? ==> |r.value| == |stack|
  {
    if k == 0 then Ok(stack)
    else
      match BeginStores(stack, bp, dests, args, k - 1)
      case Err(e) => Err(e)
      case Ok(s) => Store(s, bp, dests[k - 1], args[k - 1])
  }

  /** The six operand loads of `FFICall` for slots below `k`, left to right. */
  function LoadOperands(stack: seq<U8>, bp: nat, ops: SrcSlots, k: nat): (r: Result<seq<U64>, RunError>)
    requires k <= 6
    ensures r.Err? ==> r.error == OutOfRange || r.error == Overflow
    ensures r.Ok? ==> |r.value| == k
  {
    if k == 0 then Ok([])
    else
      match LoadOperands(stack, bp, ops, k - 1)
      case Err(e) => Err(e)
      case Ok(vs) =>
        match Load(stack, bp, ops[k - 1])
        case Err(e) => Err(e)
        case Ok(v) => Ok(vs + [v])
  }

  // ---------------------------------------------------------------------
  // The label table

  /** `new`'s table over the first `n` instructions: each label maps to its index, the later one winning. */
  function LabelsUpTo(code: seq<Instruction>, n: nat): (r: map<Label, nat>)
    requires n <= |code|
    ensures forall l :: l in r ==> r[l] < n && code[r[l]] == Label(l)
  {
    if n == 0 then map[]
    else
      var m := LabelsUpTo(code, n - 1);
      if code[n - 1].Label? then m[code[n - 1].name := n - 1] else m
  }

  /** `new`'s table over the whole program: every entry points at a `Label` of that name. */
  function LabelTable(code: seq<Instruction>): (r: map<Label, nat>)
    ensures forall l :: l in r ==> r[l] < |code| && code[r[l]] == Label(l)
  {
    LabelsUpTo(code, |code|)
  }

  /**
   * The table maps exactly the defined labels, each to the index of the
   * last `Label` instruction naming it.
   */
  lemma {:induction false} LabelsUpToLast(code: seq<Instruction>, n: nat, l: Label)
    requires n <= |code|
    ensures l in LabelsUpTo(code, n) <==> exists i :: 0 <= i < n && code[i] == Label(l)
    ensures l in LabelsUpTo(code, n) ==>
      var i := LabelsUpTo(code, n)[l];
      i < n && code[i] == Label(l) && forall j :: i < j < n ==> code[j] != Label(l)
  {
    if n > 0 {
      LabelsUpToLast(code, n - 1, l);
      var m := LabelsUpTo(code, n - 1);
      var r := LabelsUpTo(code, n);
      if code[n - 1] == Label(l) {
        assert r == m[l := n - 1];
        assert code[n - 1] == Label(l);
      } else {
        assert l in r <==> l in m by {
          if code[n - 1].Label? {
            assert r == m[code[n - 1].name := n - 1];
          } else {
            assert r == m;
          }
        }
        assert l in r ==> r[l] == m[l];
        assert (exists i :: 0 <= i < n && code[i] == Label(l)) ==> exists i :: 0 <= i < n - 1 && code[i] == Label(l);
      }
    }
  }

  lemma LabelTableLast(code: seq<Instruction>, l: Label)
    ensures l in LabelTable(code) <==> exists i :: 0 <= i < |code| && code[i] == Label(l)
    ensures l in LabelTable(code) ==>
      var i := LabelTable(code)[l];
      i < |code| && code[i] == Label(l) && forall j :: i < j < |code| ==> code[j] != Label(l)
  {
    LabelsUpToLast(code, |code|, l);
  }

  // ---------------------------------------------------------------------
  // Steps and runs

  /** The interpreter's variables between steps: the stack, `ip` and `sp` (`bp` never changes). */
  datatype Machine = Machine(stack: seq<U8>, ip: nat, sp: nat)

  /** After one step: carry on from a new machine, or return a value. */
  datatype Next = Continue(m: Machine) | Return(value: U64)

  /** The machine `run` starts from: a zeroed stack, `ip = 0`, `sp = bp = stack_size`. */
  function Initial(stackSize: nat): (m: Machine)
    ensures |m.stack| == stackSize && m.ip == 0 && m.sp == stackSize
    ensures forall i :: 0 <= i < stackSize ==> m.stack[i] == 0
  {
    Machine(seq(stackSize, _ => 0), 0, stackSize)
  }

  /** One iteration of `run`'s loop, in the frame based at `bp`. */
  function Step(code: seq<Instruction>, labels: map<Label, nat>, bp: nat, args: Args, ffi: Foreign, m: Machine): (r: Result<Next, RunError>)
    ensures r == Err(IpEscaped) <==> m.ip >= |code|
    ensures m.ip < |code| && code[m.ip].Copy? ==>
      (r == Err(SizeMismatch) <==> code[m.ip].count != 1 && !SameSize(code[m.ip].dest, code[m.ip].src))
    ensures r.Ok? ==> m.ip < |code|
    ensures r.Ok? && r.value.Return? ==> code[m.ip].Ret?
    ensures r.Ok? && r.value.Continue? ==>
      |r.value.m.stack| == |m.stack| &&
      (r.value.m.ip == m.ip + 1 ||
       (code[m.ip].JIf? && code[m.ip].target in labels && r.value.m.ip == labels[code[m.ip].target]))
  {
    if m.ip >= |code| then Err(IpEscaped)
    else
      var next := m.(ip := m.ip + 1);
      match code[m.ip]
      case Begin(n, dests) =>
        if n > bp then Err(Overflow)
        else
          (match BeginStores(m.stack, bp, dests, args, 6)
           case Err(e) => Err(e)
           case Ok(s) => Ok(Continue(Machine(s, m.ip + 1, bp - n))))
      case Ret(src) =>
        (match Load(m.stack, bp, src)
         case Err(e) => Err(e)
         case Ok(v) => Ok(Return(v)))
      case Copy(dest, src, count) =>
        if count != 1 && !SameSize(dest, src) then Err(SizeMismatch)
        else
          (match CopyN(m.stack, bp, dest, src, count)
           case Err(e) => Err(e)
           case Ok(s) => Ok(Continue(next.(stack := s))))
      case JIf(src, l) =>
        (match Load(m.stack, bp, src)
         case Err(e) => Err(e)
         case Ok(v) =>
           if v == 0 then Ok(Continue(next))
           else if l in labels then Ok(Continue(m.(ip := labels[l])))
           else Err(UndefinedLabel(l)))
      case Label(_) => Ok(Continue(next))
      case FFICall(dest, ops, address) =>
        match LoadOperands(m.stack, bp, ops, 6)
        case Err(e) => Err(e)
        case Ok(vs) =>
          match Store(m.stack, bp, dest, ffi(address, vs))
          case Err(e) => Err(e)
          case Ok(s) => Ok(Continue(next.(stack := s)))
  }

  /** `run` from machine `m` with at most `fuel` steps. */
  function Exec(code: seq<Instruction>, labels: map<Label, nat>, bp: nat, args: Args, ffi: Foreign, m: Machine, fuel: nat): (r: Result<U64, RunError>)
    ensures r.Ok? ==> exists i :: 0 <= i < |code| && code[i].Ret?
    decreases fuel
  {
    if fuel == 0 then Err(OutOfFuel)
    else
      match Step(code, labels, bp, args, ffi, m)
      case Err(e) => Err(e)
      case Ok(Return(v)) => Ok(v)
      case Ok(Continue(m')) => Exec(code, labels, bp, args, ffi, m', fuel - 1)
  }

  // ---------------------------------------------------------------------
  // The imperative interpreter

  /** Where the loop goes after one instruction done in place. */
  datatype Control = Proceed(ip: nat, sp: nat) | Returned(value: U64)

  class InterpreterFn {
    const code: seq<Instruction>
    const stackSize: nat
    const labelLocations: map<Label, nat>

    /** `new`: one pass over the program recording every label's index. */
    constructor (code: seq<Instruction>, stackSize: nat)
      ensures this.code == code && this.stackSize == stackSize
      ensures labelLocations == LabelTable(code)
    {
      var table: map<Label, nat> := map[];
      for i := 0 to |code|
        invariant table == LabelsUpTo(code, i)
      {
        if code[i].Label? {
          table := table[code[i].name := i];
        }
      }
      this.code := code;
      this.stackSize := stackSize;
      labelLocations := table;
    }

    /**
     * `run` with a budget of `fuel` steps: the outcome is that of `Exec`
     * from the initial machine.
     */
    method Run(arg0: U64, arg1: U64, arg2: U64, arg3: U64, arg4: U64, arg5: U64, ffi: Foreign, fuel: nat)
      returns (r: Result<U64, RunError>)
      ensures r == Exec(code, labelLocations, stackSize, [arg0, arg1, arg2, arg3, arg4, arg5], ffi, Initial(stackSize), fuel)
    {
      var args: Args := [arg0, arg1, arg2, arg3, arg4, arg5];
      var stack := new U8[stackSize](_ => 0);
      var ip: nat := 0;
      var bp := stackSize;
      var sp: nat := stackSize;
      var left := fuel;
      assert stack[..] == Initial(stackSize).stack;
      while left > 0
        invariant Exec(code, labelLocations, bp, args, ffi, Initial(stackSize), fuel) ==
          Exec(code, labelLocations, bp, args, ffi, Machine(stack[..], ip, sp), left)
        decreases left
      {
        ghost var m := Machine(stack[..], ip, sp);
        var c := StepInPlace(stack, bp, args, ffi, ip, sp);
        match c {
          case Err(e) =>
            return Err(e);
          case Ok(Returned(v)) =>
            return Ok(v);
          case Ok(Proceed(ip', sp')) =>
            ip, sp := ip', sp';
        }
        left := left - 1;
      }
      r := Err(OutOfFuel);
    }

    /** One iteration of `run`'s loop, updating the stack in place. */
    method StepInPlace(stack: array<U8>, bp: nat, args: Args, ffi: Foreign, ip: nat, sp: nat) returns (r: Result<Control, RunError>)
      modifies stack
      ensures var want := Step(code, labelLocations, bp, args, ffi, Machine(old(stack[..]), ip, sp));
        match r
        case Err(e) => want == Err(e)
        case Ok(Returned(v)) => want == Ok(Return(v))
        case Ok(Proceed(ip', sp')) => want == Ok(Continue(Machine(stack[..], ip', sp')))
    {
      if ip >= |code| {
        return Err(IpEscaped);
      }
      match code[ip] {
        case Begin(n, dests) =>
          if n > bp {
            return Err(Overflow);
          }
          var o := BeginInPlace(stack, bp, dests, args);
          if o.Fail? {
            return Err(o.error);
          }
          r := Ok(Proceed(ip + 1, bp - n));
        case Ret(src) =>
          var v := LoadFrom(stack, bp, src);
          if v.Err? {
            return Err(v.error);
          }
          r := Ok(Returned(v.value));
        case Copy(dest, src, count) =>
          if count != 1 && !SameSize(dest, src) {
            return Err(SizeMismatch);
          }
          var o := CopyInPlace(stack, bp, dest, src, count);
          if o.Fail? {
            return Err(o.error);
          }
          r := Ok(Proceed(ip + 1, sp));
        case JIf(src, l) =>
          var v := LoadFrom(stack, bp, src);
          if v.Err? {
            return Err(v.error);
          }
          if v.value == 0 {
            r := Ok(Proceed(ip + 1, sp));
          } else if l in labelLocations {
            r := Ok(Proceed(labelLocations[l], sp));
          } else {
            r := Err(UndefinedLabel(l));
          }
        case Label(_) =>
          r := Ok(Proceed(ip + 1, sp));
        case FFICall(dest, ops, address) =>
          var vs: seq<U64> := [];
          for k := 0 to 6
            invariant LoadOperands(old(stack[..]), bp, ops, k) == Ok(vs)
            invariant stack[..] == old(stack[..])
          {
            var v := LoadFrom(stack, bp, ops[k]);
            if v.Err? {
              LoadOperandsErrorPersists(stack[..], bp, ops, k + 1, 6);
              return Err(v.error);
            }
            vs := vs + [v.value];
          }
          var o := StoreInto(stack, bp, dest, ffi(address, vs));
          if o.Fail? {
            return Err(o.error);
          }
          r := Ok(Proceed(ip + 1, sp));
      }
    }
  }

  // ---------------------------------------------------------------------
  // In-place loads and stores on the stack array

  method LoadRelativeFrom(stack: array<U8>, base: nat, offset: I32, sz: Size) returns (r: Result<U64, RunError>)
    ensures r == LoadRelative(stack[..], base, offset, sz)
  {
    var loc := Location(base, offset);
    if loc.Err? {
      return Err(loc.error);
    }
    var k := sz.Bytes();
    if loc.value + k > stack.Length {
      return Err(OutOfRange);
    }
    PowBounds(sz);
    r := Ok(LeValue(stack[loc.value..loc.value + k]));
  }

  method LoadFrom(stack: array<U8>, bp: nat, src: Src) returns (r: Result<U64, RunError>)
    ensures r == Load(stack[..], bp, src)
  {
    match src {
      case Uninitialized => r := Ok(SENTINEL);
      case Imm(i) => r := Ok(i);
      case Ptr(p, f, sz) =>
        var pointer := LoadRelativeFrom(stack, bp, p, Size.Q);
        if pointer.Err? {
          return Err(pointer.error);
        }
        r := LoadRelativeFrom(stack, pointer.value, f, sz);
      case Here(o, sz) =>
        r := LoadRelativeFrom(stack, bp, o, sz);
    }
  }

  /** `store_relative` in place: `clone_from_slice` of the value's low bytes. */
  method StoreRelativeInto(stack: array<U8>, base: nat, offset: I32, sz: Size, value: U64) returns (r: Outcome<RunError>)
    modifies stack
    ensures r.Pass? <==> StoreRelative(old(stack[..]), base, offset, sz, value).Ok?
    ensures r.Pass? ==> stack[..] == StoreRelative(old(stack[..]), base, offset, sz, value).value
    ensures r.Fail? ==> StoreRelative(old(stack[..]), base, offset, sz, value) == Err(r.error) && stack[..] == old(stack[..])
  {
    var loc := Location(base, offset);
    if loc.Err? {
      return Fail(loc.error);
    }
    var at := loc.value;
    var k := sz.Bytes();
    if at + k > stack.Length {
      return Fail(OutOfRange);
    }
    var bytes := LeBytes(value, 8)[..k];
    forall j | 0 <= j < k {
      stack[at + j] := bytes[j];
    }
    assert stack[..] == old(stack[..])[..at] + bytes + old(stack[..])[at + k..];
    r := Pass;
  }

  method StoreInto(stack: array<U8>, bp: nat, dest: Dest, value: U64) returns (r: Outcome<RunError>)
    modifies stack
    ensures r.Pass? <==> Store(old(stack[..]), bp, dest, value).Ok?
    ensures r.Pass? ==> stack[..] == Store(old(stack[..]), bp, dest, value).value
    ensures r.Fail? ==> Store(old(stack[..]), bp, dest, value) == Err(r.error)
  {
    match dest {
      case Nowhere => r := Pass;
      case Ptr(p, f, sz) =>
        var pointer := LoadRelativeFrom(stack, bp, p, Size.Q);
        if pointer.Err? {
          return Fail(pointer.error);
        }
        r := StoreRelativeInto(stack, pointer.value, f, sz, value);
      case Here(o, sz) =>
        r := StoreRelativeInto(stack, bp, o, sz, value);
    }
  }

  /** `Begin`'s six stores, slot 0 first. */
  method BeginInPlace(stack: array<U8>, bp: nat, dests: DestSlots, args: Args) returns (r: Outcome<RunError>)
    modifies stack
    ensures r.Pass? <==> BeginStores(old(stack[..]), bp, dests, args, 6).Ok?
    ensures r.Pass? ==> stack[..] == BeginStores(old(stack[..]), bp, dests, args, 6).value
    ensures r.Fail? ==> BeginStores(old(stack[..]), bp, dests, args, 6) == Err(r.error)
  {
    for k := 0 to 6
      invariant BeginStores(old(stack[..]), bp, dests, args, k) == Ok(stack[..])
    {
      var o := StoreInto(stack, bp, dests[k], args[k]);
      if o.Fail? {
        BeginStoresErrorPersists(old(stack[..]), bp, dests, args, k + 1, 6);
        return o;
      }
    }
    r := Pass;
  }

  /** `Copy`'s loop: `count` times, load the source and store it to the destination. */
  method CopyInPlace(stack: array<U8>, bp: nat, dest: Dest, src: Src, count: Count) returns (r: Outcome<RunError>)
    modifies stack
    ensures r.Pass? <==> CopyN(old(stack[..]), bp, dest, src, count).Ok?
    ensures r.Pass? ==> stack[..] == CopyN(old(stack[..]), bp, dest, src, count).value
    ensures r.Fail? ==> CopyN(old(stack[..]), bp, dest, src, count) == Err(r.error)
  {
    for i := 0 to count
      invariant CopyN(old(stack[..]), bp, dest, src, count) == CopyN(stack[..], bp, dest, src, count - i)
    {
      var v := LoadFrom(stack, bp, src);
      if v.Err? {
        return Fail(v.error);
      }
      var o := StoreInto(stack, bp, dest, v.value);
      if o.Fail? {
        return o;
      }
    }
    r := Pass;
  }

  lemma {:induction false} BeginStoresErrorPersists(stack: seq<U8>, bp: nat, dests: DestSlots, args: Args, k: nat, m: nat)
    requires k <= m <= 6
    requires BeginStores(stack, bp, dests, args, k).Err?
    ensures BeginStores(stack, bp, dests, args, m) == BeginStores(stack, bp, dests, args, k)
    decreases m - k
  {
    if k < m {
      BeginStoresErrorPersists(stack, bp, dests, args, k, m - 1);
    }
  }

  lemma {:induction false} LoadOperandsErrorPersists(stack: seq<U8>, bp: nat, ops: SrcSlots, k: nat, m: nat)
    requires k <= m <= 6
    requires LoadOperands(stack, bp, ops, k).Err?
    ensures LoadOperands(stack, bp, ops, m) == LoadOperands(stack, bp, ops, k)
    decreases m - k
  {
    if k < m {
      LoadOperandsErrorPersists(stack, bp, ops, k, m - 1);
    }
  }

  // ---------------------------------------------------------------------
  // Properties of the stack operations

  /** Storing then loading the same place gives back the value truncated to the width. */
  lemma StoreLoadRoundTrip(stack: seq<U8>, base: nat, offset: I32, sz: Size, value: U64)
    requires StoreRelative(stack, base, offset, sz, value).Ok?
    ensures LoadRelative(StoreRelative(stack, base, offset, sz, value).value, base, offset, sz) ==
      Ok(value % Pow256(sz.Bytes()))
  {
    var loc := Location(base, offset).value;
    var k := sz.Bytes();
    var s' := StoreRelative(stack, base, offset, sz, value).value;
    LeBytesPrefix(value, 8, k);
    assert s'[loc..loc + k] == LeBytes(value, k);
    LeValueOfLeBytes(value, k);
  }

  /** A store writes the value's low bytes, little-endian, into its window and touches nothing else. */
  lemma StoreRelativeFrame(stack: seq<U8>, base: nat, offset: I32, sz: Size, value: U64)
    requires StoreRelative(stack, base, offset, sz, value).Ok?
    ensures var loc := Location(base, offset).value;
      var s' := StoreRelative(stack, base, offset, sz, value).value;
      s'[loc..loc + sz.Bytes()] == LeBytes(value, sz.Bytes()) &&
      forall i :: 0 <= i < |stack| && !(loc <= i < loc + sz.Bytes()) ==> s'[i] == stack[i]
  {
    var k := sz.Bytes();
    LeBytesPrefix(value, 8, k);
  }

  /** Storing the same value twice at the same place is storing it once. */
  lemma StoreRelativeTwice(stack: seq<U8>, base: nat, offset: I32, sz: Size, value: U64)
    requires StoreRelative(stack, base, offset, sz, value).Ok?
    ensures var s' := StoreRelative(stack, base, offset, sz, value).value;
      StoreRelative(s', base, offset, sz, value) == Ok(s')
  {
    var loc := Location(base, offset).value;
    var k := sz.Bytes();
    var s' := StoreRelative(stack, base, offset, sz, value).value;
    var s'' := StoreRelative(s', base, offset, sz, value).value;
    assert s'' == s';
  }

  /** A load sees the same value when a store wrote only bytes outside its window. */
  lemma LoadRelativeUnchanged(stack: seq<U8>, s': seq<U8>, base: nat, offset: I32, sz: Size)
    requires |s'| == |stack| && Location(base, offset).Ok?
    requires var loc := Location(base, offset).value;
      forall i :: loc <= i < loc + sz.Bytes() && i < |stack| ==> s'[i] == stack[i]
    ensures LoadRelative(s', base, offset, sz) == LoadRelative(stack, base, offset, sz)
  {
    var loc := Location(base, offset).value;
    var k := sz.Bytes();
    if loc + k <= |stack| {
      assert s'[loc..loc + k] == stack[loc..loc + k];
    }
  }

  /** A fresh stack is all zeros, so any in-range load from it reads zero. */
  lemma FreshStackReadsZero(n: nat, base: nat, offset: I32, sz: Size)
    requires LoadRelative(Initial(n).stack, base, offset, sz).Ok?
    ensures LoadRelative(Initial(n).stack, base, offset, sz) == Ok(0)
  {
    var loc := Location(base, offset).value;
    var k := sz.Bytes();
    ZerosValue(Initial(n).stack[loc..loc + k]);
  }

  lemma {:induction false} ZerosValue(bs: seq<U8>)
    requires forall i :: 0 <= i < |bs| ==> bs[i] == 0
    ensures LeValue(bs) == 0
  {
    if bs != [] {
      ZerosValue(bs[1..]);
    }
  }

  /** A frame operand loads zero-extended: its value fits its width. */
  lemma LoadHereFits(stack: seq<U8>, bp: nat, o: I32, sz: Size)
    requires Load(stack, bp, Src.Here(o, sz)).Ok?
    ensures Load(stack, bp, Src.Here(o, sz)).value < Pow256(sz.Bytes())
  {
  }

  /** Operands that need no stack access: the sentinel for `Uninitialized`, the value for `Imm`. */
  lemma LoadConstants(stack: seq<U8>, bp: nat, x: U64)
    ensures Load(stack, bp, Src.Uninitialized) == Ok(SENTINEL) && SENTINEL != 0
    ensures Load(stack, bp, Src.Imm(x)) == Ok(x)
  {
  }

  /**
   * Through a pointer: the eight bytes at `bp + p` are the pointer, and the
   * access is at `pointer + f`, both for loads and for stores.
   */
  lemma PointerAccess(stack: seq<U8>, bp: nat, p: I32, f: I32, sz: Size, value: U64)
    requires LoadRelative(stack, bp, p, Size.Q).Ok?
    ensures var pointer := LoadRelative(stack, bp, p, Size.Q).value;
      Load(stack, bp, Src.Ptr(p, f, sz)) == LoadRelative(stack, pointer, f, sz) &&
      Store(stack, bp, Dest.Ptr(p, f, sz), value) == StoreRelative(stack, pointer, f, sz, value)
  {
  }

  // ---------------------------------------------------------------------
  // Properties of the instructions

  /** Copying to `Nowhere` still loads the source, but leaves the stack as it was. */
  lemma {:induction false} CopyToNowhere(stack: seq<U8>, bp: nat, src: Src, n: nat)
    requires Load(stack, bp, src).Ok?
    ensures CopyN(stack, bp, Dest.Nowhere, src, n) == Ok(stack)
    decreases n
  {
    if n > 0 {
      CopyToNowhere(stack, bp, src, n - 1);
    }
  }

  /** Once one copy reaches a state that copying again leaves alone, any number of copies equals one. */
  lemma {:induction false} CopyRepeatsFixedPoint(stack: seq<U8>, bp: nat, dest: Dest, src: Src, n: nat)
    requires n >= 1 && CopyOnce(stack, bp, dest, src).Ok?
    requires CopyOnce(CopyOnce(stack, bp, dest, src).value, bp, dest, src) == CopyOnce(stack, bp, dest, src)
    ensures CopyN(stack, bp, dest, src, n) == CopyOnce(stack, bp, dest, src)
    decreases n
  {
    var s1 := CopyOnce(stack, bp, dest, src).value;
    assert CopyN(stack, bp, dest, src, n) == CopyN(s1, bp, dest, src, n - 1);
    if n > 1 {
      CopyRepeatsFixedPoint(s1, bp, dest, src, n - 1);
    }
  }

  /** The frame window a `Here` destination writes, when its location is valid. */
  predicate WindowsApart(bp: nat, dest: Dest, src: Src)
    requires dest.Here?
  {
    Location(bp, dest.offset).Ok? &&
    (src.Here? ==>
      Location(bp, src.offset).Ok? &&
      var d := Location(bp, dest.offset).value;
      var s := Location(bp, src.offset).value;
      d + dest.size.Bytes() <= s || s + src.size.Bytes() <= d)
  }

  /**
   * Repeating a copy `count` times is one copy when the destination lies in
   * the frame and the source is a constant or a frame slot it does not
   * overlap; a count of zero copies nothing.
   */
  lemma CopyRepeatIsOnce(stack: seq<U8>, bp: nat, dest: Dest, src: Src, n: nat)
    requires dest.Here? && (src.Uninitialized? || src.Imm? || src.Here?)
    requires WindowsApart(bp, dest, src)
    ensures n == 0 ==> CopyN(stack, bp, dest, src, n) == Ok(stack)
    ensures n >= 1 ==> CopyN(stack, bp, dest, src, n) == CopyOnce(stack, bp, dest, src)
  {
    if n >= 1 && CopyOnce(stack, bp, dest, src).Ok? {
      var v := Load(stack, bp, src).value;
      var s1 := CopyOnce(stack, bp, dest, src).value;
      assert s1 == StoreRelative(stack, bp, dest.offset, dest.size, v).value;
      StoreRelativeTwice(stack, bp, dest.offset, dest.size, v);
      if src.Here? {
        StoreRelativeFrame(stack, bp, dest.offset, dest.size, v);
        LoadRelativeUnchanged(stack, s1, bp, src.offset, src.size);
      }
      assert Load(s1, bp, src) == Ok(v);
      CopyRepeatsFixedPoint(stack, bp, dest, src, n);
    } else if n >= 1 {
      assert CopyN(stack, bp, dest, src, n) == CopyOnce(stack, bp, dest, src);
    }
  }

  /** With every argument slot `Nowhere`, `Begin` stores nothing. */
  lemma {:induction false} BeginStoresNowhere(stack: seq<U8>, bp: nat, dests: DestSlots, args: Args, k: nat)
    requires k <= 6
    requires forall i :: 0 <= i < k ==> dests[i] == Dest.Nowhere
    ensures BeginStores(stack, bp, dests, args, k) == Ok(stack)
  {
    if k > 0 {
      BeginStoresNowhere(stack, bp, dests, args, k - 1);
    }
  }

  /** `Begin` sets `sp = bp - n`; a frame larger than `bp` underflows the subtraction. */
  lemma BeginFrame(code: seq<Instruction>, labels: map<Label, nat>, bp: nat, args: Args, ffi: Foreign, m: Machine)
    requires m.ip < |code| && code[m.ip].Begin?
    ensures code[m.ip].frameSize > bp ==> Step(code, labels, bp, args, ffi, m) == Err(Overflow)
    ensures Step(code, labels, bp, args, ffi, m).Ok? ==>
      Step(code, labels, bp, args, ffi, m).value.Continue? &&
      Step(code, labels, bp, args, ffi, m).value.m.sp == bp - code[m.ip].frameSize
  {
  }

  /**
   * A `JIf` whose operand is nonzero jumps to the label's recorded index,
   * which holds that very label; `Uninitialized` loads the nonzero sentinel,
   * so such a branch is always taken.
   */
  lemma JIfJumps(code: seq<Instruction>, bp: nat, args: Args, ffi: Foreign, m: Machine)
    requires m.ip < |code| && code[m.ip].JIf?
    requires Load(m.stack, bp, code[m.ip].src).Ok?
    ensures var l := code[m.ip].target;
      var r := Step(code, LabelTable(code), bp, args, ffi, m);
      (Load(m.stack, bp, code[m.ip].src).value == 0 ==> r == Ok(Continue(m.(ip := m.ip + 1)))) &&
      (Load(m.stack, bp, code[m.ip].src).value != 0 ==>
        if r.Ok? then r.value.Continue? && r.value.m.ip < |code| && code[r.value.m.ip] == Label(l) && r.value.m.stack == m.stack
        else r == Err(UndefinedLabel(l)) && forall i :: 0 <= i < |code| ==> code[i] != Label(l))
    ensures code[m.ip].src.Uninitialized? ==> Load(m.stack, bp, code[m.ip].src).value != 0
  {
    LabelTableLast(code, code[m.ip].target);
  }

  /** A larger step budget only lets a finished run finish the same way. */
  lemma {:induction false} ExecMoreFuel(code: seq<Instruction>, labels: map<Label, nat>, bp: nat, args: Args, ffi: Foreign, m: Machine, fuel: nat, more: nat)
    requires fuel <= more
    requires Exec(code, labels, bp, args, ffi, m, fuel) != Err(OutOfFuel)
    ensures Exec(code, labels, bp, args, ffi, m, more) == Exec(code, labels, bp, args, ffi, m, fuel)
    decreases fuel
  {
    match Step(code, labels, bp, args, ffi, m)
    case Err(_) =>
    case Ok(Return(_)) =>
    case Ok(Continue(m')) =>
      ExecMoreFuel(code, labels, bp, args, ffi, m', fuel - 1, more - 1);
  }
}
