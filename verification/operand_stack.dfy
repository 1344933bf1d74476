/** One step of `decodeBytecodeLine` (classfile.cpp) for the opcodes that
    touch only the operand stack, the scoped local kinds and the list of
    emitted operations. Opcodes that need the constant pool, the whole
    method or the class (`ldc`, the `invoke*` and field opcodes, `new`,
    `anewarray`, `goto`, `fconst_<f>`) fail with `NotModelled`;
    opcodes the decoder has no case for fail with `UnhandledOpcode`, as the
    C++ `default:` throws.

    `signed` selects between the immediates as the C++ reads them (`false`:
    `bipush`, `sipush` and the `iinc` constant read unsigned) and as The
    Java Virtual Machine Specification defines them (`true`: sign-extended);
    see `BipushAsWritten` and `BipushRoundTrip`. */
module OperandStack {
  import opened Wrappers
  import opened Bytes
  import opened MethodContext
  import opened Bytecode
  import Descriptors

  /** `Operation` of classfile.h, for the kinds the modelled opcodes emit. */
  datatype Operation =
    | Store(declared: Option<string>, index: nat, value: string)
    | Cond(left: string, op: string, right: string, target: int)
    | Inc(index: nat, constant: int)
    | IndexedStore(array: string, subscript: string, stored: string)
    | Return(result: Option<string>)
    | RefStore(declared: Option<string>, index: nat, refType: string, initial: Option<string>,
               size: Option<int>, position: int, populate: seq<string>)

  /** The decoder's state: `stack`, `localsTypes` and `operations`. */
  datatype Frame = Frame(stack: seq<Value>, scopes: Scopes, ops: seq<Operation>)

  datatype Stepped = Stepped(frame: Frame, rest: Buffer)

  /* ---------------------------------------------------------------- */
  /* Opcode classes and their stack effects                           */
  /* ---------------------------------------------------------------- */

  const Bipush := 0x10
  const Sipush := 0x11
  const Iinc := 0x84
  const Newarray := 0xbc
  const ReturnVoid := 0xb1

  predicate IsConstant(o: int) { 0x01 <= o <= 0x08 || o == Bipush || o == Sipush }
  predicate IsLoad(o: int) { o == 0x15 || o == 0x19 || 0x1a <= o <= 0x1d || 0x2a <= o <= 0x2d }
  predicate IsArrayLoad(o: int) { 0x2f <= o <= 0x35 }
  predicate IsStore(o: int) { 0x36 <= o <= 0x39 || 0x3b <= o <= 0x3e }
  predicate IsRefStore(o: int) { o == 0x3a || 0x4b <= o <= 0x4e }
  predicate IsArrayStore(o: int) { 0x4f <= o <= 0x54 }
  predicate IsBinary(o: int) { o == 0x60 || o == 0x64 || 0x68 <= o <= 0x6c || o == 0x70 || o == 0x7e }
  predicate IsUnary(o: int) { o == 0x74 || o == 0x89 || o == 0x8d || o == 0xbe }
  predicate IsValueReturn(o: int) { 0xac <= o <= 0xb0 }

  /** The opcodes this model steps through. */
  predicate Modelled(o: int)
  {
    || IsConstant(o) || IsLoad(o) || IsArrayLoad(o) || IsStore(o) || IsRefStore(o) || IsArrayStore(o)
    || o == 0x59 || IsBinary(o) || IsUnary(o) || o == Iinc || IsBranch(o)
    || IsValueReturn(o) || o == ReturnVoid || o == Newarray
  }

  /** The other opcodes `decodeBytecodeLine` has a case for. */
  predicate HandledElsewhere(o: int)
  {
    || 0x0b <= o <= 0x0d || 0x12 <= o <= 0x14 || o == 0xa7 || 0xb2 <= o <= 0xb8 || o == 0xba || o == 0xbb || o == 0xbd
  }

  /** Operand bytes after the opcode (The Java Virtual Machine
      Specification, chapter 6). */
  function OperandBytes(o: int): nat
  {
    if o == Bipush || o == 0x15 || o == 0x19 || 0x36 <= o <= 0x3a || o == Newarray then 1
    else if o == Sipush || o == Iinc || IsBranch(o) then 2
    else 0
  }

  /** Values an opcode takes from the stack. */
  function Pops(o: int): nat
  {
    if IsArrayStore(o) then 3
    else if IsArrayLoad(o) || IsBinary(o) || IsIfCompare(o) then 2
    else if IsStore(o) || IsRefStore(o) || o == 0x59 || IsUnary(o) || IsIfZero(o) || IsValueReturn(o) || o == Newarray then 1
    else 0
  }

  /** Values an opcode leaves on the stack (`dup` leaves two). */
  function Pushes(o: int): nat
  {
    if o == 0x59 then 2
    else if IsConstant(o) || IsLoad(o) || IsArrayLoad(o) || IsBinary(o) || IsUnary(o) || o == Newarray then 1
    else 0
  }

  /** A step consumed `consumed` operand bytes, took `pops` values and left
      `pushes`, kept the number of scopes, and emitted at most one
      operation. */
  predicate Moved(f: Frame, code: Buffer, s: Stepped, consumed: nat, pops: nat, pushes: nat)
  {
    && |code| >= consumed
    && s.rest == code[consumed..]
    && |s.frame.stack| + pops == |f.stack| + pushes
    && |s.frame.scopes| == |f.scopes|
    && f.ops <= s.frame.ops && |s.frame.ops| <= |f.ops| + 1
  }

  /** The effect the tables above give a successful step of opcode `o`. */
  predicate Effect(o: int, f: Frame, code: Buffer, s: Stepped)
  {
    Moved(f, code, s, OperandBytes(o), Pops(o), Pushes(o))
  }

  /* ---------------------------------------------------------------- */
  /* Stack helpers                                                    */
  /* ---------------------------------------------------------------- */

  function Pop(s: seq<Value>): (r: Result<(seq<Value>, Value)>)
    ensures r.Ok? <==> |s| >= 1
    ensures r.Ok? ==> s == r.value.0 + [r.value.1]
  {
    if |s| == 0 then Fail(StackUnderflow) else Ok((s[..|s| - 1], s[|s| - 1]))
  }

  /** The two top values, the top one (the right operand) last. */
  function Pop2(s: seq<Value>): (r: Result<(seq<Value>, Value, Value)>)
    ensures r.Ok? <==> |s| >= 2
    ensures r.Ok? ==> s == r.value.0 + [r.value.1, r.value.2]
  {
    if |s| < 2 then Fail(StackUnderflow) else Ok((s[..|s| - 2], s[|s| - 2], s[|s| - 1]))
  }

  function Push(f: Frame, v: Value): Frame
  {
    f.(stack := f.stack + [v])
  }

  function Emit(f: Frame, op: Operation): Frame
  {
    f.(ops := f.ops + [op])
  }

  /* ---------------------------------------------------------------- */
  /* One step                                                         */
  /* ---------------------------------------------------------------- */

  /** The opcode at the head of `code`, at address `pc`, in method `methodName`. */
  function Step(methodName: string, f: Frame, pc: int, code: Buffer, signed: bool): (r: Result<Stepped>)
    requires |f.scopes| > 0
    ensures |code| == 0 ==> r == Fail(Truncated)
    ensures |code| > 0 && HandledElsewhere(code[0]) ==> r == Fail(NotModelled(code[0]))
    ensures |code| > 0 && !Modelled(code[0]) && !HandledElsewhere(code[0]) ==> r == Fail(UnhandledOpcode(code[0]))
    ensures |code| > 0 && Modelled(code[0]) && |code| > OperandBytes(code[0]) && |f.stack| < Pops(code[0]) ==> r == Fail(StackUnderflow)
    ensures r.Ok? ==> |code| > 0 && Modelled(code[0]) && Effect(code[0], f, code[1..], r.value)
  {
    var op :- Read8(code);
    var o := op.value;
    if Modelled(o) then StepModelled(methodName, f, pc, o, op.rest, signed)
    else if HandledElsewhere(o) then Fail(NotModelled(o))
    else Fail(UnhandledOpcode(o))
  }

  /** The handler of a modelled opcode. */
  datatype OpClass =
    | ConstantOp | LoadOp | StoreOp | RefStoreOp | BranchOp
    | ExpressionOp | ArrayStoreOp | IincOp | NewarrayOp | ReturnOp

  function ClassOf(o: byte): (c: OpClass)
    requires Modelled(o)
    ensures c == ConstantOp <==> IsConstant(o)
    ensures c == LoadOp <==> IsLoad(o)
    ensures c == StoreOp <==> IsStore(o)
    ensures c == RefStoreOp <==> IsRefStore(o)
    ensures c == BranchOp <==> IsBranch(o)
    ensures c == ExpressionOp <==> IsArrayLoad(o) || IsBinary(o) || IsUnary(o) || o == 0x59
    ensures c == ArrayStoreOp <==> IsArrayStore(o)
    ensures c == IincOp <==> o == Iinc
    ensures c == NewarrayOp <==> o == Newarray
    ensures c == ReturnOp <==> IsValueReturn(o) || o == ReturnVoid
  {
    if IsConstant(o) then ConstantOp
    else if IsLoad(o) then LoadOp
    else if IsStore(o) then StoreOp
    else if IsRefStore(o) then RefStoreOp
    else if IsBranch(o) then BranchOp
    else if IsArrayLoad(o) || IsBinary(o) || IsUnary(o) || o == 0x59 then ExpressionOp
    else if IsArrayStore(o) then ArrayStoreOp
    else if o == Iinc then IincOp
    else if o == Newarray then NewarrayOp
    else ReturnOp
  }

  function StepModelled(methodName: string, f: Frame, pc: int, o: byte, code: Buffer, signed: bool): (r: Result<Stepped>)
    requires |f.scopes| > 0 && Modelled(o)
    ensures |code| >= OperandBytes(o) && |f.stack| < Pops(o) ==> r == Fail(StackUnderflow)
    ensures r.Ok? ==> Effect(o, f, code, r.value)
  {
    match ClassOf(o)
    case ConstantOp => PushConstant(f, o, code, signed)
    case LoadOp => Load(f, o, code)
    case StoreOp => StoreLocal(f, o, code)
    case RefStoreOp => StoreReference(f, o, code)
    case BranchOp => Branch(f, pc, o, code)
    case ExpressionOp => Expression(f, o, code)
    case ArrayStoreOp => ArrayStore(f, code)
    case IincOp => Increment(f, code, signed)
    case NewarrayOp => NewArray(f, pc, code)
    case ReturnOp => MethodReturn(methodName, f, o, code)
  }

  /** `aconst_null`, `iconst_<i>`, `bipush`, `sipush`. */
  function PushConstant(f: Frame, o: byte, code: Buffer, signed: bool): (r: Result<Stepped>)
    requires IsConstant(o)
    ensures r.Ok? ==> Moved(f, code, r.value, if o == Bipush then 1 else if o == Sipush then 2 else 0, 0, 1)
  {
    if o == 0x01 then Ok(Stepped(Push(f, Text("null")), code))
    else if o <= 0x08 then Ok(Stepped(Push(f, IntValue(o - 3)), code))
    else if o == Bipush then
      var b :- Read8(code);
      Ok(Stepped(Push(f, IntValue(if signed then Signed(b.value, 0x80) else b.value)), b.rest))
    else
      var w :- Read16(code);
      Ok(Stepped(Push(f, IntValue(if signed then Signed(w.value, 0x8000) else w.value)), w.rest))
  }

  /** The local index of a load or store: an operand byte for the long
      form, implied by the opcode for the `_<n>` forms. */
  function LocalIndex(o: byte, code: Buffer, longForm: bool, base: int): (r: Result<Read<nat>>)
    requires !longForm ==> 0 <= o - base <= 3
    ensures r.Ok? ==> |code| >= (if longForm then 1 else 0)
    ensures r.Ok? ==> r.value.rest == code[if longForm then 1 else 0..]
  {
    if longForm then
      var b :- Read8(code);
      Ok(Read(b.value as nat, b.rest))
    else Ok(Read(o - base, code))
  }

  /** `iload`, `aload` and their `_<n>` forms push the local's name. */
  function Load(f: Frame, o: byte, code: Buffer): (r: Result<Stepped>)
    requires IsLoad(o)
    ensures r.Ok? ==> Moved(f, code, r.value, if o == 0x15 || o == 0x19 then 1 else 0, 0, 1)
  {
    var index :- LocalIndex(o, code, o == 0x15 || o == 0x19, if o <= 0x1d then 0x1a else 0x2a);
    Ok(Stepped(Push(f, Text(Descriptors.LocalName(index.value))), index.rest))
  }

  /** The kind a store opcode records. */
  function StoreKind(o: byte): int
    requires IsStore(o)
  {
    if o == 0x37 then TLong else if o == 0x38 then TFloat else if o == 0x39 then TDouble else TInt
  }

  /** `istore`, `lstore`, `fstore`, `dstore`, `istore_<n>`: the local is
      declared (its C++ type given) unless the scopes already record it with
      this kind, and the kind is then recorded in the innermost scope. */
  function StoreLocal(f: Frame, o: byte, code: Buffer): (r: Result<Stepped>)
    requires IsStore(o) && |f.scopes| > 0
    ensures |f.stack| < 1 ==> r == Fail(StackUnderflow)
    ensures r.Ok? ==> Moved(f, code, r.value, if o <= 0x39 then 1 else 0, 1, 0)
  {
    var (stack, v) :- Pop(f.stack);
    var index :- LocalIndex(o, code, o <= 0x39, 0x3b);
    var kind := StoreKind(o);
    var i := index.value;
    var firstStore := FindLocal(f.scopes, i) != kind;
    var declared := if firstStore then Some(ArrayType(kind).value) else None;
    var scopes := if firstStore then Record(f.scopes, i, kind) else f.scopes;
    Ok(Stepped(Frame(stack, scopes, f.ops + [Store(declared, i, AsString(v))]), index.rest))
  }

  /** The local kind a stored reference gives its local; `int` and `long`
      values are not references. */
  function RefKind(v: Value): Option<int>
  {
    match v
    case ArrayValue(_, _, _, _) => Some(TArray)
    case Text(_) => Some(TString)
    case ObjectValue(_, _) => Some(TObject)
    case _ => None
  }

  /** The C++ type a stored reference is declared with. */
  function RefType(v: Value): string
  {
    match v
    case ArrayValue(_, elemType, _, _) => elemType
    case ObjectValue(typeName, _) => typeName
    case _ => "std::string"
  }

  /** `astore`, `astore_<n>`: the local is declared with the reference's
      C++ type unless the scopes already record it with the reference's
      kind, and the kind is then recorded in the innermost scope. An array
      brings its size, position and initialiser into the operation, a
      string its text, and an object its constructor when the local is
      declared. The C++ asserts that the value is a reference; the model
      fails with `WrongValueKind` otherwise. */
  function StoreReference(f: Frame, o: byte, code: Buffer): (r: Result<Stepped>)
    requires IsRefStore(o) && |f.scopes| > 0
    ensures |code| >= (if o == 0x3a then 1 else 0) && |f.stack| < 1 ==> r == Fail(StackUnderflow)
    ensures r.Ok? ==> Moved(f, code, r.value, if o == 0x3a then 1 else 0, 1, 0)
    ensures r.Ok? ==> |f.stack| > 0 && RefKind(f.stack[|f.stack| - 1]).Some?
  {
    var index :- LocalIndex(o, code, o == 0x3a, 0x4b);
    var (stack, v) :- Pop(f.stack);
    match RefKind(v)
    case None => Fail(WrongValueKind)
    case Some(kind) =>
      var i := index.value;
      var first := FindLocal(f.scopes, i) != kind;
      var scopes := if first then Record(f.scopes, i, kind) else f.scopes;
      Ok(Stepped(Frame(stack, scopes, f.ops + [RefStoreOf(v, i, first)]), index.rest))
  }

  /** The store operation of a reference `v` into local `i`, declaring the
      local when `first`. */
  function RefStoreOf(v: Value, i: nat, first: bool): Operation
  {
    var declared := if first then Some(RefType(v)) else None;
    var initial := if v.Text? then Some(v.text) else if v.ObjectValue? && first then Some(v.ctor) else None;
    if v.ArrayValue? then RefStore(declared, i, RefType(v), initial, Some(v.size), v.position, v.populate)
    else RefStore(declared, i, RefType(v), initial, None, 0, [])
  }

  /** `if<cond>` against `0`, `if_icmp<cond>` and `if_acmp<cond>` between
      the two top values: the target is the branch address plus the signed
      offset. */
  function Branch(f: Frame, pc: int, o: byte, code: Buffer): (r: Result<Stepped>)
    requires IsBranch(o)
    ensures |code| >= 2 && |f.stack| < (if IsIfZero(o) then 1 else 2) ==> r == Fail(StackUnderflow)
    ensures r.Ok? ==> Moved(f, code, r.value, 2, if IsIfZero(o) then 1 else 2, 0)
  {
    var offset :- ReadS16(code);
    var target := pc + offset.value;
    if IsIfZero(o) then
      var (stack, v) :- Pop(f.stack);
      Ok(Stepped(Frame(stack, f.scopes, f.ops + [Cond(AsString(v), ConditionOperator(o), "0", target)]), offset.rest))
    else
      var (stack, l, rt) :- Pop2(f.stack);
      Ok(Stepped(Frame(stack, f.scopes, f.ops + [Cond(AsString(l), ConditionOperator(o), AsString(rt), target)]), offset.rest))
  }

  /** The C++ operator of an arithmetic opcode. */
  function Symbol(o: byte): string
    requires IsBinary(o)
  {
    if o == 0x60 then "+" else if o == 0x64 then "-" else if o <= 0x6b then "*"
    else if o == 0x6c then "/" else if o == 0x70 then "%" else "&"
  }

  /** The opcodes that replace their operands by one expression (`dup`
      copies the top value instead). */
  function Expression(f: Frame, o: byte, code: Buffer): (r: Result<Stepped>)
    requires IsArrayLoad(o) || IsBinary(o) || IsUnary(o) || o == 0x59
    ensures |f.stack| < (if IsArrayLoad(o) || IsBinary(o) then 2 else 1) ==> r == Fail(StackUnderflow)
    ensures r.Ok? ==> Moved(f, code, r.value, 0, if IsArrayLoad(o) || IsBinary(o) then 2 else 1, if o == 0x59 then 2 else 1)
  {
    if IsArrayLoad(o) then
      var (stack, arr, index) :- Pop2(f.stack);
      Ok(Stepped(f.(stack := stack + [Text(AsString(arr) + "[" + AsString(index) + "]")]), code))
    else if IsBinary(o) then
      var (stack, l, rt) :- Pop2(f.stack);
      var e := "(" + AsString(l) + " " + Symbol(o) + " " + AsString(rt) + ")";
      Ok(Stepped(f.(stack := stack + [Text(e)]), code))
    else
      var (stack, v) :- Pop(f.stack);
      if o == 0x59 then Ok(Stepped(f.(stack := stack + [v, v]), code))
      else if o == 0x74 then Ok(Stepped(f.(stack := stack + [Text("-" + AsString(v))]), code))
      else if o == 0x89 then Ok(Stepped(f.(stack := stack + [Text("static_cast<float>(" + AsString(v) + ")")]), code))
      else if o == 0x8d then Ok(Stepped(f.(stack := stack + [Text("static_cast<double>(" + AsString(v) + ")")]), code))
      else if v.Text? then Ok(Stepped(f.(stack := stack + [Text(v.text + ".size()")]), code))
      else Fail(WrongValueKind)
  }

  /** `iastore` and the other array stores: into a named array an indexed
      store is emitted; into an array being initialised (a `newarray`
      followed by `dup`) the value is appended to the initialiser of the
      copy below it. */
  function ArrayStore(f: Frame, code: Buffer): (r: Result<Stepped>)
    ensures |f.stack| < 3 ==> r == Fail(StackUnderflow)
    ensures r.Ok? ==> Moved(f, code, r.value, 0, 3, 0)
  {
    var (s1, index, value) :- Pop2(f.stack);
    var (stack, arr) :- Pop(s1);
    if arr.Text? then
      Ok(Stepped(Frame(stack, f.scopes, f.ops + [IndexedStore(arr.text, AsString(index), AsString(value))]), code))
    else if arr.ArrayValue? then
      var (below, orig) :- Pop(stack);
      if orig.ArrayValue? then
        Ok(Stepped(f.(stack := below + [orig.(populate := orig.populate + [AsString(value)])]), code))
      else Fail(WrongValueKind)
    else Fail(WrongValueKind)
  }

  /** `iinc`: a local index and a constant, one byte each. */
  function Increment(f: Frame, code: Buffer, signed: bool): (r: Result<Stepped>)
    ensures r.Ok? ==> Moved(f, code, r.value, 2, 0, 0)
  {
    var index :- Read8(code);
    var c :- Read8(index.rest);
    var constant := if signed then Signed(c.value, 0x80) else c.value;
    Ok(Stepped(Emit(f, Inc(index.value, constant)), c.rest))
  }

  /** `newarray`: the count must be an `int`. The array remembers the
      address of the last byte read, its type operand (one past the
      `newarray` opcode); that address names its C++ temporary. */
  function NewArray(f: Frame, pc: int, code: Buffer): (r: Result<Stepped>)
    ensures |f.stack| < 1 ==> r == Fail(StackUnderflow)
    ensures r.Ok? ==> Moved(f, code, r.value, 1, 1, 1)
  {
    var (stack, count) :- Pop(f.stack);
    if !count.IntValue? then Fail(WrongValueKind)
    else
      var code' :- Read8(code);
      var elem :- ArrayType(code'.value);
      Ok(Stepped(f.(stack := stack + [ArrayValue(count.i, elem, pc + 1, [])]), code'.rest))
  }

  /** `return` (which returns `0` from `main`) and `ireturn`, `lreturn`,
      `freturn`, `dreturn`, `areturn`. */
  function MethodReturn(methodName: string, f: Frame, o: byte, code: Buffer): (r: Result<Stepped>)
    requires IsValueReturn(o) || o == ReturnVoid
    ensures o != ReturnVoid && |f.stack| < 1 ==> r == Fail(StackUnderflow)
    ensures r.Ok? ==> Moved(f, code, r.value, 0, if o == ReturnVoid then 0 else 1, 0)
  {
    if o == ReturnVoid then
      Ok(Stepped(Emit(f, Return(if methodName == "main" then Some("0") else None)), code))
    else
      var (stack, v) :- Pop(f.stack);
      Ok(Stepped(Frame(stack, f.scopes, f.ops + [Return(Some(AsString(v)))]), code))
  }

  /* ---------------------------------------------------------------- */
  /* A whole line                                                     */
  /* ---------------------------------------------------------------- */

  /** The `while (buffer.size())` loop over the bytes of one line, the
      first of them at address `pc`. */
  function Run(methodName: string, f: Frame, pc: int, code: Buffer, signed: bool): (r: Result<Frame>)
    requires |f.scopes| > 0
    ensures r.Ok? ==> |r.value.scopes| == |f.scopes| && f.ops <= r.value.ops
    decreases |code|
  {
    if |code| == 0 then Ok(f)
    else
      var s :- Step(methodName, f, pc, code, signed);
      Run(methodName, s.frame, pc + (|code| - |s.rest|), s.rest, signed)
  }

  /* ---------------------------------------------------------------- */
  /* Properties of single steps                                       */
  /* ---------------------------------------------------------------- */

  /** `iconst_<i>` (opcode `i + 3`, for `iconst_m1` too) pushes `i`. */
  lemma IconstPushes(methodName: string, f: Frame, pc: int, n: int, rest: Buffer, signed: bool)
    requires |f.scopes| > 0 && -1 <= n <= 5
    ensures Step(methodName, f, pc, [n + 3] + rest, signed) == Ok(Stepped(Push(f, IntValue(n)), rest))
  {
    assert ([n + 3] + rest)[1..] == rest;
  }

  /** The short forms `iload_<n>` and `aload_<n>` do what the long forms
      `iload` and `aload` do with operand `n`. */
  lemma LoadFormsAgree(methodName: string, f: Frame, pc: int, short: byte, n: byte, rest: Buffer, signed: bool)
    requires |f.scopes| > 0 && n <= 3 && (short == 0x1a || short == 0x2a)
    ensures var long := if short == 0x1a then 0x15 else 0x19;
            Step(methodName, f, pc, [short + n] + rest, signed) == Step(methodName, f, pc, [long, n] + rest, signed)
  {
    if short == 0x1a {
      IntLoadFormsAgree(methodName, f, pc, n, rest, signed);
    } else {
      RefLoadFormsAgree(methodName, f, pc, n, rest, signed);
    }
  }

  lemma IntLoadFormsAgree(methodName: string, f: Frame, pc: int, n: byte, rest: Buffer, signed: bool)
    requires |f.scopes| > 0 && n <= 3
    ensures Step(methodName, f, pc, [0x1a + n] + rest, signed) == Step(methodName, f, pc, [0x15, n] + rest, signed)
  {
    StepLoad(methodName, f, pc, 0x1a + n, rest, signed);
    StepLongLoad(methodName, f, pc, 0x15, n, rest, signed);
    IntLoadAgree(f, n, rest);
  }

  lemma RefLoadFormsAgree(methodName: string, f: Frame, pc: int, n: byte, rest: Buffer, signed: bool)
    requires |f.scopes| > 0 && n <= 3
    ensures Step(methodName, f, pc, [0x2a + n] + rest, signed) == Step(methodName, f, pc, [0x19, n] + rest, signed)
  {
    StepLoad(methodName, f, pc, 0x2a + n, rest, signed);
    StepLongLoad(methodName, f, pc, 0x19, n, rest, signed);
    RefLoadAgree(f, n, rest);
  }

  /** A load opcode goes to `Load` with its operands. */
  lemma StepLoad(methodName: string, f: Frame, pc: int, o: byte, rest: Buffer, signed: bool)
    requires |f.scopes| > 0 && IsLoad(o)
    ensures Step(methodName, f, pc, [o] + rest, signed) == Load(f, o, rest)
  {
    StepDispatch(methodName, f, pc, o, rest, signed);
  }

  lemma StepLongLoad(methodName: string, f: Frame, pc: int, o: byte, n: byte, rest: Buffer, signed: bool)
    requires |f.scopes| > 0 && (o == 0x15 || o == 0x19)
    ensures Step(methodName, f, pc, [o, n] + rest, signed) == Load(f, o, [n] + rest)
  {
    assert [o, n] + rest == [o] + ([n] + rest);
    StepLoad(methodName, f, pc, o, [n] + rest, signed);
  }

  lemma IntLoadAgree(f: Frame, n: byte, rest: Buffer)
    requires n <= 3
    ensures Load(f, 0x1a + n, rest) == Load(f, 0x15, [n] + rest)
  {
    assert ([n] + rest)[1..] == rest;
  }

  lemma RefLoadAgree(f: Frame, n: byte, rest: Buffer)
    requires n <= 3
    ensures Load(f, 0x2a + n, rest) == Load(f, 0x19, [n] + rest)
  {
    assert ([n] + rest)[1..] == rest;
  }

  /** `istore_<n>` does what `istore` does with operand `n`. */
  lemma StoreFormsAgree(methodName: string, f: Frame, pc: int, n: byte, rest: Buffer, signed: bool)
    requires |f.scopes| > 0 && n <= 3
    ensures Step(methodName, f, pc, [0x3b + n] + rest, signed) == Step(methodName, f, pc, [0x36, n] + rest, signed)
  {
    StepShortStore(methodName, f, pc, n, rest, signed);
    StepLongStore(methodName, f, pc, n, rest, signed);
    StoreLocalAgree(f, n, rest);
  }

  lemma StepShortStore(methodName: string, f: Frame, pc: int, n: byte, rest: Buffer, signed: bool)
    requires |f.scopes| > 0 && n <= 3
    ensures Step(methodName, f, pc, [0x3b + n] + rest, signed) == StoreLocal(f, 0x3b + n, rest)
  {
    StepDispatch(methodName, f, pc, 0x3b + n, rest, signed);
    StepStore(methodName, f, pc, 0x3b + n, rest, signed);
  }

  lemma StepLongStore(methodName: string, f: Frame, pc: int, n: byte, rest: Buffer, signed: bool)
    requires |f.scopes| > 0
    ensures Step(methodName, f, pc, [0x36, n] + rest, signed) == StoreLocal(f, 0x36, [n] + rest)
  {
    StepDispatch(methodName, f, pc, 0x36, [n] + rest, signed);
    assert [0x36, n] + rest == [0x36] + ([n] + rest);
    StepStore(methodName, f, pc, 0x36, [n] + rest, signed);
  }

  lemma StepStore(methodName: string, f: Frame, pc: int, o: byte, code: Buffer, signed: bool)
    requires |f.scopes| > 0 && IsStore(o)
    ensures StepModelled(methodName, f, pc, o, code, signed) == StoreLocal(f, o, code)
  {
  }

  /** A modelled opcode goes to `StepModelled` with its operands. */
  lemma StepDispatch(methodName: string, f: Frame, pc: int, o: byte, rest: Buffer, signed: bool)
    requires |f.scopes| > 0 && Modelled(o)
    ensures Step(methodName, f, pc, [o] + rest, signed) == StepModelled(methodName, f, pc, o, rest, signed)
  {
    assert ([o] + rest)[1..] == rest;
  }

  lemma StoreLocalAgree(f: Frame, n: byte, rest: Buffer)
    requires |f.scopes| > 0 && n <= 3
    ensures StoreLocal(f, 0x3b + n, rest) == StoreLocal(f, 0x36, [n] + rest)
  {
    assert ([n] + rest)[1..] == rest;
    assert LocalIndex(0x3b + n, rest, false, 0x3b) == LocalIndex(0x36, [n] + rest, true, 0x3b);
  }

  /** `istore_<n>`: the value's text is stored; the local is declared as
      `int32_t` unless the scopes already know it as an `int`; afterwards
      they do, and every other local keeps its kind. */
  lemma StoreRecordsKind(methodName: string, f: Frame, pc: int, n: byte, v: Value, rest: Buffer, signed: bool, other: int)
    requires |f.scopes| > 0 && n <= 3 && |f.stack| > 0 && f.stack[|f.stack| - 1] == v
    ensures var r := Step(methodName, f, pc, [0x3b + n] + rest, signed);
            && r.Ok? && r.value.rest == rest
            && r.value.frame.stack == f.stack[..|f.stack| - 1]
            && r.value.frame.ops == f.ops + [Store(if FindLocal(f.scopes, n) == TInt then None else Some("int32_t"), n, AsString(v))]
            && FindLocal(r.value.frame.scopes, n) == TInt
            && (other != n ==> FindLocal(r.value.frame.scopes, other) == FindLocal(f.scopes, other))
  {
    StepDispatch(methodName, f, pc, 0x3b + n, rest, signed);
    StepStore(methodName, f, pc, 0x3b + n, rest, signed);
    StoreShort(f, n, v, rest);
    RecordFind(f.scopes, n, TInt, other);
  }

  lemma StoreShort(f: Frame, n: byte, v: Value, rest: Buffer)
    requires |f.scopes| > 0 && n <= 3 && |f.stack| > 0 && f.stack[|f.stack| - 1] == v
    ensures var first := FindLocal(f.scopes, n) != TInt;
            StoreLocal(f, 0x3b + n, rest) ==
              Ok(Stepped(Frame(f.stack[..|f.stack| - 1],
                               if first then Record(f.scopes, n, TInt) else f.scopes,
                               f.ops + [Store(if first then Some("int32_t") else None, n, AsString(v))]), rest))
  {
    assert Pop(f.stack) == Ok((f.stack[..|f.stack| - 1], v));
    assert LocalIndex(0x3b + n, rest, false, 0x3b) == Ok(Read(n as nat, rest));
    assert StoreKind(0x3b + n) == TInt;
  }

  /** Storing twice into the same local declares it at most once. */
  lemma StoreTwice(methodName: string, f: Frame, pc: int, n: byte, v: Value, w: Value, rest: Buffer, signed: bool)
    requires |f.scopes| > 0 && n <= 3 && |f.stack| >= 2
    requires f.stack[|f.stack| - 1] == v && f.stack[|f.stack| - 2] == w
    ensures var first := Step(methodName, f, pc, [0x3b + n] + rest, signed);
            && first.Ok?
            && var second := Step(methodName, first.value.frame, pc + 1, [0x3b + n] + rest, signed);
            && second.Ok?
            && second.value.frame.ops[|second.value.frame.ops| - 1] == Store(None, n, AsString(w))
  {
    var g := StoreThenTop(methodName, f, pc, n, v, w, rest, signed);
    StoreKnownLocal(methodName, g, pc + 1, n, w, rest, signed);
  }

  /** After `istore_<n>` the local is known as an `int` and the value below
      the stored one is on top. */
  lemma StoreThenTop(methodName: string, f: Frame, pc: int, n: byte, v: Value, w: Value, rest: Buffer, signed: bool) returns (g: Frame)
    requires |f.scopes| > 0 && n <= 3 && |f.stack| >= 2
    requires f.stack[|f.stack| - 1] == v && f.stack[|f.stack| - 2] == w
    ensures Step(methodName, f, pc, [0x3b + n] + rest, signed) == Ok(Stepped(g, rest))
    ensures |g.scopes| > 0 && |g.stack| > 0 && g.stack[|g.stack| - 1] == w && FindLocal(g.scopes, n) == TInt
  {
    StepShortStore(methodName, f, pc, n, rest, signed);
    g := StoreLocalThenTop(f, n, v, w, rest);
  }

  lemma StoreLocalThenTop(f: Frame, n: byte, v: Value, w: Value, rest: Buffer) returns (g: Frame)
    requires |f.scopes| > 0 && n <= 3 && |f.stack| >= 2
    requires f.stack[|f.stack| - 1] == v && f.stack[|f.stack| - 2] == w
    ensures StoreLocal(f, 0x3b + n, rest) == Ok(Stepped(g, rest))
    ensures |g.scopes| > 0 && |g.stack| > 0 && g.stack[|g.stack| - 1] == w && FindLocal(g.scopes, n) == TInt
  {
    StoreShort(f, n, v, rest);
    var first := FindLocal(f.scopes, n) != TInt;
    RecordFind(f.scopes, n, TInt, n);
    g := Frame(f.stack[..|f.stack| - 1],
               if first then Record(f.scopes, n, TInt) else f.scopes,
               f.ops + [Store(if first then Some("int32_t") else None, n, AsString(v))]);
  }

  /** Storing into a local the scopes already know as an `int` declares
      nothing. */
  lemma StoreKnownLocal(methodName: string, g: Frame, pc: int, n: byte, w: Value, rest: Buffer, signed: bool)
    requires |g.scopes| > 0 && n <= 3 && |g.stack| > 0 && g.stack[|g.stack| - 1] == w
    requires FindLocal(g.scopes, n) == TInt
    ensures var second := Step(methodName, g, pc, [0x3b + n] + rest, signed);
            && second.Ok?
            && second.value.frame.ops[|second.value.frame.ops| - 1] == Store(None, n, AsString(w))
  {
    StoreRecordsKind(methodName, g, pc, n, w, rest, signed, n);
  }

  /** An expression opcode goes to `Expression` with its operands. */
  lemma StepExpression(methodName: string, f: Frame, pc: int, o: byte, rest: Buffer, signed: bool)
    requires |f.scopes| > 0 && (IsArrayLoad(o) || IsBinary(o) || IsUnary(o) || o == 0x59)
    ensures Step(methodName, f, pc, [o] + rest, signed) == Expression(f, o, rest)
  {
    StepDispatch(methodName, f, pc, o, rest, signed);
    ModelledExpression(methodName, f, pc, o, rest, signed);
  }

  lemma ModelledExpression(methodName: string, f: Frame, pc: int, o: byte, code: Buffer, signed: bool)
    requires |f.scopes| > 0 && (IsArrayLoad(o) || IsBinary(o) || IsUnary(o) || o == 0x59)
    ensures StepModelled(methodName, f, pc, o, code, signed) == Expression(f, o, code)
  {
  }

  lemma ModelledArrayStore(methodName: string, f: Frame, pc: int, o: byte, code: Buffer, signed: bool)
    requires |f.scopes| > 0 && IsArrayStore(o)
    ensures StepModelled(methodName, f, pc, o, code, signed) == ArrayStore(f, code)
  {
  }

  lemma ModelledReturn(methodName: string, f: Frame, pc: int, o: byte, code: Buffer, signed: bool)
    requires |f.scopes| > 0 && (IsValueReturn(o) || o == ReturnVoid)
    ensures StepModelled(methodName, f, pc, o, code, signed) == MethodReturn(methodName, f, o, code)
  {
  }

  lemma ModelledRefStore(methodName: string, f: Frame, pc: int, o: byte, code: Buffer, signed: bool)
    requires |f.scopes| > 0 && IsRefStore(o)
    ensures StepModelled(methodName, f, pc, o, code, signed) == StoreReference(f, o, code)
  {
  }

  /** `astore <n>` and `astore_<n>` do the same. */
  lemma RefStoreFormsAgree(methodName: string, f: Frame, pc: int, n: byte, rest: Buffer, signed: bool)
    requires |f.scopes| > 0 && n <= 3
    ensures Step(methodName, f, pc, [0x4b + n] + rest, signed) == Step(methodName, f, pc, [0x3a, n] + rest, signed)
  {
    StepRefStore(methodName, f, pc, 0x4b + n, rest, signed);
    assert [0x3a, n] + rest == [0x3a] + ([n] + rest);
    StepRefStore(methodName, f, pc, 0x3a, [n] + rest, signed);
    StoreReferenceAgree(f, n, rest);
  }

  lemma StepRefStore(methodName: string, f: Frame, pc: int, o: byte, rest: Buffer, signed: bool)
    requires |f.scopes| > 0 && IsRefStore(o)
    ensures Step(methodName, f, pc, [o] + rest, signed) == StoreReference(f, o, rest)
  {
    StepDispatch(methodName, f, pc, o, rest, signed);
    ModelledRefStore(methodName, f, pc, o, rest, signed);
  }

  lemma StoreReferenceAgree(f: Frame, n: byte, rest: Buffer)
    requires |f.scopes| > 0 && n <= 3
    ensures StoreReference(f, 0x4b + n, rest) == StoreReference(f, 0x3a, [n] + rest)
  {
    assert ([n] + rest)[1..] == rest;
    assert LocalIndex(0x4b + n, rest, false, 0x4b) == LocalIndex(0x3a, [n] + rest, true, 0x4b);
  }

  /** `astore_<n>` of a reference: the local is declared with the
      reference's type unless the scopes already know it with the same
      kind; afterwards they do, and every other local keeps its kind. A
      stored array keeps the size, position and initialiser `newarray` and
      the array stores gave it. An `int` or `long` is refused. */
  lemma RefStoreRecordsKind(methodName: string, f: Frame, pc: int, n: byte, v: Value, rest: Buffer, signed: bool, other: int)
    requires |f.scopes| > 0 && n <= 3 && |f.stack| > 0 && f.stack[|f.stack| - 1] == v
    ensures RefKind(v).None? ==> Step(methodName, f, pc, [0x4b + n] + rest, signed) == Fail(WrongValueKind)
    ensures RefKind(v).Some? ==>
              var r := Step(methodName, f, pc, [0x4b + n] + rest, signed);
              var first := FindLocal(f.scopes, n) != RefKind(v).value;
              && r.Ok? && r.value.rest == rest
              && r.value.frame.stack == f.stack[..|f.stack| - 1]
              && |r.value.frame.ops| == |f.ops| + 1
              && var op := r.value.frame.ops[|f.ops|];
              && op.RefStore? && op.index == n && op.refType == RefType(v)
              && op.declared == (if first then Some(RefType(v)) else None)
              && (v.ArrayValue? ==> op.size == Some(v.size) && op.position == v.position && op.populate == v.populate)
              && (v.Text? ==> op.initial == Some(v.text))
              && FindLocal(r.value.frame.scopes, n) == RefKind(v).value
              && (other != n ==> FindLocal(r.value.frame.scopes, other) == FindLocal(f.scopes, other))
  {
    StepRefStore(methodName, f, pc, 0x4b + n, rest, signed);
    StoreReferenceRecords(f, n, v, rest, other);
  }

  lemma StoreReferenceRecords(f: Frame, n: byte, v: Value, rest: Buffer, other: int)
    requires |f.scopes| > 0 && n <= 3 && |f.stack| > 0 && f.stack[|f.stack| - 1] == v
    ensures RefKind(v).None? ==> StoreReference(f, 0x4b + n, rest) == Fail(WrongValueKind)
    ensures RefKind(v).Some? ==>
              var r := StoreReference(f, 0x4b + n, rest);
              var first := FindLocal(f.scopes, n) != RefKind(v).value;
              && r.Ok? && r.value.rest == rest
              && r.value.frame.stack == f.stack[..|f.stack| - 1]
              && |r.value.frame.ops| == |f.ops| + 1
              && var op := r.value.frame.ops[|f.ops|];
              && op.RefStore? && op.index == n && op.refType == RefType(v)
              && op.declared == (if first then Some(RefType(v)) else None)
              && (v.ArrayValue? ==> op.size == Some(v.size) && op.position == v.position && op.populate == v.populate)
              && (v.Text? ==> op.initial == Some(v.text))
              && FindLocal(r.value.frame.scopes, n) == RefKind(v).value
              && (other != n ==> FindLocal(r.value.frame.scopes, other) == FindLocal(f.scopes, other))
  {
    StoreReferenceShort(f, n, v, rest);
    if RefKind(v).Some? {
      var first := FindLocal(f.scopes, n) != RefKind(v).value;
      RecordFind(f.scopes, n, RefKind(v).value, other);
      RefStoreOfFields(v, n as nat, first);
      assert (f.ops + [RefStoreOf(v, n as nat, first)])[|f.ops|] == RefStoreOf(v, n as nat, first);
    }
  }

  lemma RefStoreOfFields(v: Value, i: nat, first: bool)
    ensures var op := RefStoreOf(v, i, first);
            && op.RefStore? && op.index == i && op.refType == RefType(v)
            && op.declared == (if first then Some(RefType(v)) else None)
            && (v.ArrayValue? ==> op.size == Some(v.size) && op.position == v.position && op.populate == v.populate)
            && (v.Text? ==> op.initial == Some(v.text))
  {
  }

  lemma StoreReferenceShort(f: Frame, n: byte, v: Value, rest: Buffer)
    requires |f.scopes| > 0 && n <= 3 && |f.stack| > 0 && f.stack[|f.stack| - 1] == v
    ensures RefKind(v).None? ==> StoreReference(f, 0x4b + n, rest) == Fail(WrongValueKind)
    ensures RefKind(v).Some? ==>
              var first := FindLocal(f.scopes, n) != RefKind(v).value;
              StoreReference(f, 0x4b + n, rest) ==
                Ok(Stepped(Frame(f.stack[..|f.stack| - 1],
                                 if first then Record(f.scopes, n, RefKind(v).value) else f.scopes,
                                 f.ops + [RefStoreOf(v, n, first)]), rest))
  {
  }

  /** `if<cond>` with a signed offset emits the negated comparison of the
      top value with `0`, aimed at the branch address plus the offset. */
  lemma IfZeroEmits(methodName: string, f: Frame, pc: int, o: byte, offset: int, rest: Buffer, signed: bool)
    requires |f.scopes| > 0 && IsIfZero(o) && |f.stack| > 0
    requires -0x8000 <= offset < 0x8000
    ensures var v := f.stack[|f.stack| - 1];
            Step(methodName, f, pc, [o] + Be16(Unsigned(offset, 0x8000)) + rest, signed) ==
              Ok(Stepped(Frame(f.stack[..|f.stack| - 1], f.scopes,
                               f.ops + [Cond(AsString(v), ConditionOperator(o), "0", pc + offset)]), rest))
  {
    var code := Be16(Unsigned(offset, 0x8000)) + rest;
    ReadS16RoundTrip(offset, rest);
    assert Branch(f, pc, o, code) == Ok(Stepped(Frame(f.stack[..|f.stack| - 1], f.scopes,
                               f.ops + [Cond(AsString(f.stack[|f.stack| - 1]), ConditionOperator(o), "0", pc + offset)]), rest));
    assert ([o] + code)[1..] == code;
    assert StepModelled(methodName, f, pc, o, code, signed) == Branch(f, pc, o, code);
  }

  /** `if_icmp<cond>` and `if_acmp<cond>` compare the second value from the
      top (left) with the top one (right). */
  lemma IfCompareEmits(methodName: string, f: Frame, pc: int, o: byte, offset: int, rest: Buffer, signed: bool)
    requires |f.scopes| > 0 && IsIfCompare(o) && |f.stack| > 1
    requires -0x8000 <= offset < 0x8000
    ensures var l, r := f.stack[|f.stack| - 2], f.stack[|f.stack| - 1];
            Step(methodName, f, pc, [o] + Be16(Unsigned(offset, 0x8000)) + rest, signed) ==
              Ok(Stepped(Frame(f.stack[..|f.stack| - 2], f.scopes,
                               f.ops + [Cond(AsString(l), ConditionOperator(o), AsString(r), pc + offset)]), rest))
  {
    var code := Be16(Unsigned(offset, 0x8000)) + rest;
    ReadS16RoundTrip(offset, rest);
    assert Branch(f, pc, o, code) == Ok(Stepped(Frame(f.stack[..|f.stack| - 2], f.scopes,
                               f.ops + [Cond(AsString(f.stack[|f.stack| - 2]), ConditionOperator(o), AsString(f.stack[|f.stack| - 1]), pc + offset)]), rest));
    assert ([o] + code)[1..] == code;
    assert StepModelled(methodName, f, pc, o, code, signed) == Branch(f, pc, o, code);
  }

  /** `newarray` turns an `int` count into an empty array of the element
      type `getType` gives, remembered at the address of its type operand
      (the `newarray` address plus one); an unknown type code fails. */
  lemma NewArrayPushes(methodName: string, f: Frame, pc: int, n: int, code: byte, rest: Buffer, signed: bool)
    requires |f.scopes| > 0 && |f.stack| > 0 && f.stack[|f.stack| - 1] == IntValue(n)
    ensures var r := Step(methodName, f, pc, [Newarray, code] + rest, signed);
            && (r.Ok? <==> TBoolean <= code <= TLong)
            && (r.Ok? ==> r.value == Stepped(f.(stack := f.stack[..|f.stack| - 1] + [ArrayValue(n, ArrayType(code).value, pc + 1, [])]), rest))
            && (r.Fail? ==> r.error == InvalidArrayType(code))
  {
    assert ([Newarray, code] + rest)[1..] == [code] + rest;
    assert ([code] + rest)[1..] == rest;
  }

  /** `iconst_<n>; newarray` as a whole line at address `pc` leaves one
      empty array of `n` elements remembered at `pc + 2`: for
      `iconst_5; newarray int` at address 0 its temporary is `temp_2`. */
  lemma NewArrayInLine(methodName: string, f: Frame, pc: int, n: int, code: byte, signed: bool)
    requires |f.scopes| > 0 && -1 <= n <= 5 && TBoolean <= code <= TLong
    ensures Run(methodName, f, pc, [n + 3, Newarray, code], signed) ==
              Ok(f.(stack := f.stack + [ArrayValue(n, ArrayType(code).value, pc + 2, [])]))
  {
    var f1 := Push(f, IntValue(n));
    var f2 := f.(stack := f.stack + [ArrayValue(n, ArrayType(code).value, pc + 2, [])]);
    IconstLine(methodName, f, pc, n, code, signed);
    RunStep(methodName, f, pc, [n + 3, Newarray, code], signed, Stepped(f1, [Newarray, code]));
    NewArrayLine(methodName, f, f1, pc + 1, n, code, signed);
    RunStep(methodName, f1, pc + 1, [Newarray, code], signed, Stepped(f2, []));
  }

  lemma IconstLine(methodName: string, f: Frame, pc: int, n: int, code: byte, signed: bool)
    requires |f.scopes| > 0 && -1 <= n <= 5
    ensures Step(methodName, f, pc, [n + 3, Newarray, code], signed) == Ok(Stepped(Push(f, IntValue(n)), [Newarray, code]))
  {
    assert [n + 3, Newarray, code] == [n + 3] + [Newarray, code];
    IconstPushes(methodName, f, pc, n, [Newarray, code], signed);
  }

  lemma NewArrayLine(methodName: string, f: Frame, f1: Frame, pc: int, n: int, code: byte, signed: bool)
    requires |f.scopes| > 0 && f1 == Push(f, IntValue(n)) && TBoolean <= code <= TLong
    ensures |f1.scopes| > 0
    ensures Step(methodName, f1, pc, [Newarray, code], signed) ==
              Ok(Stepped(f.(stack := f.stack + [ArrayValue(n, ArrayType(code).value, pc + 1, [])]), []))
  {
    assert [Newarray, code] == [Newarray, code] + [];
    NewArrayPushes(methodName, f1, pc, n, code, [], signed);
    assert f1.stack[..|f1.stack| - 1] == f.stack;
  }

  /** A line is its first step followed by the rest of the line. */
  lemma RunStep(methodName: string, f: Frame, pc: int, code: Buffer, signed: bool, s: Stepped)
    requires |f.scopes| > 0 && |code| > 0
    requires Step(methodName, f, pc, code, signed) == Ok(s)
    ensures |s.frame.scopes| > 0
    ensures Run(methodName, f, pc, code, signed) == Run(methodName, s.frame, pc + (|code| - |s.rest|), s.rest, signed)
  {
    StepKeepsScopes(methodName, f, pc, code, signed, s);
  }

  /** A step never opens or closes a scope, and reads at least its opcode. */
  lemma StepKeepsScopes(methodName: string, f: Frame, pc: int, code: Buffer, signed: bool, s: Stepped)
    requires |f.scopes| > 0
    requires Step(methodName, f, pc, code, signed) == Ok(s)
    ensures |s.frame.scopes| == |f.scopes| && |s.rest| < |code|
  {
    var o := code[0];
    assert Effect(o, f, code[1..], s);
  }

  /** `dup`, an index, a value and an array store fill in the next item of
      the initialiser of the array being built. */
  lemma ArrayStorePopulates(methodName: string, f: Frame, pc: int, o: byte, s: seq<Value>, arr: Value, index: Value, value: Value, rest: Buffer, signed: bool)
    requires |f.scopes| > 0 && IsArrayStore(o) && arr.ArrayValue?
    requires f.stack == s + [arr, arr, index, value]
    ensures Step(methodName, f, pc, [o] + rest, signed) ==
              Ok(Stepped(f.(stack := s + [arr.(populate := arr.populate + [AsString(value)])]), rest))
  {
    StepDispatch(methodName, f, pc, o, rest, signed);
    ModelledArrayStore(methodName, f, pc, o, rest, signed);
    assert f.stack[..|f.stack| - 2] == s + [arr, arr];
    assert (s + [arr, arr])[..|s| + 1] == s + [arr];
    assert (s + [arr])[..|s|] == s;
  }

  /** An arithmetic opcode pops the right operand, then the left one, and
      pushes the parenthesised C++ expression: `iadd` is `+`, `isub` `-`,
      `imul`, `lmul`, `fmul` and `dmul` are `*`, `idiv` `/`, `irem` `%`
      and `iand` `&`. */
  lemma BinaryPushes(methodName: string, f: Frame, pc: int, o: byte, s: seq<Value>, l: Value, r: Value, rest: Buffer, signed: bool)
    requires |f.scopes| > 0 && IsBinary(o) && f.stack == s + [l, r]
    ensures Step(methodName, f, pc, [o] + rest, signed) ==
              Ok(Stepped(f.(stack := s + [Text("(" + AsString(l) + " " + Symbol(o) + " " + AsString(r) + ")")]), rest))
    ensures o == 0x60 ==> Symbol(o) == "+"
    ensures o == 0x64 ==> Symbol(o) == "-"
    ensures 0x68 <= o <= 0x6b ==> Symbol(o) == "*"
    ensures o == 0x6c ==> Symbol(o) == "/"
    ensures o == 0x70 ==> Symbol(o) == "%"
    ensures o == 0x7e ==> Symbol(o) == "&"
  {
    StepExpression(methodName, f, pc, o, rest, signed);
    assert f.stack[..|f.stack| - 2] == s;
  }

  /** An array load pops the index, then the array, and pushes `a[i]`. */
  lemma ArrayLoadPushes(methodName: string, f: Frame, pc: int, o: byte, s: seq<Value>, arr: Value, index: Value, rest: Buffer, signed: bool)
    requires |f.scopes| > 0 && IsArrayLoad(o) && f.stack == s + [arr, index]
    ensures Step(methodName, f, pc, [o] + rest, signed) ==
              Ok(Stepped(f.(stack := s + [Text(AsString(arr) + "[" + AsString(index) + "]")]), rest))
  {
    StepExpression(methodName, f, pc, o, rest, signed);
    assert f.stack[..|f.stack| - 2] == s;
  }

  /** `ineg` pushes `-v`; `l2f` and `f2d` wrap the value in a
      `static_cast` to `float` and `double`. */
  lemma UnaryPushes(methodName: string, f: Frame, pc: int, o: byte, s: seq<Value>, v: Value, rest: Buffer, signed: bool)
    requires |f.scopes| > 0 && (o == 0x74 || o == 0x89 || o == 0x8d) && f.stack == s + [v]
    ensures var e := if o == 0x74 then "-" + AsString(v)
                     else if o == 0x89 then "static_cast<float>(" + AsString(v) + ")"
                     else "static_cast<double>(" + AsString(v) + ")";
            Step(methodName, f, pc, [o] + rest, signed) == Ok(Stepped(f.(stack := s + [Text(e)]), rest))
  {
    StepExpression(methodName, f, pc, o, rest, signed);
    assert f.stack[..|f.stack| - 1] == s;
  }

  /** `arraylength` of a named array pushes `name.size()`; a value that is
      not text is the wrong alternative for the C++ `std::get`. */
  lemma ArrayLengthPushes(methodName: string, f: Frame, pc: int, s: seq<Value>, v: Value, rest: Buffer, signed: bool)
    requires |f.scopes| > 0 && f.stack == s + [v]
    ensures v.Text? ==> Step(methodName, f, pc, [0xbe] + rest, signed) ==
                          Ok(Stepped(f.(stack := s + [Text(v.text + ".size()")]), rest))
    ensures !v.Text? ==> Step(methodName, f, pc, [0xbe] + rest, signed) == Fail(WrongValueKind)
  {
    StepExpression(methodName, f, pc, 0xbe, rest, signed);
    assert f.stack[..|f.stack| - 1] == s;
  }

  /** `dup` leaves the top value twice. */
  lemma DupPushes(methodName: string, f: Frame, pc: int, v: Value, rest: Buffer, signed: bool)
    requires |f.scopes| > 0 && |f.stack| > 0 && f.stack[|f.stack| - 1] == v
    ensures Step(methodName, f, pc, [0x59] + rest, signed) == Ok(Stepped(f.(stack := f.stack + [v]), rest))
  {
    StepExpression(methodName, f, pc, 0x59, rest, signed);
    DupExpression(f, v, rest);
  }

  lemma DupExpression(f: Frame, v: Value, rest: Buffer)
    requires |f.stack| > 0 && f.stack[|f.stack| - 1] == v
    ensures Expression(f, 0x59, rest) == Ok(Stepped(f.(stack := f.stack + [v]), rest))
  {
    assert f.stack[..|f.stack| - 1] + [v, v] == f.stack + [v];
  }

  /** A value return pops the value and emits a return of its text; `return`
      emits a bare return, except in `main`, which returns `0`. */
  lemma ReturnEmits(methodName: string, f: Frame, pc: int, o: byte, s: seq<Value>, v: Value, rest: Buffer, signed: bool)
    requires |f.scopes| > 0 && f.stack == s + [v] && (IsValueReturn(o) || o == ReturnVoid)
    ensures IsValueReturn(o) ==> Step(methodName, f, pc, [o] + rest, signed) ==
                                   Ok(Stepped(Frame(s, f.scopes, f.ops + [Return(Some(AsString(v)))]), rest))
    ensures o == ReturnVoid ==> Step(methodName, f, pc, [o] + rest, signed) ==
                                  Ok(Stepped(Emit(f, Return(if methodName == "main" then Some("0") else None)), rest))
  {
    StepDispatch(methodName, f, pc, o, rest, signed);
    ModelledReturn(methodName, f, pc, o, rest, signed);
    assert f.stack[..|f.stack| - 1] == s;
  }

  /* ---------------------------------------------------------------- */
  /* Signed immediates                                                */
  /* ---------------------------------------------------------------- */

  /** As written, `bipush -1` pushes 255: the C++ reads the operand
      unsigned, where the JVM sign-extends it. */
  lemma BipushAsWritten(methodName: string, f: Frame, pc: int, rest: Buffer)
    requires |f.scopes| > 0
    ensures Step(methodName, f, pc, [Bipush, 0xFF] + rest, false) == Ok(Stepped(Push(f, IntValue(255)), rest))
    ensures Signed(0xFF, 0x80) == -1
  {
    assert ([Bipush, 0xFF] + rest)[1..] == [0xFF] + rest;
    assert Step(methodName, f, pc, [Bipush, 0xFF] + rest, false) == PushConstant(f, Bipush, [0xFF] + rest, false);
    assert ([0xFF] + rest)[1..] == rest;
  }

  /** As written, `sipush -1` pushes 65535. */
  lemma SipushAsWritten(methodName: string, f: Frame, pc: int, rest: Buffer)
    requires |f.scopes| > 0
    ensures Step(methodName, f, pc, [Sipush, 0xFF, 0xFF] + rest, false) == Ok(Stepped(Push(f, IntValue(65535)), rest))
    ensures Signed(0xFFFF, 0x8000) == -1
  {
    assert ([Sipush, 0xFF, 0xFF] + rest)[1..] == Be16(0xFFFF) + rest;
    assert Step(methodName, f, pc, [Sipush, 0xFF, 0xFF] + rest, false) == PushConstant(f, Sipush, Be16(0xFFFF) + rest, false);
    Read16Be16(0xFFFF, rest);
  }

  /** As written, `iinc` by -1 becomes `+= 255`. */
  lemma IincAsWritten(methodName: string, f: Frame, pc: int, n: byte, rest: Buffer)
    requires |f.scopes| > 0
    ensures Step(methodName, f, pc, [Iinc, n, 0xFF] + rest, false) == Ok(Stepped(Emit(f, Inc(n, 255)), rest))
  {
    assert ([Iinc, n, 0xFF] + rest)[1..] == [n, 0xFF] + rest;
    assert Step(methodName, f, pc, [Iinc, n, 0xFF] + rest, false) == Increment(f, [n, 0xFF] + rest, false);
    assert ([n, 0xFF] + rest)[1..] == [0xFF] + rest;
    assert ([0xFF] + rest)[1..] == rest;
  }

  /** Read signed, as the JVM defines it, the immediate of `bipush` gives
      back the value it encodes. */
  lemma BipushRoundTrip(methodName: string, f: Frame, pc: int, b: int, rest: Buffer)
    requires |f.scopes| > 0 && -0x80 <= b < 0x80
    ensures Step(methodName, f, pc, [Bipush, Unsigned(b, 0x80)] + rest, true) == Ok(Stepped(Push(f, IntValue(b)), rest))
  {
    var ub := Unsigned(b, 0x80);
    assert ([Bipush, ub] + rest)[1..] == [ub] + rest;
    assert Step(methodName, f, pc, [Bipush, ub] + rest, true) == PushConstant(f, Bipush, [ub] + rest, true);
    assert ([ub] + rest)[1..] == rest;
  }

  /** The same for the two-byte immediate of `sipush`. */
  lemma SipushRoundTrip(methodName: string, f: Frame, pc: int, w: int, rest: Buffer)
    requires |f.scopes| > 0 && -0x8000 <= w < 0x8000
    ensures Step(methodName, f, pc, [Sipush] + Be16(Unsigned(w, 0x8000)) + rest, true) == Ok(Stepped(Push(f, IntValue(w)), rest))
  {
    var uw := Unsigned(w, 0x8000);
    assert ([Sipush] + Be16(uw) + rest)[1..] == Be16(uw) + rest;
    assert Step(methodName, f, pc, [Sipush] + Be16(uw) + rest, true) == PushConstant(f, Sipush, Be16(uw) + rest, true);
    Read16Be16(uw, rest);
  }

  /** The same for the constant of `iinc`. */
  lemma IincRoundTrip(methodName: string, f: Frame, pc: int, n: byte, b: int, rest: Buffer)
    requires |f.scopes| > 0 && -0x80 <= b < 0x80
    ensures Step(methodName, f, pc, [Iinc, n, Unsigned(b, 0x80)] + rest, true) == Ok(Stepped(Emit(f, Inc(n, b)), rest))
  {
    var ub := Unsigned(b, 0x80);
    assert ([Iinc, n, ub] + rest)[1..] == [n, ub] + rest;
    assert ([n, ub] + rest)[1..] == [ub] + rest;
    assert ([ub] + rest)[1..] == rest;
    assert Increment(f, [n, ub] + rest, true) == Ok(Stepped(Emit(f, Inc(n, b)), rest));
    assert StepModelled(methodName, f, pc, Iinc, [n, ub] + rest, true) == Increment(f, [n, ub] + rest, true);
  }

  /** On non-negative immediates the two readings agree. */
  lemma ImmediatesAgreeWhenNonNegative(methodName: string, f: Frame, pc: int, code: Buffer)
    requires |f.scopes| > 0 && |code| >= 3
    requires code[0] == Bipush ==> code[1] < 0x80
    requires code[0] == Sipush ==> code[1] < 0x80
    requires code[0] == Iinc ==> code[2] < 0x80
    ensures Step(methodName, f, pc, code, false) == Step(methodName, f, pc, code, true)
  {
    if code[0] == Sipush {
      var w: u16 := code[1] as int * 0x100 + code[2] as int;
      assert code[1..] == Be16(w) + code[3..];
      Read16Be16(w, code[3..]);
    }
  }
}
