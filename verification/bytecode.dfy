/** The symbolic operand stack of `decodeBytecodeLine` (classfile.cpp) for
    the opcodes that need neither the constant pool nor the rest of the
    method: each opcode pops C++ expressions (as text) or values, pushes the
    expression it builds, and may emit an `Operation` that later becomes a
    C++ statement. Also the tables the decoder relies on: `getType` for the
    `newarray` element codes, `invertBinaryOperator`, the comparison each
    conditional branch emits, and `getAsString`.

    The opcode numbers, operand sizes and stack effects are those of The
    Java Virtual Machine Specification, chapter 6. */
module Bytecode {
  import opened Wrappers
  import opened Bytes
  import opened Strings
  import Numerals
  import Descriptors
  import opened MethodContext

  /* ---------------------------------------------------------------- */
  /* Values and getAsString                                           */
  /* ---------------------------------------------------------------- */

  /** `Value` of classfile.h without its `float` and `double` alternatives. */
  datatype Value =
    | IntValue(i: int)                       // int32_t
    | LongValue(l: int)                      // int64_t
    | Text(text: string)                     // std::string: a C++ expression
    | ArrayValue(size: int, elemType: string, position: int, populate: seq<string>)
    | ObjectValue(typeName: string, ctor: string)

  /** `getAsString`: a number is written as its numeral, ending in a digit
      for an `int` and in `L` for a `long`; an expression is itself; an
      array is the braced initialiser of its items. */
  function AsString(v: Value): (r: string)
    ensures |r| >= 1 || v.Text? || v.ObjectValue?
    ensures v.IntValue? ==> '0' <= r[|r| - 1] <= '9'
    ensures v.LongValue? ==> |r| >= 2 && r[|r| - 1] == 'L'
    ensures v.Text? ==> r == v.text
    ensures v.ArrayValue? ==> |r| >= 4 && r[..2] == "{ " && r[|r| - 2..] == " }"
  {
    match v
    case IntValue(i) => Numerals.Decimal(i)
    case LongValue(l) => Numerals.Decimal(l) + "L"
    case Text(s) => s
    case ArrayValue(_, _, _, items) => "{ " + Join(items, ", ") + " }"
    case ObjectValue(t, _) => t
  }

  /** An `int` is written as its decimal numeral, which reads back. */
  lemma IntAsString(i: int)
    ensures Numerals.ParseDecimal(AsString(IntValue(i))) == i
  {
    Numerals.DecimalRoundTrip(i);
  }

  /** A `long` is written with an `L` suffix, and the numeral before it
      reads back; so an `int` and a `long` never print alike. */
  lemma LongAsString(l: int, i: int)
    ensures var s := AsString(LongValue(l));
            && |s| >= 2 && s[|s| - 1] == 'L'
            && Numerals.ParseDecimal(s[..|s| - 1]) == l
    ensures AsString(IntValue(i)) != AsString(LongValue(l))
  {
    var s := AsString(LongValue(l));
    assert s[..|s| - 1] == Numerals.Decimal(l);
    Numerals.DecimalRoundTrip(l);
    var t := AsString(IntValue(i));
    assert '0' <= t[|t| - 1] <= '9';
  }

  /** An array initialiser is its items between `{ ` and ` }`, separated by
      `, `; items without commas are read back from it. */
  lemma ArrayAsString(v: Value)
    requires v.ArrayValue? && |v.populate| > 0
    requires forall k :: 0 <= k < |v.populate| ==> ',' !in v.populate[k]
    ensures var s := AsString(v);
            && |s| >= 4 && s[..2] == "{ " && s[|s| - 2..] == " }"
            && SplitList(s[2..|s| - 2]) == v.populate
  {
    var s := AsString(v);
    var inner := Join(v.populate, ", ");
    assert s == "{ " + inner + " }";
    assert s[2..|s| - 2] == inner;
    SplitListJoin(v.populate);
  }

  /* ---------------------------------------------------------------- */
  /* getType                                                          */
  /* ---------------------------------------------------------------- */

  /** `getType`: the C++ element type of a `newarray` type code. */
  function ArrayType(code: int): (r: Result<string>)
    ensures r.Ok? <==> TBoolean <= code <= TLong
    ensures r.Fail? ==> r.error == InvalidArrayType(code)
  {
    if code == TBoolean then Ok("bool")
    else if code == TChar then Ok("char")
    else if code == TFloat then Ok("float")
    else if code == TDouble then Ok("double")
    else if code == TByte then Ok("int8_t")
    else if code == TShort then Ok("int16_t")
    else if code == TInt then Ok("int32_t")
    else if code == TLong then Ok("int64_t")
    else Fail(InvalidArrayType(code))
  }

  /** The code a C++ element type comes from (the inverse table). */
  function ArrayTypeCode(name: string): Option<int>
  {
    if name == "bool" then Some(TBoolean)
    else if name == "char" then Some(TChar)
    else if name == "float" then Some(TFloat)
    else if name == "double" then Some(TDouble)
    else if name == "int8_t" then Some(TByte)
    else if name == "int16_t" then Some(TShort)
    else if name == "int32_t" then Some(TInt)
    else if name == "int64_t" then Some(TLong)
    else None
  }

  /** The two tables are inverse to each other, so distinct codes give
      distinct types. */
  lemma ArrayTypeInverse(code: int, name: string)
    ensures ArrayType(code) == Ok(name) <==> ArrayTypeCode(name) == Some(code)
  {
  }

  /* ---------------------------------------------------------------- */
  /* Comparison operators                                             */
  /* ---------------------------------------------------------------- */

  predicate IsComparison(op: string)
  {
    op == "==" || op == "!=" || op == "<" || op == ">=" || op == ">" || op == "<="
  }

  /** What a C++ comparison operator means on integers. */
  predicate Holds(op: string, a: int, b: int)
    requires IsComparison(op)
  {
    if op == "==" then a == b
    else if op == "!=" then a != b
    else if op == "<" then a < b
    else if op == ">=" then a >= b
    else if op == ">" then a > b
    else a <= b
  }

  /** `invertBinaryOperator`. */
  function InvertOperator(op: string): (r: Result<string>)
    ensures r.Ok? <==> IsComparison(op)
    ensures r.Fail? ==> r.error == InvalidOperator(op)
    ensures r.Ok? ==> IsComparison(r.value)
  {
    if op == "!=" then Ok("==")
    else if op == "==" then Ok("!=")
    else if op == ">=" then Ok("<")
    else if op == "<" then Ok(">=")
    else if op == "<=" then Ok(">")
    else if op == ">" then Ok("<=")
    else Fail(InvalidOperator(op))
  }

  /** Inverting gives the logical negation, and inverting twice gives the
      operator back. */
  lemma InvertNegates(op: string, a: int, b: int)
    requires IsComparison(op)
    ensures Holds(InvertOperator(op).value, a, b) <==> !Holds(op, a, b)
    ensures InvertOperator(InvertOperator(op).value) == Ok(op)
  {
  }

  /* ---------------------------------------------------------------- */
  /* Conditional branches                                             */
  /* ---------------------------------------------------------------- */

  const Ifeq := 0x99
  const Ifle := 0x9e
  const IfIcmpeq := 0x9f
  const IfAcmpne := 0xa6

  /** `if<cond>`: compares one value with zero. */
  predicate IsIfZero(opcode: int) { Ifeq <= opcode <= Ifle }

  /** `if_icmp<cond>` and `if_acmp<cond>`: compare two values. */
  predicate IsIfCompare(opcode: int) { IfIcmpeq <= opcode <= IfAcmpne }

  predicate IsBranch(opcode: int) { IsIfZero(opcode) || IsIfCompare(opcode) }

  /** The operator `decodeBytecodeLine` writes for a conditional branch:
      the C++ `if` encloses the code the JVM runs when it does not jump. */
  function ConditionOperator(opcode: int): (op: string)
    requires IsBranch(opcode)
    ensures IsComparison(op)
  {
    var k := if IsIfZero(opcode) then opcode - Ifeq else opcode - IfIcmpeq;
    if k == 0 then "!="
    else if k == 1 then "=="
    else if k == 2 then ">="
    else if k == 3 then "<"
    else if k == 4 then "<="
    else if k == 5 then ">"
    else if k == 6 then "!="
    else "=="
  }

  /** When the JVM takes the branch (The Java Virtual Machine
      Specification, section 6.5, `if<cond>`, `if_icmp<cond>` and
      `if_acmp<cond>`); references are compared as numbers. For `if<cond>`
      the second operand is 0. */
  predicate BranchTaken(opcode: int, v1: int, v2: int)
    requires IsBranch(opcode)
  {
    match opcode
    case 0x99 => v1 == 0
    case 0x9a => v1 != 0
    case 0x9b => v1 < 0
    case 0x9c => v1 >= 0
    case 0x9d => v1 > 0
    case 0x9e => v1 <= 0
    case 0x9f => v1 == v2
    case 0xa0 => v1 != v2
    case 0xa1 => v1 < v2
    case 0xa2 => v1 >= v2
    case 0xa3 => v1 > v2
    case 0xa4 => v1 <= v2
    case 0xa5 => v1 == v2
    case _ => v1 != v2
  }

  /** The emitted condition holds exactly when the JVM falls through, and
      inverting it gives the operator of the jump itself. */
  lemma ConditionIsFallThrough(opcode: int, v1: int, v2: int)
    requires IsBranch(opcode)
    ensures var right := if IsIfZero(opcode) then 0 else v2;
            Holds(ConditionOperator(opcode), v1, right) <==> !BranchTaken(opcode, v1, right)
    ensures var inverted := InvertOperator(ConditionOperator(opcode)).value;
            var right := if IsIfZero(opcode) then 0 else v2;
            Holds(inverted, v1, right) <==> BranchTaken(opcode, v1, right)
  {
    InvertNegates(ConditionOperator(opcode), v1, if IsIfZero(opcode) then 0 else v2);
  }
}
