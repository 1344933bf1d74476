/** Failure-compatible result type shared by every module of the model.

    The transpiler reports every failure by throwing a formatted message; the
    model names each throw site with a constructor of `Error`. A few
    constructors stand for reads that the C++ leaves undefined (reading past
    the end of a buffer, an empty stack or an empty table): the model turns
    them into explicit failures instead of guessing a value. */
module Wrappers {

  datatype Error =
    // reading bytes, tables and stacks past their end (undefined in the C++)
    | Truncated
    | EmptyLineTable
    | StackUnderflow
    | MissingParameterFlags
    | DivisionByZero
    // class-file structure
    | EmptyFile
    | WrongMagic
    | UnknownConstantTag(tag: int)
    | InterfacesPresent
    // descriptors
    | DescriptorStart(found: char)
    | UnhandledParameterType(found: char)
    | UnterminatedClassName
    | UnhandledReturnType(text: string)
    | InvalidStaticFieldType(text: string)
    | ClassArgument
    | InvalidDescriptorCharacter(found: char)
    // translation tables
    | InvalidArrayType(code: int)
    | InvalidOperator(op: string)
    | InvalidLine
    | InvalidBoard(name: string)
    | UnknownBoard
    // bytecode decoding
    | UnhandledOpcode(opcode: int)
    | NotModelled(opcode: int)
    | WrongValueKind  // `std::get` of the wrong alternative of a stack value

  /** `Ok` carries a value, `Fail` the reason the transpiler gave up. */
  datatype Result<+T> = Ok(value: T) | Fail(error: Error) {

    predicate IsFailure() {
      Fail?
    }

    function PropagateFailure<U>(): Result<U>
      requires Fail?
    {
      Fail(error)
    }

    function Extract(): T
      requires Ok?
    {
      value
    }
  }

  datatype Option<+T> = None | Some(value: T)
}
