# pico-java transpiler core in Dafny

pico-java turns compiled Java classes into C++ programs for small
microcontroller boards (Raspberry Pi Pico boards, the Pimoroni Badger 2040,
Tiny 2040 and PicoSystem, and the Gamebuino). On the Java side the hardware
interface is only `native` method declarations. All of the logic lives in
the translator, and this project models that translator's pure, sequential
machinery:

- the big-endian readers of `main.cpp` and the start of the `ClassFile`
  constructor: magic number, versions, constant pool, access flags, this
  and super class, and the required-zero interface count (The Java Virtual
  Machine Specification, sections 4.1 and 4.4);
- descriptor handling: `countArgs`, `getReturnType`,
  `getTypeFromDescriptor`, `generateParameters` and `javaToCpp`;
- the translation tables:
  - `getType` for `newarray` codes;
  - `invertBinaryOperator`;
  - the comparison each conditional branch emits;
  - `getAsString`;
  - board names, CMake board names and link libraries;
- the per-method context:
  - `findLocal` over nested scopes;
  - `getLineFromOpcode` and `getOpcodeFromLine` over the line-number table
    (section 4.7.12 of the same specification);
- the symbolic operand stack of `decodeBytecodeLine` for the opcodes that
  need neither the constant pool nor the rest of the method;
- the Gamebuino sprite-resource encoder: `add_resource`, `encode_filename`,
  `rgb32_to_565`, `findNearestIndex` and the header `encode_file` writes
  before the pixels.

Every operation is a pure function. A C++ `throw` becomes a `Fail` of the
shared `Result` type (`wrappers.dfy`). So do reads that are undefined in the
C++, which the model names explicitly:

- `front()` of an empty buffer or `back()` of an empty stack;
- `flags[count]` past the end of the vector;
- a class name without `;`;
- an empty line table;
- a zero frame count used as a divisor.

Each parser has an encoder as its partner, and round-trip lemmas tie the
two together. The tables have inverse tables or reference definitions, and
the operand-stack steps are related to what the JVM does with the same
bytes.

Files:

- `wrappers.dfy`: `Result`, `Option` and `Error`.
- `bytes.dfy`: byte readers.
- `numerals.dfy`: decimal and hexadecimal rendering.
- `strings.dfy`: `find`, `replace_all`, joining and splitting.
- `bits.dfy`: bitwise OR and AND on naturals.
- `constant_pool.dfy`: the class-file start.
- `descriptors.dfy`: descriptors.
- `method_context.dfy`: scopes and line tables.
- `bytecode.dfy`: values and tables.
- `operand_stack.dfy`: opcodes.
- `boards.dfy`: boards.
- `resources.dfy`: Gamebuino resources.

## Model

| member | source | states |
|---|---|---|
| Bytes.Read8 | main.cpp:130-135 | Succeeds exactly when the buffer is non-empty; the buffer is the byte returned followed by what is left, so exactly one byte is consumed |
| Bytes.Read16 | main.cpp:137-143 | Succeeds exactly when two bytes are present; the buffer is the big-endian encoding of the value followed by the rest |
| Bytes.Read32 | main.cpp:145-151 | Succeeds exactly when four bytes are present; the buffer is the big-endian u4 encoding of the value followed by the rest |
| Bytes.Read32OfTwoRead16 | main.cpp:145-151 | A u4 equals the first u2 times 65536 plus the next u2, and exactly four bytes are consumed |
| Bytes.Read16Be16 | main.cpp:137-143 | Reading a u2 back from its big-endian encoding gives the value and leaves the rest untouched |
| Bytes.Read32Be32 | main.cpp:145-151 | Reading a u4 back from its big-endian encoding gives the value and leaves the rest untouched |
| Bytes.ReadBytes | classfile.cpp:47-50 | Reading `count` bytes succeeds exactly when that many are present; it returns them in order with the rest behind |
| Bytes.Signed | main.cpp:153-166 | The two's-complement reading of a bit pattern lies in the signed range and differs from the pattern by 0 or by the full width |
| Bytes.Unsigned | main.cpp:153-166 | The bit pattern of a signed number lies in the unsigned range and differs from it by 0 or by the full width |
| Bytes.SignedUnsigned | main.cpp:153-166 | Reinterpreting a signed value's bit pattern as signed gives the value back |
| Bytes.UnsignedSigned | main.cpp:153-166 | Taking the bit pattern of a reinterpreted pattern gives the pattern back |
| Bytes.ReadS8 | main.cpp:153-156 | A signed byte lies in [-128, 128), and the buffer starts with its bit pattern |
| Bytes.ReadS16 | main.cpp:158-161 | `reads16` lies in [-32768, 32768); patterns from 32768 up become negative, and the buffer starts with the value's big-endian bit pattern |
| Bytes.ReadS32 | main.cpp:163-166 | `reads32` lies in the signed 32-bit range, and the buffer starts with the value's big-endian bit pattern |
| Bytes.ReadS16RoundTrip | main.cpp:158-161 | Every signed 16-bit value is read back from its encoding |
| Bytes.ReadS32RoundTrip | main.cpp:163-166 | Every signed 32-bit value is read back from its encoding |
| ClassFile.ReadPair | classfile.cpp:260-283 | Two u2 indices are read when four bytes are present; the buffer is their encodings followed by the rest |
| ClassFile.ReadWide | classfile.cpp:229-230 | A high u4 and a low u4 are read exactly when eight bytes are present |
| ClassFile.ReadWideRoundTrip | classfile.cpp:229-231 | The high and low halves combine to high * 2^32 + low: every u8 is read back from its two-halves encoding |
| ClassFile.ParseConstant | classfile.cpp:197-304 | An unknown tag fails with that tag; a parsed constant's tag byte is its kind, and it is never the empty slot |
| ClassFile.ParseBody | classfile.cpp:198-304 | The dispatch on the tag accepts exactly the fourteen known tags and builds a constant of that tag |
| ClassFile.ParseInteger | classfile.cpp:214-219 | A `CONSTANT_Integer` holds a signed 32-bit value |
| ClassFile.ParseLong | classfile.cpp:227-236 | A `CONSTANT_Long` holds a signed 64-bit value |
| ClassFile.ParseValueConstant | classfile.cpp:198-247 | Tags up to 6 are Utf8, Integer, Float, Long and Double; 2 and anything unknown fail with the tag, and a parsed constant carries the tag it was read under |
| ClassFile.ParseReferenceConstant | classfile.cpp:248-303 | Tags from 7 on are the reference kinds; unknown ones fail with the tag, and a parsed constant carries the tag it was read under |
| ClassFile.ParseUtf8 | classfile.cpp:200-213 | A UTF-8 body becomes a constant of tag 1 |
| ClassFile.ParseFloat | classfile.cpp:220-226 | A float body becomes a constant of tag 4 |
| ClassFile.ParseDouble | classfile.cpp:237-247 | A double body becomes a constant of tag 6 |
| ClassFile.ParseIndexConstant | classfile.cpp:248-259 | `Class`, `String` and `MethodType` bodies become constants of their own tag |
| ClassFile.ParsePairConstant | classfile.cpp:260-301 | The two-index bodies become constants of their own tag |
| ClassFile.ParseMethodHandle | classfile.cpp:284-289 | A method-handle body becomes a constant of tag 15 |
| ClassFile.ReadPairRoundTrip | classfile.cpp:260-283 | Two u2 indices are read back from their encodings |
| ClassFile.PairConstant | classfile.cpp:260-300 | The five two-index kinds are built with the tag they were read under |
| ClassFile.LongRoundTrip | classfile.cpp:227-236 | `(s8{h} << 32) | l` reads back every signed 64-bit value from its high and low halves |
| ClassFile.Utf8RoundTrip | classfile.cpp:200-213 | A UTF-8 entry is a u2 length and that many bytes, read back whole |
| ClassFile.MethodHandleRoundTrip | classfile.cpp:284-289 | A method handle is a u1 kind then a u2 index, read back whole |
| ClassFile.IndexBodyRoundTrip | classfile.cpp:248-259 | `Class`, `String` and `MethodType` bodies (one u2) are read back |
| ClassFile.PairBodyRoundTrip | classfile.cpp:260-300 | The bodies of the five two-index kinds are read back |
| ClassFile.PairConstantRoundTrip | classfile.cpp:260-300 | Each two-index kind is rebuilt from its tag and its two indices |
| ClassFile.NumericBodyRoundTrip | classfile.cpp:214-247 | Integer, float, long and double bodies are read back, floats and doubles as their bit patterns |
| ClassFile.ParseBodyRoundTrip | classfile.cpp:197-304 | The body of every encodable constant is read back under its tag |
| ClassFile.ParseConstantRoundTrip | classfile.cpp:197-304 | Every encodable constant is read back from tag plus body, and nothing after it is consumed |
| ClassFile.Entries | classfile.cpp:227-246 | A constant takes two pool slots when it is a Long or Double, one otherwise |
| ClassFile.WellLaidCons | classfile.cpp:227-246 | Putting a constant's entries in front of a well-laid pool keeps it well laid: an empty slot follows exactly each Long and Double, and the pool never ends on one |
| ClassFile.WellLaidSlots | classfile.cpp:227-246 | Well laid, read constant by constant, is the same as read slot by slot in both directions: slot 1 on is empty exactly when the previous slot is a Long or Double, the first slot is never empty and the last is never wide |
| ClassFile.ParseEntries | classfile.cpp:195-305 | The loop's pool has an empty slot exactly after each wide constant and never ends on a wide constant, is empty when the count leaves no iteration, and otherwise has `count - 1 - i` or one more entries |
| ClassFile.Prepend | classfile.cpp:211-300 | Adding one constant's entries keeps the pool well laid and adds exactly its slot count |
| ClassFile.LayoutFacts | classfile.cpp:193-305 | The entries of a list of constants number exactly its slots and are well laid |
| ClassFile.SlotsAppend | classfile.cpp:227-246 | Slots add up constant by constant |
| ClassFile.FitsStep | classfile.cpp:195 | When the count ends inside the last constant, the loop runs for the first one and the rest still fit |
| ClassFile.ParseEntriesRoundTrip | classfile.cpp:193-305 | The pool loop reads back exactly the encoded constants, each Long and Double followed by an empty slot, and leaves the rest of the buffer |
| ClassFile.WideLastSlotOvershoots | classfile.cpp:195-246 | A Long or Double in the last slot is read whole, so the pool gets one entry more than the count announces |
| ClassFile.ParsePrologue | classfile.cpp:176-194 | An empty file fails with `EmptyFile`; a first word other than `0xCAFEBABE` fails with `WrongMagic`; success implies the magic number |
| ClassFile.Be32Injective | classfile.cpp:184-188 | Distinct u4 values have distinct encodings, so the magic check refuses every other number |
| ClassFile.PrologueRoundTrip | classfile.cpp:184-194 | Magic, minor, major and pool count are read back from their encoding |
| ClassFile.ParseEpilogue | classfile.cpp:307-314 | A non-zero interface count fails with `InterfacesPresent`; success implies it was zero |
| ClassFile.EpilogueRoundTrip | classfile.cpp:307-314 | Access flags, this and super class are read back when the interface count is zero, and the class is refused otherwise |
| ClassFile.ParseHeader | classfile.cpp:176-314 | A parsed header's pool starts with the empty slot 0 and is well laid behind it, never ending on a Long or Double; empty input and a wrong magic number fail as such |
| ClassFile.ParseHeaderRoundTrip | classfile.cpp:176-314 | The constructor reads back an encoded header with its pool behind slot 0, and refuses a class with interfaces |
| ClassFile.ReadAttribute | classfile.cpp:39-53 | An attribute is a u2 name, a u4 length and that many bytes; exactly 6 + length bytes are consumed |
| ClassFile.ReadAttributeRoundTrip | classfile.cpp:39-53 | Every attribute is read back from its encoding |
| Descriptors.Repeat | main.cpp:248-263 | `std::string(n, c)` has length n and holds only c |
| Descriptors.RenderSplitsArrays | main.cpp:268-270 | A field descriptor is its array dimensions as `[` followed by a non-array element descriptor |
| Descriptors.CountArgs | main.cpp:7-13 | A descriptor that does not start with `(` fails, naming the first character |
| Descriptors.CountParams | main.cpp:15-36 | A count never exceeds the scanned text's length; a failure is a class name without `;` or an unsupported letter that occurs in the text |
| Descriptors.CountParamsRender | main.cpp:15-34 | One supported parameter (arrays included) adds exactly one to the count of what follows |
| Descriptors.CountArgsOfDescriptor | main.cpp:7-41 | On a method descriptor of supported parameters, `countArgs` is the number of parameters; an array counts once |
| Descriptors.CountParamsAll | main.cpp:15-34 | The scan stops at `)` having counted each parameter once |
| Descriptors.CountArgsRejects | main.cpp:35-36 | A `long`, `double` or `char` parameter (or an array of one) anywhere after supported ones fails with its letter |
| Descriptors.RejectsElement | main.cpp:35-36 | An unsupported element letter fails the scan, array dimensions notwithstanding |
| Descriptors.CountParamsPrefix | main.cpp:15-36 | Supported parameters in front of a failing scan pass its failure through |
| Descriptors.RenderAllAppend | main.cpp:15-34 | The descriptor of two parameter lists is the concatenation of theirs |
| Descriptors.ReturnType | main.cpp:168-199 | Succeeds exactly when the text after `)` is `V`, `Z`, `I` or `Ljava/lang/String;`, giving void, bool, int and std::string; any other text fails, naming it |
| Descriptors.StringReturn | main.cpp:185-194 | The three checks on a class return type accept exactly `Ljava/lang/String;` |
| Descriptors.NoParenRender | main.cpp:170-171 | A parameter descriptor has no `)` |
| Descriptors.NoParenRenderAll | main.cpp:170-171 | A parameter list's descriptor has no `)` |
| Descriptors.ReturnTypeOfDescriptor | main.cpp:168-199 | The return type of a method descriptor depends only on the text after the parameter list |
| Descriptors.JavaToCpp | main.cpp:283-286 | The result holds no `/` |
| Descriptors.JavaToCppRoundTrip | main.cpp:283-286 | Replacing `::` by `/` again gives the Java name back |
| Descriptors.JavaToCppInjective | main.cpp:283-286 | Distinct Java names give distinct C++ names |
| Descriptors.StripArrays | classfile.cpp:57-62 | No leading `[` is left |
| Descriptors.StripArraysRender | classfile.cpp:57-62 | Stripping a field descriptor's `[`s leaves its element's descriptor |
| Descriptors.TypeFromDescriptor | classfile.cpp:55-99 | `boolean` is `bool` whatever the flags and array dimensions; a refused descriptor fails naming its element with the dimensions stripped |
| Descriptors.TypeFromDescriptorRender | classfile.cpp:55-99 | `getTypeFromDescriptor` on any field descriptor equals the by-cases reference: the flag prefix on int/byte/short, plain bool, `X_t` for `types/X`, `::` for `/`, failure otherwise |
| Descriptors.TypeFromDescriptorCases | classfile.cpp:55-99 | `Z` gives `bool` whatever the flags; `I`, `B` and `S` start with the flag prefix; a descriptor fails exactly when its element is none of those and no `L...;` class name, and the failure names the element |
| Descriptors.ElemCppType | classfile.cpp:57-62 | Array dimensions do not change the C++ type |
| Descriptors.TypeFromDescriptorFlags | classfile.cpp:64-85 | `bool` ignores the flags; `int` carries `const ` and `u` as set; every const integer type starts with `const ` |
| Descriptors.PrimCppType | main.cpp:260-263 | An `I` parameter gets the flag-prefixed `int32_t`, a `Z` parameter `bool` |
| Descriptors.ParamDecls | main.cpp:227-273 | Every entry of the list starts with a type name, never with a comma |
| Descriptors.GenerateParametersWith | main.cpp:216-281 | A descriptor not starting with `(` fails, naming the character; the result never starts with `", "` |
| Descriptors.GenerateParametersAsWritten | main.cpp:216-281 | The scan as written fails on a descriptor not starting with `(`, naming the character, and its result never starts with `", "` |
| Descriptors.GenerateParameters | main.cpp:216-281 | The corrected scan fails on a descriptor not starting with `(` and never starts with `", "` |
| Descriptors.JoinHead | main.cpp:276-279 | A non-empty list joined by `", "` starts with its first entry's first character |
| Descriptors.Declarations | main.cpp:227-273 | One entry per parameter |
| Descriptors.DeclarationsCons | main.cpp:227-273 | The entries of a list are the first parameter's entry, then the rest numbered from the next local |
| Descriptors.ParamDeclsArrays | main.cpp:268-270 | Each `[` adds one pending `*`, as written and corrected alike |
| Descriptors.ParamDeclsClass | main.cpp:234-242 | A class parameter is cut at the first `;` after its `L` |
| Descriptors.ParamDeclsPrim | main.cpp:260-266 | An `I` or `Z` parameter is one character |
| Descriptors.ParamDeclsRender | main.cpp:227-273 | Under the corrected numbering, a parameter's descriptor gives its entry and the next local number |
| Descriptors.ParamDeclsAll | main.cpp:227-273 | Under the corrected numbering, a supported parameter list gives one entry per parameter: type, one `*` per dimension or pointer flag, `local_<n>` with consecutive n |
| Descriptors.GenerateParametersJoin | main.cpp:275-280 | Appending `", " + entry` and dropping the first two characters gives the entries joined by `", "` |
| Descriptors.GenerateParametersOfDescriptor | main.cpp:216-281 | Corrected `generateParameters` lists each parameter of a supported descriptor, numbered from 1 for a method with `this` and from 0 otherwise |
| Descriptors.LocalNamesDistinct | main.cpp:248-263 | Different local numbers give different names |
| Descriptors.ClassStep | main.cpp:234-259 | A String or buffer parameter gets one `*` when its flags mark it `POINTER_TYPE`; as written the local number and pending stars carry over, corrected they advance and reset |
| Descriptors.IntStep | main.cpp:260-266 | An `int` parameter uses the pending stars, then advances the local number and clears them |
| Descriptors.ClassThenInt | main.cpp:234-266 | After a class parameter, the `int` takes the same local number and stars as written, and the next number with no stars when corrected |
| Descriptors.ClassParameterReusesLocal | main.cpp:234-266 | For `(Ljava/lang/String;I)`, the code as written names both parameters alike, and the corrected scan numbers them apart |
| Descriptors.BaseAgrees | main.cpp:260-272 | An `I` or `Z` parameter, or a refused letter, reads the same as written and corrected when what follows it does |
| Descriptors.BaseParamAgrees | main.cpp:260-272 | So does an array of a base type: the pending stars and the next local number do not depend on the numbering |
| Descriptors.LastClassAgrees | main.cpp:231-259 | A class parameter right before `)` reads the same as written and corrected |
| Descriptors.LastParamAgrees | main.cpp:227-273 | The last parameter reads the same under both numberings, whatever its type |
| Descriptors.ParamDeclsAgree | main.cpp:227-273 | The parameter scan as written equals the corrected one when only the last parameter may be a class or an array of one |
| Descriptors.GenerateParametersAgree | main.cpp:216-281 | `generateParameters` as written returns the corrected result, failures included, on every descriptor whose parameters before the last all have base-type elements |
| Bytecode.AsString | classfile.cpp:103-151 | A string is its own text; an `int` ends in a digit; a `long` ends in `L` after its digits; an array is wrapped in `{ ` and ` }`; only strings and objects can be empty |
| Bytecode.IntAsString | classfile.cpp:109-112 | An `int` is written as a decimal numeral that reads back |
| Bytecode.LongAsString | classfile.cpp:113-116 | A `long` is its decimal numeral with an `L` suffix, so it never prints like an `int` |
| Bytecode.ArrayAsString | classfile.cpp:129-141 | An array initialiser is `{ `, the items separated by `, `, ` }`; items without commas are read back from it |
| Bytecode.ArrayType | classfile.cpp:22-37 | Codes 4 to 11 succeed, anything else fails with the code |
| Bytecode.ArrayTypeInverse | classfile.cpp:22-37 | `getType` and the table back from C++ type names are inverse, so distinct codes give distinct types |
| Bytecode.InvertOperator | classfile.cpp:153-163 | Succeeds exactly on the six comparison operators and yields a comparison; fails with the operator otherwise |
| Bytecode.InvertNegates | classfile.cpp:153-163 | Inverting is logical negation on integers, and inverting twice gives the operator back |
| Bytecode.ConditionOperator | classfile.cpp:1164-1174 | Every branch opcode emits a comparison operator |
| Bytecode.ConditionIsFallThrough | classfile.cpp:1800-1808 | The emitted condition holds exactly when the JVM does not take the branch, and its inversion is the branch's own relation (section 6.5 of the JVM specification) |
| MethodContext.FindLocal | classfile.cpp:2346-2358 | The result is `T_NONE` or a kind some scope records for the index |
| MethodContext.FindLocalInnermost | classfile.cpp:2348-2354 | The kind found is the one of the innermost scope that records the index |
| MethodContext.FindLocalAbsent | classfile.cpp:2357 | An index no scope records has kind `T_NONE` |
| MethodContext.Record | classfile.cpp:1087-1093 | A store changes only the innermost scope |
| MethodContext.RecordFind | classfile.cpp:1087-1093 | After a store the index has the stored kind, and every other index keeps its kind |
| MethodContext.OpenScope | classfile.cpp:2141 | Opening an empty scope changes no lookup |
| MethodContext.MaxLine | classfile.cpp:2314-2326 | The largest line seen before an entry bounds all of them and is one of them |
| MethodContext.LineFromOpcode | classfile.cpp:2312-2330 | Fails exactly on an empty table; otherwise the line returned is one in the table |
| MethodContext.ScanLines | classfile.cpp:2316-2329 | The scan from an entry returns a line of an entry at or after it |
| MethodContext.ScanLinesFirst | classfile.cpp:2316-2326 | The scan returns the line of the first entry that is not behind a larger line and starts at or after the address |
| MethodContext.ScanLinesNone | classfile.cpp:2329 | With no such entry, the scan returns the last entry's line |
| MethodContext.LineFromOpcodeFirst | classfile.cpp:2312-2330 | An address's line is that of the first answering entry |
| MethodContext.LineFromOpcodeLast | classfile.cpp:2329 | With no answering entry, the line is the last entry's |
| MethodContext.OpcodeFromLine | classfile.cpp:2333-2344 | Fails with `InvalidLine` exactly when no entry has the line; otherwise returns the `start_pc` of the first entry that does |
| MethodContext.FirstIndexOfLine | classfile.cpp:2335-2341 | Finds the first entry of the line, or reports none |
| MethodContext.SortedConsidered | classfile.cpp:2318-2320 | In a table ordered by address and line, every entry is considered |
| MethodContext.LineOpcodeRoundTrip | classfile.cpp:2312-2344 | In an ordered table, the line of the address where a line starts is that line |
| OperandStack.Pop | classfile.cpp:1081-1082 | Popping succeeds exactly on a non-empty stack and splits off its top |
| OperandStack.Pop2 | classfile.cpp:1157-1160 | Popping two succeeds exactly on two or more values and splits off the top two |
| OperandStack.Step | classfile.cpp:902-1930 | No input fails as truncated; opcodes needing the pool or the method body fail as not modelled; unknown opcodes fail as unhandled; too few values fail as underflow; a success has the opcode's effect |
| OperandStack.StepModelled | classfile.cpp:906-1927 | Each modelled opcode consumes its operand bytes, pops and pushes its number of values, and only appends operations |
| OperandStack.PushConstant | classfile.cpp:908-913 | `aconst_null`, `iconst_<i>`, `bipush` and `sipush` push one value after their operand bytes |
| OperandStack.LocalIndex | classfile.cpp:1073-1080 | The long forms take the index from one operand byte; the `_<n>` forms take it from the opcode |
| OperandStack.Load | classfile.cpp:1100-1136 | A load pushes one value after its operand bytes |
| OperandStack.StoreLocal | classfile.cpp:1030-1098 | A store on an empty stack underflows; otherwise it pops one value after its operand bytes |
| OperandStack.Branch | classfile.cpp:1145-1190 | A branch underflows without its operands, otherwise pops one or two values after a two-byte offset |
| OperandStack.Expression | classfile.cpp:1138-1923 | Array loads and binary operators pop two values; `ineg`, `l2f`, `f2d`, `arraylength` and `dup` pop one; `dup` pushes two values, the others one expression |
| OperandStack.ArrayStore | classfile.cpp:1266-1300 | An array store underflows on fewer than three values and otherwise nets three pops |
| OperandStack.Increment | classfile.cpp:1192-1200 | `iinc` consumes two operand bytes and leaves the stack alone |
| OperandStack.NewArray | classfile.cpp:1489-1501 | `newarray` underflows on an empty stack and otherwise replaces the size by an array after one operand byte |
| OperandStack.MethodReturn | classfile.cpp:1302-1326 | A value return underflows on an empty stack; `return` pops nothing |
| OperandStack.Run | classfile.cpp:902-1930 | Decoding a line keeps the scopes' depth and only appends operations |
| OperandStack.StepKeepsScopes | classfile.cpp:902-1930 | A successful step keeps the number of scopes and consumes at least its opcode byte |
| OperandStack.IconstPushes | classfile.cpp:1013-1021 | `iconst_<i>`, `iconst_m1` included, pushes i and consumes one byte |
| OperandStack.LoadFormsAgree | classfile.cpp:1100-1136 | `iload_<n>` and `aload_<n>` do what `iload` and `aload` do with operand n |
| OperandStack.StoreFormsAgree | classfile.cpp:1030-1080 | `istore_<n>` does what `istore` does with operand n |
| OperandStack.StoreLocalAgree | classfile.cpp:1073-1080 | The two store forms agree on the local index |
| OperandStack.StoreRecordsKind | classfile.cpp:1081-1097 | `istore_<n>` pops the value and stores its text; it declares the local `int32_t` unless the scopes already know it as an int; afterwards they do, and other locals keep their kinds |
| OperandStack.StoreTwice | classfile.cpp:1087-1093 | Storing twice into the same local declares it only once |
| OperandStack.StoreReference | classfile.cpp:943-1011 | A reference store underflows on an empty stack; a success pops one value, which is an array, a string or an object, and appends one operation |
| OperandStack.RefStoreFormsAgree | classfile.cpp:943-957 | `astore_<n>` does what `astore` does with operand n |
| OperandStack.RefStoreRecordsKind | classfile.cpp:943-1011 | `astore_<n>` declares the local with the reference's C++ type unless the scopes already know it with the reference's kind; afterwards they do and other locals keep their kinds; an array brings size, position and items, a string its text; an `int` or `long` fails |
| OperandStack.BinaryPushes | classfile.cpp:1328-1923 | A binary opcode pops right then left and pushes `(left op right)`, with `+`, `-`, `*`, `/`, `%` and `&` for add, sub, mul, div, rem and and |
| OperandStack.ArrayLoadPushes | classfile.cpp:1558-1572 | An array load pops index then array and pushes `array[index]` |
| OperandStack.UnaryPushes | classfile.cpp:1573-1908 | `ineg` pushes `-v`, `l2f` `static_cast<float>(v)` and `f2d` `static_cast<double>(v)` in place of v |
| OperandStack.ArrayLengthPushes | classfile.cpp:1138-1144 | `arraylength` replaces a string v by `v.size()` and fails on any other value |
| OperandStack.DupPushes | classfile.cpp:1552-1556 | `dup` pushes a second copy of the top value |
| OperandStack.ReturnEmits | classfile.cpp:1302-1327 | A value return pops the value and emits a return of its text; `return` emits a bare return, or `return 0` in `main` |
| OperandStack.IfZeroEmits | classfile.cpp:1785-1825 | `if<cond>` pops the value and emits the negated comparison with 0, aimed at the branch address plus the signed offset |
| OperandStack.IfCompareEmits | classfile.cpp:1145-1184 | `if_icmp<cond>` and `if_acmp<cond>` pop right then left and emit left, negated operator, right, aimed at the address plus the signed offset |
| OperandStack.NewArrayPushes | classfile.cpp:1489-1501 | `newarray` succeeds exactly for codes 4 to 11, pushing an array of the popped size and the code's element type, remembered at the `newarray` address plus one (its type operand), with no items; an invalid code fails with the code |
| OperandStack.NewArrayInLine | classfile.cpp:1489-1501 | `iconst_<n>` then `newarray` at address pc leaves one array of n items of the code's type, remembered at pc + 2 |
| OperandStack.ArrayStorePopulates | classfile.cpp:1273-1292 | Storing into a fresh array (left twice by `dup`) appends the value's text to the array under it |
| OperandStack.BipushAsWritten | classfile.cpp:908-913 | As written, `bipush 0xFF` pushes 255 where the JVM pushes -1 |
| OperandStack.SipushAsWritten | classfile.cpp:1433-1438 | As written, `sipush 0xFFFF` pushes 65535 where the JVM pushes -1 |
| OperandStack.IincAsWritten | classfile.cpp:1192-1200 | As written, `iinc n, 0xFF` emits an increment by 255 where the JVM adds -1 |
| OperandStack.BipushRoundTrip | classfile.cpp:908-913 | Read as signed, `bipush` pushes every byte value in [-128, 128) that is encoded |
| OperandStack.SipushRoundTrip | classfile.cpp:1433-1438 | Read as signed, `sipush` pushes every value in [-32768, 32768) that is encoded |
| OperandStack.IincRoundTrip | classfile.cpp:1192-1200 | Read as signed, `iinc` emits the encoded increment in [-128, 128) |
| OperandStack.ImmediatesAgreeWhenNonNegative | classfile.cpp:908-913 | With immediates below 0x80 the two readings agree, so the correction changes nothing for non-negative constants |
| Boards.Lower | main.cpp:203 | Lower-casing is character by character |
| Boards.ParseBoard | main.cpp:201-214 | A found board's name is the lower-cased input; a failure names the lower-cased input |
| Boards.ParseBoardAccepts | main.cpp:201-214 | A name is accepted exactly when its lower-case form names a board |
| Boards.LowerUpper | main.cpp:203 | Upper- then lower-casing a lower-case board name gives it back |
| Boards.ParseBoardName | main.cpp:205-211 | Every board is found by its name, in lower or upper case |
| Boards.ParseBoardOfLower | main.cpp:201-214 | Any spelling whose lower case is a board's name selects that board |
| Boards.LowerIdentity | main.cpp:203 | Lower-casing a lower-case name changes nothing |
| Boards.SelectBackend | main.cpp:108-120 | A build is chosen only for a valid board name, and the Pico build gets that board |
| Boards.CMakeBoardName | boards/pico.cpp:289-298 | Fails exactly for the Gamebuino; every other board gets a non-empty `PICO_BOARD` value |
| Boards.CMakeBoardNameTable | boards/pico.cpp:289-299 | Distinct boards get distinct `PICO_BOARD` values |
| Boards.PicoBackendHasCMakeBoard | main.cpp:108-120 | Whatever the user types, the Pico build never gets a board without a CMake name |
| Boards.LinkLibraries | boards/pico.cpp:43-74 | Extra libraries are linked for exactly the PicoW and the Badger 2040 |
| Boards.LinkLibrariesTable | boards/pico.cpp:43-74 | The PicoW and the Badger 2040 link different libraries |
| Numerals.DigitChar | classfile.cpp:109-112 | Each digit's character reads back as that digit |
| Numerals.ToDigits | classfile.cpp:109-112 | Digits in the base with no leading zero; one digit exactly below the base |
| Numerals.FromToDigits | classfile.cpp:109-112 | Reading back the digits of n gives n |
| Numerals.ToDigitsInjective | classfile.cpp:109-112 | Distinct numbers have distinct digits |
| Numerals.Decimal | classfile.cpp:109-112 | A numeral starts with `-` exactly for negatives and ends with a digit |
| Numerals.DecimalRoundTrip | classfile.cpp:109-112 | Every integer is read back from its decimal numeral |
| Numerals.DecimalInjective | classfile.cpp:109-112 | Distinct integers print differently |
| Numerals.Hex | boards/gamebuino.cpp:248 | The hexadecimal placeholder gives hexadecimal digits, one digit exactly below 16 |
| Strings.IndexOf | main.cpp:170 | `find` returns None exactly when the character is absent, otherwise its first position |
| Strings.IndexOfFirst | main.cpp:170 | The first occurrence is what `find` returns |
| Strings.ReplaceAll | boards/gamebuino.cpp:203-204 | A one-character replacement keeps the length and replaces exactly the occurrences; a replacement without the character leaves none behind |
| Strings.PrefixedIsJoin | main.cpp:248-279 | Appending `sep + x` per item and dropping the first separator gives the items joined by it |
| Strings.SplitList | classfile.cpp:129-141 | Splitting always yields at least one item |
| Strings.SplitListJoin | classfile.cpp:129-141 | Items without commas joined by `", "` are split back into themselves |
| Bits.OrDisjoint | boards/gamebuino.cpp:223 | OR of a shifted field with a value below the shift is their sum |
| Bits.AndLowBits | boards/gamebuino.cpp:211 | AND with 2^k - 1 is the remainder modulo 2^k |
| Resources.AddResource | boards/gamebuino.cpp:196-199 | One resource is appended with the given name, format and loop, and earlier entries are unchanged |
| Resources.AddResourceSwapsFrames | boards/gamebuino.cpp:196-198 | Through `add_resource`, the frame width divides the image by the `yframes` argument and the height by `xframes` |
| Resources.EncodeFilename | boards/gamebuino.cpp:201-207 | Length is kept, every `.` and `/` becomes `_`, everything else is unchanged, and no `.` or `/` is left |
| Resources.EncodeFilenameIdempotent | boards/gamebuino.cpp:201-207 | Encoding twice is encoding once |
| Resources.EncodeFilenameCollides | boards/gamebuino.cpp:201-207 | `a.png`, `a/png` and `a_png` get the same identifier |
| Resources.Definition | boards/gamebuino.cpp:131-134 | The definition opens the initialiser with `[] = { ` and declares `uint16_t` exactly for RGB565 images |
| Resources.ExternDeclaration | boards/gamebuino.cpp:117-134 | The header's declaration is `extern `, then the type and array name of the definition in the source file, then `[];` |
| Resources.Pack565Fields | boards/gamebuino.cpp:223 | The packed colour is r/8 * 2048 + g/4 * 32 + b/8, below 65536 |
| Resources.Rgb32To565 | boards/gamebuino.cpp:214-224 | An opaque pixel packs its own channels; a pixel with alpha below 128 becomes magenta `0xF81F`; always below 65536 |
| Resources.NearestIndex | boards/gamebuino.cpp:209-212 | The index is below 16 and is the colour modulo 16 |
| Resources.NearestIndexIsBlue | boards/gamebuino.cpp:279-281 | The palette index of an indexed pixel is its 5-bit blue value modulo 16 |
| Resources.IndexedEntry | boards/gamebuino.cpp:279-281 | An indexed entry is `0x` and two hex digits that read back as the two indices |
| Resources.Rgb565Entry | boards/gamebuino.cpp:290-291 | An RGB565 entry is `0x` and hex digits that read back as the colour |
| Resources.DivTrunc | boards/gamebuino.cpp:234-235 | For non-negative dividends and positive divisors, C++ division is the floor quotient |
| Resources.TransparentIsMagenta | boards/gamebuino.cpp:248 | The transparent field is `0xf81f` for RGB565 and `0xFF` for indexed images |
| Resources.FrameBytes | boards/gamebuino.cpp:241 | Both bytes are below 256 and recombine to the count when it fits in 16 bits |
| Resources.HeaderOf | boards/gamebuino.cpp:226-249 | Defined exactly when both counts are non-zero: width and height are the truncated quotients, frames are the count or its low and high bytes, then loop, transparent colour and format code |
| Resources.FrameFields | boards/gamebuino.cpp:238-246 | One decimal field per frame number |
| Resources.FieldsRoundTrip | boards/gamebuino.cpp:234-248 | Every number written in the header reads back from its field |
| Resources.Header | boards/gamebuino.cpp:234-248 | The header text exists exactly when the header values do |

## Left out

- Hardware behaviour. There are no pins, interrupts, frame loop, sleep or save slots: the Java side is `native` declarations and the C++ emits SDK calls as text.
- The demo applications, which are inputs to the translator.
- File and process I/O:
  - reading the `.class` file;
  - every stream write of `generate`;
  - the `build_*` functions with their cmake and arduino-cli calls;
  - `copyUserFiles` and the directory scan in `main`.
- Fields, methods and their attributes after the interface count in the constructor (classfile.cpp:316 on), except `readAttribute`. The header model stops at the interface count.
- Floating point:
  - `Float` and `Double` constants keep their bit patterns, without the `bit_cast`;
  - `fconst_*`, `fstore`/`dstore` values and fmt's float formatting are not modelled.
- stb_image decoding and the pixel loops of `encode_file`. The image's width and height are parameters of the header. The entries of one pixel are modelled by `IndexedEntry` and `Rgb565Entry`.
- Opcodes that need the constant pool, the class list or the rest of the method fail with `NotModelled`:
  - `ldc`, `getstatic`/`putstatic`, `getfield`/`putfield`;
  - `new`, `anewarray`, the `invoke*` family;
  - `goto`, which is dropped when its address is in `skippedGotos`, a set built from the branch targets of the whole method;
  - `fconst_*`, with the other floating-point values.
- `skippedGotos`: the look-up of the byte three before a branch target in the whole code buffer.
- The brace, `else` and loop reconstruction after decoding (classfile.cpp:1934-2142, 2217-2299), which is a heuristic with no stated contract, and the text `generateCodeFromOperation` writes.
- lineanalyser.cpp: a superseded copy of `ClassFile::lineAnalyser` that `main` does not use.
- `generateParameters` is called with two arguments at two call sites in classfile.cpp; the model follows its three-argument definition.
- Resources.HeaderOf: `framesCount` is an `int` product, and its 32-bit overflow is not modelled. The low and high bytes are exact for any count, by Euclidean `%` and `/`.
- OperandStack.Branch: the target is computed in unsigned arithmetic. The model uses the mathematical address plus offset, which agrees whenever the target is not negative.
- OperandStack.NewArray: `arr.size` takes the popped `int` unchanged; the conversion to the array's size type is not modelled.
- OperandStack.StoreReference: the C++ `assert(false)` on an `int` or `long` value becomes `Fail(WrongValueKind)`; the `position` of a stored string or object is uninitialised in the C++ and 0 here.
- Bytecode.AsString: `getAsString`'s float and double cases are left out with the floating-point values.

## Findings

| source | as written | input that shows it | evidently intended | confidence | as-written member | corrected member |
|---|---|---|---|---|---|---|
| main.cpp:234-259 | A class parameter (`L...;`) neither advances `count` nor clears `arrayCount` | `(Ljava/lang/String;I)V`: both parameters are named `local_0` (or `local_1` for a method with `this`), and a pointer flag's `*` carries over to the `int` | Every parameter takes its own local number, as `I` and `Z` do (JVM locals are numbered per parameter) | not executed | Descriptors.ClassParameterReusesLocal | Descriptors.GenerateParametersOfDescriptor |
| classfile.cpp:908-913 | `bipush` pushes its operand byte read unsigned | `bipush 0xFF` pushes 255 | The JVM sign-extends the byte, so -1 | not executed | OperandStack.BipushAsWritten | OperandStack.BipushRoundTrip |
| classfile.cpp:1433-1438 | `sipush` pushes its operand read as an unsigned u2 | `sipush 0xFFFF` pushes 65535 | The JVM sign-extends the short, so -1 | not executed | OperandStack.SipushAsWritten | OperandStack.SipushRoundTrip |
| classfile.cpp:1192-1200 | `iinc` stores its constant read unsigned into an `int` | `iinc 1, 0xFF` (`i--` in Java) emits `local_1 += 255;` | The JVM sign-extends the constant, so `local_1 += -1` | not executed | OperandStack.IincAsWritten | OperandStack.IincRoundTrip |
