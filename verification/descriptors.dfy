/** Method and field descriptors (The Java Virtual Machine Specification,
    sections 4.3.2 and 4.3.3) as the transpiler reads them: `countArgs`,
    `getReturnType`, `generateParameters` and `javaToCpp` of main.cpp, and
    `getTypeFromDescriptor` of classfile.cpp.

    The structured `FieldType` and its rendering `Render` are the model's
    reference: the lemmas state what each scanner returns on the descriptor
    of a known parameter list. */
module Descriptors {
  import opened Wrappers
  import opened Strings
  import Numerals

  // Flag bits attached to fields and parameters (globals.h).
  predicate IsUnsigned(flags: nat) { flags % 2 == 1 }   // UNSIGNED_TYPE = 0x01
  predicate IsConst(flags: nat) { (flags / 2) % 2 == 1 }  // CONST_TYPE = 0x02
  predicate IsPointer(flags: nat) { (flags / 4) % 2 == 1 }  // POINTER_TYPE = 0x04

  /** `str[0]`, which is `'\0'` for an empty `std::string`. */
  function Head(s: string): char
  {
    if |s| == 0 then '\0' else s[0]
  }

  /* ---------------------------------------------------------------- */
  /* Reference: descriptors of known types                            */
  /* ---------------------------------------------------------------- */

  datatype FieldType = Base(tag: char) | Object(className: string) | Array(component: FieldType)

  /** Base types carry one of the JVM's base-type letters. */
  predicate Valid(t: FieldType)
  {
    match t
    case Base(c) => c in "BCDFIJSZ"
    case Object(_) => true
    case Array(e) => Valid(e)
  }

  function Render(t: FieldType): string
  {
    match t
    case Base(c) => [c]
    case Object(n) => "L" + n + ";"
    case Array(e) => "[" + Render(e)
  }

  function RenderAll(ps: seq<FieldType>): string
  {
    if |ps| == 0 then "" else Render(ps[0]) + RenderAll(ps[1..])
  }

  function MethodDescriptor(ps: seq<FieldType>, ret: string): string
  {
    "(" + RenderAll(ps) + ")" + ret
  }

  lemma DescriptorBody(ps: seq<FieldType>, ret: string)
    ensures Head(MethodDescriptor(ps, ret)) == '('
    ensures MethodDescriptor(ps, ret)[1..] == RenderAll(ps) + ")" + ret
  {
    var x := RenderAll(ps) + ")" + ret;
    assert MethodDescriptor(ps, ret) == "(" + x;
  }

  /** The type under all array dimensions, and the number of dimensions. */
  function Elem(t: FieldType): FieldType
  {
    if t.Array? then Elem(t.component) else t
  }

  function Depth(t: FieldType): nat
  {
    if t.Array? then 1 + Depth(t.component) else 0
  }

  function Repeat(c: char, n: nat): (s: string)
    ensures |s| == n && forall i :: 0 <= i < n ==> s[i] == c
  {
    if n == 0 then "" else [c] + Repeat(c, n - 1)
  }

  lemma {:induction false} RenderSplitsArrays(t: FieldType)
    ensures Render(t) == Repeat('[', Depth(t)) + Render(Elem(t))
    ensures !Elem(t).Array?
  {
    if t.Array? {
      RenderSplitsArrays(t.component);
    }
  }

  /* ---------------------------------------------------------------- */
  /* countArgs                                                        */
  /* ---------------------------------------------------------------- */

  /** `countArgs`: one per `I`, `Z`, `F`, `B`, `S` and per `L...;`, nothing
      for `[`, stopping at `)`. A class name without its `;` makes the C++
      read past the string; the model fails with `UnterminatedClassName`. */
  function CountArgs(d: string): (r: Result<nat>)
    ensures Head(d) != '(' ==> r == Fail(DescriptorStart(Head(d)))
  {
    if Head(d) != '(' then Fail(DescriptorStart(Head(d))) else CountParams(d[1..])
  }

  /** Counting stops at `)` or at the end of the text; each counted
      parameter takes at least one character, and a failure is one of the
      two the C++ cannot handle. */
  function CountParams(s: string): (r: Result<nat>)
    ensures r.Ok? ==> r.value <= |s|
    ensures r.Fail? ==> r.error == UnterminatedClassName || (r.error.UnhandledParameterType? && r.error.found in s)
    decreases |s|
  {
    if |s| == 0 || s[0] == ')' then Ok(0)
    else if s[0] == 'L' then
      match IndexOf(s, ';')
      case None => Fail(UnterminatedClassName)
      case Some(k) => Succ(CountParams(s[k + 1..]))
    else if s[0] == '[' then CountParams(s[1..])
    else if s[0] in "IZFBS" then Succ(CountParams(s[1..]))
    else Fail(UnhandledParameterType(s[0]))
  }

  function Succ(r: Result<nat>): Result<nat>
  {
    match r
    case Ok(n) => Ok(n + 1)
    case Fail(e) => Fail(e)
  }

  /** Parameter types `countArgs` accepts. */
  predicate Counted(t: FieldType)
  {
    match t
    case Base(c) => c in "IZFBS"
    case Object(n) => ';' !in n
    case Array(e) => Counted(e)
  }

  lemma {:induction false} CountParamsRender(t: FieldType, rest: string)
    requires Counted(t)
    ensures CountParams(Render(t) + rest) == Succ(CountParams(rest))
  {
    var s := Render(t) + rest;
    match t
    case Base(c) =>
      assert s[1..] == rest;
    case Object(n) =>
      assert s == "L" + n + ";" + rest;
      assert s[..|n| + 1] == "L" + n;
      IndexOfFirst(s, ';', |n| + 1);
      assert s[|n| + 2..] == rest;
    case Array(e) =>
      assert s[1..] == Render(e) + rest;
      CountParamsRender(e, rest);
  }

  /** Each parameter counts once, arrays included. */
  lemma {:induction false} CountArgsOfDescriptor(ps: seq<FieldType>, ret: string)
    requires forall i :: 0 <= i < |ps| ==> Counted(ps[i])
    ensures CountArgs(MethodDescriptor(ps, ret)) == Ok(|ps|)
  {
    DescriptorBody(ps, ret);
    assert RenderAll(ps) + ")" + ret == RenderAll(ps) + (")" + ret);
    CountParamsAll(ps, ")" + ret);
  }

  lemma {:induction false} CountParamsAll(ps: seq<FieldType>, tail: string)
    requires forall i :: 0 <= i < |ps| ==> Counted(ps[i])
    requires |tail| > 0 && tail[0] == ')'
    ensures CountParams(RenderAll(ps) + tail) == Ok(|ps|)
    decreases |ps|
  {
    if |ps| > 0 {
      assert RenderAll(ps) + tail == Render(ps[0]) + (RenderAll(ps[1..]) + tail);
      CountParamsRender(ps[0], RenderAll(ps[1..]) + tail);
      CountParamsAll(ps[1..], tail);
    }
  }

  /** A `long`, `double` or `char` parameter (or an array of one) makes
      `countArgs` fail, naming the offending character. */
  lemma {:induction false} CountArgsRejects(pre: seq<FieldType>, p: FieldType, post: seq<FieldType>, ret: string)
    requires forall i :: 0 <= i < |pre| ==> Counted(pre[i])
    requires Elem(p).Base? && Elem(p).tag in "JDC"
    ensures CountArgs(MethodDescriptor(pre + [p] + post, ret)) == Fail(UnhandledParameterType(Elem(p).tag))
  {
    var ps := pre + [p] + post;
    var tail := RenderAll(post) + ")" + ret;
    assert RenderAll(ps) + ")" + ret == RenderAll(pre) + (Render(p) + tail) by {
      RenderAllAppend(pre, [p] + post);
      assert ps == pre + ([p] + post);
      assert ([p] + post)[1..] == post;
    }
    DescriptorBody(ps, ret);
    RejectsElement(p, tail);
    CountParamsPrefix(pre, Render(p) + tail);
  }

  lemma {:induction false} RejectsElement(p: FieldType, tail: string)
    requires Elem(p).Base? && Elem(p).tag in "JDC"
    ensures CountParams(Render(p) + tail) == Fail(UnhandledParameterType(Elem(p).tag))
  {
    var s := Render(p) + tail;
    if p.Array? {
      assert s[1..] == Render(p.component) + tail;
      RejectsElement(p.component, tail);
    }
  }

  /** Counted parameters in front of a failure pass the failure through. */
  lemma {:induction false} CountParamsPrefix(pre: seq<FieldType>, s: string)
    requires forall i :: 0 <= i < |pre| ==> Counted(pre[i])
    requires CountParams(s).Fail?
    ensures CountParams(RenderAll(pre) + s) == CountParams(s)
    decreases |pre|
  {
    if |pre| > 0 {
      var rest := RenderAll(pre[1..]) + s;
      assert RenderAll(pre) + s == Render(pre[0]) + rest;
      CountParamsPrefix(pre[1..], s);
      CountParamsRender(pre[0], rest);
      assert CountParams(rest) == CountParams(s);
    } else {
      assert RenderAll(pre) + s == s;
    }
  }

  lemma {:induction false} RenderAllAppend(a: seq<FieldType>, b: seq<FieldType>)
    ensures RenderAll(a + b) == RenderAll(a) + RenderAll(b)
    decreases |a|
  {
    if |a| > 0 {
      assert (a + b)[1..] == a[1..] + b;
      RenderAllAppend(a[1..], b);
    } else {
      assert a + b == b;
    }
  }

  /* ---------------------------------------------------------------- */
  /* getReturnType                                                    */
  /* ---------------------------------------------------------------- */

  /** The text after the first `)`. With no `)`, `find` returns `npos` and
      `npos + 1` wraps to 0, so the whole descriptor is taken. */
  function ReturnText(d: string): string
  {
    match IndexOf(d, ')')
    case None => d
    case Some(k) => d[k + 1..]
  }

  /** `getReturnType`: exactly `V`, `Z`, `I` and `Ljava/lang/String;`
      are accepted, and a failure names the text after `)`. */
  function ReturnType(d: string): (r: Result<string>)
    ensures r.Ok? <==> ReturnText(d) in ReturnTypes
    ensures r.Ok? ==> r.value == ReturnTypes[ReturnText(d)]
    ensures r.Fail? ==> r.error == UnhandledReturnType(ReturnText(d))
  {
    StringReturn(ReturnText(d));
    var t := ReturnText(d);
    if t == "V" then Ok("void")
    else if t == "Z" then Ok("bool")
    else if t == "I" then Ok("int")
    else if |t| >= 1 && t[0] == 'L' && t[|t| - 1] == ';' && t[1..|t| - 1] == "java/lang/String" then Ok("std::string")
    else Fail(UnhandledReturnType(t))
  }

  const ReturnTypes: map<string, string> :=
    map["V" := "void", "Z" := "bool", "I" := "int", "Ljava/lang/String;" := "std::string"]

  /** The three checks on a class return type accept exactly `String`. */
  lemma StringReturn(t: string)
    ensures (|t| >= 1 && t[0] == 'L' && t[|t| - 1] == ';' && t[1..|t| - 1] == "java/lang/String")
            <==> t == "Ljava/lang/String;"
  {
    if |t| >= 1 && t[0] == 'L' && t[|t| - 1] == ';' && t[1..|t| - 1] == "java/lang/String" {
      StringReturnParts(t);
    }
    if t == "Ljava/lang/String;" {
      StringReturnSplit(t);
    }
  }

  lemma StringReturnParts(t: string)
    requires |t| >= 1 && t[0] == 'L' && t[|t| - 1] == ';' && t[1..|t| - 1] == "java/lang/String"
    ensures t == "Ljava/lang/String;"
  {
    assert t == [t[0]] + t[1..|t| - 1] + [t[|t| - 1]];
  }

  lemma StringReturnSplit(t: string)
    requires t == "Ljava/lang/String;"
    ensures t[1..|t| - 1] == "java/lang/String"
  {
    assert t == "L" + "java/lang/String" + ";";
  }

  predicate NoParen(t: FieldType)
  {
    match t
    case Base(c) => c != ')'
    case Object(n) => ')' !in n
    case Array(e) => NoParen(e)
  }

  lemma {:induction false} NoParenRender(t: FieldType)
    requires NoParen(t)
    ensures ')' !in Render(t)
  {
    if t.Array? {
      NoParenRender(t.component);
    }
  }

  lemma {:induction false} NoParenRenderAll(ps: seq<FieldType>)
    requires forall i :: 0 <= i < |ps| ==> NoParen(ps[i])
    ensures ')' !in RenderAll(ps)
    decreases |ps|
  {
    if |ps| > 0 {
      NoParenRender(ps[0]);
      NoParenRenderAll(ps[1..]);
    }
  }

  /** The return type depends only on what follows the parameter list. */
  lemma ReturnTypeOfDescriptor(ps: seq<FieldType>, ret: string)
    requires forall i :: 0 <= i < |ps| ==> NoParen(ps[i])
    ensures ReturnText(MethodDescriptor(ps, ret)) == ret
    ensures ReturnType(MethodDescriptor(ps, ret)) ==
              if ret in ReturnTypes then Ok(ReturnTypes[ret]) else Fail(UnhandledReturnType(ret))
  {
    var d := MethodDescriptor(ps, ret);
    var k := |RenderAll(ps)| + 1;
    NoParenRenderAll(ps);
    assert d[..k] == "(" + RenderAll(ps);
    IndexOfFirst(d, ')', k);
    assert d[k + 1..] == ret;
  }

  /* ---------------------------------------------------------------- */
  /* javaToCpp and getTypeFromDescriptor                              */
  /* ---------------------------------------------------------------- */

  /** `javaToCpp`: package separators become C++ scope operators. */
  function JavaToCpp(name: string): (r: string)
    ensures '/' !in r
  {
    ReplaceAll(name, '/', "::")
  }

  /** Reads a C++ qualified name back as a Java binary name. */
  function CppToJava(s: string): string
  {
    if |s| == 0 then ""
    else if |s| >= 2 && s[0] == ':' && s[1] == ':' then "/" + CppToJava(s[2..])
    else [s[0]] + CppToJava(s[1..])
  }

  lemma {:induction false} JavaToCppRoundTrip(name: string)
    requires ':' !in name
    ensures CppToJava(JavaToCpp(name)) == name
  {
    if |name| > 0 {
      var r := JavaToCpp(name);
      assert ':' !in name[1..];
      JavaToCppRoundTrip(name[1..]);
      if name[0] == '/' {
        assert r == "::" + JavaToCpp(name[1..]);
        assert r[2..] == JavaToCpp(name[1..]);
      } else {
        assert r == [name[0]] + JavaToCpp(name[1..]);
        assert r[1..] == JavaToCpp(name[1..]);
      }
      assert name == [name[0]] + name[1..];
    }
  }

  /** Java names (which never hold `:`) map to distinct C++ names. */
  lemma JavaToCppInjective(a: string, b: string)
    requires ':' !in a && ':' !in b
    ensures JavaToCpp(a) == JavaToCpp(b) ==> a == b
  {
    JavaToCppRoundTrip(a);
    JavaToCppRoundTrip(b);
  }

  function StripArrays(d: string): (r: string)
    ensures |r| == 0 || r[0] != '['
  {
    if |d| > 0 && d[0] == '[' then StripArrays(d[1..]) else d
  }

  /** `const ` when CONST_TYPE is set, then `u` when UNSIGNED_TYPE is set. */
  function TypePrefix(flags: nat): string
  {
    (if IsConst(flags) then "const " else "") + (if IsUnsigned(flags) then "u" else "")
  }

  /** `getTypeFromDescriptor`: the C++ type of a field or parameter. Array
      dimensions are ignored; the integer types carry the flag prefix and
      `boolean` never does; an unknown descriptor names its element. */
  function TypeFromDescriptor(d: string, flags: nat): (r: Result<string>)
    ensures r.Fail? ==> r == Fail(InvalidStaticFieldType(StripArrays(d)))
    ensures StripArrays(d) == "Z" ==> r == Ok("bool")
  {
    var t := StripArrays(d);
    var prefix := TypePrefix(flags);
    if t == "I" then Ok(prefix + "int32_t")
    else if t == "B" then Ok(prefix + "int8_t")
    else if t == "S" then Ok(prefix + "int16_t")
    else if t == "Z" then Ok("bool")
    else if |t| >= 1 && t[0] == 'L' && t[|t| - 1] == ';' then
      var jt := t[1..|t| - 1];
      if |jt| >= 6 && jt[..6] == "types/" then Ok(jt[6..] + "_t") else Ok(JavaToCpp(jt))
    else Fail(InvalidStaticFieldType(t))
  }

  /** `boolean` is `bool` whatever the flags; `int`, `byte` and `short`
      start with the flag prefix; exactly the descriptors that are neither
      one of those nor a class name are refused, naming their element. */
  lemma TypeFromDescriptorCases(d: string, flags: nat)
    ensures var r := TypeFromDescriptor(d, flags);
            && (StripArrays(d) == "Z" ==> r == Ok("bool"))
            && (StripArrays(d) in ["I", "B", "S"] ==>
                  r.Ok? && |r.value| >= |TypePrefix(flags)| && r.value[..|TypePrefix(flags)|] == TypePrefix(flags))
            && (r.Fail? ==> r == Fail(InvalidStaticFieldType(StripArrays(d))))
            && (r.Fail? <==> StripArrays(d) !in ["I", "B", "S", "Z"] && !(|StripArrays(d)| >= 2 && StripArrays(d)[0] == 'L' && StripArrays(d)[|StripArrays(d)| - 1] == ';'))
  {
  }

  /** The C++ type the transpiler gives a field of type `t`, by cases on the
      type: array dimensions are dropped, the integer types take the flag
      prefix, `boolean` never does, classes of package `types` become `X_t`. */
  function CppType(t: FieldType, flags: nat): Result<string>
  {
    match t
    case Array(e) => CppType(e, flags)
    case Base(c) =>
      if c == 'I' then Ok(TypePrefix(flags) + "int32_t")
      else if c == 'B' then Ok(TypePrefix(flags) + "int8_t")
      else if c == 'S' then Ok(TypePrefix(flags) + "int16_t")
      else if c == 'Z' then Ok("bool")
      else Fail(InvalidStaticFieldType([c]))
    case Object(n) =>
      if |n| >= 6 && n[..6] == "types/" then Ok(n[6..] + "_t") else Ok(JavaToCpp(n))
  }

  lemma {:induction false} StripArraysRender(t: FieldType)
    requires Valid(t)
    ensures StripArrays(Render(t)) == Render(Elem(t))
  {
    if t.Array? {
      assert Render(t) == "[" + Render(t.component);
      assert Render(t)[1..] == Render(t.component);
      StripArraysRender(t.component);
    }
  }

  /** `getTypeFromDescriptor` on the descriptor of any field type. */
  lemma TypeFromDescriptorRender(t: FieldType, flags: nat)
    requires Valid(t)
    ensures TypeFromDescriptor(Render(t), flags) == CppType(t, flags)
  {
    StripArraysRender(t);
    ElemCppType(t, flags);
    match Elem(t)
    case Base(c) =>
    case Object(n) =>
      var r := Render(Elem(t));
      assert r[1..|r| - 1] == n;
  }

  lemma {:induction false} ElemCppType(t: FieldType, flags: nat)
    ensures CppType(t, flags) == CppType(Elem(t), flags)
    ensures Valid(t) ==> Valid(Elem(t))
    ensures !Elem(t).Array?
  {
    if t.Array? {
      ElemCppType(t.component, flags);
    }
  }

  /** `boolean` ignores the flags; the integer types carry the prefix. */
  lemma TypeFromDescriptorFlags(d: string, flags: nat)
    ensures StripArrays(d) == "Z" ==> TypeFromDescriptor(d, flags) == Ok("bool")
    ensures StripArrays(d) == "I" ==> TypeFromDescriptor(d, flags) == Ok(TypePrefix(flags) + "int32_t")
    ensures IsConst(flags) && StripArrays(d) in ["I", "B", "S"] ==>
              TypeFromDescriptor(d, flags).value[..6] == "const "
  {
  }

  /* ---------------------------------------------------------------- */
  /* generateParameters                                               */
  /* ---------------------------------------------------------------- */

  function Stars(n: nat): string
  {
    Repeat('*', n)
  }

  function LocalName(index: nat): string
  {
    "local_" + Numerals.Decimal(index)
  }

  /** One entry of the parameter list: `type *...local_N`. */
  function Declaration(cppType: string, stars: nat, index: nat): string
  {
    cppType + " " + Stars(stars) + LocalName(index)
  }

  /** The two class types allowed as parameters. */
  function ClassParameterType(name: string): Result<string>
  {
    if name == "java/lang/String" then Ok("std::string")
    else if name == "pimoroni/buffer" then Ok("pimoroni::buffer")
    else Fail(ClassArgument)
  }

  /** Every entry of a parameter list starts with its type name. */
  predicate WellSeparated(r: Result<seq<string>>)
  {
    r.Ok? ==> forall i :: 0 <= i < |r.value| ==> |r.value[i]| > 0 && r.value[i][0] != ','
  }

  /** `x` in front of the entries of `r`, or the failure of `r`. */
  function Cons(x: string, r: Result<seq<string>>): Result<seq<string>>
  {
    match r
    case Ok(xs) => Ok([x] + xs)
    case Fail(e) => Fail(e)
  }

  /** Scans the parameter part of a descriptor as `generateParameters` does:
      `index` is the next local number (`count`), `stars` the pending array
      depth (`arrayCount`). `advanceOnClass` selects what follows a class
      parameter: the code as written keeps both counters (false); the
      corrected scan advances `index` and clears `stars` as for `I`/`Z`
      (true). */
  function ParamDecls(s: string, flags: seq<nat>, index: nat, stars: nat, advanceOnClass: bool): (r: Result<seq<string>>)
    ensures WellSeparated(r)
    decreases |s|, 0
  {
    if |s| == 0 || s[0] == ')' then Ok([])
    else if s[0] == 'L' then
      match IndexOf(s, ';')
      case None => Fail(UnterminatedClassName)
      case Some(k) => ClassParam(s[1..k], s[k + 1..], flags, index, stars, advanceOnClass)
    else if s[0] == 'I' || s[0] == 'Z' then PrimParam(s[0], s[1..], flags, index, stars, advanceOnClass)
    else if s[0] == '[' then ParamDecls(s[1..], flags, index, stars + 1, advanceOnClass)
    else Fail(InvalidDescriptorCharacter(s[0]))
  }

  /** A class parameter `L<name>;` followed by `after`. Reading `flags` past
      its end is undefined in the C++ and fails with `MissingParameterFlags`
      here. */
  function ClassParam(name: string, after: string, flags: seq<nat>, index: nat, stars: nat, advanceOnClass: bool): (r: Result<seq<string>>)
    ensures WellSeparated(r)
    decreases |after|, 1
  {
    if index >= |flags| then Fail(MissingParameterFlags)
    else
      var depth := if IsPointer(flags[index]) then stars + 1 else stars;
      var cppType :- ClassParameterType(name);
      Cons(Declaration(cppType, depth, index),
           if advanceOnClass then ParamDecls(after, flags, index + 1, 0, advanceOnClass)
           else ParamDecls(after, flags, index, depth, advanceOnClass))
  }

  /** An `I` or `Z` parameter followed by `after`. */
  function PrimParam(c: char, after: string, flags: seq<nat>, index: nat, stars: nat, advanceOnClass: bool): (r: Result<seq<string>>)
    requires c == 'I' || c == 'Z'
    ensures WellSeparated(r)
    decreases |after|, 1
  {
    if index >= |flags| then Fail(MissingParameterFlags)
    else
      match TypeFromDescriptor([c], flags[index])
      case Fail(e) => Fail(e)
      case Ok(cppType) =>
        PrimCppType(c, flags[index]);
        Cons(Declaration(cppType, stars, index), ParamDecls(after, flags, index + 1, 0, advanceOnClass))
  }

  lemma PrimCppType(c: char, flag: nat)
    requires c == 'I' || c == 'Z'
    ensures TypeFromDescriptor([c], flag) == Ok(if c == 'Z' then "bool" else TypePrefix(flag) + "int32_t")
  {
    assert StripArrays([c]) == [c];
  }

  /** The list `generateParameters` builds (appending `", " + entry`) with
      its first two characters dropped. */
  function GenerateParametersWith(d: string, flags: seq<nat>, isMethod: bool, advanceOnClass: bool): (r: Result<string>)
    ensures Head(d) != '(' ==> r == Fail(DescriptorStart(Head(d)))
    ensures r.Ok? ==> !(|r.value| >= 2 && r.value[..2] == ", ")
  {
    if Head(d) != '(' then Fail(DescriptorStart(Head(d)))
    else
      var decls :- ParamDecls(d[1..], flags, if isMethod then 1 else 0, 0, advanceOnClass);
      var ret := Prefixed(decls, ", ");
      if |ret| > 0 then
        PrefixedIsJoin(decls, ", ");
        JoinHead(decls);
        Ok(ret[2..])
      else Ok(ret)
  }

  lemma {:induction false} JoinHead(xs: seq<string>)
    requires |xs| > 0 && |xs[0]| > 0
    ensures |Join(xs, ", ")| > 0 && Join(xs, ", ")[0] == xs[0][0]
  {
  }

  /** `generateParameters` exactly as written (main.cpp). */
  function GenerateParametersAsWritten(d: string, flags: seq<nat>, isMethod: bool): (r: Result<string>)
    ensures Head(d) != '(' ==> r == Fail(DescriptorStart(Head(d)))
    ensures r.Ok? ==> !(|r.value| >= 2 && r.value[..2] == ", ")
  {
    GenerateParametersWith(d, flags, isMethod, false)
  }

  /** `generateParameters` with a class parameter taking its own local
      number, as every other parameter does. */
  function GenerateParameters(d: string, flags: seq<nat>, isMethod: bool): (r: Result<string>)
    ensures Head(d) != '(' ==> r.Fail?
    ensures r.Ok? ==> !(|r.value| >= 2 && r.value[..2] == ", ")
  {
    GenerateParametersWith(d, flags, isMethod, true)
  }

  /** Parameter types `generateParameters` accepts. */
  predicate Declarable(t: FieldType)
  {
    Supported(Elem(t))
  }

  /** Element types `generateParameters` accepts. */
  predicate Supported(e: FieldType)
  {
    match e
    case Base(c) => c == 'I' || c == 'Z'
    case Object(n) => n == "java/lang/String" || n == "pimoroni/buffer"
    case Array(_) => false
  }

  /** The entry for a parameter of type `t`: its C++ type, one `*` per array
      dimension (and one more for a class flagged POINTER_TYPE), its name. */
  function ParamDeclaration(t: FieldType, flag: nat, index: nat): string
    requires Declarable(t)
  {
    Entry(Elem(t), Depth(t), flag, index)
  }

  /** The entry for a parameter whose element type is `e`, under `depth`
      array dimensions. */
  function Entry(e: FieldType, depth: nat, flag: nat, index: nat): string
    requires Supported(e)
  {
    match e
    case Base(c) =>
      Declaration(if c == 'Z' then "bool" else TypePrefix(flag) + "int32_t", depth, index)
    case Object(n) =>
      Declaration(if n == "java/lang/String" then "std::string" else "pimoroni::buffer",
                  depth + (if IsPointer(flag) then 1 else 0), index)
  }

  /** The entries of a parameter list whose first local number is `index`:
      the `i`-th entry belongs to the `i`-th parameter and to local
      `index + i`. */
  function Declarations(ps: seq<FieldType>, flags: seq<nat>, index: nat): (r: seq<string>)
    requires forall i :: 0 <= i < |ps| ==> Declarable(ps[i])
    requires index + |ps| <= |flags|
    ensures |r| == |ps|
  {
    seq(|ps|, i requires 0 <= i < |ps| => ParamDeclaration(ps[i], flags[index + i], index + i))
  }

  /** The entries of a non-empty list: the first parameter's, then the
      rest's from the next local number on. */
  lemma DeclarationsCons(ps: seq<FieldType>, flags: seq<nat>, index: nat)
    requires forall i :: 0 <= i < |ps| ==> Declarable(ps[i])
    requires index + |ps| <= |flags| && |ps| > 0
    ensures Declarations(ps, flags, index) ==
              [ParamDeclaration(ps[0], flags[index], index)] + Declarations(ps[1..], flags, index + 1)
  {
    var whole := Declarations(ps, flags, index);
    var cons := [ParamDeclaration(ps[0], flags[index], index)] + Declarations(ps[1..], flags, index + 1);
    forall i | 0 <= i < |ps|
      ensures whole[i] == cons[i]
    {
      if i > 0 {
        DeclarationShift(ps, flags, index, i);
      }
    }
    assert whole == cons;
  }

  /** Entry `i` of a list is entry `i - 1` of its tail. */
  lemma DeclarationShift(ps: seq<FieldType>, flags: seq<nat>, index: nat, i: nat)
    requires forall i :: 0 <= i < |ps| ==> Declarable(ps[i])
    requires index + |ps| <= |flags| && 1 <= i < |ps|
    ensures Declarations(ps, flags, index)[i] == Declarations(ps[1..], flags, index + 1)[i - 1]
  {
    assert ps[1..][i - 1] == ps[i];
    assert index + 1 + (i - 1) == index + i;
  }

  lemma {:induction false} ParamDeclsArrays(n: nat, s: string, flags: seq<nat>, index: nat, stars: nat, advanceOnClass: bool)
    ensures ParamDecls(Repeat('[', n) + s, flags, index, stars, advanceOnClass) ==
              ParamDecls(s, flags, index, stars + n, advanceOnClass)
    decreases n
  {
    if n > 0 {
      var t := Repeat('[', n) + s;
      assert t[0] == '[';
      assert t[1..] == Repeat('[', n - 1) + s;
      ParamDeclsArrays(n - 1, s, flags, index, stars + 1, advanceOnClass);
    } else {
      assert Repeat('[', n) + s == s;
    }
  }

  /** A class parameter is found by the first `;` after its `L`. */
  lemma ParamDeclsClass(name: string, rest: string, flags: seq<nat>, index: nat, stars: nat, advanceOnClass: bool)
    requires ';' !in name
    ensures ParamDecls("L" + name + ";" + rest, flags, index, stars, advanceOnClass) ==
              ClassParam(name, rest, flags, index, stars, advanceOnClass)
  {
    var s := "L" + name + ";" + rest;
    assert s[..|name| + 1] == "L" + name;
    IndexOfFirst(s, ';', |name| + 1);
    assert s[1..|name| + 1] == name;
    assert s[|name| + 2..] == rest;
  }

  lemma ParamDeclsPrim(c: char, rest: string, flags: seq<nat>, index: nat, stars: nat, advanceOnClass: bool)
    requires c == 'I' || c == 'Z'
    ensures ParamDecls([c] + rest, flags, index, stars, advanceOnClass) ==
              PrimParam(c, rest, flags, index, stars, advanceOnClass)
  {
    assert ([c] + rest)[1..] == rest;
  }

  lemma {:induction false} ParamDeclsRender(t: FieldType, rest: string, flags: seq<nat>, index: nat)
    requires Declarable(t) && index < |flags|
    ensures ParamDecls(Render(t) + rest, flags, index, 0, true) ==
              Cons(ParamDeclaration(t, flags[index], index), ParamDecls(rest, flags, index + 1, 0, true))
  {
    RenderSplitsArrays(t);
    assert Render(t) + rest == Repeat('[', Depth(t)) + (Render(Elem(t)) + rest);
    ArraysThenEntry(Elem(t), Depth(t), rest, flags, index);
  }

  lemma ArraysThenEntry(e: FieldType, depth: nat, rest: string, flags: seq<nat>, index: nat)
    requires Supported(e) && index < |flags|
    ensures ParamDecls(Repeat('[', depth) + (Render(e) + rest), flags, index, 0, true) ==
              Cons(Entry(e, depth, flags[index], index), ParamDecls(rest, flags, index + 1, 0, true))
  {
    ParamDeclsEntry(e, depth, rest, flags, index);
    ArraysThen(depth, Render(e) + rest, flags, index, Cons(Entry(e, depth, flags[index], index), ParamDecls(rest, flags, index + 1, 0, true)));
  }

  /** Array dimensions in front of an element: the element's scan with
      that many pending stars. */
  lemma ArraysThen(n: nat, s: string, flags: seq<nat>, index: nat, r: Result<seq<string>>)
    requires ParamDecls(s, flags, index, n, true) == r
    ensures ParamDecls(Repeat('[', n) + s, flags, index, 0, true) == r
  {
    ParamDeclsArrays(n, s, flags, index, 0, true);
  }

  lemma ParamDeclsEntry(e: FieldType, depth: nat, rest: string, flags: seq<nat>, index: nat)
    requires Supported(e) && index < |flags|
    ensures ParamDecls(Render(e) + rest, flags, index, depth, true) ==
              Cons(Entry(e, depth, flags[index], index), ParamDecls(rest, flags, index + 1, 0, true))
  {
    if e.Base? {
      EntryBase(e.tag, depth, rest, flags, index, true);
    } else {
      EntryObject(e.className, depth, rest, flags, index);
    }
  }

  /** A base parameter takes the next local number under either numbering. */
  lemma EntryBase(c: char, depth: nat, rest: string, flags: seq<nat>, index: nat, advanceOnClass: bool)
    requires (c == 'I' || c == 'Z') && index < |flags|
    ensures ParamDecls([c] + rest, flags, index, depth, advanceOnClass) ==
              Cons(Entry(Base(c), depth, flags[index], index), ParamDecls(rest, flags, index + 1, 0, advanceOnClass))
  {
    ParamDeclsPrim(c, rest, flags, index, depth, advanceOnClass);
    PrimCppType(c, flags[index]);
  }

  lemma EntryObject(n: string, depth: nat, rest: string, flags: seq<nat>, index: nat)
    requires (n == "java/lang/String" || n == "pimoroni/buffer") && index < |flags|
    ensures ParamDecls("L" + n + ";" + rest, flags, index, depth, true) ==
              Cons(Entry(Object(n), depth, flags[index], index), ParamDecls(rest, flags, index + 1, 0, true))
  {
    ClassStep(n, rest, flags, index, depth, true);
  }

  lemma {:induction false} ParamDeclsAll(ps: seq<FieldType>, ret: string, flags: seq<nat>, index: nat)
    requires forall i :: 0 <= i < |ps| ==> Declarable(ps[i])
    requires index + |ps| <= |flags|
    ensures ParamDecls(RenderAll(ps) + ")" + ret, flags, index, 0, true) == Ok(Declarations(ps, flags, index))
    decreases |ps|
  {
    var s := RenderAll(ps) + ")" + ret;
    if |ps| > 0 {
      var rest := RenderAll(ps[1..]) + ")" + ret;
      assert s == Render(ps[0]) + rest;
      DeclarationsCons(ps, flags, index);
      ParamDeclsRender(ps[0], rest, flags, index);
      ParamDeclsAll(ps[1..], ret, flags, index + 1);
    } else {
      assert s[0] == ')';
    }
  }

  /** The assembled list is the entries joined by `", "`. */
  lemma GenerateParametersJoin(d: string, flags: seq<nat>, isMethod: bool, advanceOnClass: bool, decls: seq<string>)
    requires Head(d) == '('
    requires ParamDecls(d[1..], flags, if isMethod then 1 else 0, 0, advanceOnClass) == Ok(decls)
    ensures GenerateParametersWith(d, flags, isMethod, advanceOnClass) == Ok(Join(decls, ", "))
  {
    if |decls| > 0 {
      PrefixedIsJoin(decls, ", ");
      assert |Prefixed(decls, ", ")| > 0;
    }
  }

  /** On a supported parameter list, `generateParameters` lists each
      parameter once, in order, named `local_1`, `local_2`, ... for a method
      and `local_0`, `local_1`, ... otherwise. */
  lemma GenerateParametersOfDescriptor(ps: seq<FieldType>, ret: string, flags: seq<nat>, isMethod: bool)
    requires forall i :: 0 <= i < |ps| ==> Declarable(ps[i])
    requires (if isMethod then 1 else 0) + |ps| <= |flags|
    ensures GenerateParameters(MethodDescriptor(ps, ret), flags, isMethod) ==
              Ok(Join(Declarations(ps, flags, if isMethod then 1 else 0), ", "))
  {
    var first := if isMethod then 1 else 0;
    DescriptorBody(ps, ret);
    ParamDeclsAll(ps, ret, flags, first);
    GenerateParametersJoin(MethodDescriptor(ps, ret), flags, isMethod, true, Declarations(ps, flags, first));
  }

  /** Different local numbers give different names. */
  lemma LocalNamesDistinct(i: nat, j: nat)
    ensures LocalName(i) == LocalName(j) ==> i == j
  {
    if LocalName(i) == LocalName(j) {
      assert LocalName(i)[6..] == Numerals.Decimal(i);
      assert LocalName(j)[6..] == Numerals.Decimal(j);
      Numerals.DecimalInjective(i, j);
    }
  }

  lemma ClassStep(name: string, after: string, flags: seq<nat>, index: nat, stars: nat, advanceOnClass: bool)
    requires name == "java/lang/String" || name == "pimoroni/buffer"
    requires index < |flags|
    ensures var depth := stars + if IsPointer(flags[index]) then 1 else 0;
            ParamDecls("L" + name + ";" + after, flags, index, stars, advanceOnClass) ==
              Cons(Declaration(ClassParameterType(name).value, depth, index),
                   if advanceOnClass then ParamDecls(after, flags, index + 1, 0, advanceOnClass)
                   else ParamDecls(after, flags, index, depth, advanceOnClass))
  {
    assert ';' !in name;
    ParamDeclsClass(name, after, flags, index, stars, advanceOnClass);
    assert ClassParameterType(name).Ok?;
  }

  lemma IntStep(after: string, flags: seq<nat>, index: nat, stars: nat, advanceOnClass: bool)
    requires index < |flags|
    ensures ParamDecls("I" + after, flags, index, stars, advanceOnClass) ==
              Cons(Declaration(TypePrefix(flags[index]) + "int32_t", stars, index),
                   ParamDecls(after, flags, index + 1, 0, advanceOnClass))
  {
    ParamDeclsPrim('I', after, flags, index, stars, advanceOnClass);
    PrimCppType('I', flags[index]);
  }

  /** A class parameter followed by an `int`. The code as written gives the
      `int` the class parameter's local number and its pending `*`; the
      corrected scan gives it the next number and no `*`. */
  lemma ClassThenInt(name: string, ret: string, flags: seq<nat>, first: nat, advanceOnClass: bool)
    requires name == "java/lang/String" || name == "pimoroni/buffer"
    requires first + 1 < |flags|
    ensures var depth := if IsPointer(flags[first]) then 1 else 0;
            var second := if advanceOnClass then first + 1 else first;
            ParamDecls("L" + name + ";" + ("I" + (")" + ret)), flags, first, 0, advanceOnClass) ==
              Ok([Declaration(ClassParameterType(name).value, depth, first),
                  Declaration(TypePrefix(flags[second]) + "int32_t", if advanceOnClass then 0 else depth, second)])
  {
    var depth := if IsPointer(flags[first]) then 1 else 0;
    var second := if advanceOnClass then first + 1 else first;
    var stars := if advanceOnClass then 0 else depth;
    var d1 := Declaration(ClassParameterType(name).value, depth, first);
    var d2 := Declaration(TypePrefix(flags[second]) + "int32_t", stars, second);
    IntThenClose(ret, flags, second, stars, advanceOnClass);
    ClassStep(name, "I" + (")" + ret), flags, first, 0, advanceOnClass);
    assert [d1] + [d2] == [d1, d2];
  }

  lemma IntThenClose(ret: string, flags: seq<nat>, index: nat, stars: nat, advanceOnClass: bool)
    requires index < |flags|
    ensures ParamDecls("I" + (")" + ret), flags, index, stars, advanceOnClass) ==
              Ok([Declaration(TypePrefix(flags[index]) + "int32_t", stars, index)])
  {
    IntStep(")" + ret, flags, index, stars, advanceOnClass);
    CloseParams(ret, flags, index + 1, 0, advanceOnClass);
    var d := Declaration(TypePrefix(flags[index]) + "int32_t", stars, index);
    assert [d] + [] == [d];
  }

  lemma CloseParams(ret: string, flags: seq<nat>, index: nat, stars: nat, advanceOnClass: bool)
    ensures ParamDecls(")" + ret, flags, index, stars, advanceOnClass) == Ok([])
  {
    assert (")" + ret)[0] == ')';
  }

  /** A class name without `;`, so the scan of a class element ends at its
      own `;`. */
  predicate PlainName(t: FieldType)
  {
    Elem(t).Object? ==> ';' !in Elem(t).className
  }

  lemma {:induction false} ElemValid(t: FieldType)
    requires Valid(t)
    ensures Valid(Elem(t))
  {
    if t.Array? {
      ElemValid(t.component);
    }
  }

  /** A base-type letter reads the same under both numberings when what
      follows it does: only a class parameter tells them apart. */
  lemma BaseAgrees(c: char, rest: string, flags: seq<nat>, index: nat, stars: nat)
    requires c in "BCDFIJSZ"
    requires ParamDecls(rest, flags, index + 1, 0, false) == ParamDecls(rest, flags, index + 1, 0, true)
    ensures ParamDecls([c] + rest, flags, index, stars, false) == ParamDecls([c] + rest, flags, index, stars, true)
  {
    if c == 'I' || c == 'Z' {
      ParamDeclsPrim(c, rest, flags, index, stars, false);
      ParamDeclsPrim(c, rest, flags, index, stars, true);
    } else {
      assert ([c] + rest)[0] == c;
    }
  }

  /** A parameter whose element type is a base type, arrays included. */
  lemma BaseParamAgrees(t: FieldType, rest: string, flags: seq<nat>, index: nat)
    requires Valid(t) && Elem(t).Base?
    requires ParamDecls(rest, flags, index + 1, 0, false) == ParamDecls(rest, flags, index + 1, 0, true)
    ensures ParamDecls(Render(t) + rest, flags, index, 0, false) == ParamDecls(Render(t) + rest, flags, index, 0, true)
  {
    RenderSplitsArrays(t);
    ElemValid(t);
    var c := Elem(t).tag;
    assert Render(t) + rest == Repeat('[', Depth(t)) + ([c] + rest);
    BaseAgrees(c, rest, flags, index, Depth(t));
    ArraysAgree(Depth(t), [c] + rest, flags, index);
  }

  /** Array dimensions in front of an element that reads the same under
      both numberings keep it so. */
  lemma ArraysAgree(n: nat, s: string, flags: seq<nat>, index: nat)
    requires ParamDecls(s, flags, index, n, false) == ParamDecls(s, flags, index, n, true)
    ensures ParamDecls(Repeat('[', n) + s, flags, index, 0, false) == ParamDecls(Repeat('[', n) + s, flags, index, 0, true)
  {
    ParamDeclsArrays(n, s, flags, index, 0, false);
    ParamDeclsArrays(n, s, flags, index, 0, true);
  }

  /** The last parameter reads the same under both numberings, whatever its
      type: after it comes `)`, which ends the scan. */
  lemma LastParamAgrees(t: FieldType, ret: string, flags: seq<nat>, index: nat)
    requires Valid(t) && PlainName(t)
    ensures ParamDecls(Render(t) + (")" + ret), flags, index, 0, false) ==
              ParamDecls(Render(t) + (")" + ret), flags, index, 0, true)
  {
    RenderSplitsArrays(t);
    if Elem(t).Base? {
      CloseParams(ret, flags, index + 1, 0, false);
      CloseParams(ret, flags, index + 1, 0, true);
      BaseParamAgrees(t, ")" + ret, flags, index);
    } else {
      var n := Elem(t).className;
      assert Render(t) + (")" + ret) == Repeat('[', Depth(t)) + ("L" + n + ";" + (")" + ret));
      LastClassAgrees(n, ret, flags, index, Depth(t));
      ArraysAgree(Depth(t), "L" + n + ";" + (")" + ret), flags, index);
    }
  }

  /** A class parameter right before `)`. */
  lemma LastClassAgrees(n: string, ret: string, flags: seq<nat>, index: nat, stars: nat)
    requires ';' !in n
    ensures ParamDecls("L" + n + ";" + (")" + ret), flags, index, stars, false) ==
              ParamDecls("L" + n + ";" + (")" + ret), flags, index, stars, true)
  {
    ParamDeclsClass(n, ")" + ret, flags, index, stars, false);
    ParamDeclsClass(n, ")" + ret, flags, index, stars, true);
    if index < |flags| {
      var depth := if IsPointer(flags[index]) then stars + 1 else stars;
      CloseParams(ret, flags, index, depth, false);
      CloseParams(ret, flags, index + 1, 0, true);
    }
  }

  /** The list scan as written and corrected agree when only the last
      parameter may be a class (or an array of one). */
  lemma {:induction false} ParamDeclsAgree(ps: seq<FieldType>, ret: string, flags: seq<nat>, index: nat)
    requires forall i :: 0 <= i < |ps| ==> Valid(ps[i])
    requires forall i :: 0 <= i < |ps| - 1 ==> Elem(ps[i]).Base?
    requires |ps| > 0 ==> PlainName(ps[|ps| - 1])
    ensures ParamDecls(RenderAll(ps) + ")" + ret, flags, index, 0, false) ==
              ParamDecls(RenderAll(ps) + ")" + ret, flags, index, 0, true)
    decreases |ps|
  {
    var s := RenderAll(ps) + ")" + ret;
    if |ps| == 0 {
      assert s[0] == ')';
    } else if |ps| == 1 {
      assert RenderAll(ps[1..]) == "" by { assert ps[1..] == []; }
      assert RenderAll(ps) == Render(ps[0]);
      assert s == Render(ps[0]) + (")" + ret);
      LastParamAgrees(ps[0], ret, flags, index);
    } else {
      var rest := RenderAll(ps[1..]) + ")" + ret;
      assert s == Render(ps[0]) + rest;
      assert ps[1..][|ps| - 2] == ps[|ps| - 1];
      ParamDeclsAgree(ps[1..], ret, flags, index + 1);
      BaseParamAgrees(ps[0], rest, flags, index);
    }
  }

  /** `generateParameters` as written gives the corrected result on every
      descriptor whose class parameter, if any, comes last: the missing
      advance after a class parameter shows only when a parameter follows
      it. */
  lemma GenerateParametersAgree(ps: seq<FieldType>, ret: string, flags: seq<nat>, isMethod: bool)
    requires forall i :: 0 <= i < |ps| ==> Valid(ps[i])
    requires forall i :: 0 <= i < |ps| - 1 ==> Elem(ps[i]).Base?
    requires |ps| > 0 ==> PlainName(ps[|ps| - 1])
    ensures GenerateParametersAsWritten(MethodDescriptor(ps, ret), flags, isMethod) ==
              GenerateParameters(MethodDescriptor(ps, ret), flags, isMethod)
  {
    DescriptorBody(ps, ret);
    ParamDeclsAgree(ps, ret, flags, if isMethod then 1 else 0);
  }

  /** A class parameter followed by an `int`, as in `(Ljava/lang/String;I)V`.
      The code as written declares both under the same local number, which
      gives the C++ function two parameters of one name; the corrected scan
      numbers them apart. */
  lemma ClassParameterReusesLocal(name: string, ret: string, flags: seq<nat>, isMethod: bool)
    requires name == "java/lang/String" || name == "pimoroni/buffer"
    requires (if isMethod then 2 else 1) < |flags|
    ensures var first := if isMethod then 1 else 0;
            var classEntry := Declaration(ClassParameterType(name).value, if IsPointer(flags[first]) then 1 else 0, first);
            var d := MethodDescriptor([Object(name), Base('I')], ret);
            && GenerateParametersAsWritten(d, flags, isMethod) ==
                 Ok(classEntry + ", " + Declaration(TypePrefix(flags[first]) + "int32_t", if IsPointer(flags[first]) then 1 else 0, first))
            && GenerateParameters(d, flags, isMethod) ==
                 Ok(classEntry + ", " + Declaration(TypePrefix(flags[first + 1]) + "int32_t", 0, first + 1))
  {
    var first := if isMethod then 1 else 0;
    var ps := [Object(name), Base('I')];
    var d := MethodDescriptor(ps, ret);
    DescriptorBody(ps, ret);
    assert RenderAll(ps) == "L" + name + ";" + "I" by {
      assert ps[1..] == [Base('I')];
      assert ps[1..][1..] == [];
      assert RenderAll(ps[1..]) == "I" + "";
    }
    assert d[1..] == "L" + name + ";" + ("I" + (")" + ret));
    ClassThenInt(name, ret, flags, first, false);
    ClassThenInt(name, ret, flags, first, true);
    var depth := if IsPointer(flags[first]) then 1 else 0;
    var classEntry := Declaration(ClassParameterType(name).value, depth, first);
    var asWritten := [classEntry, Declaration(TypePrefix(flags[first]) + "int32_t", depth, first)];
    var fixed := [classEntry, Declaration(TypePrefix(flags[first + 1]) + "int32_t", 0, first + 1)];
    GenerateParametersJoin(d, flags, isMethod, false, asWritten);
    GenerateParametersJoin(d, flags, isMethod, true, fixed);
    assert asWritten[1..] == [asWritten[1]];
    assert fixed[1..] == [fixed[1]];
  }
}
