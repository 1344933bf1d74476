/** The per-method context `decodeBytecodeLine` consults (classfile.cpp):
    the stack of scopes mapping local-variable indices to the kind of value
    last stored there (`localsTypes`, read by `findLocal`), and the method's
    line-number table (`getLineFromOpcode`, `getOpcodeFromLine`), whose
    entries pair a `start_pc` with a source line (The Java Virtual Machine
    Specification, section 4.7.12). */
module MethodContext {
  import opened Wrappers

  /** The kinds of the anonymous enum at the top of classfile.cpp. The codes
      4 to 11 are also the `atype` operand of `newarray`. */
  const TNone := 0
  const TString := 1
  const TObject := 2
  const TArray := 3
  const TBoolean := 4
  const TChar := 5
  const TFloat := 6
  const TDouble := 7
  const TByte := 8
  const TShort := 9
  const TInt := 10
  const TLong := 11

  /** `localsTypes`: the innermost scope is the last one. */
  type Scopes = seq<map<int, int>>

  /* ---------------------------------------------------------------- */
  /* Scoped local kinds                                               */
  /* ---------------------------------------------------------------- */

  /** `findLocal`: searches the scopes from the innermost outwards. */
  function FindLocal(scopes: Scopes, index: int): (r: int)
    ensures r == TNone || exists j :: 0 <= j < |scopes| && index in scopes[j] && scopes[j][index] == r
    decreases |scopes|
  {
    if |scopes| == 0 then TNone
    else if index in scopes[|scopes| - 1] then scopes[|scopes| - 1][index]
    else FindLocal(scopes[..|scopes| - 1], index)
  }

  /** Scope `j` records `index` and no scope inside it does. */
  predicate Innermost(scopes: Scopes, index: int, j: int)
  {
    && 0 <= j < |scopes|
    && index in scopes[j]
    && forall k :: j < k < |scopes| ==> index !in scopes[k]
  }

  /** The kind found is the one the innermost recording scope holds. */
  lemma {:induction false} FindLocalInnermost(scopes: Scopes, index: int, j: int)
    requires Innermost(scopes, index, j)
    ensures FindLocal(scopes, index) == scopes[j][index]
    decreases |scopes|
  {
    if j < |scopes| - 1 {
      var init := scopes[..|scopes| - 1];
      assert index !in scopes[|scopes| - 1];
      assert Innermost(init, index, j) by {
        forall k | j < k < |init|
          ensures index !in init[k]
        {
          assert init[k] == scopes[k];
        }
      }
      FindLocalInnermost(init, index, j);
    }
  }

  /** An index no scope records has no kind. */
  lemma {:induction false} FindLocalAbsent(scopes: Scopes, index: int)
    requires forall j :: 0 <= j < |scopes| ==> index !in scopes[j]
    ensures FindLocal(scopes, index) == TNone
    decreases |scopes|
  {
    if |scopes| > 0 {
      var init := scopes[..|scopes| - 1];
      assert forall j :: 0 <= j < |init| ==> index !in init[j] by {
        forall j | 0 <= j < |init|
          ensures index !in init[j]
        {
          assert init[j] == scopes[j];
        }
      }
      FindLocalAbsent(init, index);
    }
  }

  /** `localsTypes.back()[index] = kind`, as the store opcodes do. */
  function Record(scopes: Scopes, index: int, kind: int): (r: Scopes)
    requires |scopes| > 0
    ensures |r| == |scopes| && r[..|r| - 1] == scopes[..|scopes| - 1]
  {
    scopes[..|scopes| - 1] + [scopes[|scopes| - 1][index := kind]]
  }

  /** After a store, the index has the stored kind, and every other index
      keeps the kind it had. */
  lemma RecordFind(scopes: Scopes, index: int, kind: int, other: int)
    requires |scopes| > 0
    ensures FindLocal(Record(scopes, index, kind), index) == kind
    ensures other != index ==> FindLocal(Record(scopes, index, kind), other) == FindLocal(scopes, other)
  {
    var r := Record(scopes, index, kind);
    assert r[|r| - 1] == scopes[|scopes| - 1][index := kind];
    if other != index {
      if other !in scopes[|scopes| - 1] {
        assert other !in r[|r| - 1];
        assert r[..|r| - 1] == scopes[..|scopes| - 1];
      }
    }
  }

  /** Opening a fresh scope (`localsTypes.push_back({})`) hides nothing,
      and closing it again forgets exactly what was stored inside it. */
  lemma OpenScope(scopes: Scopes, index: int)
    ensures FindLocal(scopes + [map[]], index) == FindLocal(scopes, index)
    ensures (scopes + [map[]])[..|scopes|] == scopes
  {
    var s := scopes + [map[]];
    assert index !in s[|s| - 1];
    assert s[..|s| - 1] == scopes;
  }

  /* ---------------------------------------------------------------- */
  /* The line-number table                                            */
  /* ---------------------------------------------------------------- */

  /** One `line_number_table` entry: the line starts at `startPc`. */
  datatype LineEntry = LineEntry(startPc: nat, line: nat)

  /** The largest line number of the entries before `i`, or 0. */
  function MaxLine(lines: seq<LineEntry>, i: nat): (m: nat)
    requires i <= |lines|
    ensures forall k :: 0 <= k < i ==> lines[k].line <= m
    ensures i > 0 ==> exists k :: 0 <= k < i && lines[k].line == m
  {
    if i == 0 then 0
    else
      var prev := MaxLine(lines, i - 1);
      if lines[i - 1].line >= prev then lines[i - 1].line else prev
  }

  /** An entry is considered when no earlier entry has a larger line:
      entries whose line goes back (a loop condition compiled after its
      body) are passed over. */
  predicate Considered(lines: seq<LineEntry>, i: nat)
    requires i < |lines|
  {
    lines[i].line >= MaxLine(lines, i)
  }

  /** Entry `i` answers a query for `opcode`: it is considered, it is not
      the last entry, and its line starts at or after `opcode`. */
  predicate Answers(lines: seq<LineEntry>, opcode: int, i: nat)
    requires i < |lines|
  {
    i < |lines| - 1 && Considered(lines, i) && opcode <= lines[i].startPc
  }

  /** `getLineFromOpcode`: the loop over every entry but the last, with
      `lastLineSaw` the largest line seen so far; the last entry's line
      when no entry answers. `lines->size() - 1` of an empty table wraps
      around in the C++; the model fails instead. */
  function LineFromOpcode(lines: seq<LineEntry>, opcode: int): (r: Result<nat>)
    ensures r.Fail? <==> |lines| == 0
    ensures r.Ok? ==> exists k :: 0 <= k < |lines| && lines[k].line == r.value
  {
    if |lines| == 0 then Fail(EmptyLineTable)
    else Ok(ScanLines(lines, opcode, 0, 0))
  }

  function ScanLines(lines: seq<LineEntry>, opcode: int, i: nat, lastLineSaw: nat): (r: nat)
    requires i < |lines|
    ensures exists k :: i <= k < |lines| && lines[k].line == r
    decreases |lines| - i
  {
    if i == |lines| - 1 then lines[|lines| - 1].line
    else if lastLineSaw <= lines[i].line then
      if opcode <= lines[i].startPc then lines[i].line
      else ScanLines(lines, opcode, i + 1, lines[i].line)
    else ScanLines(lines, opcode, i + 1, lastLineSaw)
  }

  /** The scan from entry `i`, carrying the largest line seen so far, ends
      at the first entry from `i` on that answers. */
  lemma {:induction false} ScanLinesFirst(lines: seq<LineEntry>, opcode: int, i: nat, j: nat)
    requires i <= j < |lines|
    requires Answers(lines, opcode, j)
    requires forall k :: i <= k < j ==> !Answers(lines, opcode, k)
    ensures ScanLines(lines, opcode, i, MaxLine(lines, i)) == lines[j].line
    decreases j - i
  {
    if i < j {
      assert !Answers(lines, opcode, i);
      ScanLinesFirst(lines, opcode, i + 1, j);
    }
  }

  /** With no entry from `i` on answering, the scan gives the last line. */
  lemma {:induction false} ScanLinesNone(lines: seq<LineEntry>, opcode: int, i: nat)
    requires i < |lines|
    requires forall k :: i <= k < |lines| ==> !Answers(lines, opcode, k)
    ensures ScanLines(lines, opcode, i, MaxLine(lines, i)) == lines[|lines| - 1].line
    decreases |lines| - i
  {
    if i < |lines| - 1 {
      assert !Answers(lines, opcode, i);
      ScanLinesNone(lines, opcode, i + 1);
    }
  }

  /** The line of an opcode is that of the first considered entry (other
      than the last) whose line starts at or after the opcode. */
  lemma LineFromOpcodeFirst(lines: seq<LineEntry>, opcode: int, j: nat)
    requires j < |lines| && Answers(lines, opcode, j)
    requires forall k :: 0 <= k < j ==> !Answers(lines, opcode, k)
    ensures LineFromOpcode(lines, opcode) == Ok(lines[j].line)
  {
    ScanLinesFirst(lines, opcode, 0, j);
  }

  /** With no answering entry, the line is that of the last entry. */
  lemma LineFromOpcodeLast(lines: seq<LineEntry>, opcode: int)
    requires |lines| > 0
    requires forall k :: 0 <= k < |lines| ==> !Answers(lines, opcode, k)
    ensures LineFromOpcode(lines, opcode) == Ok(lines[|lines| - 1].line)
  {
    ScanLinesNone(lines, opcode, 0);
  }

  /** `getOpcodeFromLine`: the `start_pc` of the first entry of the line. */
  function OpcodeFromLine(lines: seq<LineEntry>, line: nat): (r: Result<nat>)
    ensures r.Fail? <==> forall k :: 0 <= k < |lines| ==> lines[k].line != line
    ensures r.Fail? ==> r.error == InvalidLine
    ensures r.Ok? ==> exists k :: FirstOfLine(lines, line, k) && lines[k].startPc == r.value
  {
    match FirstIndexOfLine(lines, line, 0)
    case None => Fail(InvalidLine)
    case Some(k) => Ok(lines[k].startPc)
  }

  /** Entry `k` is the first entry of `line`. */
  predicate FirstOfLine(lines: seq<LineEntry>, line: nat, k: int)
  {
    0 <= k < |lines| && lines[k].line == line && forall i :: 0 <= i < k ==> lines[i].line != line
  }

  function FirstIndexOfLine(lines: seq<LineEntry>, line: nat, from: nat): (r: Option<nat>)
    requires from <= |lines|
    requires forall i :: 0 <= i < from ==> lines[i].line != line
    ensures r.None? <==> forall k :: 0 <= k < |lines| ==> lines[k].line != line
    ensures r.Some? ==> FirstOfLine(lines, line, r.value)
    decreases |lines| - from
  {
    if from == |lines| then None
    else if lines[from].line == line then Some(from)
    else FirstIndexOfLine(lines, line, from + 1)
  }

  /** A table as javac writes it for straight-line code: start addresses
      strictly increasing, line numbers never decreasing. */
  predicate Sorted(lines: seq<LineEntry>)
  {
    forall i, j :: 0 <= i < j < |lines| ==> lines[i].startPc < lines[j].startPc && lines[i].line <= lines[j].line
  }

  lemma {:induction false} SortedConsidered(lines: seq<LineEntry>, i: nat)
    requires Sorted(lines) && i < |lines|
    ensures Considered(lines, i)
  {
    if i > 0 {
      var m := MaxLine(lines, i);
      var k :| 0 <= k < i && lines[k].line == m;
    }
  }

  /** In a sorted table, looking up the line of the address where a line
      starts gives that line back. */
  lemma LineOpcodeRoundTrip(lines: seq<LineEntry>, line: nat)
    requires Sorted(lines)
    requires OpcodeFromLine(lines, line).Ok?
    ensures LineFromOpcode(lines, OpcodeFromLine(lines, line).value) == Ok(line)
  {
    var pc := OpcodeFromLine(lines, line).value;
    var k :| FirstOfLine(lines, line, k) && lines[k].startPc == pc;
    forall i | 0 <= i < k
      ensures !Answers(lines, pc, i)
    {
    }
    if k < |lines| - 1 {
      SortedConsidered(lines, k);
      LineFromOpcodeFirst(lines, pc, k);
    } else {
      LineFromOpcodeLast(lines, pc);
    }
  }
}
