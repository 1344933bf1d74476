/** Target boards: the command-line board name (`getBoardTypeFromString`,
    main.cpp), the back end each board is built by (main.cpp), and the two
    board-dependent strings of the generated CMakeLists.txt in
    boards/pico.cpp: the `PICO_BOARD` value and the extra link libraries. */
module Boards {
  import opened Wrappers

  /** `enum class Board` of globals.h, in declaration order. */
  datatype Board = Pico | PicoW | Tiny2040 | Tiny2040_2mb | Badger2040 | Gamebuino | Picosystem

  /** `std::tolower` in the "C" locale. */
  function ToLower(c: char): char
  {
    if 'A' <= c <= 'Z' then (c as int + 32) as char else c
  }

  function ToUpper(c: char): char
  {
    if 'a' <= c <= 'z' then (c as int - 32) as char else c
  }

  function Lower(s: string): (r: string)
    ensures |r| == |s| && forall i :: 0 <= i < |s| ==> r[i] == ToLower(s[i])
  {
    if |s| == 0 then "" else [ToLower(s[0])] + Lower(s[1..])
  }

  function Upper(s: string): (r: string)
    ensures |r| == |s| && forall i :: 0 <= i < |s| ==> r[i] == ToUpper(s[i])
  {
    if |s| == 0 then "" else [ToUpper(s[0])] + Upper(s[1..])
  }

  /** The name a user gives for each board, in lower case. */
  function BoardName(b: Board): string
  {
    match b
    case Pico => "pico"
    case PicoW => "picow"
    case Tiny2040 => "tiny2040"
    case Tiny2040_2mb => "tiny2040_2mb"
    case Badger2040 => "badger2040"
    case Gamebuino => "gamebuino"
    case Picosystem => "picosystem"
  }

  /** `getBoardTypeFromString`: the name is lower-cased first, and the error
      message shows the lower-cased name. */
  function ParseBoard(name: string): (r: Result<Board>)
    ensures r.Ok? ==> BoardName(r.value) == Lower(name)
    ensures r.Fail? ==> r.error == InvalidBoard(Lower(name))
  {
    var n := Lower(name);
    if n == "pico" then Ok(Pico)
    else if n == "picow" then Ok(PicoW)
    else if n == "tiny2040" then Ok(Tiny2040)
    else if n == "tiny2040_2mb" then Ok(Tiny2040_2mb)
    else if n == "badger2040" then Ok(Badger2040)
    else if n == "gamebuino" then Ok(Gamebuino)
    else if n == "picosystem" then Ok(Picosystem)
    else Fail(InvalidBoard(n))
  }

  /** A name is accepted exactly when its lower-case form names a board. */
  lemma ParseBoardAccepts(name: string)
    ensures ParseBoard(name).Ok? <==> exists b :: BoardName(b) == Lower(name)
  {
    if b :| BoardName(b) == Lower(name) {
      match b
      case Pico =>
      case PicoW =>
      case Tiny2040 =>
      case Tiny2040_2mb =>
      case Badger2040 =>
      case Gamebuino =>
      case Picosystem =>
    }
  }

  /** Lower-case letters, digits and `_`: the characters of board names. */
  predicate NameChar(c: char)
  {
    'a' <= c <= 'z' || '0' <= c <= '9' || c == '_'
  }

  predicate LowerCaseText(s: string)
  {
    forall i :: 0 <= i < |s| ==> NameChar(s[i])
  }

  lemma {:induction false} LowerUpper(s: string)
    requires LowerCaseText(s)
    ensures Lower(Upper(s)) == s
  {
    var r := Lower(Upper(s));
    forall i | 0 <= i < |s|
      ensures r[i] == s[i]
    {
      assert NameChar(s[i]);
    }
  }

  /** Every board is found by its name, whatever the case of its letters. */
  lemma ParseBoardName(b: Board)
    ensures ParseBoard(BoardName(b)) == Ok(b)
    ensures ParseBoard(Upper(BoardName(b))) == Ok(b)
  {
    var n := BoardName(b);
    assert LowerCaseText(n);
    LowerUpper(n);
    LowerIdentity(n);
    ParseBoardOfLower(n, b);
    ParseBoardOfLower(Upper(n), b);
  }

  lemma ParseBoardOfLower(name: string, b: Board)
    requires Lower(name) == BoardName(b)
    ensures ParseBoard(name) == Ok(b)
  {
    match b
    case Pico =>
    case PicoW =>
    case Tiny2040 =>
    case Tiny2040_2mb =>
    case Badger2040 =>
    case Gamebuino =>
    case Picosystem =>
  }

  lemma {:induction false} LowerIdentity(s: string)
    requires LowerCaseText(s)
    ensures Lower(s) == s
  {
    var r := Lower(s);
    forall i | 0 <= i < |s|
      ensures r[i] == s[i]
    {
      assert NameChar(s[i]);
    }
  }

  /** The program the board is built by (main.cpp). */
  datatype Backend = BuildGamebuino | BuildPicosystem | BuildPico(board: Board)

  function SelectBackend(name: string): (r: Result<Backend>)
    ensures r.Ok? ==> ParseBoard(name).Ok?
    ensures r.Ok? && r.value.BuildPico? ==> r.value.board == ParseBoard(name).value
  {
    var b :- ParseBoard(name);
    if b == Gamebuino then Ok(BuildGamebuino)
    else if b == Picosystem then Ok(BuildPicosystem)
    else Ok(BuildPico(b))
  }

  /** `get_cmake_board_name`: the `PICO_BOARD` value; the Gamebuino has none. */
  function CMakeBoardName(b: Board): (r: Result<string>)
    ensures r.Fail? <==> b == Gamebuino
    ensures r.Ok? ==> r.value != ""
  {
    match b
    case Pico => Ok("pico")
    case PicoW => Ok("pico_w")
    case Tiny2040 => Ok("pimoroni_tiny2040")
    case Tiny2040_2mb => Ok("pimoroni_tiny2040_2mb")
    case Badger2040 => Ok("pimoroni_badger2040")
    case Picosystem => Ok("pimoroni_picosystem")
    case Gamebuino => Fail(UnknownBoard)
  }

  /** Distinct boards get distinct `PICO_BOARD` values. */
  lemma CMakeBoardNameTable(a: Board, b: Board)
    ensures CMakeBoardName(a).Ok? && CMakeBoardName(b).Ok? && CMakeBoardName(a).value == CMakeBoardName(b).value ==> a == b
  {
  }

  /** Whatever the user types, the Pico back end is never handed a board
      without a `PICO_BOARD` value. */
  lemma PicoBackendHasCMakeBoard(name: string)
    requires SelectBackend(name).Ok? && SelectBackend(name).value.BuildPico?
    ensures CMakeBoardName(SelectBackend(name).value.board).Ok?
  {
  }

  /** The libraries linked after `pico_stdlib`: extra ones for exactly
      the PicoW (wireless) and the Badger 2040 (display). */
  function LinkLibraries(b: Board): (r: string)
    ensures r != "" <==> b == PicoW || b == Badger2040
  {
    if b == PicoW then "pico_cyw43_arch_none"
    else if b == Badger2040 then "badger2040 hardware_spi"
    else ""
  }

  /** The two extra sets of libraries differ. */
  lemma LinkLibrariesTable(b: Board)
    ensures LinkLibraries(PicoW) != LinkLibraries(Badger2040)
  {
  }
}
