/** `Game`: the client's view of one game, its flags and the 3x3 board, with
    the move-legality checks. Operations return the new game instead of
    mutating it. */
module GameState {
  import opened Wrappers
  import opened Errors
  import opened Symbols
  import Coordinates

  type Cell = Option<Symbol>

  /** Nine cells, row-major (index 3y + x). */
  type Board = s: seq<Cell> | |s| == 9 witness [None, None, None, None, None, None, None, None, None]

  /** `gameCode` is read and written by the session but has no declaration in
      `Game`; it is modelled as a field that is `None` until set. */
  datatype Game = Game(
    onTurn: bool,
    symbol: Option<Symbol>,
    gameActive: bool,
    hasOpponent: bool,
    fields: Board,
    gameCode: Option<string>)

  /** A fresh game: on turn, no symbol, inactive, no opponent, empty board, no code. */
  function New(): (g: Game)
    ensures g.onTurn && g.symbol == None && !g.gameActive && !g.hasOpponent && g.gameCode == None
    ensures forall i :: 0 <= i < 9 ==> g.fields[i] == None
  {
    Game(true, None, false, false, [None, None, None, None, None, None, None, None, None], None)
  }

  /** An active game has a symbol to place: `setGameActive` is the only way
      to activate a game, and it sets the symbol. */
  predicate WellFormed(g: Game)
  {
    g.gameActive ==> g.symbol.Some?
  }

  /** `setGameActive(symbol)`: activates the game with that symbol; nothing else changes. */
  function SetGameActive(g: Game, s: Symbol): (r: Game)
    ensures r.gameActive && r.symbol == Some(s) && WellFormed(r)
    ensures r.onTurn == g.onTurn && r.hasOpponent == g.hasOpponent
    ensures r.fields == g.fields && r.gameCode == g.gameCode
  {
    g.(gameActive := true, symbol := Some(s))
  }

  /** `deactivateGame()`: clears `gameActive` and nothing else. */
  function DeactivateGame(g: Game): (r: Game)
    ensures !r.gameActive && WellFormed(r)
    ensures r.onTurn == g.onTurn && r.symbol == g.symbol && r.hasOpponent == g.hasOpponent
    ensures r.fields == g.fields && r.gameCode == g.gameCode
  {
    g.(gameActive := false)
  }

  /** Deactivating undoes activation apart from the symbol, and activating
      again restores the active game. */
  lemma ActivateDeactivate(g: Game, s: Symbol)
    ensures DeactivateGame(SetGameActive(g, s)) == g.(gameActive := false, symbol := Some(s))
    ensures SetGameActive(DeactivateGame(SetGameActive(g, s)), s) == SetGameActive(g, s)
  {
  }

  /** What a move writes: the own symbol, or for the opponent the other one
      (nothing when no symbol is set). */
  function MoveMark(g: Game, opponent: bool): Cell
  {
    if !opponent then g.symbol else if g.symbol.Some? then Some(Other(g.symbol.value)) else None
  }

  /** `makeMove(position, opponent)`. The checks run in order: the game must
      be active, a local move needs the turn (an opponent's move does not),
      the index must lie on the board (Kotlin's list indexing), and the cell
      must be empty. A successful move writes one cell and leaves every flag,
      `onTurn` included, as it was. */
  function MakeMove(g: Game, position: int, opponent: bool): (r: Result<Game, Error>)
    ensures r == Failure(GameNotActive) <==> !g.gameActive
    ensures r == Failure(NotOnTurn) <==> g.gameActive && !opponent && !g.onTurn
    ensures r == Failure(IndexOutOfBounds) <==>
      g.gameActive && (opponent || g.onTurn) && !(0 <= position < 9)
    ensures r == Failure(FieldAlreadyOccupied) <==>
      g.gameActive && (opponent || g.onTurn) && 0 <= position < 9 && g.fields[position].Some?
    ensures r.Success? <==> g.gameActive && (opponent || g.onTurn) && 0 <= position < 9 && g.fields[position].None?
    ensures r.Success? ==> && 0 <= position < 9
                           && r.value.fields[position] == MoveMark(g, opponent)
                           && (forall i :: 0 <= i < 9 && i != position ==> r.value.fields[i] == g.fields[i])
                           && r.value == g.(fields := r.value.fields)
  {
    if !g.gameActive then Failure(GameNotActive)
    else if !opponent && !g.onTurn then Failure(NotOnTurn)
    else if !(0 <= position < 9) then Failure(IndexOutOfBounds)
    else if g.fields[position].Some? then Failure(FieldAlreadyOccupied)
    else Success(g.(fields := g.fields[position := MoveMark(g, opponent)]))
  }

  /** The scenario of the test `makeMoveTurnChange`: a fresh game activated
      with O, then a local move at index 0. The move is placed and `onTurn`
      stays true, while the test expects it to be false. */
  lemma TurnKeptAfterMove(g: Game)
    requires g == SetGameActive(New(), O)
    ensures MakeMove(g, 0, false).Success?
    ensures MakeMove(g, 0, false).value.fields[0] == Some(O)
    ensures MakeMove(g, 0, false).value.onTurn
  {
  }

  /** The number of occupied cells among the first n. */
  function Occupied(b: Board, n: nat): nat
    requires n <= 9
  {
    if n == 0 then 0 else Occupied(b, n - 1) + (if b[n - 1].Some? then 1 else 0)
  }

  /** Changing one empty cell to a mark adds exactly one occupied cell. */
  lemma {:induction false} OccupiedWrite(b: Board, p: nat, c: Symbol, n: nat)
    requires p < 9 && n <= 9 && b[p].None?
    ensures Occupied(b[p := Some(c)], n) == Occupied(b, n) + (if p < n then 1 else 0)
  {
    if n > 0 {
      OccupiedWrite(b, p, c, n - 1);
    }
  }

  /** A move in a well-formed game fills one empty cell with a mark, keeps the
      game well-formed, and cannot be repeated on the same cell. */
  lemma MakeMoveFillsCell(g: Game, position: int, opponent: bool)
    requires WellFormed(g) && MakeMove(g, position, opponent).Success?
    ensures WellFormed(MakeMove(g, position, opponent).value)
    ensures MakeMove(g, position, opponent).value.fields[position].Some?
    ensures Occupied(MakeMove(g, position, opponent).value.fields, 9) == Occupied(g.fields, 9) + 1
    ensures MakeMove(MakeMove(g, position, opponent).value, position, true) == Failure(FieldAlreadyOccupied)
  {
    OccupiedWrite(g.fields, position, MoveMark(g, opponent).value, 9);
  }

  /** The opponent's move on a cell places the opposite of the mark the
      local player would place there. */
  lemma OpponentPlacesOther(g: Game, position: int)
    requires g.gameActive && g.onTurn && g.symbol.Some? && 0 <= position < 9 && g.fields[position].None?
    ensures MakeMove(g, position, true).value.fields[position] == Some(Other(MakeMove(g, position, false).value.fields[position].value))
  {
  }

  /** `updateBoard(symbols)`: cell i becomes symbols[i]; later cells keep
      their contents. A list longer than the board runs off its end. */
  function UpdateBoard(g: Game, symbols: seq<Cell>): (r: Result<Game, Error>)
    ensures r.Success? <==> |symbols| <= 9
    ensures r.Failure? ==> r.error == IndexOutOfBounds
    ensures r.Success? ==> && (forall i :: 0 <= i < |symbols| ==> r.value.fields[i] == symbols[i])
                           && (forall i :: |symbols| <= i < 9 ==> r.value.fields[i] == g.fields[i])
                           && r.value == g.(fields := r.value.fields)
  {
    if |symbols| > 9 then Failure(IndexOutOfBounds)
    else Success(g.(fields := symbols + g.fields[|symbols|..]))
  }

  /** A full-length update replaces the board outright, whatever it held. */
  lemma UpdateBoardReplaces(g: Game, h: Game, symbols: seq<Cell>)
    requires |symbols| == 9 && g.(fields := h.fields) == h
    ensures UpdateBoard(g, symbols) == UpdateBoard(h, symbols)
    ensures UpdateBoard(g, symbols).value.fields == symbols
  {
  }

  /** `getSymbolByCoords(x, y)`: `IllegalArgumentException` unless both are
      in 0..2, otherwise cell 3y + x. */
  function GetSymbolByCoords(g: Game, x: int, y: int): (r: Result<Cell, Error>)
    ensures r.Success? <==> 0 <= x <= 2 && 0 <= y <= 2
    ensures r.Failure? ==> r.error == IllegalArgument("")
    ensures r.Success? ==> r.value == g.fields[Coordinates.ToIndex(Coordinates.FieldCoordinate(x, y))]
  {
    if !(0 <= x <= 2 && 0 <= y <= 2) then Failure(IllegalArgument(""))
    else Success(g.fields[3 * y + x])
  }

  /** The cell a move wrote is what the coordinate lookup then reports. */
  lemma MoveThenLookup(g: Game, c: Coordinates.FieldCoordinate, opponent: bool)
    requires Coordinates.Valid(c) && MakeMove(g, Coordinates.ToIndex(c), opponent).Success?
    ensures GetSymbolByCoords(MakeMove(g, Coordinates.ToIndex(c), opponent).value, c.x, c.y) == Success(MoveMark(g, opponent))
  {
  }
}
