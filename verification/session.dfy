/** `Player`: the client session. Each inbound frame is handled by a pure
    step function from the session state to the new state and the
    notification the UI receives; the local operations return the new state
    together with the bytes they send. */
module Session {
  import opened Bits
  import opened Wrappers
  import opened Errors
  import opened Symbols
  import Coordinates
  import GameState
  import Deconstructor
  import Outgoing

  type Reader = Deconstructor.ByteDeconstructor

  /** The mutable fields of `Player` that the core reads and writes. */
  datatype Session = Session(
    game: GameState.Game,
    lastGameCodeEntered: Option<string>,
    communicatorClosedPurposely: bool)

  /** What `Player` pushes to the UI channel: `null` (redraw) or an error text. */
  datatype Notification = Refresh | Message(text: string)

  /** The outcome of one iteration of the receive loop: the loop goes on with
      a new state and a notification, or ends on a `null` frame (with the
      error text it sends, if any). */
  datatype StepResult = Continue(session: Session, note: Notification) | Closed(message: Option<string>)

  /** A handler's outcome: finished with a notification, or threw after
      having changed the session as far as it got. */
  datatype Attempt = Done(session: Session, note: Notification) | Threw(session: Session, error: Error)

  const SomethingWentWrong := "Something went wrong..."
  const ConnectionClosed := "Error in WebSocket connection: The connection has been closed."
  const PacketInvalidText := "Sorry, there was a problem with sending data :/"
  const ActionInvalidText := "You cannot do this right now."
  const GameCodeInvalidText := "This game code is invalid."
  const GameFullText := "The game is full, please wait or join another game."

  /** A session at start-up: a fresh game, no code entered, not closed. */
  function New(): (s: Session)
    ensures s.game == GameState.New() && s.lastGameCodeEntered == None && !s.communicatorClosedPurposely
  {
    Session(GameState.New(), None, false)
  }

  /** `getSymbolByBoolean`: 1 stands for X, 0 for O. */
  function SymbolOf(b: bool): (s: Symbol)
    ensures (s == X) == b
  {
    if b then X else O
  }

  /* ---------------------------------------------------------------------
     Welcome: five 5-bit letters.
     --------------------------------------------------------------------- */

  /** `'A' + readInt(5)`. */
  function LetterOf(v: int): (c: char)
    requires 0 <= v < 32
    ensures c as int == 'A' as int + v
  {
    ('A' as int + v) as char
  }

  /** The letters a bit string stands for, 5 bits each, as the server writes
      a game code. */
  function LettersOf(bits: seq<bool>): (code: string)
    requires |bits| % 5 == 0
    ensures |code| == |bits| / 5
  {
    if |bits| == 0 then []
    else
      ValueOfBound(bits[..5]);
      assert Pow2(5) == 32;
      [LetterOf(ValueOf(bits[..5]))] + LettersOf(bits[5..])
  }

  lemma LettersPrefix(rem: seq<bool>, n: nat)
    requires 1 <= n && 5 * n <= |rem|
    ensures ValueOf(rem[..5]) < 32
    ensures LettersOf(rem[..5 * n]) == [LetterOf(ValueOf(rem[..5]))] + LettersOf(rem[5..][..5 * (n - 1)])
    ensures rem[5..][5 * (n - 1)..] == rem[5 * n..]
  {
    ValueOfBound(rem[..5]);
    assert Pow2(5) == 32;
    assert rem[..5 * n][..5] == rem[..5];
    assert rem[..5 * n][5..] == rem[5..][..5 * (n - 1)];
  }

  /** One letter: `'A' + readInt(5)`. */
  function ReadLetter(r: Reader): (res: Result<Deconstructor.Read<char>, Error>)
    requires Deconstructor.Valid(r)
    ensures res.Success? <==> 5 <= |Deconstructor.Remaining(r)|
    ensures res.Failure? ==> res.error == InvalidPacket("Packet too short!")
    ensures res.Success? ==> && Deconstructor.Valid(res.value.rest)
                             && ValueOf(Deconstructor.Remaining(r)[..5]) < 32
                             && res.value.value == LetterOf(ValueOf(Deconstructor.Remaining(r)[..5]))
                             && Deconstructor.Remaining(res.value.rest) == Deconstructor.Remaining(r)[5..]
  {
    var v :- Deconstructor.ReadInt(r, 5);
    Deconstructor.ReadIntValue(r, 5);
    assert Pow2(5) == 32;
    Success(Deconstructor.Read(LetterOf(v.value), v.rest))
  }

  /** The `repeat(5)` loop of `onWelcome`, n letters. */
  function ReadLetters(r: Reader, n: nat): (res: Result<Deconstructor.Read<string>, Error>)
    requires Deconstructor.Valid(r)
    ensures res.Success? <==> 5 * n <= |Deconstructor.Remaining(r)|
    ensures res.Failure? ==> res.error == InvalidPacket("Packet too short!")
    ensures res.Success? ==> && Deconstructor.Valid(res.value.rest)
                             && res.value.value == LettersOf(Deconstructor.Remaining(r)[..5 * n])
                             && Deconstructor.Remaining(res.value.rest) == Deconstructor.Remaining(r)[5 * n..]
    decreases n
  {
    if n == 0 then Success(Deconstructor.Read([], r))
    else
      var c :- ReadLetter(r);
      var rest :- ReadLetters(c.rest, n - 1);
      LettersPrefix(Deconstructor.Remaining(r), n);
      Success(Deconstructor.Read([c.value] + rest.value, rest.rest))
  }

  /** `onWelcome`: reads the five letters of the game code, then stores it
      as both the game's code and the last code entered. A short packet
      throws before anything changes. */
  function OnWelcome(s: Session, r: Reader): (a: Attempt)
    requires Deconstructor.Valid(r)
    ensures a.Done? <==> 25 <= |Deconstructor.Remaining(r)|
    ensures a.Threw? ==> a.session == s && a.error == InvalidPacket("Packet too short!")
    ensures a.Done? ==> && a.note == Refresh
                        && a.session == s.(game := s.game.(gameCode := Some(LettersOf(Deconstructor.Remaining(r)[..25]))),
                                           lastGameCodeEntered := Some(LettersOf(Deconstructor.Remaining(r)[..25])))
  {
    var code := ReadLetters(r, 5);
    if code.Failure? then Threw(s, code.error)
    else
      var c := code.value.value;
      Done(s.(game := s.game.(gameCode := Some(c)), lastGameCodeEntered := Some(c)), Refresh)
  }

  /* ---------------------------------------------------------------------
     OpponentMakeMove: a 4-bit position.
     --------------------------------------------------------------------- */

  /** `onOpponentMakeMove(readInt(4))`: the position must be a board index
      (`FieldCoordinate(position)`), then the opponent's move is applied.
      Any failure throws before the game changes. */
  function OnOpponentMakeMove(s: Session, r: Reader): (a: Attempt)
    requires Deconstructor.Valid(r)
    ensures a.Threw? ==> a.session == s
    ensures a.session.game.gameActive == s.game.gameActive
    ensures GameState.WellFormed(s.game) ==> GameState.WellFormed(a.session.game)
    ensures a.Done? <==> && 4 <= |Deconstructor.Remaining(r)|
                         && ValueOf(Deconstructor.Remaining(r)[..4]) <= 8
                         && GameState.MakeMove(s.game, ValueOf(Deconstructor.Remaining(r)[..4]), true).Success?
    ensures a.Done? ==> && a.note == Refresh
                        && a.session == s.(game := GameState.MakeMove(s.game, ValueOf(Deconstructor.Remaining(r)[..4]), true).value)
  {
    var p := Deconstructor.ReadInt(r, 4);
    if p.Failure? then Threw(s, p.error)
    else
      Deconstructor.ReadIntValue(r, 4);
      assert Pow2(4) == 16;
      var c := Coordinates.FromIndex(p.value.value);
      if c.Failure? then Threw(s, c.error)
      else
        var g := GameState.MakeMove(s.game, Coordinates.ToIndex(c.value), true);
        if g.Failure? then Threw(s, g.error)
        else Done(s.(game := g.value), Refresh)
  }

  /* ---------------------------------------------------------------------
     GameInfo: symbol, three flags and the board.
     --------------------------------------------------------------------- */

  /** The bits of a board as the server writes them: an occupied bit per
      cell, followed for an occupied cell by its symbol bit (1 = X). */
  function CellBits(cells: seq<GameState.Cell>): seq<bool>
  {
    if |cells| == 0 then [] else CellCode(cells[0]) + CellBits(cells[1..])
  }

  /** One cell as the server writes it. */
  function CellCode(c: GameState.Cell): seq<bool>
  {
    match c
    case None => [false]
    case Some(m) => [true, m == X]
  }

  /** A board decoded from a bit string, with the bits after it. */
  datatype Parsed = Parsed(cells: seq<GameState.Cell>, rest: seq<bool>)

  function Prepend(c: GameState.Cell, p: Option<Parsed>): (q: Option<Parsed>)
    ensures q.Some? <==> p.Some?
    ensures q.Some? ==> q.value == Parsed([c] + p.value.cells, p.value.rest)
  {
    match p
    case None => None
    case Some(t) => Some(Parsed([c] + t.cells, t.rest))
  }

  /** One cell decoded from a plain bit string: an occupied bit, then for
      an occupied cell its symbol bit. `None` when the bits run out. */
  function ParseCell(bits: seq<bool>): (p: Option<(GameState.Cell, seq<bool>)>)
    ensures p.Some? ==> |p.value.1| < |bits|
  {
    if |bits| == 0 then None
    else if !bits[0] then Some((None, bits[1..]))
    else if |bits| == 1 then None
    else Some((Some(SymbolOf(bits[1])), bits[2..]))
  }

  /** n cells decoded one after the other. */
  function ParseCells(bits: seq<bool>, n: nat): (p: Option<Parsed>)
    ensures p.Some? ==> |p.value.cells| == n && |p.value.rest| <= |bits|
    decreases n
  {
    if n == 0 then Some(Parsed([], bits))
    else
      match ParseCell(bits)
      case None => None
      case Some((c, rest)) => Prepend(c, ParseCells(rest, n - 1))
  }

  /** The number of cells a GameInfo packet carries. */
  const BoardCells: nat := 9

  /** At most eight bits, all zero: what `finish()` accepts as written,
      a whole unread zero byte included (see `Deconstructor.FinishAsWritten`). */
  predicate IsPadding(bits: seq<bool>)
  {
    |bits| <= 8 && forall i :: 0 <= i < |bits| ==> !bits[i]
  }

  /** The board a GameInfo packet's tail stands for: nine cells followed by
      nothing but padding (`IsPadding`). */
  function BoardOf(bits: seq<bool>): (b: Option<seq<GameState.Cell>>)
    ensures b.Some? ==> |b.value| == 9
  {
    var p := ParseCells(bits, BoardCells);
    if p.Some? && IsPadding(p.value.rest) then Some(p.value.cells) else None
  }

  /** Decoding what `CellBits` encodes gives the cells back, and the reader
      stops exactly where the encoding ends. */
  lemma ParseCellCode(c: GameState.Cell, tail: seq<bool>)
    ensures ParseCell(CellCode(c) + tail) == Some((c, tail))
  {
    var bits := CellCode(c) + tail;
    assert bits[|CellCode(c)|..] == tail;
  }

  lemma {:induction false} ParseCellBits(cells: seq<GameState.Cell>, tail: seq<bool>)
    ensures ParseCells(CellBits(cells) + tail, |cells|) == Some(Parsed(cells, tail))
    decreases |cells|
  {
    if |cells| > 0 {
      var bits := CellBits(cells) + tail;
      assert bits == CellCode(cells[0]) + (CellBits(cells[1..]) + tail);
      ParseCellCode(cells[0], CellBits(cells[1..]) + tail);
      ParseCellBits(cells[1..], tail);
      assert [cells[0]] + cells[1..] == cells;
    } else {
      assert CellBits(cells) + tail == tail;
    }
  }

  /** A nine-cell encoding followed by padding is accepted as that board. */
  lemma BoardOfCellBits(cells: seq<GameState.Cell>, pad: seq<bool>)
    requires |cells| == 9 && IsPadding(pad)
    ensures BoardOf(CellBits(cells) + pad) == Some(cells)
  {
    ParseCellBits(cells, pad);
  }

  /** One decoded cell is the encoding of that cell, then the bits left. */
  lemma ParseCellDecodes(bits: seq<bool>)
    requires ParseCell(bits).Some?
    ensures bits == CellCode(ParseCell(bits).value.0) + ParseCell(bits).value.1
  {
    if bits[0] {
      assert bits == [bits[0], bits[1]] + bits[2..];
    } else {
      assert bits == [bits[0]] + bits[1..];
    }
  }

  /** What a successful cell decoding read is the encoding of the cells it
      returned, followed by the bits it left. */
  lemma {:induction false} ParseCellsEncodes(bits: seq<bool>, n: nat)
    requires ParseCells(bits, n).Some?
    ensures bits == CellBits(ParseCells(bits, n).value.cells) + ParseCells(bits, n).value.rest
    decreases n
  {
    if n > 0 {
      var (c, rest) := ParseCell(bits).value;
      assert bits == CellCode(c) + rest by { ParseCellDecodes(bits); }
      ParseCellsEncodes(rest, n - 1);
      var p := ParseCells(rest, n - 1).value;
      assert ParseCells(bits, n).value == Parsed([c] + p.cells, p.rest);
      CellBitsCons(c, p.cells);
      AppendAssoc(CellCode(c), CellBits(p.cells), p.rest);
    }
  }

  /** The encoding of a board is its first cell's code, then the rest's. */
  lemma CellBitsCons(c: GameState.Cell, cells: seq<GameState.Cell>)
    ensures CellBits([c] + cells) == CellCode(c) + CellBits(cells)
  {
    assert ([c] + cells)[0] == c && ([c] + cells)[1..] == cells;
  }

  /** `BoardOf` accepts exactly the nine-cell encodings followed by padding,
      and then gives those cells. */
  lemma BoardOfExactly(bits: seq<bool>, cells: seq<GameState.Cell>)
    ensures BoardOf(bits) == Some(cells) <==>
      && |cells| == 9
      && |CellBits(cells)| <= |bits|
      && bits[..|CellBits(cells)|] == CellBits(cells)
      && IsPadding(bits[|CellBits(cells)|..])
  {
    var k := |CellBits(cells)|;
    if BoardOf(bits) == Some(cells) {
      ParseCellsEncodes(bits, BoardCells);
      var p := ParseCells(bits, BoardCells).value;
      assert bits[..k] == CellBits(cells) && bits[k..] == p.rest;
    }
    if |cells| == 9 && k <= |bits| && bits[..k] == CellBits(cells) && IsPadding(bits[k..]) {
      assert bits == CellBits(cells) + bits[k..];
      BoardOfCellBits(cells, bits[k..]);
    }
  }

  /** One iteration of the cell loop of `updateGame`. */
  function ReadCell(r: Reader): (res: Result<Deconstructor.Read<GameState.Cell>, Error>)
    requires Deconstructor.Valid(r)
    ensures res.Success? <==> ParseCell(Deconstructor.Remaining(r)).Some?
    ensures res.Failure? ==> res.error == InvalidPacket("Packet too short!")
    ensures res.Success? ==> && Deconstructor.Valid(res.value.rest)
                             && res.value.value == ParseCell(Deconstructor.Remaining(r)).value.0
                             && Deconstructor.Remaining(res.value.rest) == ParseCell(Deconstructor.Remaining(r)).value.1
  {
    var occupied :- Deconstructor.ReadBoolean(r);
    if !occupied.value then Success(Deconstructor.Read(None, occupied.rest))
    else
      var mark :- Deconstructor.ReadBoolean(occupied.rest);
      assert Deconstructor.Remaining(mark.rest) == Deconstructor.Remaining(r)[2..];
      Success(Deconstructor.Read(Some(SymbolOf(mark.value)), mark.rest))
  }

  /** The cell loop of `updateGame`, n cells: it reads exactly what
      `ParseCells` decodes. */
  function ReadCells(r: Reader, n: nat): (res: Result<Deconstructor.Read<seq<GameState.Cell>>, Error>)
    requires Deconstructor.Valid(r)
    ensures res.Success? <==> ParseCells(Deconstructor.Remaining(r), n).Some?
    ensures res.Failure? ==> res.error == InvalidPacket("Packet too short!")
    ensures res.Success? ==> && Deconstructor.Valid(res.value.rest)
                             && res.value.value == ParseCells(Deconstructor.Remaining(r), n).value.cells
                             && Deconstructor.Remaining(res.value.rest) == ParseCells(Deconstructor.Remaining(r), n).value.rest
    decreases n
  {
    if n == 0 then Success(Deconstructor.Read([], r))
    else
      var cell :- ReadCell(r);
      var rest :- ReadCells(cell.rest, n - 1);
      Success(Deconstructor.Read([cell.value] + rest.value, rest.rest))
  }

  /** The game after a GameInfo packet's flags: symbol, onTurn and
      hasOpponent as sent, activation if the active bit is set (a clear bit
      never deactivates), and the game code taken from the last code entered. */
  function ApplyFlags(s: Session, symbol: Symbol, onTurn: bool, hasOpponent: bool, active: bool): (g: GameState.Game)
    ensures g.symbol == Some(symbol) && g.onTurn == onTurn && g.hasOpponent == hasOpponent
    ensures g.gameActive == (s.game.gameActive || active)
    ensures g.fields == s.game.fields && g.gameCode == s.lastGameCodeEntered
  {
    var g := s.game.(onTurn := onTurn).(hasOpponent := hasOpponent);
    var g' := if active then GameState.SetGameActive(g, symbol) else g.(symbol := Some(symbol));
    g'.(gameCode := s.lastGameCodeEntered)
  }

  /** The second half of `updateGame`, once the flags are applied: the
      nine cells, `finish()`, then the board replacement. */
  function ReadBoard(s: Session, r: Reader): (a: Attempt)
    requires Deconstructor.Valid(r)
    ensures a.Done? <==> BoardOf(Deconstructor.Remaining(r)).Some?
    ensures a.Threw? ==> a.session == s
    ensures a.Done? ==> a == Done(s.(game := s.game.(fields := BoardOf(Deconstructor.Remaining(r)).value)), Refresh)
  {
    var cells := ReadCells(r, BoardCells);
    if cells.Failure? then Threw(s, cells.error)
    else
      assert Deconstructor.Remaining(cells.value.rest) == ParseCells(Deconstructor.Remaining(r), BoardCells).value.rest;
      FinishBoard(s, cells.value.value, cells.value.rest)
  }

  /** The end of `updateGame` once the nine cells are read: `finish()`,
      then the board replacement. */
  function FinishBoard(s: Session, cells: seq<GameState.Cell>, r: Reader): (a: Attempt)
    requires Deconstructor.Valid(r) && |cells| == BoardCells
    ensures a.Done? <==> IsPadding(Deconstructor.Remaining(r))
    ensures a.Threw? ==> a.session == s
    ensures a.Done? ==> a == Done(s.(game := s.game.(fields := cells)), Refresh)
  {
    var finished := Deconstructor.FinishAsWritten(r);
    if finished.Fail? then Threw(s, finished.error)
    else
      var g := GameState.UpdateBoard(s.game, cells);
      assert g.value.fields == cells by {
        GameState.UpdateBoardReplaces(s.game, s.game, cells);
      }
      Done(s.(game := g.value), Refresh)
  }

  /** The part of `updateGame` after the symbol and `onTurn` bits:
      `hasOpponent`, the active bit, then the board. */
  function UpdateGameRest(s: Session, symbol: Symbol, r: Reader): (a: Attempt)
    requires Deconstructor.Valid(r)
    ensures a.session.lastGameCodeEntered == s.lastGameCodeEntered
    ensures a.session.communicatorClosedPurposely == s.communicatorClosedPurposely
    ensures a.Done? ==> a.note == Refresh
    ensures |Deconstructor.Remaining(r)| == 0 ==> a == Threw(s, InvalidPacket("Packet too short!"))
    ensures |Deconstructor.Remaining(r)| == 1 ==>
      a == Threw(s.(game := s.game.(hasOpponent := Deconstructor.Remaining(r)[0])), InvalidPacket("Packet too short!"))
    ensures |Deconstructor.Remaining(r)| >= 2 ==>
      var bits := Deconstructor.Remaining(r);
      && (a.Done? <==> BoardOf(bits[2..]).Some?)
      && a.session.game == ApplyFlags(s, symbol, s.game.onTurn, bits[0], bits[1])
                             .(fields := if a.Done? then BoardOf(bits[2..]).value else s.game.fields)
  {
    var opp := Deconstructor.ReadBoolean(r);
    if opp.Failure? then Threw(s, opp.error)
    else
      var s2 := s.(game := s.game.(hasOpponent := opp.value.value));
      var act := Deconstructor.ReadBoolean(opp.value.rest);
      if act.Failure? then Threw(s2, act.error)
      else
        var s3 := s.(game := ApplyFlags(s, symbol, s.game.onTurn, opp.value.value, act.value.value));
        assert Deconstructor.Remaining(act.value.rest) == Deconstructor.Remaining(r)[2..];
        ReadBoard(s3, act.value.rest)
  }

  /** The rest of `updateGame` touches the board only when it completes,
      never clears `gameActive`, and keeps a well-formed game well-formed. */
  lemma UpdateGameRestKeeps(s: Session, symbol: Symbol, r: Reader)
    requires Deconstructor.Valid(r)
    ensures UpdateGameRest(s, symbol, r).Threw? ==> UpdateGameRest(s, symbol, r).session.game.fields == s.game.fields
    ensures s.game.gameActive ==> UpdateGameRest(s, symbol, r).session.game.gameActive
    ensures GameState.WellFormed(s.game) ==> GameState.WellFormed(UpdateGameRest(s, symbol, r).session.game)
  {
  }

  /** `updateGame`. The fields of the game are assigned as they are read,
      so a packet that ends early, or fails `finish()`, leaves the flags read
      so far in place; the board is replaced only once the whole packet has
      been read and accepted. */
  function UpdateGame(s: Session, r: Reader): (a: Attempt)
    requires Deconstructor.Valid(r)
    ensures a.session.lastGameCodeEntered == s.lastGameCodeEntered
    ensures a.session.communicatorClosedPurposely == s.communicatorClosedPurposely
    ensures a.Done? ==> a.note == Refresh
    ensures |Deconstructor.Remaining(r)| < 2 ==> a == Threw(s, InvalidPacket("Packet too short!"))
    ensures |Deconstructor.Remaining(r)| >= 4 ==>
      var bits := Deconstructor.Remaining(r);
      && (a.Done? <==> BoardOf(bits[4..]).Some?)
      && a.session.game == ApplyFlags(s, SymbolOf(bits[0]), bits[1], bits[2], bits[3])
                             .(fields := if a.Done? then BoardOf(bits[4..]).value else s.game.fields)
  {
    var bits := Deconstructor.Remaining(r);
    var sym := Deconstructor.ReadBoolean(r);
    if sym.Failure? then Threw(s, sym.error)
    else
      var turn := Deconstructor.ReadBoolean(sym.value.rest);
      if turn.Failure? then Threw(s, turn.error)
      else
        var s1 := s.(game := s.game.(onTurn := turn.value.value));
        assert Deconstructor.Remaining(turn.value.rest) == bits[2..];
        assert |bits| >= 4 ==> bits[2..][2..] == bits[4..];
        UpdateGameRest(s1, SymbolOf(sym.value.value), turn.value.rest)
  }

  /** A GameInfo body that ends inside the flags keeps the flags read
      before the end: `onTurn` after two bits, `hasOpponent` too after
      three. The symbol is only assigned together with the active bit. */
  lemma UpdateGameShort(s: Session, r: Reader)
    requires Deconstructor.Valid(r) && 2 <= |Deconstructor.Remaining(r)| <= 3
    ensures var bits := Deconstructor.Remaining(r);
      UpdateGame(s, r) ==
        if |bits| == 2 then Threw(s.(game := s.game.(onTurn := bits[1])), InvalidPacket("Packet too short!"))
        else Threw(s.(game := s.game.(onTurn := bits[1], hasOpponent := bits[2])), InvalidPacket("Packet too short!"))
  {
    var bits := Deconstructor.Remaining(r);
    var sym := Deconstructor.ReadBoolean(r).value;
    var turn := Deconstructor.ReadBoolean(sym.rest).value;
    assert Deconstructor.Remaining(turn.rest) == bits[2..];
  }

  /** `updateGame` touches the board only when it completes, never clears
      `gameActive`, and keeps a well-formed game well-formed. */
  lemma UpdateGameKeeps(s: Session, r: Reader)
    requires Deconstructor.Valid(r)
    ensures UpdateGame(s, r).Threw? ==> UpdateGame(s, r).session.game.fields == s.game.fields
    ensures s.game.gameActive ==> UpdateGame(s, r).session.game.gameActive
    ensures GameState.WellFormed(s.game) ==> GameState.WellFormed(UpdateGame(s, r).session.game)
  {
    if 2 <= |Deconstructor.Remaining(r)| <= 3 {
      UpdateGameShort(s, r);
    }
  }

  /* ---------------------------------------------------------------------
     Dispatch.
     --------------------------------------------------------------------- */

  /** `onGameCodeInvalid`: reports the error and resets the last code
      entered to the game's current code, so that a later GameInfo does not
      adopt the rejected one. */
  function OnGameCodeInvalid(s: Session): (a: Attempt)
    ensures a.Done? && a.note == Message(GameCodeInvalidText)
    ensures a.session.game == s.game && a.session.communicatorClosedPurposely == s.communicatorClosedPurposely
    ensures a.session.lastGameCodeEntered == s.game.gameCode
    ensures forall r :: Deconstructor.Valid(r) ==> UpdateGame(a.session, r).session.game.gameCode == s.game.gameCode
  {
    var s' := s.(lastGameCodeEntered := s.game.gameCode);
    assert forall r :: Deconstructor.Valid(r) ==> UpdateGame(s', r).session.game.gameCode == s.game.gameCode by {
      forall r | Deconstructor.Valid(r)
        ensures UpdateGame(s', r).session.game.gameCode == s.game.gameCode
      {
        if 2 <= |Deconstructor.Remaining(r)| <= 3 {
          UpdateGameShort(s', r);
        }
      }
    }
    Done(s', Message(GameCodeInvalidText))
  }

  /** The `when` on the 3-bit packet tag. Every handler keeps the closed
      flag, never clears `gameActive`, keeps a well-formed game well-formed,
      and touches the board only when it completes with a redraw. */
  function Dispatch(s: Session, tag: int, r: Reader): (a: Attempt)
    requires Deconstructor.Valid(r) && 0 <= tag < 8
    ensures a.session.communicatorClosedPurposely == s.communicatorClosedPurposely
    ensures s.game.gameActive ==> a.session.game.gameActive
    ensures GameState.WellFormed(s.game) ==> GameState.WellFormed(a.session.game)
    ensures (a.Threw? || a.note != Refresh) ==> a.session.game.fields == s.game.fields
  {
    if tag == 0 then OnWelcome(s, r)                                         // Welcome
    else if tag == 1 then Done(s, Message(PacketInvalidText))                // PacketInvalid
    else if tag == 2 then OnOpponentMakeMove(s, r)                           // OpponentMakeMove
    else if tag == 3 then Done(s.(game := s.game.(hasOpponent := false)), Refresh) // OpponentLeave
    else if tag == 4 then UpdateGameKeeps(s, r); UpdateGame(s, r)            // GameInfo
    else if tag == 5 then Done(s, Message(ActionInvalidText))                // ActionInvalid
    else if tag == 6 then OnGameCodeInvalid(s)                               // GameCodeInvalid
    else Done(s, Message(GameFullText))                                      // GameFull
  }

  /** The packet's tag: its first 3 bits. */
  function TagOf(data: seq<byte>): (t: int)
    requires |data| >= 1
    ensures 0 <= t < 8
  {
    data[0] / 32
  }

  /** One iteration of the receive loop of `listenToIncomingBytes`. A `null`
      frame ends the loop, with an error unless the connection was closed on
      purpose. Otherwise the packet's tag is read and dispatched; any
      exception becomes "Something went wrong..." and keeps whatever the
      handler had changed before throwing. */
  function Step(s: Session, frame: Option<seq<byte>>): (res: StepResult)
    ensures res.Closed? <==> frame.None?
    ensures res.Closed? ==> res.message == (if s.communicatorClosedPurposely then None else Some(ConnectionClosed))
    ensures res.Continue? ==> && res.session.communicatorClosedPurposely == s.communicatorClosedPurposely
                              && (s.game.gameActive ==> res.session.game.gameActive)
                              && (GameState.WellFormed(s.game) ==> GameState.WellFormed(res.session.game))
                              && (res.note != Refresh ==> res.session.game.fields == s.game.fields)
  {
    match frame
    case None => Closed(if s.communicatorClosedPurposely then None else Some(ConnectionClosed))
    case Some(data) =>
      var r := Deconstructor.New(data);
      var tag := Deconstructor.ReadInt(r, 3);
      if tag.Failure? then Continue(s, Message(SomethingWentWrong))
      else
        Deconstructor.ReadIntValue(r, 3);
        assert Pow2(3) == 8;
        Report(Dispatch(s, tag.value.value, tag.value.rest))
  }

  /** The `try`/`catch` around a handler: an exception becomes "Something
      went wrong..." and whatever the handler changed before it stays. */
  function Report(a: Attempt): (res: StepResult)
    ensures res.Continue? && res.session == a.session
    ensures res.note == (if a.Done? then a.note else Message(SomethingWentWrong))
  {
    match a
    case Done(s', note) => Continue(s', note)
    case Threw(s', _) => Continue(s', Message(SomethingWentWrong))
  }

  /* ---------------------------------------------------------------------
     The step on whole frames.
     --------------------------------------------------------------------- */

  /** The first three bits of a byte are its value divided by 32. */
  lemma TopBits(b: byte)
    ensures ValueOf(ByteBits(b)[..3]) == b / 32
  {
    var bits := ByteBits(b);
    ShrValueOf(bits, 5);
    ByteBitsValue(b);
    assert Shr(b, 5) == ((((b / 2) / 2) / 2) / 2) / 2;
  }

  lemma TagBits(data: seq<byte>)
    requires |data| >= 1
    ensures ValueOf(Unpack(data)[..3]) == TagOf(data)
  {
    var b := ByteBits(data[0]);
    assert Unpack(data) == b + Unpack(data[1..]);
    assert Unpack(data)[..3] == b[..3];
    TopBits(data[0]);
  }

  /** The tag `readInt(3)` reads from a non-empty frame is the top three
      bits of its first byte, and the handler sees the rest of the frame. */
  lemma ReadTag(data: seq<byte>)
    requires |data| >= 1
    ensures Deconstructor.ReadInt(Deconstructor.New(data), 3).Success?
    ensures Deconstructor.ReadInt(Deconstructor.New(data), 3).value.value == TagOf(data)
    ensures Deconstructor.Remaining(Deconstructor.ReadInt(Deconstructor.New(data), 3).value.rest) == Unpack(data)[3..]
  {
    var r := Deconstructor.New(data);
    var res := Deconstructor.ReadInt(r, 3);
    assert Deconstructor.Remaining(res.value.rest) == Unpack(data)[3..];
    Deconstructor.ReadIntValue(r, 3);
    TagBits(data);
    assert res.value.value == TagOf(data);
  }

  /** The reader a handler receives: the frame after its tag. */
  function AfterTag(data: seq<byte>): (r: Reader)
    requires |data| >= 1
    ensures Deconstructor.Valid(r) && Deconstructor.Remaining(r) == Unpack(data)[3..]
  {
    ReadTag(data);
    Deconstructor.ReadInt(Deconstructor.New(data), 3).value.rest
  }

  /** A non-empty frame is dispatched on `TagOf`; a handler that throws is
      reported as "Something went wrong..." and its partial changes stay. */
  lemma StepDispatches(s: Session, data: seq<byte>)
    requires |data| >= 1
    ensures Step(s, Some(data)) == Report(Dispatch(s, TagOf(data), AfterTag(data)))
  {
    ReadTag(data);
  }

  /** The handlers that read nothing more from the packet. */
  lemma DispatchFixed(s: Session, tag: int, r: Reader)
    requires Deconstructor.Valid(r) && tag in {1, 3, 5, 6, 7}
    ensures tag == 1 ==> Dispatch(s, tag, r) == Done(s, Message(PacketInvalidText))
    ensures tag == 3 ==> Dispatch(s, tag, r) == Done(s.(game := s.game.(hasOpponent := false)), Refresh)
    ensures tag == 5 ==> Dispatch(s, tag, r) == Done(s, Message(ActionInvalidText))
    ensures tag == 6 ==> Dispatch(s, tag, r) == Done(s.(lastGameCodeEntered := s.game.gameCode), Message(GameCodeInvalidText))
    ensures tag == 7 ==> Dispatch(s, tag, r) == Done(s, Message(GameFullText))
  {
  }

  /** The handlers that read the rest of the packet. */
  lemma DispatchReading(s: Session, tag: int, r: Reader)
    requires Deconstructor.Valid(r) && tag in {0, 2, 4}
    ensures tag == 0 ==> Dispatch(s, tag, r) == OnWelcome(s, r)
    ensures tag == 2 ==> Dispatch(s, tag, r) == OnOpponentMakeMove(s, r)
    ensures tag == 4 ==> Dispatch(s, tag, r) == UpdateGame(s, r)
  {
  }

  /** An empty frame has no tag: nothing changes. */
  lemma EmptyFrame(s: Session, data: seq<byte>)
    requires data == []
    ensures Step(s, Some(data)) == Continue(s, Message(SomethingWentWrong))
  {
  }

  /** PacketInvalid, ActionInvalid and GameFull only report their text. */
  lemma FixedReplies(s: Session, data: seq<byte>)
    requires |data| >= 1 && TagOf(data) in {1, 5, 7}
    ensures Step(s, Some(data)) == Continue(s, Message(if TagOf(data) == 1 then PacketInvalidText
                                                       else if TagOf(data) == 5 then ActionInvalidText
                                                       else GameFullText))
  {
    StepDispatches(s, data);
    DispatchFixed(s, TagOf(data), AfterTag(data));
  }

  /** OpponentLeave clears `hasOpponent` and nothing else. */
  lemma OpponentLeaves(s: Session, data: seq<byte>)
    requires |data| >= 1 && TagOf(data) == 3
    ensures Step(s, Some(data)) == Continue(s.(game := s.game.(hasOpponent := false)), Refresh)
  {
    StepDispatches(s, data);
    DispatchFixed(s, TagOf(data), AfterTag(data));
  }

  /** GameCodeInvalid reports its text and sets the last code entered back
      to the game's code. */
  lemma CodeRejected(s: Session, data: seq<byte>)
    requires |data| >= 1 && TagOf(data) == 6
    ensures Step(s, Some(data)) == Continue(s.(lastGameCodeEntered := s.game.gameCode), Message(GameCodeInvalidText))
  {
    StepDispatches(s, data);
    DispatchFixed(s, TagOf(data), AfterTag(data));
  }
}
