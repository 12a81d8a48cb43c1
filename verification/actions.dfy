/** The local operations of `Player`: each returns the new session, whether
    the UI was told to redraw, and what was handed to the transport (the
    bytes, or the exception that stopped them). */
module Actions {
  import opened Bits
  import opened Wrappers
  import opened Errors
  import Symbols
  import Coordinates
  import GameState
  import Outgoing
  import Wire
  import Session

  /** The transport is one input: a connected socket takes the bytes, a
      disconnected one throws `WebSocketNotConnectedException`. */
  function Send(bytes: seq<byte>, connected: bool): (r: Result<seq<byte>, Error>)
    ensures r.Success? <==> connected
    ensures r.Success? ==> r.value == bytes
    ensures r.Failure? ==> r.error == WebSocketNotConnected
  {
    if connected then Success(bytes) else Failure(WebSocketNotConnected)
  }

  datatype Reply = Reply(session: Session.Session, refreshed: bool, sent: Result<seq<byte>, Error>)

  /* ---------------------------------------------------------------------
     makeMove.
     --------------------------------------------------------------------- */

  /** `makeMove(x, y)`: the coordinate is checked, the move is applied to
      the game (its exceptions propagate unchanged), the UI is refreshed,
      and only then is the PlayerMakeMove packet sent. A send that fails
      does not undo the move. */
  function MakeMove(s: Session.Session, x: int, y: int, connected: bool): (r: Reply)
    ensures !(0 <= x <= 2 && 0 <= y <= 2) ==> r == Reply(s, false, Failure(IllegalArgument("")))
    ensures 0 <= x <= 2 && 0 <= y <= 2 ==>
      var m := GameState.MakeMove(s.game, 3 * y + x, false);
      && (m.Failure? ==> r == Reply(s, false, Failure(m.error)))
      && (m.Success? ==> && r.session == s.(game := m.value)
                         && r.refreshed
                         && Outgoing.SendMakeMove(3 * y + x).Success?
                         && r.sent == Send(Outgoing.SendMakeMove(3 * y + x).value, connected))
  {
    var pos := Coordinates.FromXY(x, y);
    if pos.Failure? then Reply(s, false, Failure(pos.error))
    else
      var index := Coordinates.ToIndex(pos.value);
      assert index == 3 * y + x;
      var g := GameState.MakeMove(s.game, index, false);
      if g.Failure? then Reply(s, false, Failure(g.error))
      else
        var bytes := Outgoing.SendMakeMove(index);
        assert bytes.Success? by {
          assert 0 <= index < 16;
        }
        Reply(s.(game := g.value), true, Send(bytes.value, connected))
  }

  /** A local move that goes through puts this client's symbol on the
      square, and the byte it sends is read back by the same codec as tag 2
      followed by that square's index. */
  lemma MoveSentDecodes(s: Session.Session, x: int, y: int)
    requires MakeMove(s, x, y, true).sent.Success?
    ensures 0 <= x <= 2 && 0 <= y <= 2
    ensures GameState.GetSymbolByCoords(MakeMove(s, x, y, true).session.game, x, y) == Success(s.game.symbol)
    ensures Wire.Decode(MakeMove(s, x, y, true).sent.value, Wire.Shape(Outgoing.MakeMoveFields(3 * y + x)))
            == Success(Outgoing.MakeMoveFields(3 * y + x))
  {
    Outgoing.MakeMoveDecodes(3 * y + x);
  }

  /** The test's sample: an active game in which this client is X and on
      turn, with an empty centre; `makeMove(1, 1)` sends [0x48]. */
  lemma MoveCentre(s: Session.Session)
    requires s.game.gameActive && s.game.onTurn && s.game.symbol == Some(Symbols.X) && s.game.fields[4].None?
    ensures MakeMove(s, 1, 1, true).sent == Success([0x48])
    ensures MakeMove(s, 1, 1, true).session.game.fields[4] == Some(Symbols.X)
    ensures MakeMove(s, 1, 1, false).sent == Failure(WebSocketNotConnected)
    ensures MakeMove(s, 1, 1, false).session == MakeMove(s, 1, 1, true).session
  {
  }

  /* ---------------------------------------------------------------------
     validateGameCode and submitGameCode.
     --------------------------------------------------------------------- */

  const LettersText := "The game code should just contain letters (A - Z)."
  const LengthText := "The game code should have a length of 5."

  /** Upper-casing of one character, for the ASCII letters. */
  function Upper(c: char): (u: char)
    ensures 'a' <= c <= 'z' ==> u as int == c as int - 32
    ensures !('a' <= c <= 'z') ==> u == c
  {
    if 'a' <= c <= 'z' then (c as int - 32) as char else c
  }

  function UpperCase(code: string): (u: string)
    ensures |u| == |code|
    ensures forall i :: 0 <= i < |code| ==> u[i] == Upper(code[i])
  {
    if |code| == 0 then [] else [Upper(code[0])] + UpperCase(code[1..])
  }

  predicate IsAsciiLetter(c: char)
  {
    'A' <= c <= 'Z' || 'a' <= c <= 'z'
  }

  predicate AllCapitals(code: string)
  {
    forall i :: 0 <= i < |code| ==> 'A' <= code[i] <= 'Z'
  }

  /** `validateGameCode`: the letter check runs first, on the upper-cased
      code; the length check second, on the code as given. */
  function ValidateGameCode(code: string): (v: Outcome<Error>)
    ensures v.Pass? <==> |code| == 5 && forall i :: 0 <= i < |code| ==> IsAsciiLetter(code[i])
    ensures v.Fail? ==> v.error == IllegalArgument(
      if exists i :: 0 <= i < |code| && !IsAsciiLetter(code[i]) then LettersText else LengthText)
  {
    var upper := UpperCase(code);
    assert AllCapitals(upper) <==> forall i :: 0 <= i < |code| ==> IsAsciiLetter(code[i]) by {
      assert forall i :: 0 <= i < |code| ==> ('A' <= upper[i] <= 'Z' <==> IsAsciiLetter(code[i]));
    }
    if !AllCapitals(upper) then Fail(IllegalArgument(LettersText))
    else if |code| != 5 then Fail(IllegalArgument(LengthText))
    else Pass
  }

  /** `submitGameCode`: a code that fails validation changes nothing;
      otherwise the upper-cased code becomes the last code entered and its
      CodeSubmit packet is sent. */
  function SubmitGameCode(s: Session.Session, code: string, connected: bool): (r: Reply)
    ensures !r.refreshed
    ensures ValidateGameCode(code).Fail? ==> r == Reply(s, false, Failure(ValidateGameCode(code).error))
    ensures ValidateGameCode(code).Pass? ==>
      && Outgoing.SendSubmitGameCode(UpperCase(code)).Success?
      && r.session == s.(lastGameCodeEntered := Some(UpperCase(code)))
      && r.sent == Send(Outgoing.SendSubmitGameCode(UpperCase(code)).value, connected)
      && |Outgoing.SendSubmitGameCode(UpperCase(code)).value| == 4
  {
    var v := ValidateGameCode(code);
    if v.Fail? then Reply(s, false, Failure(v.error))
    else
      var upper := UpperCase(code);
      assert forall i :: 0 <= i < |upper| ==> Outgoing.Encodable(upper[i]);
      var bytes := Outgoing.SendSubmitGameCode(upper);
      Reply(s.(lastGameCodeEntered := Some(upper)), false, Send(bytes.value, connected))
  }

  /** Upper-casing a valid code gives five capitals, and it is idempotent. */
  lemma UpperCaseValid(code: string)
    requires ValidateGameCode(code).Pass?
    ensures |UpperCase(code)| == 5 && AllCapitals(UpperCase(code))
    ensures UpperCase(UpperCase(code)) == UpperCase(code)
    ensures ValidateGameCode(UpperCase(code)).Pass?
  {
    var u := UpperCase(code);
    assert forall i :: 0 <= i < 5 ==> IsAsciiLetter(code[i]);
    assert forall i :: 0 <= i < 5 ==> 'A' <= u[i] <= 'Z';
    assert UpperCase(u) == u;
  }

  /* ---------------------------------------------------------------------
     resetBoard and toggleSymbol.
     --------------------------------------------------------------------- */

  /** `resetBoard`: sends BoardReset and changes nothing locally. */
  function ResetBoard(s: Session.Session, connected: bool): (r: Reply)
    ensures r.session == s && !r.refreshed
    ensures r.sent == Send([Outgoing.Ordinal(Outgoing.BoardReset) * 32], connected)
  {
    Reply(s, false, Send(Outgoing.SendResetBoard(), connected))
  }

  /** `toggleSymbol`: sends ToggleSymbol and changes nothing locally. */
  function ToggleSymbol(s: Session.Session, connected: bool): (r: Reply)
    ensures r.session == s && !r.refreshed
    ensures r.sent == Send([Outgoing.Ordinal(Outgoing.ToggleSymbol) * 32], connected)
  {
    Reply(s, false, Send(Outgoing.SendToggleSymbol(), connected))
  }
}
