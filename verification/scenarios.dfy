/** Properties of `Player` that span the outgoing and the inbound side:
    the game-code exchange with the server, and a move relayed from one
    client to the other. */
module Scenarios {
  import opened Bits
  import opened Wrappers
  import Outgoing
  import Wire
  import Session
  import Frames
  import Actions
  import GameState

  /** Five-bit letters read back as the characters they were written from. */
  lemma {:induction false} LettersOfLetterFields(code: string)
    requires forall i :: 0 <= i < |code| ==> Outgoing.Encodable(code[i])
    ensures |Wire.FieldBits(Outgoing.LetterFields(code))| == 5 * |code|
    ensures Session.LettersOf(Wire.FieldBits(Outgoing.LetterFields(code))) == code
    decreases |code|
  {
    Outgoing.LetterBitsLength(code);
    if |code| > 0 {
      var fields := Outgoing.LetterFields(code);
      var v := code[0] as int - 'A' as int;
      assert fields[1..] == Outgoing.LetterFields(code[1..]);
      var head := BitsOf(v, 5);
      var tail := Wire.FieldBits(Outgoing.LetterFields(code[1..]));
      assert Wire.FieldBits(fields) == head + tail;
      assert (head + tail)[..5] == head && (head + tail)[5..] == tail;
      assert Pow2(5) == 32;
      ValueOfBitsOf(v, 5);
      LettersOfLetterFields(code[1..]);
      assert [code[0]] + code[1..] == code;
    }
  }

  lemma Slices(a: seq<bool>, b: seq<bool>, c: seq<bool>, whole: seq<bool>)
    requires whole == a + b + c
    ensures whole[..|a|] == a
    ensures whole[|a|..][..|b|] == b
  {
    assert whole[|a|..] == b + c;
  }

  /** The CodeSubmit packet of a five-letter code is four bytes whose tag
      is 0 and whose first 25 payload bits spell the code. */
  lemma CodeSubmitAsFrame(code: string, data: seq<byte>)
    requires |code| == 5 && Outgoing.SendSubmitGameCode(code) == Success(data)
    ensures |data| == 4 && Session.TagOf(data) == 0
    ensures Session.LettersOf(Frames.Payload(data)[..25]) == code
  {
    assert forall i :: 0 <= i < |code| ==> Outgoing.Encodable(code[i]);
    Outgoing.CodeSubmitLayout(code);
    var letters := Wire.FieldBits(Outgoing.LetterFields(code));
    LettersOfLetterFields(code);
    Slices(BitsOf(0, 3), letters, Zeros(4), Unpack(data));
    ValueOfBitsOf(0, 3);
    Session.TagBits(data);
  }

  /** The CodeSubmit packet has the layout of a Welcome: the bytes a client
      sends for a five-letter code, received as a frame, set exactly that
      code. */
  lemma SubmittedCodeReadsBack(s: Session.Session, code: string)
    requires |code| == 5 && forall i :: 0 <= i < |code| ==> Outgoing.Encodable(code[i])
    ensures Outgoing.SendSubmitGameCode(code).Success?
    ensures Session.Step(s, Some(Outgoing.SendSubmitGameCode(code).value)) == Session.Continue(
      s.(game := s.game.(gameCode := Some(code)), lastGameCodeEntered := Some(code)), Session.Refresh)
  {
    var data := Outgoing.SendSubmitGameCode(code).value;
    CodeSubmitAsFrame(code, data);
    Frames.WelcomeFrame(s, data);
  }

  /** A GameInfo frame always copies the last code entered into the game,
      whether or not the rest of the frame is accepted. */
  lemma GameInfoTakesLastCode(s: Session.Session, data: seq<byte>)
    requires |data| >= 1 && Session.TagOf(data) == 4
    ensures Session.Step(s, Some(data)).session.game.gameCode == s.lastGameCodeEntered
    ensures Session.Step(s, Some(data)).session.lastGameCodeEntered == s.lastGameCodeEntered
  {
    Frames.GameInfoFrame(s, data);
  }

  /** A code the server accepts (GameInfo follows the submission) becomes
      the game's code, upper-cased. */
  lemma AcceptedCodeAdopted(s: Session.Session, code: string, connected: bool, info: seq<byte>)
    requires Actions.ValidateGameCode(code).Pass?
    requires |info| >= 1 && Session.TagOf(info) == 4
    ensures var s1 := Actions.SubmitGameCode(s, code, connected).session;
      Session.Step(s1, Some(info)).session.game.gameCode == Some(Actions.UpperCase(code))
  {
    GameInfoTakesLastCode(Actions.SubmitGameCode(s, code, connected).session, info);
  }

  /** A code the server rejects (GameCodeInvalid follows the submission)
      does not survive the next GameInfo: the game keeps the code it had. */
  lemma RejectedCodeNotAdopted(s: Session.Session, code: string, connected: bool, invalid: seq<byte>, info: seq<byte>)
    requires |invalid| >= 1 && Session.TagOf(invalid) == 6
    requires |info| >= 1 && Session.TagOf(info) == 4
    ensures var s1 := Actions.SubmitGameCode(s, code, connected).session;
      var s2 := Session.Step(s1, Some(invalid)).session;
      Session.Step(s2, Some(info)).session.game.gameCode == s.game.gameCode
  {
    var s1 := Actions.SubmitGameCode(s, code, connected).session;
    Session.CodeRejected(s1, invalid);
    GameInfoTakesLastCode(Session.Step(s1, Some(invalid)).session, info);
  }

  /** A PlayerMakeMove packet and an OpponentMakeMove frame share tag 2 and
      the 4-bit position, so the byte one client sends for its move, relayed
      to the other client, applies the opponent's move at that same square. */
  lemma MoveRelayed(s: Session.Session, position: int32, data: seq<byte>)
    requires Outgoing.SendMakeMove(position) == Success(data)
    ensures 0 <= position < 16 && |data| == 1 && Session.TagOf(data) == 2
    ensures Session.Step(s, Some(data)) ==
      if position <= 8 && GameState.MakeMove(s.game, position, true).Success?
      then Session.Continue(s.(game := GameState.MakeMove(s.game, position, true).value), Session.Refresh)
      else Session.Continue(s, Session.Message(Session.SomethingWentWrong))
  {
    RelayedByte(position, data);
    Frames.OpponentMoveFrame(s, data);
  }

  /** The byte of a PlayerMakeMove packet, read as an inbound frame. */
  lemma RelayedByte(position: int32, data: seq<byte>)
    requires Outgoing.SendMakeMove(position) == Success(data)
    ensures 0 <= position < 16 && |data| == 1 && Session.TagOf(data) == 2
    ensures Frames.MovePosition(data) == position
  {
    assert data == [0x40 + 2 * position];
    MoveByteFields(data[0], position);
  }

  /** The byte 0x40 + 2·position holds tag 2 and the position in bits 3..6. */
  lemma MoveByteFields(b: int, position: int)
    requires 0 <= position < 16 && b == 0x40 + 2 * position
    ensures b / 32 == 2 && (b / 2) % 16 == position
  {
    assert b / 2 == 32 + position;
    Frames.DivMod16(b / 2, 2, position);
  }
}
