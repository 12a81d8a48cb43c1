/** What one whole inbound frame does to the session, stated on the bytes
    the server sends. */
module Frames {
  import opened Bits
  import opened Wrappers
  import opened Symbols
  import GameState
  import Session

  /** The bits a handler sees: the frame after its 3-bit tag. */
  function Payload(data: seq<byte>): (bits: seq<bool>)
    requires |data| >= 1
    ensures |bits| == 8 * |data| - 3
  {
    Unpack(data)[3..]
  }

  /* ---------------------------------------------------------------------
     Welcome.
     --------------------------------------------------------------------- */

  /** A Welcome frame of at least four bytes sets both the game code and the
      last code entered to the five letters after the tag; a shorter one is
      reported and changes nothing. */
  lemma WelcomeFrame(s: Session.Session, data: seq<byte>)
    requires |data| >= 1 && Session.TagOf(data) == 0
    ensures |data| >= 4 ==>
      var code := Session.LettersOf(Payload(data)[..25]);
      Session.Step(s, Some(data)) == Session.Continue(
        s.(game := s.game.(gameCode := Some(code)), lastGameCodeEntered := Some(code)), Session.Refresh)
    ensures |data| < 4 ==> Session.Step(s, Some(data)) == Session.Continue(s, Session.Message(Session.SomethingWentWrong))
  {
    Session.StepDispatches(s, data);
    Session.DispatchReading(s, 0, Session.AfterTag(data));
  }

  lemma ByteBitsZero()
    ensures ByteBits(0) == Zeros(8)
  {
    forall i | 0 <= i < 8
      ensures ByteBits(0)[i] == false
    {
      ShrZeroIff(0, 7 - i);
    }
  }

  lemma {:induction false} UnpackZeros(data: seq<byte>)
    requires forall i :: 0 <= i < |data| ==> data[i] == 0
    ensures Unpack(data) == Zeros(8 * |data|)
    decreases |data|
  {
    if |data| > 0 {
      ByteBitsZero();
      UnpackZeros(data[1..]);
      assert Zeros(8) + Zeros(8 * (|data| - 1)) == Zeros(8 * |data|);
    }
  }

  /** Zero bits spell a run of 'A's. */
  lemma {:induction false} LettersOfZeros(n: nat)
    ensures Session.LettersOf(Zeros(5 * n)) == seq(n, _ => 'A')
  {
    if n > 0 {
      var z := Zeros(5 * n);
      assert z[..5] == Zeros(5);
      ValueOfZeros(5);
      assert z[5..] == Zeros(5 * (n - 1));
      LettersOfZeros(n - 1);
    }
  }

  /** An all-zero Welcome of four bytes is the code of five 'A's. */
  lemma WelcomeAllZero(s: Session.Session, data: seq<byte>)
    requires |data| == 4 && forall i :: 0 <= i < |data| ==> data[i] == 0
    ensures Session.Step(s, Some(data)) == Session.Continue(
      s.(game := s.game.(gameCode := Some(seq(5, _ => 'A'))), lastGameCodeEntered := Some(seq(5, _ => 'A'))), Session.Refresh)
  {
    UnpackZeros(data);
    assert Payload(data)[..25] == Zeros(25);
    LettersOfZeros(5);
    Session.TagBits(data);
    assert Unpack(data)[..3] == Zeros(3);
    ValueOfZeros(3);
    WelcomeFrame(s, data);
  }

  /** [0, 0, 0, 0] is a Welcome for the code "AAAAA". */
  lemma WelcomeZeros(s: Session.Session, data: seq<byte>)
    requires data == [0, 0, 0, 0]
    ensures Session.Step(s, Some(data)) == Session.Continue(
      s.(game := s.game.(gameCode := Some("AAAAA")), lastGameCodeEntered := Some("AAAAA")), Session.Refresh)
  {
    WelcomeAllZero(s, data);
    assert seq(5, _ => 'A') == "AAAAA";
  }

  /* ---------------------------------------------------------------------
     OpponentMakeMove.
     --------------------------------------------------------------------- */

  /** Bits 3..6 of a byte, read as a number. */
  lemma MiddleBits(b: byte)
    ensures ValueOf(ByteBits(b)[3..7]) == (b / 2) % 16
  {
    var bits := ByteBits(b);
    var h, m := ValueOf(bits[..3]), ValueOf(bits[3..7]);
    assert ValueOf(bits[..7]) == b / 2 by {
      ShrValueOf(bits, 1);
      ByteBitsValue(b);
    }
    assert ValueOf(bits[..7]) == h * 16 + m by {
      assert bits[..7] == bits[..3] + bits[3..7];
      ValueOfAppend(bits[..3], bits[3..7]);
      assert Pow2(4) == 16;
    }
    assert m < 16 by {
      ValueOfBound(bits[3..7]);
      assert Pow2(4) == 16;
    }
    DivMod16(b / 2, h, m);
  }

  lemma DivMod16(x: int, h: int, m: int)
    requires x == h * 16 + m && 0 <= m < 16
    ensures x % 16 == m
  {
  }

  /** The position an OpponentMakeMove frame carries. */
  function MovePosition(data: seq<byte>): (p: int)
    requires |data| >= 1
    ensures p == ValueOf(Payload(data)[..4]) && 0 <= p < 16
  {
    assert Unpack(data) == ByteBits(data[0]) + Unpack(data[1..]);
    assert Payload(data)[..4] == ByteBits(data[0])[3..7];
    MiddleBits(data[0]);
    (data[0] / 2) % 16
  }

  /** OpponentMakeMove applies the opponent's move at the position carried
      in bits 3..6; an off-board position or an illegal move is reported and
      changes nothing. */
  lemma OpponentMoveFrame(s: Session.Session, data: seq<byte>)
    requires |data| >= 1 && Session.TagOf(data) == 2
    ensures var p := MovePosition(data);
      Session.Step(s, Some(data)) ==
        if p <= 8 && GameState.MakeMove(s.game, p, true).Success?
        then Session.Continue(s.(game := GameState.MakeMove(s.game, p, true).value), Session.Refresh)
        else Session.Continue(s, Session.Message(Session.SomethingWentWrong))
  {
    Session.StepDispatches(s, data);
    Session.DispatchReading(s, 2, Session.AfterTag(data));
  }

  /** [0x48] from the server, with this client playing X in an active game,
      puts an O in the centre. */
  lemma OpponentMoveCentre(s: Session.Session, data: seq<byte>)
    requires data == [0x48]
    requires s.game.gameActive && s.game.symbol == Some(X) && s.game.fields[4].None?
    ensures Session.Step(s, Some(data)).session.game.fields[4] == Some(O)
    ensures Session.Step(s, Some(data)).session.game.fields[..4] == s.game.fields[..4]
    ensures Session.Step(s, Some(data)).session.game.fields[5..] == s.game.fields[5..]
  {
    assert MovePosition(data) == 4;
    assert Session.TagOf(data) == 2;
    OpponentMoveFrame(s, data);
  }

  /* ---------------------------------------------------------------------
     GameInfo.
     --------------------------------------------------------------------- */

  /** A GameInfo frame sets the symbol, `onTurn` and `hasOpponent` from the
      first three bits after the tag, activates the game if the fourth is
      set, and copies the last code entered into the game. The board is
      replaced only if the rest is nine cells followed by at most eight zero
      bits (`Session.BoardOf`, which accepts what `finish()` as written
      accepts); otherwise the frame is reported and the flags stay as read. */
  lemma GameInfoFrame(s: Session.Session, data: seq<byte>)
    requires |data| >= 1 && Session.TagOf(data) == 4
    ensures var bits := Payload(data);
      var flags := Session.ApplyFlags(s, Session.SymbolOf(bits[0]), bits[1], bits[2], bits[3]);
      Session.Step(s, Some(data)) ==
        if Session.BoardOf(bits[4..]).Some?
        then Session.Continue(s.(game := flags.(fields := Session.BoardOf(bits[4..]).value)), Session.Refresh)
        else Session.Continue(s.(game := flags), Session.Message(Session.SomethingWentWrong))
  {
    Session.StepDispatches(s, data);
    Session.DispatchReading(s, 4, Session.AfterTag(data));
  }

  /** A GameInfo frame written the way the server writes one decodes to
      exactly what was written. */
  lemma GameInfoEncoded(s: Session.Session, data: seq<byte>, symbol: Symbol, onTurn: bool, hasOpponent: bool,
                        active: bool, cells: seq<GameState.Cell>, pad: seq<bool>)
    requires |data| >= 1 && Session.TagOf(data) == 4
    requires |cells| == 9 && Session.IsPadding(pad)
    requires Payload(data) == [symbol == X, onTurn, hasOpponent, active] + Session.CellBits(cells) + pad
    ensures Session.Step(s, Some(data)) ==
      Session.Continue(s.(game := Session.ApplyFlags(s, symbol, onTurn, hasOpponent, active).(fields := cells)), Session.Refresh)
  {
    var bits := Payload(data);
    var head := [symbol == X, onTurn, hasOpponent, active];
    assert bits[4..] == Session.CellBits(cells) + pad && bits[..4] == head by {
      SplitFront(head, Session.CellBits(cells), pad, bits);
    }
    assert Session.BoardOf(bits[4..]) == Some(cells) by {
      Session.BoardOfCellBits(cells, pad);
    }
    assert Session.SymbolOf(bits[0]) == symbol && bits[1] == onTurn && bits[2] == hasOpponent && bits[3] == active by {
      assert bits[0] == head[0] && bits[1] == head[1] && bits[2] == head[2] && bits[3] == head[3];
    }
    GameInfoFrame(s, data);
  }

  /** The front and the back of a concatenation of three. */
  lemma SplitFront<T>(a: seq<T>, b: seq<T>, c: seq<T>, s: seq<T>)
    requires s == a + b + c
    ensures s[..|a|] == a && s[|a|..] == b + c
  {
    assert s == a + (b + c);
  }

  lemma SampleBytes()
    ensures ByteBits(0x9F) == [true, false, false, true, true, true, true, true]
    ensures ByteBits(0x81) == [true, false, false, false, false, false, false, true]
    ensures ByteBits(0x3E) == [false, false, true, true, true, true, true, false]
    ensures ByteBits(0x96) == [true, false, false, true, false, true, true, false]
  {
  }

  lemma UnpackThree(data: seq<byte>)
    requires |data| == 3
    ensures Unpack(data) == ByteBits(data[0]) + ByteBits(data[1]) + ByteBits(data[2])
  {
    assert data == [data[0]] + [data[1]] + [data[2]];
    UnpackAppend([data[0]] + [data[1]], [data[2]]);
    UnpackAppend([data[0]], [data[1]]);
  }

  /** The board both sample GameInfo frames carry. */
  function SampleBoard(): (b: seq<GameState.Cell>)
    ensures |b| == 9
    ensures Session.CellBits(b) == [true, false, false, true, true, true, true, true, false,
                                    true, false, false, true, false, true, true]
  {
    [Some(O), None, Some(X), Some(X), Some(O), Some(O), None, Some(O), Some(X)]
  }

  /** Both sample frames: the tag, four equal flag bits, the sample board
      and one bit of padding. */
  lemma SamplePayload(data: seq<byte>, flag: bool)
    requires |data| == 3 && data[1] == 0x3E && data[2] == 0x96
    requires ByteBits(data[0]) == [true, false, false, flag, flag, flag, flag, true]
    ensures Payload(data) == [flag, flag, flag, flag] + Session.CellBits(SampleBoard()) + [false]
  {
    SampleBytes();
    UnpackThree(data);
  }

  /** [0x9F, 0x3E, 0x96]: this client plays X, is on turn, has an opponent,
      the game is active, and the board is O . X / X O O / . O X. */
  lemma GameInfoSample(s: Session.Session, data: seq<byte>)
    requires data == [0x9F, 0x3E, 0x96]
    ensures Session.Step(s, Some(data)) ==
      Session.Continue(s.(game := Session.ApplyFlags(s, X, true, true, true).(fields := SampleBoard())), Session.Refresh)
  {
    SampleBytes();
    SamplePayload(data, true);
    GameInfoEncoded(s, data, X, true, true, true, SampleBoard(), [false]);
  }

  /** [0x81, 0x3E, 0x96]: the same board, with this client playing O, not on
      turn, without an opponent, and the active bit clear. */
  lemma GameInfoSampleInactive(s: Session.Session, data: seq<byte>)
    requires data == [0x81, 0x3E, 0x96]
    ensures Session.Step(s, Some(data)) ==
      Session.Continue(s.(game := Session.ApplyFlags(s, O, false, false, false).(fields := SampleBoard())), Session.Refresh)
  {
    SampleBytes();
    SamplePayload(data, false);
    GameInfoEncoded(s, data, O, false, false, false, SampleBoard(), [false]);
  }

  /** A board of nine empty cells: nine zero bits. */
  function EmptyBoard(): (b: seq<GameState.Cell>)
    ensures |b| == 9 && forall i :: 0 <= i < 9 ==> b[i] == None
    ensures Session.CellBits(b) == [false, false, false, false, false, false, false, false, false]
  {
    [None, None, None, None, None, None, None, None, None]
  }

  /** [0x80, 0x00, 0x00]: the tag, four clear flags, nine empty cells, then
      eight zero bits, the whole last byte unread. */
  lemma ExtraZeroBytePayload(data: seq<byte>)
    requires |data| == 3 && data[0] == 0x80 && data[1] == 0 && data[2] == 0
    ensures Payload(data) == [false, false, false, false] + Session.CellBits(EmptyBoard())
                             + [false, false, false, false, false, false, false, false]
  {
    assert ByteBits(0x80) == [true, false, false, false, false, false, false, false];
    assert ByteBits(0) == [false, false, false, false, false, false, false, false];
    UnpackThree(data);
  }

  /** `finish()` as written accepts a whole unread zero byte, so the GameInfo
      frame [0x80, 0x00, 0x00], one byte longer than its content needs, is
      accepted: this client plays O, the flags are clear, the board is emptied. */
  lemma GameInfoExtraZeroByte(s: Session.Session, data: seq<byte>)
    requires data == [0x80, 0x00, 0x00]
    ensures Session.Step(s, Some(data)) ==
      Session.Continue(s.(game := Session.ApplyFlags(s, O, false, false, false).(fields := EmptyBoard())), Session.Refresh)
  {
    ExtraZeroBytePayload(data);
    var pad := [false, false, false, false, false, false, false, false];
    assert Session.IsPadding(pad);
    GameInfoEncoded(s, data, O, false, false, false, EmptyBoard(), pad);
  }
}
