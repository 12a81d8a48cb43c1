# TicTacToe client core in Dafny

A model of the core of a multiplatform Kotlin TicTacToe client. The
client talks to a game server over a WebSocket in small bit-packed binary
packets. The model covers:

- the bit codec: `ByteBuilder` (writer) and `ByteDeconstructor` (reader);
- the outgoing packets: `OutgoingPacketType`, whose ordinal is the 3-bit
  tag of every packet, and the `BaseCommunicator` encoders;
- the game state: `TicTacToeSymbol`, `FieldCoordinate` and `Game`;
- the `Player`: dispatch of an incoming packet on its tag, the handlers
  (Welcome, OpponentMakeMove, OpponentLeave, GameInfo, GameCodeInvalid and
  the three text-only replies), and the local operations `makeMove`,
  `submitGameCode`, `validateGameCode`, `resetBoard` and `toggleSymbol`;
- the FIFO `Queue` of the watch bridge.

Everything mutable in the source is modelled as an immutable value, and
every operation returns the new value. An exception is a `Failure` (or
`Threw`) carrying a variant of `Errors.Error`. The handlers mutate the game
step by step, so a handler that throws part-way keeps what it had already
changed. The model keeps those partial updates too: `Session.Attempt`
carries the session in both outcomes.

Modules, in dependency order:

| module | models |
|---|---|
| `Wrappers`, `Errors` | `Option`/`Result`/`Outcome`; one error variant per exception class |
| `Bits` | bytes as 0..255, MSB-first `Pack`/`Unpack`, `BitsOf`/`ValueOf`, Kotlin 32-bit `shl`/`shr` |
| `Builder` | `ByteBuilder` |
| `Deconstructor` | `ByteDeconstructor` |
| `Wire` | a packet as a list of boolean/integer fields; encode with the builder, decode with the reader |
| `Outgoing` | `OutgoingPacketType` and the `BaseCommunicator` send helpers |
| `Symbols`, `Coordinates`, `GameState` | `TicTacToeSymbol`, `FieldCoordinate`, `Game` |
| `Session` | `Player`'s receive loop and packet handlers |
| `Frames` | whole incoming frames (byte arrays) through `Session.Step` |
| `Actions` | `Player`'s local operations |
| `Scenarios` | properties across both directions: the game-code exchange and the relay of a move |
| `Queues` | `Queue` |

The transport is a parameter, not code. An incoming frame is an
`Option<seq<byte>>`, where `None` stands for the channel's `null`.
Sending is modelled by a `connected` flag: a disconnected socket throws
`WebSocketNotConnectedException`.

## Model

| member | source | states |
|---|---|---|
| Builder.New | composeApp/src/commonMain/kotlin/communication/ByteBuilder.kt:8-11 | a fresh builder satisfies the cursor invariant and has nothing written |
| Builder.AdvanceOneBit | composeApp/src/commonMain/kotlin/communication/ByteBuilder.kt:14-30 | the cursor lands on a position 0..7; the bytes flushed plus the bits before the cursor are exactly what was written; the bits not yet written are zero |
| Builder.AddBit | composeApp/src/commonMain/kotlin/communication/ByteBuilder.kt:58-65 | writing a bit keeps the invariant and appends exactly that bit to the content; the target bit was clear, so the `or` acts as a write |
| Builder.AddBoolean | composeApp/src/commonMain/kotlin/communication/ByteBuilder.kt:36 | appends true as 1 and false as 0 |
| Builder.AddInt | composeApp/src/commonMain/kotlin/communication/ByteBuilder.kt:44-52 | fails with "Integer value too big!" exactly when the value is negative or needs more than `bitSize` bits, and writes nothing then; otherwise appends the value's `bitSize` bits, most significant first |
| Builder.GetBytes | composeApp/src/commonMain/kotlin/communication/ByteBuilder.kt:69-72 | the bytes are the MSB-first packing of everything written, zero-padded, ceil(n/8) of them |
| Builder.AddBooleansContent | composeApp/src/commonMain/kotlin/communication/ByteBuilder.kt:36 | a run of `addBoolean` calls appends exactly those bits |
| Builder.AddIntIsAddBooleans | composeApp/src/commonMain/kotlin/communication/ByteBuilder.kt:44-52 | an `addInt` that fits gives the same builder as `addBoolean` over its bits, and those bits read back as the value |
| Builder.ContentDetermines | composeApp/src/commonMain/kotlin/communication/ByteBuilder.kt:8-11 | two valid builders that hold the same content are equal, so the content is a complete abstraction of the state |
| Builder.Build | composeApp/src/commonMain/kotlin/communication/ByteBuilder.kt:36 | writing a bit string into a fresh builder yields a valid builder holding exactly that string |
| Builder.PackedLayout | composeApp/src/commonMain/kotlin/communication/ByteBuilder.kt:69-72 | an empty builder gives no bytes; bit k written is bit 7 - k mod 8 of byte k div 8; every unwritten bit of the last byte is 0 |
| Builder.GetBytesThenContinue | composeApp/src/commonMain/kotlin/communication/ByteBuilder.kt:69-72 | `getBytes` does not disturb the builder: later writes extend the same packing |
| Builder.PackOf | composeApp/src/commonMain/kotlin/communication/ByteBuilder.kt:69-72 | bytes whose bits are a string followed by fewer than 8 zeros are that string's packing |
| Builder.FreshAddInt | composeApp/src/commonMain/kotlin/communication/ByteBuilder.kt:44-52 | one in-range `addInt` on a fresh builder yields the bytes whose bits are the value's bits and then zero padding |
| Builder.AddSmallInt | composeApp/src/commonTest/kotlin/communication/ByteBuilderTest.kt:82-90 | `addInt(3, 2)` gives 0b11000000 |
| Builder.AddIntShort | composeApp/src/commonTest/kotlin/communication/ByteBuilderTest.kt:104-112 | `addInt(5, 7)` gives 0b00001010 |
| Builder.AddIntOverlapping | composeApp/src/commonTest/kotlin/communication/ByteBuilderTest.kt:115-123 | `addInt(9, 10)` spans two bytes, 0b00000010 0b01000000 |
| Builder.AlternatingBytes | composeApp/src/commonTest/kotlin/communication/ByteBuilderTest.kt:126-137 | four copies of 0101 pack into 0x55 0x55 |
| Builder.AddIntMultiple | composeApp/src/commonTest/kotlin/communication/ByteBuilderTest.kt:126-137 | four `addInt(5, 4)` calls give 0b01010101 0b01010101 |
| Builder.AddIntTooBig | composeApp/src/commonTest/kotlin/communication/ByteBuilderTest.kt:167-173 | `addInt(10, 2)` throws "Integer value too big!" |
| Deconstructor.Consumed | composeApp/src/commonMain/kotlin/communication/ByteDeconstructor.kt:6-7 | the cursor never passes the end of the packet |
| Deconstructor.New | composeApp/src/commonMain/kotlin/communication/ByteDeconstructor.kt:5-7 | a fresh reader is valid and has the whole packet's bits still to read |
| Deconstructor.GetCurrentBitToRead | composeApp/src/commonMain/kotlin/communication/ByteDeconstructor.kt:72-75 | "Packet too short!" exactly when no bit remains; otherwise the next unread bit as 1/0 |
| Deconstructor.AdvanceOneBit | composeApp/src/commonMain/kotlin/communication/ByteDeconstructor.kt:36-49 | consumes exactly one bit and keeps the reader valid |
| Deconstructor.ReadBoolean | composeApp/src/commonMain/kotlin/communication/ByteDeconstructor.kt:11-16 | fails with "Packet too short!" exactly when nothing remains; otherwise returns the next bit and consumes it |
| Deconstructor.AccumulateValue | composeApp/src/commonMain/kotlin/communication/ByteDeconstructor.kt:24-29 | the `shl 1 or bit` accumulation in 32-bit arithmetic is the unsigned value of the bits, wrapped to 32 bits |
| Deconstructor.ReadIntLoop | composeApp/src/commonMain/kotlin/communication/ByteDeconstructor.kt:24-29 | the loop succeeds exactly when n bits remain, consumes exactly n and accumulates them |
| Deconstructor.ReadInt | composeApp/src/commonMain/kotlin/communication/ByteDeconstructor.kt:21-31 | "Wrong bit length!" below 1; "Packet too short!" when too few bits remain; otherwise consumes `bitLength` bits and returns their value wrapped to 32 bits |
| Deconstructor.ReadIntValue | composeApp/src/commonMain/kotlin/communication/ByteDeconstructor.kt:21-31 | up to 31 bits read back as exactly their unsigned value, below 2^n |
| Deconstructor.RestBitsInByte | composeApp/src/commonMain/kotlin/communication/ByteDeconstructor.kt:63-64 | the shifted byte is zero exactly when every unread bit of the current byte is 0 |
| Deconstructor.RemainingInLastByte | composeApp/src/commonMain/kotlin/communication/ByteDeconstructor.kt:59-68 | in the last byte, the unread bits are that byte's bits from the cursor on |
| Deconstructor.FinishAsWritten | composeApp/src/commonMain/kotlin/communication/ByteDeconstructor.kt:59-68 | as written: passes exactly when at most 8 bits remain and all are 0; otherwise "Packet contains too much information!" |
| Deconstructor.Finish | composeApp/src/commonMain/kotlin/communication/ByteDeconstructor.kt:55-68 | as intended: passes exactly when what remains is fewer than 8 zero bits of padding |
| Deconstructor.FinishAgreesInsideByte | composeApp/src/commonMain/kotlin/communication/ByteDeconstructor.kt:59-68 | with the cursor inside a byte, the intended and the written `finish` agree |
| Deconstructor.FinishAcceptsUnreadZeroByte | composeApp/src/commonMain/kotlin/communication/ByteDeconstructor.kt:65 | at bit 0 of a final zero byte, 8 bits remain unread; the written `finish` accepts them and the intended one rejects them |
| Deconstructor.FinishAcceptsUnreadZeroByteExample | composeApp/src/commonTest/kotlin/communication/ByteDeconstructorTest.kt:194-203 | reading 8 bits from [0x05, 0x00] gives 5; the written `finish` then passes and the intended one fails |
| Wire.Shape | composeApp/src/commonMain/kotlin/communication/BaseCommunicator.kt:23-38 | one expected kind per field |
| Wire.WriteField | composeApp/src/commonMain/kotlin/communication/ByteBuilder.kt:36-52 | a field is written iff it is in range, appending exactly its bits |
| Wire.WriteFields | composeApp/src/commonMain/kotlin/communication/BaseCommunicator.kt:23-29 | a run of writes succeeds iff every field is in range, and then appends all their bits in order |
| Wire.Encode | composeApp/src/commonMain/kotlin/communication/ByteBuilder.kt:69-72 | the bytes of a packet are the packing of its fields' bits |
| Wire.ReadField | composeApp/src/commonMain/kotlin/communication/ByteDeconstructor.kt:11-31 | the field read has the kind asked for |
| Wire.ReadFields | composeApp/src/commonMain/kotlin/communication/ByteDeconstructor.kt:11-31 | the fields read have the kinds asked for, in order |
| Wire.Decode | composeApp/src/commonMain/kotlin/communication/ByteDeconstructor.kt:59-68 | a decoded packet has one field per kind asked for |
| Wire.FieldBitsAppend | composeApp/src/commonMain/kotlin/communication/BaseCommunicator.kt:23-29 | the bits of two runs of fields are the first run's bits, then the second's |
| Wire.ReadFieldWritten | composeApp/src/commonMain/kotlin/communication/ByteDeconstructor.kt:11-31 | reading a field off its own bits returns it and leaves the reader just after it |
| Wire.ReadFieldsWritten | composeApp/src/commonMain/kotlin/communication/ByteDeconstructor.kt:11-31 | reading fields off their own bits returns them and leaves the reader just after them |
| Wire.FitIsWritable | composeApp/src/commonMain/kotlin/communication/ByteBuilder.kt:44-45 | fields that fit their widths are accepted by the writer |
| Wire.StartOfPacked | composeApp/src/commonMain/kotlin/communication/ByteBuilder.kt:69-72 | a reader on packed bits sees those bits and then fewer than 8 zeros |
| Wire.DecodeWhenRead | composeApp/src/commonMain/kotlin/communication/ByteDeconstructor.kt:59-68 | decoding succeeds when the fields are read and only padding remains |
| Wire.EncodeInRange | composeApp/src/commonMain/kotlin/communication/ByteBuilder.kt:44-72 | in-range fields encode without error to the packing of their bits |
| Wire.EncodeFits | composeApp/src/commonMain/kotlin/communication/ByteBuilder.kt:44-72 | fields that fit their widths encode to the packing of their bits |
| Wire.ReadPacked | composeApp/src/commonMain/kotlin/communication/ByteDeconstructor.kt:11-31 | reading the packing of fitting fields returns them, with only padding left |
| Wire.DecodePacked | composeApp/src/commonMain/kotlin/communication/ByteDeconstructor.kt:59-68 | the packing of fitting fields decodes back to them |
| Wire.RoundTrip | composeApp/src/commonMain/kotlin/communication/ByteBuilder.kt:44-72 | round trip: fitting fields encode without error, and the reader returns them, `finish` accepting the padding |
| Outgoing.Ordinal | composeApp/src/commonMain/kotlin/communication/OutgoingPacketType.kt:3-31 | each packet type's ordinal fits the 3-bit tag |
| Outgoing.OrdinalInjective | composeApp/src/commonMain/kotlin/communication/OutgoingPacketType.kt:3-31 | distinct packet types have distinct tags |
| Outgoing.LetterFields | composeApp/src/commonMain/kotlin/communication/BaseCommunicator.kt:25-27 | one 5-bit field per character of the code, in order |
| Outgoing.LetterFieldsWritable | composeApp/src/commonMain/kotlin/communication/BaseCommunicator.kt:25-27 | the letter fields are in range exactly when every character lies in 'A'..'A'+31 |
| Outgoing.SendSubmitGameCode | composeApp/src/commonMain/kotlin/communication/BaseCommunicator.kt:23-29 | fails with "Integer value too big!" exactly when some character lies outside 'A'..'A'+31; otherwise sends ceil((3 + 5n)/8) bytes, the packing of tag 0 followed by five bits `c - 'A'` per character |
| Outgoing.CodeSubmitBits | composeApp/src/commonMain/kotlin/communication/BaseCommunicator.kt:23-29 | for a code of any length, the bits sent are tag 0, the letter bits in order, then zeros to the byte boundary |
| Outgoing.CodeSubmitShape | composeApp/src/commonMain/kotlin/communication/BaseCommunicator.kt:23-29 | the CodeSubmit fields are in range iff every character is encodable; they take 3 + 5n bits |
| Outgoing.CodeSubmitLayout | composeApp/src/commonMain/kotlin/communication/BaseCommunicator.kt:23-29 | a five-letter code is sent as four bytes: tag 0, the 25 letter bits, four zero bits |
| Outgoing.SendEmptyPacket | composeApp/src/commonMain/kotlin/communication/BaseCommunicator.kt:44-46 | an empty packet is one byte holding the type's ordinal in its top 3 bits |
| Outgoing.EmptyPacketByte | composeApp/src/commonMain/kotlin/communication/BaseCommunicator.kt:44-46 | encoding the tag field alone gives the byte ordinal * 32 |
| Outgoing.EmptyPacketBytes | composeApp/src/commonMain/kotlin/communication/BaseCommunicator.kt:31-46 | `sendRequestCurrentStatus`, `sendResetBoard` and `sendToggleSymbol` send the single bytes 0x20, 0x60 and 0x80 |
| Outgoing.MakeMoveFields | composeApp/src/commonMain/kotlin/communication/BaseCommunicator.kt:33-38 | a PlayerMakeMove packet's fields are always of widths the writer supports |
| Outgoing.SendMakeMove | composeApp/src/commonMain/kotlin/communication/BaseCommunicator.kt:33-38 | fails with "Integer value too big!" unless 0 <= position < 16; otherwise the one byte 0x40 + 2·position |
| Outgoing.MakeMoveByte | composeApp/src/commonMain/kotlin/communication/BaseCommunicator.kt:33-38 | tag 2 and a 4-bit position pack into the single byte 0x40 + 2·position |
| Outgoing.MakeMoveBits | composeApp/src/commonMain/kotlin/communication/BaseCommunicator.kt:33-38 | the 7 bits of a PlayerMakeMove packet are worth 32 + position |
| Outgoing.MakeMoveBoardIndex | composeApp/src/commonMain/kotlin/communication/BaseCommunicator.kt:33-38 | every board index 0..8 can be sent |
| Outgoing.MakeMoveVectors | composeApp/src/androidDesktopTest/kotlin/PlayerTest.kt:495-540 | positions 4, 1 and 7 give 0x48, 0x42 and 0x4E |
| Outgoing.MakeMoveDecodes | composeApp/src/commonMain/kotlin/communication/BaseCommunicator.kt:33-38 | the reader reads a PlayerMakeMove packet back as tag 2 and the position |
| Symbols.Other | composeApp/src/commonMain/kotlin/game/TicTacToeSymbol.kt:8-13 | the other mark differs from the mark |
| Symbols.OtherInvolution | composeApp/src/commonMain/kotlin/game/TicTacToeSymbol.kt:8-13 | taking the other mark twice gives the mark back |
| Symbols.AsEmoji | composeApp/src/commonMain/kotlin/game/TicTacToeSymbol.kt:15-20 | X shows as U+274C, O as U+2B55, one character each |
| Symbols.AsEmojiInjective | composeApp/src/commonMain/kotlin/game/TicTacToeSymbol.kt:15-20 | the two marks are shown differently |
| Coordinates.FromXY | composeApp/src/commonMain/kotlin/game/FieldCoordinate.kt:5-10 | constructs exactly when both coordinates are in 0..2, otherwise `IllegalArgumentException` |
| Coordinates.TruncDiv | composeApp/src/commonMain/kotlin/game/FieldCoordinate.kt:6 | Kotlin division: truncation towards zero |
| Coordinates.TruncRem | composeApp/src/commonMain/kotlin/game/FieldCoordinate.kt:6 | Kotlin remainder: sign of the dividend, and it complements `TruncDiv` |
| Coordinates.FromIndex | composeApp/src/commonMain/kotlin/game/FieldCoordinate.kt:6-10 | valid exactly for the indices 0..8 (negatives rejected too), and its `toIndex` is the index |
| Coordinates.ToIndex | composeApp/src/commonMain/kotlin/game/FieldCoordinate.kt:12 | the index is in 0..8 and gives x back as index mod 3 and y as index div 3 |
| Coordinates.ToIndexInjective | composeApp/src/commonMain/kotlin/game/FieldCoordinate.kt:12 | distinct cells have distinct indices |
| Coordinates.FromIndexToIndex | composeApp/src/commonMain/kotlin/game/FieldCoordinate.kt:6-12 | round trip: the coordinate rebuilt from its index is the same coordinate |
| Coordinates.FromIndexVectors | composeApp/src/commonTest/kotlin/game/FieldCoordinateTest.kt:44-76 | index 7 is (1, 2); 9 and -1 are rejected |
| GameState.New | composeApp/src/commonMain/kotlin/game/Game.kt:13-24 | a new game is on turn, has no symbol, is inactive, has no opponent and has an empty board |
| GameState.SetGameActive | composeApp/src/commonMain/kotlin/game/Game.kt:26-29 | activates with the symbol, keeps everything else |
| GameState.DeactivateGame | composeApp/src/commonMain/kotlin/game/Game.kt:31-33 | clears `gameActive`, keeps everything else |
| GameState.ActivateDeactivate | composeApp/src/commonMain/kotlin/game/Game.kt:26-33 | deactivation undoes activation except for the symbol; re-activation restores the game |
| GameState.MakeMove | composeApp/src/commonMain/kotlin/game/Game.kt:47-52 | each exception iff its check is the first to fail, in source order; a move on an active game, by the opponent or on turn, at an empty index 0..8 succeeds; on success only the target cell changes, to the own symbol or its opposite for the opponent, and `onTurn` is kept |
| GameState.TurnKeptAfterMove | composeApp/src/commonTest/kotlin/game/GameTest.kt:134-147 | after `setGameActive(O)` a local move at 0 places O and leaves `onTurn` true, unlike the test's expectation |
| GameState.MakeMoveFillsCell | composeApp/src/commonMain/kotlin/game/Game.kt:47-52 | a move adds exactly one occupied cell and cannot be repeated on that cell |
| GameState.OpponentPlacesOther | composeApp/src/commonMain/kotlin/game/Game.kt:51 | the opponent's mark on a cell is the other of the local player's |
| GameState.UpdateBoard | composeApp/src/commonMain/kotlin/game/Game.kt:57-61 | cell i becomes symbols[i] and later cells are kept; a list longer than 9 throws |
| GameState.UpdateBoardReplaces | composeApp/src/commonMain/kotlin/game/Game.kt:57-61 | a nine-cell update replaces the board whatever it held |
| GameState.GetSymbolByCoords | composeApp/src/commonMain/kotlin/game/Game.kt:65-69 | `IllegalArgumentException` unless both are in 0..2; otherwise the cell at the coordinate's index |
| GameState.MoveThenLookup | composeApp/src/commonMain/kotlin/game/Game.kt:47-69 | the cell a move writes is what the coordinate lookup then reports |
| Session.New | composeApp/src/commonMain/kotlin/Player.kt:13-19 | start-up: a fresh game, no code entered, not closed on purpose |
| Session.SymbolOf | composeApp/src/commonMain/kotlin/Player.kt:145-147 | true stands for X, false for O |
| Session.LetterOf | composeApp/src/commonMain/kotlin/Player.kt:103 | the letter is 'A' plus the 5-bit value |
| Session.LettersOf | composeApp/src/commonMain/kotlin/Player.kt:102-105 | one letter per 5 bits |
| Session.ReadLetter | composeApp/src/commonMain/kotlin/Player.kt:103 | succeeds iff 5 bits remain; the letter of those 5 bits, consuming them |
| Session.ReadLetters | composeApp/src/commonMain/kotlin/Player.kt:102-105 | succeeds iff 5n bits remain; the letters of those bits, consuming them |
| Session.OnWelcome | composeApp/src/commonMain/kotlin/Player.kt:100-110 | succeeds iff 25 bits remain; then both the game's code and the last code entered become those letters; a short packet changes nothing |
| Session.OnOpponentMakeMove | composeApp/src/commonMain/kotlin/Player.kt:112-116 | succeeds iff the position is on the board and the opponent's move is legal, applying exactly that move; a failure changes nothing |
| Session.ParseCells | composeApp/src/commonMain/kotlin/Player.kt:125-133 | a parse of n cells has n cells and does not lengthen the input |
| Session.BoardOf | composeApp/src/commonMain/kotlin/Player.kt:125-134 | an accepted board has nine cells |
| Session.ParseCellsEncodes | composeApp/src/commonMain/kotlin/Player.kt:127-133 | whatever the cell loop reads is the encoding of the cells it returns, followed by the bits it leaves |
| Session.BoardOfExactly | composeApp/src/commonMain/kotlin/Player.kt:125-134 | the board loop and `finish()` accept exactly nine encoded cells followed by at most eight zero bits, and give those cells |
| Session.ParseCellBits | composeApp/src/commonMain/kotlin/Player.kt:127-133 | decoding the server's cell encoding gives the cells back and stops where the encoding ends |
| Session.BoardOfCellBits | composeApp/src/commonMain/kotlin/Player.kt:125-134 | nine encoded cells followed by at most eight zero bits are accepted as exactly that board |
| Session.ReadCell | composeApp/src/commonMain/kotlin/Player.kt:128-132 | one iteration reads exactly one cell's bits |
| Session.ReadCells | composeApp/src/commonMain/kotlin/Player.kt:127-133 | the cell loop reads exactly what the cell decoding describes, and fails iff it does |
| Session.ApplyFlags | composeApp/src/commonMain/kotlin/Player.kt:119-123 | symbol, `onTurn` and `hasOpponent` as sent; a set active bit activates and a clear one never deactivates; the code becomes the last code entered |
| Session.ReadBoard | composeApp/src/commonMain/kotlin/Player.kt:125-137 | succeeds iff the rest is nine cells and at most eight zero bits, as `finish()` as written accepts, then replaces the board; a failure leaves the session as it was |
| Session.FinishBoard | composeApp/src/commonMain/kotlin/Player.kt:134-137 | once the cells are read, `finish()` as written passes iff at most eight zero bits remain, and only then is the board replaced and the UI redrawn |
| Session.UpdateGameRest | composeApp/src/commonMain/kotlin/Player.kt:121-137 | keeps the last code and the closed flag; no bit left throws with no change, one bit sets `hasOpponent` and throws; with two or more, the flags are applied and the board is replaced iff the rest is nine cells and at most eight zero bits |
| Session.UpdateGameRestKeeps | composeApp/src/commonMain/kotlin/Player.kt:121-137 | the rest of `updateGame` touches the board only when it completes, never clears `gameActive`, and keeps a game well-formed |
| Session.UpdateGame | composeApp/src/commonMain/kotlin/Player.kt:118-138 | fewer than 2 bits throw with no change; with 4 or more, the flags are applied and the board is replaced iff the rest is nine cells and at most eight zero bits, as `finish()` as written accepts |
| Session.UpdateGameShort | composeApp/src/commonMain/kotlin/Player.kt:119-121 | a body that ends inside the flags keeps `onTurn`, and `hasOpponent` too after 3 bits, while the symbol is not yet set |
| Session.UpdateGameKeeps | composeApp/src/commonMain/kotlin/Player.kt:118-138 | `updateGame` touches the board only when it completes, never clears `gameActive`, and keeps a game well-formed |
| Session.OnGameCodeInvalid | composeApp/src/commonMain/kotlin/Player.kt:140-143 | reports the text, leaves the game as it is and resets the last code entered to the game's code, so that no later GameInfo, complete or cut short, adopts the rejected code |
| Session.Dispatch | composeApp/src/commonMain/kotlin/Player.kt:79-92 | every handler keeps the closed flag, never clears `gameActive`, keeps a game well-formed, and changes the board only on a redraw |
| Session.TagOf | composeApp/src/commonMain/kotlin/Player.kt:79 | the tag is in 0..7 |
| Session.Step | composeApp/src/commonMain/kotlin/Player.kt:66-98 | `null` ends the loop, with the error text unless the close was on purpose; every other frame keeps the loop's invariants |
| Session.Report | composeApp/src/commonMain/kotlin/Player.kt:93-96 | an exception becomes "Something went wrong..." and the handler's partial changes stay |
| Session.TagBits | composeApp/src/commonMain/kotlin/Player.kt:79 | the first three bits of a frame are worth its tag |
| Session.ReadTag | composeApp/src/commonMain/kotlin/Player.kt:76-79 | `readInt(3)` on a non-empty frame gives the tag and leaves the rest of the frame |
| Session.AfterTag | composeApp/src/commonMain/kotlin/Player.kt:76-79 | the handler's reader sees the frame after its tag |
| Session.StepDispatches | composeApp/src/commonMain/kotlin/Player.kt:76-96 | a non-empty frame is dispatched on its tag and the result reported |
| Session.DispatchFixed | composeApp/src/commonMain/kotlin/Player.kt:81-91 | PacketInvalid, ActionInvalid and GameFull only report their texts; OpponentLeave clears `hasOpponent` and redraws; GameCodeInvalid resets the last code |
| Session.DispatchReading | composeApp/src/commonMain/kotlin/Player.kt:80-88 | tags 0, 2 and 4 go to the Welcome, OpponentMakeMove and GameInfo handlers |
| Session.EmptyFrame | composeApp/src/commonMain/kotlin/Player.kt:76-96 | an empty frame has no tag: reported, nothing changes |
| Session.FixedReplies | composeApp/src/commonMain/kotlin/Player.kt:81-91 | frames with tags 1, 5 and 7 only report their texts |
| Session.OpponentLeaves | composeApp/src/commonMain/kotlin/Player.kt:85-87 | OpponentLeave clears `hasOpponent` and nothing else |
| Session.CodeRejected | composeApp/src/commonMain/kotlin/Player.kt:90 | GameCodeInvalid reports and sets the last code entered back to the game's code |
| Frames.Payload | composeApp/src/commonMain/kotlin/Player.kt:76-79 | a handler sees 8n - 3 bits |
| Frames.WelcomeFrame | composeApp/src/commonMain/kotlin/Player.kt:100-110 | a Welcome of at least four bytes sets both codes to the five letters after the tag; a shorter one is reported and changes nothing |
| Frames.WelcomeAllZero | composeApp/src/androidDesktopTest/kotlin/PlayerTest.kt:190-211 | four zero bytes are a Welcome for "AAAAA" |
| Frames.WelcomeZeros | composeApp/src/androidDesktopTest/kotlin/PlayerTest.kt:190-211 | [0, 0, 0, 0] sets both codes to "AAAAA" |
| Frames.MovePosition | composeApp/src/commonMain/kotlin/Player.kt:82-84 | the position an OpponentMakeMove frame carries is bits 3..6 of its first byte |
| Frames.OpponentMoveFrame | composeApp/src/commonMain/kotlin/Player.kt:112-116 | applies the opponent's move at that position; an off-board position or an illegal move is reported and changes nothing |
| Frames.OpponentMoveCentre | composeApp/src/androidDesktopTest/kotlin/PlayerTest.kt:214-239 | [0x48] puts an O in the centre of X's active game and leaves the other cells alone |
| Frames.GameInfoFrame | composeApp/src/commonMain/kotlin/Player.kt:118-138 | a GameInfo frame applies its flags and the last code; the board is replaced only when the rest is nine cells and at most eight zero bits, a whole unread zero byte included |
| Frames.GameInfoEncoded | composeApp/src/commonMain/kotlin/Player.kt:118-138 | a GameInfo frame laid out the way the server writes one decodes to exactly what was written |
| Frames.SampleBoard | composeApp/src/androidDesktopTest/kotlin/PlayerTest.kt:259-264 | the sample board is nine cells with this cell encoding |
| Frames.SamplePayload | composeApp/src/androidDesktopTest/kotlin/PlayerTest.kt:249 | the sample frames carry four flag bits, the sample board and one padding bit |
| Frames.GameInfoSample | composeApp/src/androidDesktopTest/kotlin/PlayerTest.kt:242-270 | [0x9F, 0x3E, 0x96] gives X, on turn, opponent present, active, and the sample board |
| Frames.GameInfoExtraZeroByte | composeApp/src/commonMain/kotlin/communication/ByteDeconstructor.kt:59-68 | [0x80, 0x00, 0x00], a GameInfo frame with a whole unread zero byte, is accepted: O, all flags clear, the board emptied |
| Frames.GameInfoSampleInactive | composeApp/src/androidDesktopTest/kotlin/PlayerTest.kt:273-300 | [0x81, 0x3E, 0x96] gives O, not on turn, no opponent, the active bit clear, and the same board |
| Actions.Send | composeApp/src/commonMain/kotlin/communication/BaseCommunicator.kt:48-52 | a connected socket takes the bytes; a disconnected one throws |
| Actions.MakeMove | composeApp/src/commonMain/kotlin/Player.kt:153-158 | a bad coordinate or an illegal move changes nothing; otherwise the move is applied, the UI redrawn, then the packet sent; a failed send does not undo the move |
| Actions.MoveSentDecodes | composeApp/src/commonMain/kotlin/Player.kt:153-158 | a sent local move puts the own symbol on the square, and its byte decodes as tag 2 and that square's index |
| Actions.MoveCentre | composeApp/src/androidDesktopTest/kotlin/PlayerTest.kt:472-493 | X on turn playing (1, 1) sends [0x48] and marks the centre; without a connection the move still stands |
| Actions.Upper | composeApp/src/commonMain/kotlin/Player.kt:163 | ASCII upper-casing of one character |
| Actions.UpperCase | composeApp/src/commonMain/kotlin/Player.kt:163 | same length, each character upper-cased |
| Actions.ValidateGameCode | composeApp/src/commonMain/kotlin/Player.kt:172-180 | passes iff the code is five ASCII letters; the letter message takes precedence over the length message |
| Actions.SubmitGameCode | composeApp/src/commonMain/kotlin/Player.kt:160-167 | an invalid code changes nothing; a valid one becomes the last code entered, upper-cased, and its four-byte CodeSubmit packet is sent |
| Actions.UpperCaseValid | composeApp/src/commonMain/kotlin/Player.kt:160-180 | a valid code upper-cases to five capitals; upper-casing is idempotent and keeps the code valid |
| Actions.ResetBoard | composeApp/src/commonMain/kotlin/Player.kt:183 | sends BoardReset and changes nothing locally |
| Actions.ToggleSymbol | composeApp/src/commonMain/kotlin/Player.kt:184 | sends ToggleSymbol and changes nothing locally |
| Scenarios.LettersOfLetterFields | composeApp/src/commonMain/kotlin/communication/BaseCommunicator.kt:25-27 | the client's 5-bit letters read back through the Welcome decoding as the same characters |
| Scenarios.CodeSubmitAsFrame | composeApp/src/commonMain/kotlin/communication/BaseCommunicator.kt:23-29 | a five-letter CodeSubmit is four bytes with tag 0 whose first 25 payload bits spell the code |
| Scenarios.SubmittedCodeReadsBack | composeApp/src/commonMain/kotlin/Player.kt:100-110 | the CodeSubmit bytes, received as a frame, set exactly that code |
| Scenarios.GameInfoTakesLastCode | composeApp/src/commonMain/kotlin/Player.kt:123 | any GameInfo frame copies the last code entered into the game, whether or not the rest is accepted |
| Scenarios.AcceptedCodeAdopted | composeApp/src/androidDesktopTest/kotlin/PlayerTest.kt:378-407 | a submitted code followed by GameInfo becomes the game's code, upper-cased |
| Scenarios.RejectedCodeNotAdopted | composeApp/src/androidDesktopTest/kotlin/PlayerTest.kt:346-375 | a submitted code followed by GameCodeInvalid and then GameInfo leaves the game's code as it was |
| Scenarios.RelayedByte | composeApp/src/commonMain/kotlin/Player.kt:79-84 | the byte a client sends for a move carries, read as an inbound frame, tag 2 and that same position |
| Scenarios.MoveRelayed | composeApp/src/commonMain/kotlin/communication/BaseCommunicator.kt:33-38 | a client's PlayerMakeMove byte, relayed to the other client, applies the opponent's move at the same square, or is reported and changes nothing |
| Queues.Empty | composeApp/src/androidMain/kotlin/de/deinberater/tictactoe/garmincommunication/Queue.kt:4 | an empty queue has size 0 and no first element |
| Queues.Size | composeApp/src/androidMain/kotlin/de/deinberater/tictactoe/garmincommunication/Queue.kt:6-7 | the size is 0 exactly when the queue is empty |
| Queues.First | composeApp/src/androidMain/kotlin/de/deinberater/tictactoe/garmincommunication/Queue.kt:8 | null exactly on an empty queue, otherwise the head |
| Queues.Add | composeApp/src/androidMain/kotlin/de/deinberater/tictactoe/garmincommunication/Queue.kt:9-11 | appends at the end, keeps the rest, and the head changes only on an empty queue |
| Queues.Next | composeApp/src/androidMain/kotlin/de/deinberater/tictactoe/garmincommunication/Queue.kt:13-18 | drops the head of a non-empty queue and returns the new head; on an empty queue returns null and changes nothing |
| Queues.AddIgnoresFlag | composeApp/src/androidMain/kotlin/de/deinberater/tictactoe/garmincommunication/Queue.kt:9-11 | the `ignoreFirst` flag makes no difference |
| Queues.NextSkipsHead | composeApp/src/androidMain/kotlin/de/deinberater/tictactoe/garmincommunication/Queue.kt:13-18 | `next` returns the second element, or null on a queue of one |
| Queues.AddAllAppends | composeApp/src/androidMain/kotlin/de/deinberater/tictactoe/garmincommunication/Queue.kt:9-11 | adding elements one by one appends them in order |
| Queues.DrainAfterIsTail | composeApp/src/androidMain/kotlin/de/deinberater/tictactoe/garmincommunication/Queue.kt:13-18 | calling `next` until null yields every element after the head |
| Queues.DrainInOrder | composeApp/src/androidMain/kotlin/de/deinberater/tictactoe/garmincommunication/Queue.kt:8-18 | `getFirst` and then `next` until null yield exactly the elements, in order |
| Queues.FifoOrder | composeApp/src/androidMain/kotlin/de/deinberater/tictactoe/garmincommunication/Queue.kt:3-18 | elements added to an empty queue, whatever the flags, come out in the order of adding |
| Queues.Consume | composeApp/src/androidMain/kotlin/de/deinberater/tictactoe/garmincommunication/Queue.kt:8-18 | the consumer loop sees every element in order and leaves the queue empty |

## Left out

- The transport: WebSocket connection, `connectWithWebsocket`, `closeWebSocket`, `restartConnection`, coroutines and the update channel's ordering. A frame is an input and sending is the `connected` flag.
- The UI, Garmin watch bridge (apart from `Queue`), Discord and the web entry points: platform code outside the core.
- `Game`'s winner and board-full checks and `GarminGame`: not part of the modelled core.
- Builder.AddInt: widths are limited to 0..31. Kotlin's `shr` masks its shift amount to 5 bits, so wider widths behave differently, and no caller uses them.
- Actions.ValidateGameCode: upper-casing is ASCII only. Kotlin's full Unicode `uppercase()` (for example 'ß' to "SS") is not modelled.
- Actions.SubmitGameCode: same ASCII-only upper-casing as `ValidateGameCode`.
- Actions.Upper: maps only 'a'..'z' to 'A'..'Z'. Kotlin's `uppercase()` is Unicode-aware and also maps, for example, 'ı' to 'I', so the source accepts some codes that the model rejects.
- Actions.UpperCase: upper-cases character by character with `Upper`, so it is ASCII only as well. Kotlin's `uppercase()` maps, for example, 'ſ' to 'S', and 'ß' to the two letters "SS", which changes the length.
- GameState.UpdateBoard: a list longer than nine throws `IndexOutOfBoundsException` as in the source, but the model does not keep the cells the source wrote before the throw. `Player` always passes nine cells.
- The remaining builder vectors (`addIntMultipleAndBoolean`, `addBoolean` runs) are covered by `Builder.AddBooleansContent` and `Builder.PackedLayout` in general form, not as individual lemmas.
- `Symbols.AsEmoji` models the two emoji as single code points. Their rendering is not modelled.
- Two behaviours of the code differ from what is expected of it elsewhere, and the model follows the code. OpponentLeave (Player.kt:85-87) clears only `hasOpponent` and does not deactivate the game, although the game design couples the two. `Game.makeMove` (Game.kt:47-52) does not flip `onTurn`, and the next GameInfo sets it. The test `makeMoveTurnChange` (GameTest.kt:134-147) expects `onTurn` to be false after a local move; `GameState.TurnKeptAfterMove` shows that the code leaves it true.
- GameState.MakeMove: takes the board index as an `int`, as `Game.makeMove(position: Int, …)` is declared (Game.kt:47). Its callers (Player.kt:113 and :155, and GameTest.kt:105 and :127) pass a `FieldCoordinate` instead, and no conversion between the two is part of the source. The model bridges the gap with `Coordinates.ToIndex`, the conversion `sendMakeMove` uses (Player.kt:157).
- The session decodes GameInfo with `finish()` as written (`Deconstructor.FinishAsWritten`), so a GameInfo frame followed by one whole extra zero byte is accepted, as `Frames.GameInfoExtraZeroByte` shows. The corrected `Deconstructor.Finish` of the Findings is what the generic codec `Wire.Decode` uses.

## Findings

| source | as written | input that shows it | evidently intended | confidence | as-written member | corrected member |
|---|---|---|---|---|---|---|
| composeApp/src/commonMain/kotlin/communication/ByteDeconstructor.kt:65 | `finish()` accepts when the cursor is in the last byte and its remaining bits are zero; at bit 0 of that byte this accepts a whole unread zero byte | [0x05, 0x00] after `readInt(8)`: `finish()` returns although byte 0x00 was never read | reject any unread data beyond the zero padding of the last byte read, as the `finishAnotherPacket` test expects for an extra zero byte | medium, not executed | Deconstructor.FinishAsWritten (shown by Deconstructor.FinishAcceptsUnreadZeroByte, Deconstructor.FinishAcceptsUnreadZeroByteExample; the session follows it, see Frames.GameInfoExtraZeroByte) | Deconstructor.Finish (used by Wire.Decode) |
