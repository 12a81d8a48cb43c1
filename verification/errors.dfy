/** The exceptions the core can raise, one variant per exception class. */
module Errors {

  datatype Error =
    /** `IllegalArgumentException`, with its message ("" when it has none) */
    | IllegalArgument(message: string)
    /** `InvalidPacketException`, with its message */
    | InvalidPacket(message: string)
    /** Kotlin's `IndexOutOfBoundsException` from indexing the board list */
    | IndexOutOfBounds
    /** `GameNotActiveException` */
    | GameNotActive
    /** `NotOnTurnException` */
    | NotOnTurn
    /** `FieldAlreadyOccupiedException` */
    | FieldAlreadyOccupied
    /** `WebSocketNotConnectedException`, thrown by the transport's send */
    | WebSocketNotConnected
}
