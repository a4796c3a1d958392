/**
 * The parts of a bit-board position (`HexaBitBoardPosition`, declared in chess.h) that the
 * unique-position engine reads, and the move generator it calls, which is not part of this model.
 *
 * A 64-bit board mask is modelled as the set of the squares whose bit is set, so `&` is set
 * intersection, `|` is union and clearing one bit removes one square.
 */
module Board {

  /** A square index: the position of a bit in a 64-bit board mask. */
  type Square = s: int | 0 <= s < 64

  type Bitboard = set<Square>

  type Bit = b: int | 0 <= b < 2

  /** The en-passant field: 0 for none, otherwise the file plus one (a 4-bit field). */
  type EnPassantField = e: int | 0 <= e < 16

  const WHITE: Bit := 0
  const BLACK: Bit := 1

  /** A two-bit castling field, as the set of its one bits (bit 0: king side, bit 1: queen side). */
  type CastleFlags = set<Bit>

  const CASTLE_FLAG_KING_SIDE: CastleFlags := {0}
  const CASTLE_FLAG_QUEEN_SIDE: CastleFlags := {1}

  /**
   * Ranks 2 to 7; the pawn board also carries game-state bits on ranks 1 and 8, which the
   * hash masks away with this set.
   */
  const RANKS2TO7: Bitboard := set s: Square | 8 <= s < 56

  datatype Position = Position(
    whitePieces: Bitboard,
    pawns: Bitboard,
    knights: Bitboard,
    bishopQueens: Bitboard,
    rookQueens: Bitboard,
    kings: Bitboard,
    chance: Bit,
    whiteCastle: CastleFlags,
    blackCastle: CastleFlags,
    enPassent: EnPassantField)

  /** The all-zero position that `memset` leaves in a fresh record. */
  const EmptyPosition: Position := Position({}, {}, {}, {}, {}, {}, 0, {}, {}, 0)

  /** A move as produced by the generator (`CMove`); its encoding does not matter here. */
  datatype Move = Move(src: Square, dst: Square, flags: nat)

  /**
   * The move generator and move application, given as functions:
   * `generateMoves(pos)` lists the legal moves and `makeMove(pos, move, chance)` plays one.
   */
  datatype MoveGenerator = MoveGenerator(
    generateMoves: Position -> seq<Move>,
    makeMove: (Position, Move, Bit) -> Position)
}
