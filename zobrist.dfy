/**
 * The order-independent content hash of a position (`computeZobristKey128b` in uniques.h):
 * the XOR of one 128-bit key per feature present in the position.
 */
module Zobrist {
  import opened HashKey
  import opened Board

  /** Piece kinds, as indexed by `ZOB_INDEX_*`. */
  datatype Kind = Pawn | King | Knight | Queen | Rook | Bishop

  /** The features that have a Zobrist key. */
  datatype Feature =
    | SideToMove
    | CastlingRight(color: Bit, side: Bit)        // side 0: king side, 1: queen side
    | EnPassantTarget(file: int)
    | PieceAt(color: Bit, kind: Kind, square: Square)

  /** The two 64-bit key tables `zob` and `zob2`; their contents are not modelled. */
  datatype Keys = Keys(zob: Feature -> Word64, zob2: Feature -> Word64)

  /** `ZOB_KEY_128(x)`: the low half from `zob`, the high half from `zob2`. */
  function KeyOf(z: Keys, f: Feature): Key128
  {
    Key128(z.zob(f), z.zob2(f))
  }

  /** The XOR of the keys of a set of features. */
  ghost function XorAll(z: Keys, fs: set<Feature>): Key128
    decreases |fs|
  {
    if fs == {} then Zero
    else
      var f :| f in fs;
      Xor(XorAll(z, fs - {f}), KeyOf(z, f))
  }

  /** Any feature of the set can be taken out first: the fold does not depend on the order. */
  lemma {:induction false} XorAllRemove(z: Keys, fs: set<Feature>, f: Feature)
    requires f in fs
    ensures XorAll(z, fs) == Xor(XorAll(z, fs - {f}), KeyOf(z, f))
    decreases |fs|
  {
    var g :| g in fs && XorAll(z, fs) == Xor(XorAll(z, fs - {g}), KeyOf(z, g));
    if g != f {
      XorAllRemove(z, fs - {g}, f);
      XorAllRemove(z, fs - {f}, g);
      assert fs - {g} - {f} == fs - {f} - {g};
      XorAssociates(XorAll(z, fs - {g} - {f}), KeyOf(z, f), KeyOf(z, g));
    }
  }

  /** The squares whose pieces are hashed; pawn bits outside ranks 2 to 7 are game state. */
  function Occupied(pos: Position): Bitboard
  {
    pos.kings + (pos.pawns * RANKS2TO7) + pos.knights + pos.bishopQueens + pos.rookQueens
  }

  /** `!(piece & pos->whitePieces)`: 0 for a white piece, 1 for a black one. */
  function ColorAt(pos: Position, s: Square): Bit
  {
    if s in pos.whitePieces then WHITE else BLACK
  }

  /** The kind tests in the order the hash makes them: pawn, king, knight, queen, rook, bishop. */
  function KindAt(pos: Position, s: Square): Kind
    requires s in Occupied(pos)
  {
    if s in pos.pawns * RANKS2TO7 then Pawn
    else if s in pos.kings then King
    else if s in pos.knights then Knight
    else if s in pos.rookQueens && s in pos.bishopQueens then Queen
    else if s in pos.rookQueens then Rook
    else assert s in pos.bishopQueens; Bishop
  }

  function PieceFeature(pos: Position, s: Square): Feature
    requires s in Occupied(pos)
  {
    PieceAt(ColorAt(pos, s), KindAt(pos, s), s)
  }

  /** Whether castling flag `side` (0: king side, 1: queen side) of `color` is set. */
  function CanCastle(pos: Position, color: Bit, side: Bit): bool
  {
    var flags := if color == WHITE then pos.whiteCastle else pos.blackCastle;
    var flag := if side == 0 then CASTLE_FLAG_KING_SIDE else CASTLE_FLAG_QUEEN_SIDE;
    flags * flag != {}
  }

  /** The set `{f}` when `c` holds, and the empty set otherwise. */
  function When(c: bool, f: Feature): set<Feature>
  {
    if c then {f} else {}
  }

  /**
   * The k-th side-state feature (1 <= k <= 6) in the order the hash visits them: side to move,
   * white king side, white queen side, black king side, black queen side, en-passant file.
   */
  function StateFeature(pos: Position, k: nat): Feature
    requires 1 <= k <= 6
  {
    if k == 1 then SideToMove
    else if k == 2 then CastlingRight(WHITE, 0)
    else if k == 3 then CastlingRight(WHITE, 1)
    else if k == 4 then CastlingRight(BLACK, 0)
    else if k == 5 then CastlingRight(BLACK, 1)
    else EnPassantTarget(pos.enPassent - 1)
  }

  /** Whether the position has its k-th side-state feature. */
  function HasStateFeature(pos: Position, k: nat): bool
    requires 1 <= k <= 6
  {
    if k == 1 then pos.chance == WHITE
    else if k == 2 then CanCastle(pos, WHITE, 0)
    else if k == 3 then CanCastle(pos, WHITE, 1)
    else if k == 4 then CanCastle(pos, BLACK, 0)
    else if k == 5 then CanCastle(pos, BLACK, 1)
    else pos.enPassent != 0
  }

  /** The side-state features among the first k. */
  function StatePrefix(pos: Position, k: nat): set<Feature>
    requires k <= 6
  {
    if k == 0 then {} else StatePrefix(pos, k - 1) + When(HasStateFeature(pos, k), StateFeature(pos, k))
  }

  /** The side-state features of a position. */
  function StateFeatures(pos: Position): set<Feature>
  {
    StatePrefix(pos, 6)
  }

  /** The place of a feature in the visiting order; all piece features come last. */
  function Rank(f: Feature): nat
  {
    match f
    case SideToMove => 1
    case CastlingRight(color, side) => 2 + 2 * color + side
    case EnPassantTarget(_) => 6
    case PieceAt(_, _, _) => 7
  }

  lemma {:induction false} StatePrefixRanks(pos: Position, k: nat)
    requires k <= 6
    ensures forall g :: g in StatePrefix(pos, k) ==> 1 <= Rank(g) <= k
  {
    if k > 0 {
      StatePrefixRanks(pos, k - 1);
    }
  }

  /** Folding in the k-th side-state feature is XOR-ing in its key when the position has it. */
  lemma StateStep(z: Keys, pos: Position, k: nat)
    requires 1 <= k <= 6
    ensures XorAll(z, StatePrefix(pos, k)) ==
              if HasStateFeature(pos, k) then Xor(XorAll(z, StatePrefix(pos, k - 1)), KeyOf(z, StateFeature(pos, k)))
              else XorAll(z, StatePrefix(pos, k - 1))
  {
    StatePrefixRanks(pos, k - 1);
    XorWhen(z, StatePrefix(pos, k - 1), HasStateFeature(pos, k), StateFeature(pos, k));
  }

  /** The side-state features written out, one optional feature each; none is a piece feature. */
  lemma StateFeaturesExplicit(pos: Position)
    ensures StateFeatures(pos) ==
              When(pos.chance == WHITE, SideToMove)
              + When(CanCastle(pos, WHITE, 0), CastlingRight(WHITE, 0))
              + When(CanCastle(pos, WHITE, 1), CastlingRight(WHITE, 1))
              + When(CanCastle(pos, BLACK, 0), CastlingRight(BLACK, 0))
              + When(CanCastle(pos, BLACK, 1), CastlingRight(BLACK, 1))
              + When(pos.enPassent != 0, EnPassantTarget(pos.enPassent - 1))
    ensures forall g :: g in StateFeatures(pos) ==> !g.PieceAt?
  {
    assert StatePrefix(pos, 1) == When(pos.chance == WHITE, SideToMove);
    assert StatePrefix(pos, 2) == StatePrefix(pos, 1) + When(CanCastle(pos, WHITE, 0), CastlingRight(WHITE, 0));
    assert StatePrefix(pos, 3) == StatePrefix(pos, 2) + When(CanCastle(pos, WHITE, 1), CastlingRight(WHITE, 1));
    assert StatePrefix(pos, 4) == StatePrefix(pos, 3) + When(CanCastle(pos, BLACK, 0), CastlingRight(BLACK, 0));
    assert StatePrefix(pos, 5) == StatePrefix(pos, 4) + When(CanCastle(pos, BLACK, 1), CastlingRight(BLACK, 1));
    StatePrefixRanks(pos, 6);
  }

  /** The piece features of the occupied squares in `squares`. */
  ghost function PieceFeatures(pos: Position, squares: set<Square>): set<Feature>
    requires squares <= Occupied(pos)
  {
    set s | s in squares :: PieceFeature(pos, s)
  }

  /** All features of a position. */
  ghost function Features(pos: Position): set<Feature>
  {
    StateFeatures(pos) + PieceFeatures(pos, Occupied(pos))
  }

  /** The hash of a position: the XOR of the keys of exactly its features. */
  ghost function ZobristHash(z: Keys, pos: Position): Key128
  {
    XorAll(z, Features(pos))
  }

  /** Which side-state features a position has, one kind at a time. */
  lemma StateFeaturesOf(pos: Position, f: Feature)
    ensures f == SideToMove ==> (f in StateFeatures(pos) <==> pos.chance == WHITE)
    ensures f.CastlingRight? ==> (f in StateFeatures(pos) <==> CanCastle(pos, f.color, f.side))
    ensures f.EnPassantTarget? ==>
              (f in StateFeatures(pos) <==> pos.enPassent != 0 && f.file == pos.enPassent - 1)
    ensures f.PieceAt? ==> f !in StateFeatures(pos)
  {
    StateFeaturesExplicit(pos);
  }

  /** Which piece features a position has: exactly the piece on each occupied square. */
  lemma PieceFeaturesOf(pos: Position, f: Feature)
    ensures f in PieceFeatures(pos, Occupied(pos)) <==>
              f.PieceAt? && f.square in Occupied(pos) && f.color == ColorAt(pos, f.square)
              && f.kind == KindAt(pos, f.square)
  {
    if f in PieceFeatures(pos, Occupied(pos)) {
      var s :| s in Occupied(pos) && PieceFeature(pos, s) == f;
    }
  }

  /** Which features a position has, one kind of feature at a time. */
  lemma FeaturesOf(pos: Position, f: Feature)
    ensures f == SideToMove ==> (f in Features(pos) <==> pos.chance == WHITE)
    ensures f.CastlingRight? ==> (f in Features(pos) <==> CanCastle(pos, f.color, f.side))
    ensures f.EnPassantTarget? ==>
              (f in Features(pos) <==> pos.enPassent != 0 && f.file == pos.enPassent - 1)
    ensures f.PieceAt? ==>
              (f in Features(pos) <==>
                 f.square in Occupied(pos) && f.color == ColorAt(pos, f.square)
                 && f.kind == KindAt(pos, f.square))
  {
    StateFeaturesOf(pos, f);
    PieceFeaturesOf(pos, f);
  }

  /** `MoveGeneratorBitboard::getOne` followed by `bitScan`: the lowest set square. */
  function LowestSquare(b: Bitboard): (s: Square)
    requires b != {}
    ensures s in b && forall t :: t in b ==> s <= t
  {
    LowestFrom(b, 0)
  }

  function LowestFrom(b: Bitboard, i: Square): (s: Square)
    requires b != {} && forall t :: t in b ==> i <= t
    ensures s in b && forall t :: t in b ==> s <= t
    decreases 64 - i
  {
    if i in b then i
    else
      var t :| t in b;
      assert i < t;
      LowestFrom(b, i + 1)
  }

  /**
   * `computeZobristKey128b`: XORs in the side-state keys, then walks the occupied squares
   * from the lowest, clearing one per step, XORing in the key of the piece on it.
   */
  method ComputeZobristKey128b(z: Keys, pos: Position) returns (key: Key128)
    ensures key == ZobristHash(z, pos)
  {
    key := Zero;

    if pos.chance == WHITE {
      key := Xor(key, KeyOf(z, SideToMove));
    }
    StateStep(z, pos, 1);
    assert key == XorAll(z, StatePrefix(pos, 1));

    if CanCastle(pos, WHITE, 0) {
      key := Xor(key, KeyOf(z, CastlingRight(WHITE, 0)));
    }
    StateStep(z, pos, 2);
    assert key == XorAll(z, StatePrefix(pos, 2));

    if CanCastle(pos, WHITE, 1) {
      key := Xor(key, KeyOf(z, CastlingRight(WHITE, 1)));
    }
    StateStep(z, pos, 3);
    assert key == XorAll(z, StatePrefix(pos, 3));

    if CanCastle(pos, BLACK, 0) {
      key := Xor(key, KeyOf(z, CastlingRight(BLACK, 0)));
    }
    StateStep(z, pos, 4);
    assert key == XorAll(z, StatePrefix(pos, 4));

    if CanCastle(pos, BLACK, 1) {
      key := Xor(key, KeyOf(z, CastlingRight(BLACK, 1)));
    }
    StateStep(z, pos, 5);
    assert key == XorAll(z, StatePrefix(pos, 5));

    if pos.enPassent != 0 {
      key := Xor(key, KeyOf(z, EnPassantTarget(pos.enPassent - 1)));
    }
    StateStep(z, pos, 6);

    ghost var seen := StateFeatures(pos);
    StateFeaturesExplicit(pos);
    key := XorPieceKeys(z, pos, key, seen);
  }

  method XorPieceKeys(z: Keys, pos: Position, key0: Key128, ghost seen: set<Feature>) returns (key: Key128)
    requires key0 == XorAll(z, seen) && forall g :: g in seen ==> !g.PieceAt?
    ensures key == XorAll(z, seen + PieceFeatures(pos, Occupied(pos)))
  {
    key := key0;
    var allPawns := pos.pawns * RANKS2TO7;
    var allPieces := pos.kings + allPawns + pos.knights + pos.bishopQueens + pos.rookQueens;
    assert PieceFeatures(pos, Occupied(pos) - allPieces) == {};
    assert seen + {} == seen;
    while allPieces != {}
      invariant allPieces <= Occupied(pos)
      invariant key == XorAll(z, seen + PieceFeatures(pos, Occupied(pos) - allPieces))
      decreases |allPieces|
    {
      var square := LowestSquare(allPieces);
      var f := PieceAt(ColorAt(pos, square), KindAt(pos, square), square);
      PieceStep(z, pos, seen, allPieces, square);
      key := Xor(key, KeyOf(z, f));
      allPieces := allPieces - {square};
    }
    assert Occupied(pos) - allPieces == Occupied(pos);
  }

  /** Clearing square `s` from the squares still to visit XORs in the key of its piece. */
  lemma PieceStep(z: Keys, pos: Position, seen: set<Feature>, rest: set<Square>, s: Square)
    requires rest <= Occupied(pos) && s in rest && forall g :: g in seen ==> !g.PieceAt?
    ensures XorAll(z, seen + PieceFeatures(pos, Occupied(pos) - (rest - {s}))) ==
              Xor(XorAll(z, seen + PieceFeatures(pos, Occupied(pos) - rest)), KeyOf(z, PieceFeature(pos, s)))
  {
    var done := Occupied(pos) - rest;
    var f := PieceFeature(pos, s);
    assert Occupied(pos) - (rest - {s}) == done + {s};
    PieceFeaturesAdd(pos, done, s);
    var next := Include(z, seen + PieceFeatures(pos, done), f);
    assert seen + PieceFeatures(pos, done + {s}) == seen + PieceFeatures(pos, done) + {f};
  }

  /** Adding one square adds the feature of its piece, and no other. */
  lemma PieceFeaturesAdd(pos: Position, squares: set<Square>, s: Square)
    requires squares <= Occupied(pos) && s in Occupied(pos) && s !in squares
    ensures PieceFeatures(pos, squares + {s}) == PieceFeatures(pos, squares) + {PieceFeature(pos, s)}
    ensures PieceFeature(pos, s) !in PieceFeatures(pos, squares)
  {
  }

  /** XOR-ing in the key of `f` exactly when `c` holds folds `When(c, f)` into the key. */
  lemma XorWhen(z: Keys, seen: set<Feature>, c: bool, f: Feature)
    requires f !in seen
    ensures XorAll(z, seen + When(c, f)) == if c then Xor(XorAll(z, seen), KeyOf(z, f)) else XorAll(z, seen)
  {
    if c {
      var r := Include(z, seen, f);
    } else {
      assert seen + When(c, f) == seen;
    }
  }

  /** The key and feature set after XOR-ing in one more feature not seen so far. */
  ghost function Include(z: Keys, seen: set<Feature>, f: Feature): (r: set<Feature>)
    requires f !in seen
    ensures r == seen + {f}
    ensures XorAll(z, r) == Xor(XorAll(z, seen), KeyOf(z, f))
  {
    XorAllRemove(z, seen + {f}, f);
    assert seen + {f} - {f} == seen;
    seen + {f}
  }
}
