/** What one click on a column does to the game, as a function of the state
    before it, and the invariants that every click keeps. */
module Rules {
  import opened Board

  /** The state `handleClick` reads and writes. */
  datatype Snapshot = Snapshot(board: Grid, currPlayer: Player, gameOver: bool)

  /** A fresh game: an empty board, `p` to move, not over. */
  function Start(w: nat, h: nat, p: Player): (s: Snapshot)
    ensures Shaped(s.board, w, h) && Pieces(s.board) == 0
    ensures forall y, x :: 0 <= y < h && 0 <= x < w ==> s.board[y][x] == Empty
    ensures s.currPlayer == p && !s.gameOver
  {
    var g := EmptyGrid(w, h);
    TallyAbsent(g, Taken(P1));
    TallyAbsent(g, Taken(P2));
    Snapshot(g, p, false)
  }

  /** Players alternate: the player to move has placed no more pieces than
      the other, and at most one fewer. */
  ghost predicate Alternating(g: Grid, p: Player) {
    Tally(g, Taken(p)) <= Tally(g, Taken(Other(p))) <= Tally(g, Taken(p)) + 1
  }

  /** What holds of every state the game reaches. */
  ghost predicate Consistent(w: nat, h: nat, s: Snapshot) {
    Shaped(s.board, w, h) && Settled(s.board, w, h) && Alternating(s.board, s.currPlayer)
  }

  /** One click on column `x`, as connect4.js writes it: a full column is
      ignored; otherwise the current player's piece lands in the column's
      lowest empty row, the turn passes to the other player, and the game
      ends if the board is now full or else if the player now to move has
      four in a row. The flag is never cleared and is not consulted. */
  ghost function Drop(w: nat, h: nat, s: Snapshot, x: nat): (r: Snapshot)
    requires Shaped(s.board, w, h) && x < w
    ensures Shaped(r.board, w, h)
  {
    match Spot(s.board, w, h, x)
    case None => s
    case Some(y) =>
      var g := Place(s.board, w, h, y, x, s.currPlayer);
      var next := Other(s.currPlayer);
      if Full(g) then Snapshot(g, next, true)
      else if WinFor(g, w, h, next) then Snapshot(g, next, true)
      else Snapshot(g, next, s.gameOver)
  }

  /** A click on a full column changes nothing: not the board, not the
      player to move, not the end-of-game flag. */
  lemma DropOnFullColumn(w: nat, h: nat, s: Snapshot, x: nat)
    requires Shaped(s.board, w, h) && x < w
    requires forall y :: 0 <= y < h ==> s.board[y][x].Taken?
    ensures Drop(w, h, s, x) == s
  {
  }

  /** A click on a column with room changes exactly one cell: the lowest empty
      cell of that column now holds the piece of the player who clicked, and
      every piece already on the board stays where it was. */
  lemma DropSetsOneCell(w: nat, h: nat, s: Snapshot, x: nat)
    requires Shaped(s.board, w, h) && x < w
    requires exists y :: 0 <= y < h && s.board[y][x] == Empty
    ensures var y := Spot(s.board, w, h, x).value;
      var r := Drop(w, h, s, x);
      y < h && s.board[y][x] == Empty && r.board[y][x] == Taken(s.currPlayer) &&
      (forall i :: y < i < h ==> s.board[i][x].Taken?) &&
      (forall i, j :: 0 <= i < h && 0 <= j < w && (i != y || j != x) ==>
         r.board[i][j] == s.board[i][j])
  {
  }

  /** A click on a column with room adds one piece to the board, to the tally
      of the player who clicked, and to nobody else's. */
  lemma DropAddsOnePiece(w: nat, h: nat, s: Snapshot, x: nat)
    requires Shaped(s.board, w, h) && x < w && Spot(s.board, w, h, x).Some?
    ensures Pieces(Drop(w, h, s, x).board) == Pieces(s.board) + 1
    ensures Tally(Drop(w, h, s, x).board, Taken(s.currPlayer)) == Tally(s.board, Taken(s.currPlayer)) + 1
    ensures Tally(Drop(w, h, s, x).board, Taken(Other(s.currPlayer))) == Tally(s.board, Taken(Other(s.currPlayer)))
  {
    var y := Spot(s.board, w, h, x).value;
    var p := s.currPlayer;
    PlaceTally(s.board, w, h, y, x, p, Taken(P1));
    PlaceTally(s.board, w, h, y, x, p, Taken(P2));
  }

  /** After a click on a column with room the turn belongs to the other of
      the two players. */
  lemma DropPassesTurn(w: nat, h: nat, s: Snapshot, x: nat)
    requires Shaped(s.board, w, h) && x < w && Spot(s.board, w, h, x).Some?
    ensures Drop(w, h, s, x).currPlayer == Other(s.currPlayer)
    ensures Other(Drop(w, h, s, x).currPlayer) == s.currPlayer
  {
  }

  /** How a click with room decides the end of the game: a full board ends it
      without looking for a run; otherwise it ends exactly when the player now
      to move has four in a row, and an already ended game stays ended. */
  lemma DropEndsGame(w: nat, h: nat, s: Snapshot, x: nat)
    requires Shaped(s.board, w, h) && x < w && Spot(s.board, w, h, x).Some?
    ensures var r := Drop(w, h, s, x);
      (Pieces(r.board) == w * h ==> r.gameOver) &&
      (Pieces(r.board) < w * h ==>
         (r.gameOver <==> s.gameOver || WinFor(r.board, w, h, r.currPlayer)))
  {
    FullIffAllPieces(Drop(w, h, s, x).board, w, h);
  }

  /** The end-of-game flag does not stop play: after the game has ended, a
      click on a column with room still places a piece and passes the turn,
      and the flag stays set. */
  lemma DropAfterGameOver(w: nat, h: nat, s: Snapshot, x: nat)
    requires Shaped(s.board, w, h) && x < w && Spot(s.board, w, h, x).Some?
    requires s.gameOver
    ensures var r := Drop(w, h, s, x);
      r.board != s.board && r.currPlayer != s.currPlayer && r.gameOver
  {
  }

  /** Every click keeps the invariant: the board keeps its shape, gravity
      holds, and the players keep alternating. */
  lemma DropKeepsConsistent(w: nat, h: nat, s: Snapshot, x: nat)
    requires Consistent(w, h, s) && x < w
    ensures Consistent(w, h, Drop(w, h, s, x))
  {
    if Spot(s.board, w, h, x).Some? {
      PlaceAtSpotSettled(s.board, w, h, x, s.currPlayer);
      DropAddsOnePiece(w, h, s, x);
      assert Other(Other(s.currPlayer)) == s.currPlayer;
    }
  }

  /** A fresh board satisfies the invariant, whoever is to move. */
  lemma StartConsistent(w: nat, h: nat, p: Player)
    ensures Consistent(w, h, Start(w, h, p))
  {
  }

  // ---------------------------------------------------------------------
  // A four in a row is only seen one click late

  /** Seven by six, with `P1` in rows 3 to 5 of column 0 and `P2` in rows 3
      to 5 of column 6: `P1` to move after three clicks each. */
  function ThreeEach(): (g: Grid)
    ensures Shaped(g, 7, 6)
  {
    seq(6, y => seq(7, x =>
      if x == 0 && 3 <= y then Taken(P1) else if x == 6 && 3 <= y then Taken(P2) else Empty))
  }

  /** `P2` holds no run on a seven by six board where its only pieces are in
      rows 3 to 5 of the rightmost column. */
  lemma NoRunForP2(g: Grid)
    requires Shaped(g, 7, 6)
    requires forall y, x :: 0 <= y < 6 && 0 <= x < 7 && g[y][x] == Taken(P2) ==> x == 6 && 3 <= y
    ensures !WinFor(g, 7, 6, P2)
  {
    forall y: int, x: int, d: Direction
      ensures !AllOwned(g, 7, 6, P2, Run(y, x, d))
    {
      var cells := Run(y, x, d);
      if !Owns(g, 7, 6, P2, cells[0].0, cells[0].1) {
      } else if d == Vertical {
        assert !Owns(g, 7, 6, P2, cells[3].0, cells[3].1);
      } else {
        assert !Owns(g, 7, 6, P2, cells[1].0, cells[1].1);
      }
    }
  }

  /** In general: when a click gives the clicking player four in a row, the
      game is over after the next click that lands a piece, because that
      click passes the turn back to the player holding the run (or fills the
      board). */
  lemma WinSeenNextClick(w: nat, h: nat, s: Snapshot, x: nat, x2: nat)
    requires Shaped(s.board, w, h) && x < w && x2 < w
    requires Spot(s.board, w, h, x).Some?
    requires WinFor(Drop(w, h, s, x).board, w, h, s.currPlayer)
    requires Spot(Drop(w, h, s, x).board, w, h, x2).Some?
    ensures Drop(w, h, Drop(w, h, s, x), x2).gameOver
  {
    var p := s.currPlayer;
    var s1 := Drop(w, h, s, x);
    var y, c, d :| AllOwned(s1.board, w, h, p, Run(y, c, d));
    var y2 := Spot(s1.board, w, h, x2).value;
    var g2 := Place(s1.board, w, h, y2, x2, s1.currPlayer);
    forall i | 0 <= i < 4
      ensures Owns(g2, w, h, p, Run(y, c, d)[i].0, Run(y, c, d)[i].1)
    {
      assert Owns(s1.board, w, h, p, Run(y, c, d)[i].0, Run(y, c, d)[i].1);
    }
    assert AllOwned(g2, w, h, p, Run(y, c, d));
    assert Other(s1.currPlayer) == p;
  }

  /** `P1` completes a vertical four in column 0, yet the game goes on,
      because the board is scanned for the player now to move (`P2`). After
      `P2`'s next click, in column 5, the scan is for `P1` and the game ends. */
  lemma WinSeenOneClickLate()
    ensures var s0 := Snapshot(ThreeEach(), P1, false);
      var s1 := Drop(7, 6, s0, 0);
      var s2 := Drop(7, 6, s1, 5);
      WinFor(s1.board, 7, 6, P1) && !s1.gameOver && s1.currPlayer == P2 &&
      s2.gameOver && s2.currPlayer == P1
  {
    var s0 := Snapshot(ThreeEach(), P1, false);
    var g0 := s0.board;
    assert Spot(g0, 7, 6, 0) == Some(2) by {
      assert g0[5][0] == Taken(P1) && g0[4][0] == Taken(P1) && g0[3][0] == Taken(P1);
      assert g0[2][0] == Empty;
    }
    var g1 := Place(g0, 7, 6, 2, 0, P1);
    assert !Full(g1) by {
      assert g1[0][0] == Empty;
    }
    NoRunForP2(g1);
    var s1 := Drop(7, 6, s0, 0);
    assert s1 == Snapshot(g1, P2, false);
    assert AllOwned(g1, 7, 6, P1, Run(2, 0, Vertical));
    assert Spot(g1, 7, 6, 5) == Some(5) by {
      assert g1[5][5] == Empty;
    }
    var g2 := Place(g1, 7, 6, 5, 5, P2);
    assert AllOwned(g2, 7, 6, P1, Run(2, 0, Vertical));
  }
}
