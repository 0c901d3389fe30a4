/** The diagonal mirror of the map generator, tile by tile, and its orbits. */
module Mirror {
  import opened MirrorAxis
  import opened Tiles

  // ----- the mirror of a tile, by number

  /** The board the mirror acts on. */
  datatype Board = Board(width: nat, height: nat, up: TieBreak) {
    ghost predicate Valid() { width > 0 && height > 0 }
    function Count(): nat { Area(width, height) }
  }

  function MirrorTile(b: Board, i: nat): (j: nat)
    requires b.Valid() && i < b.Count()
    ensures j < b.Count()
  {
    InArea(b.width, b.height, i);
    var column := AxisMirror(b.width, b.height, RowOf(b.width, i), b.up);
    var row := AxisMirror(b.height, b.width, ColumnOf(b.width, i), b.up);
    TileIndexInRange(b.width, b.height, column, row);
    TileIndex(b.width, column, row)
  }

  /** Mirroring three times is mirroring once. */
  lemma MirrorThrice(b: Board, i: nat)
    requires b.Valid() && i < b.Count()
    ensures MirrorTile(b, MirrorTile(b, MirrorTile(b, i))) == MirrorTile(b, i)
  {
    InArea(b.width, b.height, i);
    var c, r := ColumnOf(b.width, i), RowOf(b.width, i);
    var c1, r1 := AxisMirror(b.width, b.height, r, b.up), AxisMirror(b.height, b.width, c, b.up);
    var c2, r2 := AxisMirror(b.width, b.height, r1, b.up), AxisMirror(b.height, b.width, c1, b.up);
    TileIndexSplits(b.width, c1, r1);
    TileIndexSplits(b.width, c2, r2);
    ThereBackThere(b.width, b.height, r, b.up);
    ThereBackThere(b.height, b.width, c, b.up);
  }

  /** On a square board the mirror undoes itself. */
  lemma MirrorTwiceOnSquare(b: Board, i: nat)
    requires b.Valid() && b.width == b.height && i < b.Count()
    ensures MirrorTile(b, MirrorTile(b, i)) == i
  {
    InArea(b.width, b.height, i);
    var c, r := ColumnOf(b.width, i), RowOf(b.width, i);
    SquareAxisMirror(b.width, r, b.up);
    SquareAxisMirror(b.width, c, b.up);
    TileIndexSplits(b.width, b.width - 1 - r, b.width - 1 - c);
    SquareAxisMirror(b.width, b.width - 1 - r, b.up);
    SquareAxisMirror(b.width, b.width - 1 - c, b.up);
    TileIndexJoins(b.width, i);
  }

  /** On a board that is not square the mirror need not undo itself: a 2x1 board folds onto one tile. */
  lemma MirrorTwiceFailsOffSquare(up: TieBreak)
    ensures var b := Board(2, 1, up);
            exists i :: 0 <= i < b.Count() && MirrorTile(b, MirrorTile(b, i)) != i
  {
    var b := Board(2, 1, up);
    assert MirrorTile(b, 0) == MirrorTile(b, 1);
    assert MirrorTile(b, MirrorTile(b, 0)) != 0 || MirrorTile(b, MirrorTile(b, 1)) != 1;
  }

  // ----- where the mirror undoes itself

  /** The images of the positions `0..n`. */
  function Images(f: nat -> nat, n: nat): set<nat> { set x: nat | x < n :: f(x) }

  /** A map that is undone on `n` positions has `n` images. */
  lemma {:induction false} ImagesAreMany(f: nat -> nat, back: nat -> nat, n: nat)
    requires forall x: nat :: x < n ==> back(f(x)) == x
    ensures |Images(f, n)| == n
  {
    if n > 0 {
      ImagesAreMany(f, back, n - 1);
      assert Images(f, n) == Images(f, n - 1) + {f(n - 1)};
      assert forall x: nat :: x < n - 1 ==> back(f(x)) == x;
      assert f(n - 1) !in Images(f, n - 1);
    }
  }

  lemma {:induction false} BoundedSet(s: set<nat>, m: nat)
    requires forall x <- s :: x < m
    ensures |s| <= m
  {
    if m > 0 {
      BoundedSet(s - {m - 1}, m - 1);
    } else {
      assert s == {};
    }
  }

  /** An axis mapped onto a shorter one cannot be mapped back: two positions share an image. */
  lemma UndoneNeedsRoom(m: nat, n: nat, up: TieBreak)
    requires m > 0 && n > 0 && forall x: nat :: x < n ==> AxisMirror(n, m, AxisMirror(m, n, x, up), up) == x
    ensures n <= m
  {
    hide AxisMirror;
    var f := (x: nat) => AxisMirror(m, n, x, up);
    ImagesAreMany(f, (y: nat) => AxisMirror(n, m, y, up), n);
    BoundedSet(Images(f, n), m);
  }

  ghost predicate Involutive(b: Board)
    requires b.Valid()
  {
    forall i: nat :: i < b.Count() ==> MirrorTile(b, MirrorTile(b, i)) == i
  }

  /** If the mirror undoes itself on tiles, it does so on either axis. */
  lemma InvolutiveOnAxes(b: Board, c: nat, r: nat)
    requires b.Valid() && Involutive(b) && c < b.width && r < b.height
    ensures AxisMirror(b.width, b.height, AxisMirror(b.height, b.width, c, b.up), b.up) == c
    ensures AxisMirror(b.height, b.width, AxisMirror(b.width, b.height, r, b.up), b.up) == r
  {
    hide AxisMirror;
    var i := TileIndex(b.width, c, r);
    TileIndexInRange(b.width, b.height, c, r);
    TileIndexSplits(b.width, c, r);
    var c1, r1 := AxisMirror(b.width, b.height, r, b.up), AxisMirror(b.height, b.width, c, b.up);
    TileIndexInRange(b.width, b.height, c1, r1);
    TileIndexSplits(b.width, c1, r1);
    assert MirrorTile(b, i) == TileIndex(b.width, c1, r1);
    var c2, r2 := AxisMirror(b.width, b.height, r1, b.up), AxisMirror(b.height, b.width, c1, b.up);
    TileIndexSplits(b.width, c2, r2);
    assert MirrorTile(b, MirrorTile(b, i)) == TileIndex(b.width, c2, r2);
  }

  /** The mirror undoes itself exactly on square boards. */
  lemma InvolutiveIffSquare(b: Board)
    requires b.Valid()
    ensures Involutive(b) <==> b.width == b.height
  {
    hide MirrorTile, AxisMirror;
    if b.width == b.height {
      forall i: nat | i < b.Count() ensures MirrorTile(b, MirrorTile(b, i)) == i {
        MirrorTwiceOnSquare(b, i);
      }
    }
    if Involutive(b) {
      forall c: nat | c < b.width
        ensures AxisMirror(b.width, b.height, AxisMirror(b.height, b.width, c, b.up), b.up) == c
      {
        InvolutiveOnAxes(b, c, 0);
      }
      forall r: nat | r < b.height
        ensures AxisMirror(b.height, b.width, AxisMirror(b.width, b.height, r, b.up), b.up) == r
      {
        InvolutiveOnAxes(b, 0, r);
      }
      UndoneNeedsRoom(b.height, b.width, b.up);
      UndoneNeedsRoom(b.width, b.height, b.up);
    }
  }

  // ----- orbits

  /** The mirror as a map on all tile numbers; numbers off the board stay put. */
  function MirrorMap(b: Board): nat -> nat
    requires b.Valid()
  {
    (i: nat) => if i < b.Count() then MirrorTile(b, i) else i
  }

  /** `f` keeps `i` on a board of `n` tiles, and three steps of it are one. */
  ghost predicate FoldsAt(f: nat -> nat, n: nat, i: nat) {
    f(i) < n && f(f(i)) < n && f(f(f(i))) == f(i)
  }

  ghost predicate Folds(f: nat -> nat, n: nat) {
    forall i: nat :: i < n ==> FoldsAt(f, n, i)
  }

  lemma MirrorFolds(b: Board)
    requires b.Valid()
    ensures Folds(MirrorMap(b), b.Count())
  {
    forall i: nat | i < b.Count() ensures FoldsAt(MirrorMap(b), b.Count(), i) {
      MirrorThrice(b, i);
    }
  }

  /** A tile and the tiles its images go through. */
  function Orbit(f: nat -> nat, i: nat): (s: set<nat>)
    ensures i in s && |s| <= 3
  {
    {i, f(i), f(f(i))}
  }

  ghost predicate ClosedUnder(f: nat -> nat, n: nat, s: set<nat>) {
    forall j <- s :: j < n && f(j) in s
  }

  lemma OrbitIsClosed(f: nat -> nat, n: nat, i: nat)
    requires Folds(f, n) && i < n
    ensures ClosedUnder(f, n, Orbit(f, i))
  {
    assert FoldsAt(f, n, i);
  }

  /** An orbit is the least closed set holding its tile. */
  lemma OrbitIsLeast(f: nat -> nat, n: nat, i: nat, s: set<nat>)
    requires i in s && ClosedUnder(f, n, s)
    ensures Orbit(f, i) <= s
  {
    assert f(i) in s;
  }

  /** The orbit of a tile of an orbit is the rest of it, apart perhaps from where it began. */
  lemma OrbitOfMember(f: nat -> nat, n: nat, i: nat, j: nat)
    requires Folds(f, n) && i < n && j in Orbit(f, i)
    ensures Orbit(f, j) <= Orbit(f, i) <= Orbit(f, j) + {i}
  {
    assert FoldsAt(f, n, i);
  }

  /** The source's `mirror_coordinate_across_diagonal`: a column and a row. */
  function MirrorCoordinate(b: Board, at: (nat, nat)): (image: (nat, nat))
    requires b.Valid() && OnBoard(b, at)
    ensures OnBoard(b, image) && Number(b, image) == MirrorMap(b)(Number(b, at))
  {
    TileIndexSplits(b.width, at.0, at.1);
    (AxisMirror(b.width, b.height, at.1, b.up), AxisMirror(b.height, b.width, at.0, b.up))
  }

  predicate OnBoard(b: Board, at: (nat, nat)) { at.0 < b.width && at.1 < b.height }

  function Number(b: Board, at: (nat, nat)): (i: nat)
    requires b.Valid() && OnBoard(b, at)
    ensures i < b.Count()
  {
    TileIndexInRange(b.width, b.height, at.0, at.1);
    TileIndex(b.width, at.0, at.1)
  }

  /** What the orbit loop holds after `steps` rounds, `first` being where it began. */
  ghost predicate OrbitProgress(f: nat -> nat, first: nat, orbit: set<nat>, steps: nat, index: nat) {
    || (steps == 0 && orbit == {} && index == first)
    || (steps == 1 && orbit == {first} && index == f(first))
    || (steps == 2 && orbit == {first, f(first)} && f(first) != first && index == f(f(first)))
    || (steps == 3 && orbit == {first, f(first), f(f(first))} && |orbit| == 3 && index == f(first))
  }

  lemma OrbitAdvances(f: nat -> nat, n: nat, first: nat, orbit: set<nat>, steps: nat, index: nat)
    requires Folds(f, n) && first < n
    requires OrbitProgress(f, first, orbit, steps, index) && index !in orbit
    ensures steps < 3 && OrbitProgress(f, first, orbit + {index}, steps + 1, f(index))
  {
    assert FoldsAt(f, n, first);
  }

  lemma OrbitFinishes(f: nat -> nat, n: nat, first: nat, orbit: set<nat>, steps: nat, index: nat)
    requires Folds(f, n) && first < n
    requires OrbitProgress(f, first, orbit, steps, index) && index in orbit
    ensures orbit == Orbit(f, first) && steps == |orbit| <= 3
  {
    assert FoldsAt(f, n, first);
  }

  /** The orbit loop of the source; its eight-step cap is never what ends it. */
  method MirrorOrbit(b: Board, column: nat, row: nat) returns (orbit: set<nat>, steps: nat)
    requires b.Valid() && OnBoard(b, (column, row))
    ensures orbit == Orbit(MirrorMap(b), Number(b, (column, row)))
    ensures steps == |orbit| <= 3
  {
    ghost var f, first := MirrorMap(b), Number(b, (column, row));
    MirrorFolds(b);
    var current := (column, row);
    orbit := {};
    steps := 0;
    while steps < 8
      invariant OnBoard(b, current) && steps <= 3
      invariant OrbitProgress(f, first, orbit, steps, Number(b, current))
      decreases 8 - steps
    {
      var index := Number(b, current);
      if index in orbit {
        break;
      }
      OrbitAdvances(f, b.Count(), first, orbit, steps, index);
      orbit := orbit + {index};
      current := MirrorCoordinate(b, current);
      steps := steps + 1;
    }
    OrbitFinishes(f, b.Count(), first, orbit, steps, Number(b, current));
  }
}
