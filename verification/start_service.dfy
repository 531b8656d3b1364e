/**
 * The input validators of `StartService`: the maze size typed by the user
 * (`checkSize`, `selectRandomSize`) and a point typed as "x y"
 * (`checkCoordinates`, `checkIsPassage`, and the coordinate built by
 * `getPointCoordinates`).  Messages to the console are dropped.  Java's
 * `String.split(" ")` and `Integer.parseInt` are written out, each with
 * the inverse it is proved against.
 */
module StartService {
  import opened Grid
  import opened Rand

  // ---------------------------------------------------------------------
  // Integer.parseInt and its inverse, Integer.toString

  predicate IsDigit(c: char) { '0' <= c <= '9' }

  predicate AllDigits(s: string) { forall i :: 0 <= i < |s| ==> IsDigit(s[i]) }

  /** The value of a string of decimal digits, most significant first. */
  function DigitsValue(ds: string): (v: nat)
    requires AllDigits(ds)
    decreases |ds|
  {
    if |ds| == 0 then 0
    else DigitsValue(ds[..|ds| - 1]) * 10 + (ds[|ds| - 1] as int - '0' as int)
  }

  /**
   * `Integer.parseInt(s)`: an optional '+' or '-' followed by at least one
   * decimal digit, whose value fits in 32 bits; anything else (the empty
   * string, a lone sign, a letter, an overflow) throws NumberFormatException,
   * here None.
   */
  function ParseInt(s: string): (r: Option<int>)
    ensures r.Some? ==> IsInt32(r.value)
    ensures r.Some? ==> |s| > 0 && ' ' !in s
  {
    if |s| == 0 then None
    else
      var digits := if s[0] == '-' || s[0] == '+' then s[1..] else s;
      if |digits| == 0 || !AllDigits(digits) then None
      else
        var v: int := if s[0] == '-' then -(DigitsValue(digits) as int) else DigitsValue(digits);
        if IsInt32(v) then Some(v) else None
  }

  /** The decimal digits of n, without leading zeros. */
  function NatDigits(n: nat): (s: string)
    ensures |s| > 0 && AllDigits(s)
    decreases n
  {
    if n < 10 then [('0' as int + n) as char]
    else NatDigits(n / 10) + [('0' as int + n % 10) as char]
  }

  /** `Integer.toString(n)`: a minus sign for negative n, then the digits. */
  function Decimal(n: int): string
  {
    if n < 0 then "-" + NatDigits(-n) else NatDigits(n)
  }

  /** Reading the digits of n back gives n. */
  lemma {:induction false} DigitsRoundTrip(n: nat)
    ensures DigitsValue(NatDigits(n)) == n
  {
    if n >= 10 {
      var a, c := NatDigits(n / 10), ('0' as int + n % 10) as char;
      DigitsRoundTrip(n / 10);
      assert (a + [c])[..|a + [c]| - 1] == a;
    }
  }

  /** `Integer.parseInt` undoes `Integer.toString` on every 32-bit value. */
  lemma ParseDecimal(n: int)
    requires IsInt32(n)
    ensures ParseInt(Decimal(n)) == Some(n)
    ensures ' ' !in Decimal(n)
  {
    var d := NatDigits(if n < 0 then -n else n);
    DigitsRoundTrip(if n < 0 then -n else n);
    if n < 0 {
      assert Decimal(n)[1..] == d;
    } else {
      assert Decimal(n) == d;
    }
  }

  // ---------------------------------------------------------------------
  // String.split(" ")

  /** The pieces of s between single spaces, empty pieces included. */
  function Pieces(s: string): (r: seq<string>)
    ensures |r| > 0
    ensures forall i :: 0 <= i < |r| ==> ' ' !in r[i]
  {
    if |s| == 0 then [""]
    else
      var rest := Pieces(s[1..]);
      if s[0] == ' ' then [""] + rest else [[s[0]] + rest[0]] + rest[1..]
  }

  /** Pieces glued back together with single spaces. */
  function Join(r: seq<string>): string
    requires |r| > 0
  {
    if |r| == 1 then r[0] else r[0] + " " + Join(r[1..])
  }

  /** Cutting at the spaces and gluing again gives the string back. */
  lemma {:induction false} JoinPieces(s: string)
    ensures Join(Pieces(s)) == s
  {
    if |s| > 0 {
      var rest := Pieces(s[1..]);
      JoinPieces(s[1..]);
      if s[0] == ' ' {
        assert Join([""] + rest) == "" + " " + Join(rest);
      } else if |rest| == 1 {
        assert Join([[s[0]] + rest[0]] + rest[1..]) == [s[0]] + rest[0];
      } else {
        var r := [[s[0]] + rest[0]] + rest[1..];
        assert r[1..] == rest[1..];
        assert Join(rest) == rest[0] + " " + Join(rest[1..]);
        assert Join(r) == [s[0]] + rest[0] + " " + Join(rest[1..]);
      }
    }
  }

  /** The list without the empty pieces at its end. */
  function DropTrailingEmpty(r: seq<string>): (t: seq<string>)
    ensures |t| <= |r| && t == r[..|t|]
    ensures |t| > 0 ==> t[|t| - 1] != ""
    ensures forall i :: |t| <= i < |r| ==> r[i] == ""
  {
    if |r| > 0 && r[|r| - 1] == "" then DropTrailingEmpty(r[..|r| - 1]) else r
  }

  /**
   * `s.split(" ")`: the string itself when it holds no space; otherwise
   * the pieces between spaces with the trailing empty ones removed (so
   * " " gives no pieces at all, and "5 5 " gives two).
   */
  function Split(s: string): (r: seq<string>)
    ensures forall i :: 0 <= i < |r| ==> ' ' !in r[i]
  {
    if ' ' !in s then [s] else DropTrailingEmpty(Pieces(s))
  }

  /** A string without spaces is a single piece. */
  lemma {:induction false} PiecesOfWord(b: string)
    requires ' ' !in b
    ensures Pieces(b) == [b]
  {
    if |b| > 0 {
      assert ' ' !in b[1..];
      PiecesOfWord(b[1..]);
      assert [b[0]] + b[1..] == b;
    }
  }

  /** Two words with one space between them split into those two words. */
  lemma {:induction false} PiecesOfPair(a: string, b: string)
    requires ' ' !in a && ' ' !in b
    ensures Pieces(a + " " + b) == [a, b]
  {
    if |a| == 0 {
      assert (a + " " + b)[1..] == b;
      PiecesOfWord(b);
    } else {
      assert (a + " " + b)[1..] == a[1..] + " " + b;
      assert ' ' !in a[1..];
      PiecesOfPair(a[1..], b);
      assert [a[0]] + a[1..] == a;
    }
  }

  lemma SplitPair(a: string, b: string)
    requires ' ' !in a && ' ' !in b && |b| > 0
    ensures Split(a + " " + b) == [a, b]
  {
    assert (a + " " + b)[|a|] == ' ';
    PiecesOfPair(a, b);
  }

  // ---------------------------------------------------------------------
  // checkCoordinates

  /** The types a chosen point may have. */
  const PASSABLE_TYPES: seq<CellType> := [Normal, Ice, Sand]

  /** `checkIsPassage(y, x)`: the type of grid[y][x] is one of PASSABLE_TYPES. */
  function CheckIsPassage(grid: array2<Cell>, y: int, x: int): (b: bool)
    reads grid
    requires 0 <= y < grid.Length0 && 0 <= x < grid.Length1
    ensures b <==> IsPassable(grid[y, x].kind)
  {
    grid[y, x].kind in PASSABLE_TYPES
  }

  /**
   * The point typed as "x y" — exactly two parts, both integers — as the
   * coordinate with row y and column x; None where `checkCoordinates`
   * rejects the text before looking at the maze.
   */
  function ParsePoint(coordinates: string): Option<Coordinate>
  {
    var parts := Split(coordinates);
    if |parts| != 2 then None
    else
      match (ParseInt(parts[0]), ParseInt(parts[1]))
      case (Some(x), Some(y)) => Some(Coordinate(y, x))
      case _ => None
  }

  /**
   * `checkCoordinates`: true ("ask again") unless the text names a point
   * inside the height x width maze whose cell is passable.
   */
  function CheckCoordinates(coordinates: string, grid: array2<Cell>, height: int, width: int): (invalid: bool)
    reads grid
    requires height <= grid.Length0 && width <= grid.Length1
    ensures !invalid <==>
      ParsePoint(coordinates).Some? &&
      var p := ParsePoint(coordinates).value;
      0 <= p.row < height && 0 <= p.col < width && IsPassable(At(grid, p))
  {
    match ParsePoint(coordinates)
    case None => true
    case Some(p) =>
      var inBounds := 0 <= p.col < width && 0 <= p.row < height;
      if inBounds then !CheckIsPassage(grid, p.row, p.col) else true
  }

  /**
   * Every passable cell of the maze can be chosen: its column and row,
   * written in decimal with a space between, pass `checkCoordinates` and
   * give back that cell.
   */
  lemma AcceptsEveryPassableCell(grid: array2<Cell>, height: int, width: int, y: int, x: int)
    requires height <= grid.Length0 && width <= grid.Length1 && IsInt32(height) && IsInt32(width)
    requires 0 <= y < height && 0 <= x < width && IsPassable(grid[y, x].kind)
    ensures ParsePoint(Decimal(x) + " " + Decimal(y)) == Some(Coordinate(y, x))
    ensures !CheckCoordinates(Decimal(x) + " " + Decimal(y), grid, height, width)
  {
    ParseDecimal(x);
    ParseDecimal(y);
    SplitPair(Decimal(x), Decimal(y));
  }

  /** The rejected inputs of the tests: an empty line, a single number, a letter for the row. */
  lemma RejectsMalformed(grid: array2<Cell>)
    requires 15 <= grid.Length0 && 15 <= grid.Length1
    ensures CheckCoordinates("", grid, 15, 15)
    ensures CheckCoordinates("5", grid, 15, 15)
    ensures CheckCoordinates("5 a", grid, 15, 15)
  {
    assert Split("") == [""];
    assert Split("5") == ["5"];
    SplitPair("5", "a");
    assert ParseInt("a") == None by {
      assert !IsDigit("a"[0]);
    }
  }

  /**
   * The do-while loop of `getPointCoordinates` over the lines the user
   * types: the first line `checkCoordinates` accepts, read as
   * Coordinate(y, x); None if every line is rejected.
   */
  method GetPointCoordinates(lines: seq<string>, grid: array2<Cell>, height: int, width: int)
    returns (point: Option<Coordinate>, read: nat)
    requires height <= grid.Length0 && width <= grid.Length1
    ensures read <= |lines|
    ensures forall i :: 0 <= i < read - 1 ==> CheckCoordinates(lines[i], grid, height, width)
    ensures point.None? ==> read == |lines| && forall i :: 0 <= i < |lines| ==> CheckCoordinates(lines[i], grid, height, width)
    ensures point.Some? ==>
      read > 0 && !CheckCoordinates(lines[read - 1], grid, height, width) &&
      Some(point.value) == ParsePoint(lines[read - 1]) &&
      0 <= point.value.row < height && 0 <= point.value.col < width && IsPassable(At(grid, point.value))
  {
    read := 0;
    while read < |lines|
      invariant read <= |lines|
      invariant forall i :: 0 <= i < read ==> CheckCoordinates(lines[i], grid, height, width)
    {
      var coords := lines[read];
      read := read + 1;
      if !CheckCoordinates(coords, grid, height, width) {
        return ParsePoint(coords), read;
      }
    }
    point := None;
  }

  // ---------------------------------------------------------------------
  // checkSize and selectRandomSize

  /**
   * `IntStream.rangeClosed(min, max).filter(n -> n % 2 != 0)`: the odd
   * numbers of [min, max] in increasing order.  Java's remainder has the
   * sign of n, Dafny's is never negative, but both are zero exactly for
   * the even numbers.
   */
  function OddsIn(min: int, max: int): (r: seq<int>)
    ensures forall n :: n in r <==> min <= n <= max && n % 2 != 0
    ensures forall i, j :: 0 <= i < j < |r| ==> r[i] < r[j]
    decreases max - min
  {
    if min > max then []
    else
      var rest := OddsIn(min + 1, max);
      assert forall j :: 0 <= j < |rest| ==> rest[j] in rest && rest[j] > min;
      (if min % 2 != 0 then [min] else []) + rest
  }

  /** `selectRandomSize`: a random element of the odd numbers of [min, max]. */
  method SelectRandomSize(min: int, max: int, random: RandomSource) returns (s: int)
    requires OddsIn(min, max) != []
    modifies random
    ensures min <= s <= max && s % 2 != 0
  {
    var range := OddsIn(min, max);
    var i := random.NextInt(|range|);
    s := range[i];
    assert s in range;
  }

  /**
   * `checkSize`: the typed size when it parses to an odd number in
   * [min, max]; otherwise (null, not a number, out of range, even) a random
   * odd number in [min, max].
   */
  method CheckSize(size: Option<string>, min: int, max: int, random: RandomSource) returns (s: int)
    requires OddsIn(min, max) != []
    modifies random
    ensures min <= s <= max && s % 2 != 0
    ensures size.Some? && ParseInt(size.value).Some? &&
            min <= ParseInt(size.value).value <= max && ParseInt(size.value).value % 2 != 0 ==>
            s == ParseInt(size.value).value
  {
    var parsed := if size.Some? then ParseInt(size.value) else None;
    if parsed.Some? && parsed.value >= min && parsed.value <= max && parsed.value % 2 != 0 {
      s := parsed.value;
    } else {
      s := SelectRandomSize(min, max, random);
    }
  }

  /** With the bounds of `Settings`, the fallback range is not empty. */
  lemma SizeRangeNotEmpty()
    ensures OddsIn(MIN_HEIGHT, MAX_HEIGHT) != [] && OddsIn(MIN_WIDTH, MAX_WIDTH) != []
  {
    assert 5 in OddsIn(MIN_HEIGHT, MAX_HEIGHT);
    assert 5 in OddsIn(MIN_WIDTH, MAX_WIDTH);
  }
}
