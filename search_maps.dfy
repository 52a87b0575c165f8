/** The fog-of-war bitmask: a width x height grid of "revealed" flags held in
    one integer, bit i of which is element i of the `bits` array below. Cells
    are stored from the bottom-right corner (see Points.BinaryGridIndexPos),
    revealed one at a time or by a radius scan around a centre, and rendered
    as `height` lines of '0'/'1'. */
module SearchMaps {
  import opened Common
  import opened Points

  // ----- The integer `map` and its bits -----

  /** The integer whose bit i is `bits[i]`. */
  function Value(bits: seq<bool>): (v: nat)
    ensures v < Pow2(|bits|)
  {
    if |bits| == 0 then 0 else (if bits[0] then 1 else 0) + 2 * Value(bits[1..])
  }

  /** The lowest n bits of v, least significant first. */
  function BitsOf(v: nat, n: nat): (bits: seq<bool>)
    ensures |bits| == n
  {
    if n == 0 then [] else [v % 2 == 1] + BitsOf(v / 2, n - 1)
  }

  /** Reading back the bits of a value that fits gives the value. */
  lemma {:induction false} ValueBitsOf(v: nat, n: nat)
    requires v < Pow2(n)
    ensures Value(BitsOf(v, n)) == v
  {
    if n > 0 {
      var bits := BitsOf(v, n);
      assert bits[1..] == BitsOf(v / 2, n - 1);
      ValueBitsOf(v / 2, n - 1);
    }
  }

  /** Taking the bits of the value of a bit sequence gives the sequence. */
  lemma {:induction false} BitsOfValue(bits: seq<bool>)
    ensures BitsOf(Value(bits), |bits|) == bits
  {
    if |bits| > 0 {
      var v := Value(bits);
      assert v / 2 == Value(bits[1..]);
      BitsOfValue(bits[1..]);
    }
  }

  /** The value of `v | 2**i`: v itself when bit i is already set, otherwise
      v plus that power of two. */
  function OrPow2(v: nat, i: nat): (r: nat)
    ensures v <= r <= v + Pow2(i)
    ensures r == v <==> BitSet(v, i)
  {
    if BitSet(v, i) then v else v + Pow2(i)
  }

  /** Euclidean division is determined by a quotient and an in-range remainder. */
  lemma DivUnique(x: int, d: int, q: int, r: int)
    requires d > 0 && x == d * q + r && 0 <= r < d
    ensures x / d == q && x % d == r
  {
    RowMajorUnique(d, x / d, x % d, q, r);
  }

  /** Bit i of Value(bits) is element i (and every bit beyond the end is clear). */
  lemma {:induction false} BitOfValue(bits: seq<bool>, i: nat)
    ensures BitSet(Value(bits), i) <==> (i < |bits| && bits[i])
    decreases |bits|, i
  {
    if |bits| == 0 {
      if i > 0 {
        BitOfValue(bits, i - 1);
      }
    } else if i > 0 {
      assert Value(bits) / 2 == Value(bits[1..]);
      BitOfValue(bits[1..], i - 1);
    }
  }

  /** Setting element i adds 2**i to the value unless it was already set. */
  lemma {:induction false} ValueUpdate(bits: seq<bool>, i: nat)
    requires i < |bits|
    ensures Value(bits[i := true]) == Value(bits) + (if bits[i] then 0 else Pow2(i))
  {
    if i > 0 {
      assert bits[i := true][1..] == bits[1..][i - 1 := true];
      ValueUpdate(bits[1..], i - 1);
    }
  }

  /** Setting element i of the bits is `|= 2**i` on their value. */
  lemma ValueSetBit(bits: seq<bool>, i: nat)
    requires i < |bits|
    ensures Value(bits[i := true]) == OrPow2(Value(bits), i)
  {
    ValueUpdate(bits, i);
    BitOfValue(bits, i);
  }

  /** Every value below n is below 2**n. */
  lemma {:induction false} Pow2Exceeds(v: nat, n: nat)
    requires v <= n
    ensures v < Pow2(n)
  {
    if n > 0 && v < n {
      Pow2Exceeds(v, n - 1);
    } else if n > 0 {
      Pow2Exceeds(v - 1, n - 1);
    }
  }

  /** `v | 2**i` sets bit i and changes no other bit. */
  lemma RevealBits(v: nat, i: nat, j: nat)
    ensures BitSet(OrPow2(v, i), j) <==> (BitSet(v, j) || j == i)
  {
    var n := v + i + j + 1;
    Pow2Exceeds(v, n);
    var bits := BitsOf(v, n);
    ValueBitsOf(v, n);
    ValueSetBit(bits, i);
    BitOfValue(bits[i := true], j);
    BitOfValue(bits, j);
  }

  /** Revealing the same bit twice is revealing it once. */
  lemma RevealIdempotent(v: nat, i: nat)
    ensures OrPow2(OrPow2(v, i), i) == OrPow2(v, i)
  {
    RevealBits(v, i, i);
  }

  /** Revealing never decreases the map and never clears a bit. */
  lemma RevealMonotone(v: nat, i: nat, j: nat)
    ensures OrPow2(v, i) >= v
    ensures BitSet(v, j) ==> BitSet(OrPow2(v, i), j)
  {
    RevealBits(v, i, j);
  }

  // ----- The cell of a storage index -----

  /** The grid cell stored at index i: the inverse of BinaryGridIndexPos. */
  function CellAt(i: int, width: nat, height: nat): Point
    requires width > 0
  {
    Point(width - 1 - i % width, height - 1 - i / width)
  }

  lemma CellAtIndex(p: Point, width: nat, height: nat)
    requires InGrid(p, width, height)
    ensures CellAt(BinaryGridIndexPos(p, width, height), width, height) == p
  {
    var i := BinaryGridIndexPos(p, width, height);
    DivUnique(i, width, height - 1 - p.y, width - 1 - p.x);
  }

  lemma IndexCellAt(i: int, width: nat, height: nat)
    requires 0 <= i < width * height
    ensures width > 0
    ensures InGrid(CellAt(i, width, height), width, height)
    ensures BinaryGridIndexPos(CellAt(i, width, height), width, height) == i
  {
    var q, r := i / width, i % width;
    assert i == width * q + r;
    if q >= height {
      MulMonotone(width, height, q);
    }
    assert CellAt(i, width, height) == Point(width - 1 - r, height - 1 - q);
  }

  // ----- Rendering -----

  function Digit(b: bool): char
  {
    if b then '1' else '0'
  }

  /** `bin(v)[2:]`: the binary digits of v, most significant first, with no
      leading zero except for v == 0 itself. */
  function ToBinary(v: nat): (s: string)
    ensures |s| >= 1
    ensures v >= 1 ==> s[0] == '1'
  {
    if v < 2 then [Digit(v == 1)] else ToBinary(v / 2) + [Digit(v % 2 == 1)]
  }

  lemma {:induction false} ToBinaryLength(v: nat, k: nat)
    requires k >= 1 && v < Pow2(k)
    ensures |ToBinary(v)| <= k
  {
    if v >= 2 {
      assert k >= 2;
      ToBinaryLength(v / 2, k - 1);
    }
  }

  function Zeros(n: nat): (s: string)
    ensures |s| == n && forall k | 0 <= k < n :: s[k] == '0'
  {
    seq(n, _ => '0')
  }

  /** `s.rjust(n, "0")`: left-padded with '0' to at least n characters. */
  function RJust(s: string, n: nat): (r: string)
    ensures |r| == if |s| >= n then |s| else n
  {
    if |s| >= n then s else Zeros(n - |s|) + s
  }

  /** Padding only adds '0's in front: s is the tail of the result. */
  lemma RJustPads(s: string, n: nat)
    ensures RJust(s, n)[|RJust(s, n)| - |s|..] == s
    ensures forall k | 0 <= k < |RJust(s, n)| - |s| :: RJust(s, n)[k] == '0'
  {
  }

  lemma RJustAppend(s: string, c: char, n: nat)
    requires 1 <= n && |s| <= n - 1
    ensures RJust(s + [c], n) == RJust(s, n - 1) + [c]
  {
    if |s| < n - 1 {
      assert Zeros(n - |s + [c]|) + (s + [c]) == (Zeros(n - 1 - |s|) + s) + [c];
    }
  }

  /** The bits written most significant (last element) first. */
  function MsbFirst(bits: seq<bool>): (s: string)
    ensures |s| == |bits|
  {
    if |bits| == 0 then [] else MsbFirst(bits[1..]) + [Digit(bits[0])]
  }

  lemma {:induction false} MsbFirstAt(bits: seq<bool>, k: nat)
    requires k < |bits|
    ensures MsbFirst(bits)[k] == Digit(bits[|bits| - 1 - k])
  {
    if k < |bits| - 1 {
      MsbFirstAt(bits[1..], k);
    }
  }

  /** `__as_str` on the bits: `bin(map)[2:]` padded to `n_bits`. */
  function AsStrOf(bits: seq<bool>): (s: string)
    ensures |s| >= |bits|
  {
    RJust(ToBinary(Value(bits)), |bits|)
  }

  /** For a non-empty grid, the padded binary string is exactly the bits
      written most significant first: one character per bit, no more. */
  lemma {:induction false} AsStrMsbFirst(bits: seq<bool>)
    requires |bits| >= 1
    ensures AsStrOf(bits) == MsbFirst(bits)
  {
    var v := Value(bits);
    var c := Digit(bits[0]);
    assert v == (if bits[0] then 1 else 0) + 2 * Value(bits[1..]);
    if |bits| == 1 {
      assert Value(bits[1..]) == 0;
      assert ToBinary(v) == [c];
    } else {
      AsStrMsbFirst(bits[1..]);
      AsStrLowBit(bits);
    }
  }

  /** A low bit below at least one more bit adds its digit at the end of the
      padded string of the higher bits. */
  lemma AsStrLowBit(bits: seq<bool>)
    requires |bits| >= 2
    ensures AsStrOf(bits) == AsStrOf(bits[1..]) + [Digit(bits[0])]
  {
    var n := |bits|;
    var v := Value(bits);
    var rest := bits[1..];
    var c := Digit(bits[0]);
    assert v == (if bits[0] then 1 else 0) + 2 * Value(rest);
    if v >= 2 {
      assert ToBinary(v) == ToBinary(Value(rest)) + [c];
      ToBinaryLength(Value(rest), n - 1);
      RJustAppend(ToBinary(Value(rest)), c, n);
    } else {
      assert Value(rest) == 0;
      assert ToBinary(v) == [c];
      assert RJust(ToBinary(0), n - 1) == Zeros(n - 1);
      assert RJust([c], n) == Zeros(n - 1) + [c];
    }
  }

  /** The text `__str__` accumulates after `rows` rows: each row is the next
      `width` characters of `input`, followed by a newline. Both slice bounds
      are non-negative, so Python's clamping only cuts them to |input|
      (RowIsSlice). */
  function Lines(input: string, width: nat, rows: nat): string
  {
    if rows == 0 then ""
    else
      var lo := width * (rows - 1);
      Lines(input, width, rows - 1) + input[Min(lo, |input|)..Min(lo + width, |input|)] + "\n"
  }

  /** The row Lines appends is Python's `input[lo:lo + width]`. */
  lemma RowIsSlice(input: string, lo: nat, width: nat)
    ensures input[Min(lo, |input|)..Min(lo + width, |input|)] == Slice(input, lo, lo + width)
  {
  }

  /** One more pass of the `__str__` loop appends `input[row*width:row*width + width]`
      and a newline. */
  lemma LinesNext(input: string, width: nat, row: nat)
    ensures Lines(input, width, row + 1) ==
            Lines(input, width, row) + Slice(input, width * row, width * row + width) + "\n"
  {
    RowIsSlice(input, width * row, width);
  }

  /** One more row is one more multiple. */
  lemma MulSucc(b: nat, a: nat)
    ensures b * (a + 1) == b * a + b
  {
  }

  /** Row y of the input ends at width*(y+1), inside `rows` rows of it. */
  lemma RowArithmetic(width: nat, rows: nat, y: nat)
    requires y < rows
    ensures width * y + width <= width * rows
  {
    MulMonotone(width, y + 1, rows);
  }

  lemma {:induction false} LinesLength(input: string, width: nat, rows: nat)
    requires |input| >= width * rows
    ensures |Lines(input, width, rows)| == (width + 1) * rows
  {
    if rows > 0 {
      var y := rows - 1;
      RowArithmetic(width, rows, y);
      MulSucc(width + 1, y);
      var lo := width * y;
      LinesLength(input, width, y);
      assert |Lines(input, width, rows)| == |Lines(input, width, y)| + (Min(lo + width, |input|) - Min(lo, |input|)) + 1;
    }
  }

  /** The text after fewer rows is a prefix of the text after more. */
  lemma {:induction false} LinesPrefix(input: string, width: nat, rows: nat, more: nat)
    requires rows <= more
    ensures Lines(input, width, rows) <= Lines(input, width, more)
  {
    if rows < more {
      LinesPrefix(input, width, rows, more - 1);
    }
  }

  /** Within the text after y + 1 rows, column x of the last line is
      character width*y + x of `input`, or the newline when x = width. */
  lemma LastLineAt(input: string, width: nat, y: nat, x: nat)
    requires |input| >= width * y + width
    requires x <= width
    ensures |Lines(input, width, y)| + x < |Lines(input, width, y + 1)|
    ensures x == width ==> Lines(input, width, y + 1)[|Lines(input, width, y)| + x] == '\n'
    ensures x < width ==>
      (width * y + x < |input| &&
       Lines(input, width, y + 1)[|Lines(input, width, y)| + x] == input[width * y + x])
  {
    var lo := width * y;
    assert Lines(input, width, y + 1) == Lines(input, width, y) + input[lo..lo + width] + "\n";
  }

  /** Line y of the text is characters [width*y, width*y + width) of `input`,
      followed by a newline. */
  lemma LinesAt(input: string, width: nat, rows: nat, y: nat, x: nat)
    requires |input| >= width * rows
    requires y < rows && x <= width
    ensures (width + 1) * y + x < |Lines(input, width, rows)|
    ensures x == width ==> Lines(input, width, rows)[(width + 1) * y + x] == '\n'
    ensures x < width ==>
      (width * y + x < |input| && Lines(input, width, rows)[(width + 1) * y + x] == input[width * y + x])
  {
    RowArithmetic(width, rows, y);
    LinesLength(input, width, rows);
    LinesLength(input, width, y);
    LastLineAt(input, width, y, x);
    LinesPrefix(input, width, y + 1, rows);
    var k := |Lines(input, width, y)| + x;
    assert k == (width + 1) * y + x;
    assert Lines(input, width, rows)[k] == Lines(input, width, y + 1)[k];
  }

  /** What `__str__` returns for these bits. */
  function Render(bits: seq<bool>, width: nat, height: nat): (r: string)
    ensures |bits| == width * height ==> |r| == (width + 1) * height
  {
    if |bits| == width * height then
      LinesLength(AsStrOf(bits), width, height);
      Lines(AsStrOf(bits), width, height)
    else
      Lines(AsStrOf(bits), width, height)
  }

  /** The rendering is `height` lines of `width` characters and a newline each;
      line y, column x shows '1' exactly when cell (x, y) is revealed. */
  lemma RenderCell(bits: seq<bool>, width: nat, height: nat, x: nat, y: nat)
    requires |bits| == width * height
    requires x < width && y < height
    ensures |Render(bits, width, height)| == (width + 1) * height
    ensures (width + 1) * y + x < |Render(bits, width, height)| &&
            Render(bits, width, height)[(width + 1) * y + x] ==
            Digit(bits[BinaryGridIndexPos(Point(x, y), width, height)])
  {
    var s := AsStrOf(bits);
    var k := width * y + x;
    StorageOfRowMajor(width, height, x, y);
    LinesAt(s, width, height, y, x);
    assert Render(bits, width, height) == Lines(s, width, height);
    AsStrMsbFirst(bits);
    MsbFirstAt(bits, k);
  }

  /** Position k = width*y + x from the top-left of the rendering is bit
      n-1-k, which is the storage index of cell (x, y). */
  lemma StorageOfRowMajor(width: nat, height: nat, x: nat, y: nat)
    requires x < width && y < height
    ensures 1 <= width * height
    ensures width * y + x < width * height
    ensures width * height - 1 - (width * y + x) == BinaryGridIndexPos(Point(x, y), width, height)
  {
    MulMonotone(width, y + 1, height);
    MulSucc(width, y);
    assert width * height == width * (height - 1 - y) + width * (y + 1);
  }

  /** Every line of the rendering ends in a newline. */
  lemma RenderNewline(bits: seq<bool>, width: nat, height: nat, y: nat)
    requires |bits| == width * height
    requires y < height
    ensures |Render(bits, width, height)| == (width + 1) * height
    ensures (width + 1) * y + width < |Render(bits, width, height)| &&
            Render(bits, width, height)[(width + 1) * y + width] == '\n'
  {
    var s := AsStrOf(bits);
    LinesAt(s, width, height, y, width);
    assert Render(bits, width, height) == Lines(s, width, height);
  }

  /** Scan order: x first, then y. */
  predicate Before(p: Point, q: Point)
  {
    p.x < q.x || (p.x == q.x && p.y < q.y)
  }

  /** The search map: its grid size, its radius and its revealed flags. */
  class SearchMap {
    const width: nat
    const height: nat
    const searchRadius: real
    /** bits[i] is bit i of the integer `map`. */
    const bits: array<bool>

    ghost predicate Valid()
    {
      bits.Length == width * height
    }

    /** A map of the given size whose flags are the bits of `initialMap`. */
    constructor (mapWidthPx: nat, mapHeightPx: nat, searchRadius: real, initialMap: nat)
      requires initialMap < Pow2(mapWidthPx * mapHeightPx)
      ensures Valid() && fresh(bits)
      ensures width == mapWidthPx && height == mapHeightPx && this.searchRadius == searchRadius
      ensures MapValue() == initialMap
    {
      var n := mapWidthPx * mapHeightPx;
      var initial := BitsOf(initialMap, n);
      width := mapWidthPx;
      height := mapHeightPx;
      this.searchRadius := searchRadius;
      bits := new bool[n](i => if 0 <= i < n then initial[i] else false);
      new;
      assert bits[..] == initial;
      ValueBitsOf(initialMap, n);
    }

    /** `n_bits`: one flag per cell. */
    function NBits(): (n: nat)
      requires Valid()
      ensures n == bits.Length
    {
      height * width
    }

    /** The integer `map`. */
    function MapValue(): (v: nat)
      reads bits
      ensures v < Pow2(bits.Length)
    {
      Value(bits[..])
    }

    /** `__as_str`: the binary digits of `map`, padded to `n_bits`. */
    function AsStr(): (s: string)
      requires Valid()
      reads bits
      ensures s == AsStrOf(bits[..]) && |s| >= NBits()
      ensures NBits() >= 1 ==> s == MsbFirst(bits[..])
    {
      var s := RJust(ToBinary(MapValue()), NBits());
      if NBits() >= 1 then AsStrMsbFirst(bits[..]); s else s
    }

    /** `reveal`: ORs in the bit of one in-grid cell; exactly that flag is set
        afterwards, every other flag keeps its value. */
    method Reveal(p: Point)
      requires Valid() && InGrid(p, width, height)
      modifies bits
      ensures forall j | 0 <= j < bits.Length ::
        bits[j] == (old(bits[j]) || j == BinaryGridIndexPos(p, width, height))
      ensures MapValue() == OrPow2(old(MapValue()), BinaryGridIndexPos(p, width, height))
      ensures forall j: nat :: BitSet(MapValue(), j) <==>
        (BitSet(old(MapValue()), j) || BitSet(BinaryGridValue(p, width, height), j))
    {
      var i := BinaryGridIndexPos(p, width, height);
      ghost var before := bits[..];
      bits[i] := true;
      assert bits[..] == before[i := true];
      ValueSetBit(before, i);
      forall j: nat
        ensures BitSet(Value(bits[..]), j) <==> (BitSet(Value(before), j) || BitSet(BinaryGridValue(p, width, height), j))
      {
        RevealBits(Value(before), i, j);
      }
    }

    /** The cells the radius scan keeps: inside the clamped window around the
        centre and within the radius of it. */
    predicate InSearchRadius(centre: Point, p: Point)
      ensures InSearchRadius(centre, p) ==>
        InGrid(p, width, height) && WithinRadius(centre, p, searchRadius)
    {
      MinSearchX(centre, searchRadius) <= p.x < MaxSearchX(centre, searchRadius, width) &&
      MinSearchY(centre, searchRadius) <= p.y < MaxSearchY(centre, searchRadius, height) &&
      WithinRadius(centre, p, searchRadius)
    }

    /** A positive radius keeps the centre itself, so `reveal_radius`
        reveals the cell it is given. */
    lemma CentreInSearchRadius(centre: Point)
      requires InGrid(centre, width, height) && searchRadius > 0.0
      ensures InSearchRadius(centre, centre)
    {
    }

    /** With a radius of 0 or less the scan keeps nothing: at 0 the window
        [c, c) is empty even for the centre, below 0 no distance qualifies. */
    lemma NoRadiusKeepsNothing(centre: Point, p: Point)
      requires searchRadius <= 0.0
      ensures !InSearchRadius(centre, p)
    {
    }

    /** `get_points_in_search_radius`: exactly the kept cells, each once, in
        x-major then ascending-y order; all of them lie in the grid. */
    method GetPointsInSearchRadius(centre: Point) returns (points: seq<Point>)
      ensures forall p :: p in points <==> InSearchRadius(centre, p)
      ensures forall i, j | 0 <= i < j < |points| :: Before(points[i], points[j])
      ensures forall p | p in points :: InGrid(p, width, height) && WithinRadius(centre, p, searchRadius)
    {
      points := [];
      var xLo, xHi := MinSearchX(centre, searchRadius), MaxSearchX(centre, searchRadius, width);
      var yLo, yHi := MinSearchY(centre, searchRadius), MaxSearchY(centre, searchRadius, height);
      var x := xLo;
      while x < xHi
        invariant xLo <= x && (xLo <= xHi ==> x <= xHi)
        invariant forall p :: p in points <==> InSearchRadius(centre, p) && p.x < x
        invariant forall i, j | 0 <= i < j < |points| :: Before(points[i], points[j])
        invariant forall q | q in points :: q.x < x
      {
        var y := yLo;
        while y < yHi
          invariant yLo <= y && (yLo <= yHi ==> y <= yHi)
          invariant forall p :: p in points <==>
            InSearchRadius(centre, p) && (p.x < x || (p.x == x && p.y < y))
          invariant forall i, j | 0 <= i < j < |points| :: Before(points[i], points[j])
          invariant forall q | q in points :: q.x < x || (q.x == x && q.y < y)
        {
          var point := Point(x, y);
          if WithinRadius(centre, point, searchRadius) {
            points := points + [point];
          }
          y := y + 1;
        }
        x := x + 1;
      }
    }

    /** The storage indices of some in-grid cells. */
    function Indices(points: seq<Point>): set<int>
    {
      set p | p in points :: BinaryGridIndexPos(p, width, height)
    }

    /** `reveal_radius`: afterwards a flag is set exactly when it was set
        before or its cell is one the radius scan keeps. */
    method RevealRadius(centre: Point)
      requires Valid()
      modifies bits
      ensures forall i | 0 <= i < bits.Length ::
        bits[i] == (old(bits[i]) || (width > 0 && InSearchRadius(centre, CellAt(i, width, height))))
    {
      var points := GetPointsInSearchRadius(centre);
      var k := 0;
      while k < |points|
        invariant 0 <= k <= |points|
        invariant forall i | 0 <= i < bits.Length :: bits[i] == (old(bits[i]) || i in Indices(points[..k]))
      {
        assert points[..k + 1] == points[..k] + [points[k]];
        Reveal(points[k]);
        k := k + 1;
      }
      assert points[..k] == points;
      forall i | 0 <= i < bits.Length
        ensures i in Indices(points) <==> (width > 0 && InSearchRadius(centre, CellAt(i, width, height)))
      {
        IndexCellAt(i, width, height);
        if i in Indices(points) {
          var p :| p in points && BinaryGridIndexPos(p, width, height) == i;
          CellAtIndex(p, width, height);
        }
        if InSearchRadius(centre, CellAt(i, width, height)) {
          assert CellAt(i, width, height) in points;
        }
      }
    }

    /** `__str__`: one line per row of the grid, top row first. */
    method ToString() returns (output: string)
      requires Valid()
      ensures output == Render(bits[..], width, height)
      ensures |output| == (width + 1) * height
    {
      var input := AsStr();
      output := "";
      for row := 0 to height
        invariant output == Lines(input, width, row)
      {
        var lo := width * row;
        var hi := lo + width;
        LinesNext(input, width, row);
        output := output + Slice(input, lo, hi) + "\n";
      }
      LinesLength(input, width, height);
    }
  }
}
