/** Geohashes over exact coordinates: five bits a character, bits halving longitude and latitude in turn. */
module Geohash {
  import opened Bytes
  import opened Powers

  // ----- characters

  function Base32F(i: int): byte {
    if 0 <= i < 10 then '0' as int + i
    else if 10 <= i < 17 then 'b' as int + (i - 10)
    else if 17 <= i < 19 then 'j' as int + (i - 17)
    else if 19 <= i < 21 then 'm' as int + (i - 19)
    else if 21 <= i < 32 then 'p' as int + (i - 21)
    else '?' as int
  }

  function Base32R(b: byte): (i: int)
    ensures -1 <= i < 32
  {
    if '0' as int <= b <= '9' as int then b - '0' as int
    else if 'b' as int <= b <= 'h' as int then 10 + (b - 'b' as int)
    else if 'j' as int <= b <= 'k' as int then 17 + (b - 'j' as int)
    else if 'm' as int <= b <= 'n' as int then 19 + (b - 'm' as int)
    else if 'p' as int <= b <= 'z' as int then 21 + (b - 'p' as int)
    else -1
  }

  lemma Base32Inverse(i: int, b: byte)
    ensures 0 <= i < 32 ==> Base32R(Base32F(i)) == i && Base32F(i) != '?' as int
    ensures Base32R(b) != -1 ==> Base32F(Base32R(b)) == b
  {}

  const ALPHABET := "0123456789bcdefghjkmnpqrstuvwxyz"

  /** The digits and the letters but a, i, l and o, in order. */
  lemma AlphabetIs(i: int)
    requires 0 <= i < 32
    ensures Base32F(i) == ALPHABET[i] as int && Base32R(Base32F(i)) == i
  {}

  /** The lower-case form of an ASCII character. */
  function Lower(b: byte): byte {
    if 'A' as int <= b <= 'Z' as int then b + 32 else b
  }

  /** U+212A, the Kelvin sign: outside ASCII the one character whose lower-case form is in the alphabet. */
  const KELVIN: Str := [0xE2, 0x84, 0xAA]

  /** strings.ToLower, up to characters outside the alphabet: those beyond ASCII are kept here, and neither they
      nor their lower-case forms are in the alphabet. */
  function ToLower(h: Str): (r: Str)
    ensures |r| <= |h| && (h != [] ==> r != [])
  {
    if h == [] then []
    else if KELVIN <= h then ['k' as int] + ToLower(h[3..])
    else [Lower(h[0])] + ToLower(h[1..])
  }

  predicate IsHash(h: Str) {
    forall i :: 0 <= i < |h| ==> Base32R(h[i]) != -1
  }

  // ----- bits

  /** The number a bit string spells, most significant bit first. */
  function Value(bits: seq<bool>): (n: nat)
    ensures n < Pow2(|bits|)
  {
    if bits == [] then 0 else 2 * Value(bits[..|bits| - 1]) + if bits[|bits| - 1] then 1 else 0
  }

  function FiveBits(i: int): (b: seq<bool>)
    ensures |b| == 5
  {
    [Bit(i, 4) == 1, Bit(i, 3) == 1, Bit(i, 2) == 1, Bit(i, 1) == 1, Bit(i, 0) == 1]
  }

  /** The bits of a hash, five a character. */
  function BitsOf(h: Str): (bits: seq<bool>)
    ensures |bits| == 5 * |h|
  {
    if h == [] then [] else BitsOf(h[..|h| - 1]) + FiveBits(Base32R(h[|h| - 1]))
  }

  function CharsOf(bits: seq<bool>): (h: Str)
    requires |bits| % 5 == 0
    ensures 5 * |h| == |bits|
  {
    if bits == [] then []
    else CharsOf(bits[..|bits| - 5]) + [Base32F(Value(bits[|bits| - 5..]))]
  }

  function Digit(b: bool): int {
    if b then 1 else 0
  }

  lemma ValuePrefix(v: seq<bool>, j: nat)
    requires j < |v|
    ensures Value(v[..j + 1]) == 2 * Value(v[..j]) + Digit(v[j])
    ensures j == 0 ==> Value(v[..j]) == 0
  {
    assert v[..j + 1][..j] == v[..j];
  }

  lemma ValueOfFive(v: seq<bool>)
    requires |v| == 5
    ensures Value(v) == 16 * Digit(v[0]) + 8 * Digit(v[1]) + 4 * Digit(v[2]) + 2 * Digit(v[3]) + Digit(v[4])
  {
    hide Value, Pow2;
    ValuePrefix(v, 0);
    ValuePrefix(v, 1);
    ValuePrefix(v, 2);
    ValuePrefix(v, 3);
    ValuePrefix(v, 4);
    assert v[..5] == v;
  }

  lemma SmallPowers()
    ensures Pow2(0) == 1 && Pow2(1) == 2 && Pow2(2) == 4 && Pow2(3) == 8 && Pow2(4) == 16 && Pow2(5) == 32
  {
    Doubles(0);
    Doubles(1);
    Doubles(2);
    Doubles(3);
    Doubles(4);
  }

  lemma FiveBitsValue(i: int)
    requires 0 <= i < 32
    ensures Value(FiveBits(i)) == i
  {
    hide Pow2, Value;
    SmallPowers();
    ValueOfFive(FiveBits(i));
  }

  lemma FiveDigits(a: int, b: int, c: int, d: int, e: int)
    requires 0 <= a <= 1 && 0 <= b <= 1 && 0 <= c <= 1 && 0 <= d <= 1 && 0 <= e <= 1
    ensures var n := 16 * a + 8 * b + 4 * c + 2 * d + e;
            n / 16 % 2 == a && n / 8 % 2 == b && n / 4 % 2 == c && n / 2 % 2 == d && n % 2 == e
  {}

  lemma ValueFiveBits(v: seq<bool>)
    requires |v| == 5
    ensures FiveBits(Value(v)) == v && Value(v) < 32
  {
    hide Pow2, Value;
    SmallPowers();
    ValueOfFive(v);
    FiveDigits(Digit(v[0]), Digit(v[1]), Digit(v[2]), Digit(v[3]), Digit(v[4]));
    var f := FiveBits(Value(v));
    assert f[0] == v[0] && f[1] == v[1] && f[2] == v[2] && f[3] == v[3] && f[4] == v[4];
  }

  lemma {:induction false} BitsOfChars(bits: seq<bool>)
    requires |bits| % 5 == 0
    ensures BitsOf(CharsOf(bits)) == bits && IsHash(CharsOf(bits))
    decreases |bits|
  {
    hide Value, FiveBits, Base32F, Base32R;
    if bits != [] {
      var m := |bits| - 5;
      BitsOfChars(bits[..m]);
      ValueFiveBits(bits[m..]);
      Base32Inverse(Value(bits[m..]), 0);
      var h := CharsOf(bits);
      assert h[..|h| - 1] == CharsOf(bits[..m]);
      assert bits == bits[..m] + bits[m..];
    }
  }

  lemma {:induction false} CharsOfBits(h: Str)
    requires IsHash(h)
    ensures CharsOf(BitsOf(h)) == h
    decreases |h|
  {
    hide Value, FiveBits, Base32F, Base32R, CharsOf, Pow2;
    if h == [] {
      NoChars();
    } else {
      var m := |h| - 1;
      CharsOfBits(h[..m]);
      CharsSnoc(BitsOf(h[..m]), FiveBits(Base32R(h[m])));
      FiveBitsValue(Base32R(h[m]));
      Base32Inverse(0, h[m]);
      assert h == h[..m] + [h[m]];
    }
  }

  lemma NoChars()
    ensures CharsOf([]) == []
  {}

  lemma CharsSnoc(bits: seq<bool>, five: seq<bool>)
    requires |bits| % 5 == 0 && |five| == 5
    ensures CharsOf(bits + five) == CharsOf(bits) + [Base32F(Value(five))]
  {
    hide Value, Base32F;
    var all := bits + five;
    assert all[..|all| - 5] == bits && all[|all| - 5..] == five;
  }

  // ----- cells

  datatype Cell = Cell(latMin: real, latMax: real, lonMin: real, lonMax: real)

  const World := Cell(-90.0, 90.0, -180.0, 180.0)

  /** One bisection: east-west for an even bit, north-south for an odd one. */
  function Half(c: Cell, even: bool, upper: bool): Cell {
    if even then
      var mid := (c.lonMin + c.lonMax) / 2.0;
      if upper then c.(lonMin := mid) else c.(lonMax := mid)
    else
      var mid := (c.latMin + c.latMax) / 2.0;
      if upper then c.(latMin := mid) else c.(latMax := mid)
  }

  function Side(c: Cell, even: bool, lat: real, lon: real): bool {
    if even then lon > (c.lonMin + c.lonMax) / 2.0 else lat > (c.latMin + c.latMax) / 2.0
  }

  /** The cell a bit string names. */
  function CellOf(bits: seq<bool>): Cell {
    if bits == [] then World
    else
      var m := |bits| - 1;
      Half(CellOf(bits[..m]), m % 2 == 0, bits[m])
  }

  /** The first n bits of a point's hash. */
  function PathTo(lat: real, lon: real, n: nat): (bits: seq<bool>)
    ensures |bits| == n
  {
    if n == 0 then []
    else
      var bits := PathTo(lat, lon, n - 1);
      bits + [Side(CellOf(bits), (n - 1) % 2 == 0, lat, lon)]
  }

  lemma CellSnoc(bits: seq<bool>, b: bool)
    ensures CellOf(bits + [b]) == Half(CellOf(bits), |bits| % 2 == 0, b)
  {
    hide Half;
    assert (bits + [b])[..|bits|] == bits;
  }

  predicate Contains(c: Cell, lat: real, lon: real) {
    c.latMin <= lat <= c.latMax && c.lonMin <= lon <= c.lonMax
  }

  /** The points whose hash is the cell's: without its southern and western edges, and with everything beyond an
      edge it shares with the globe. */
  predicate Owns(c: Cell, lat: real, lon: real) {
    && (c.latMin == World.latMin || c.latMin < lat) && (c.latMax == World.latMax || lat <= c.latMax)
    && (c.lonMin == World.lonMin || c.lonMin < lon) && (c.lonMax == World.lonMax || lon <= c.lonMax)
  }

  predicate Inside(c: Cell) {
    && World.latMin <= c.latMin < c.latMax <= World.latMax
    && World.lonMin <= c.lonMin < c.lonMax <= World.lonMax
  }

  lemma {:induction false} InsideWorld(bits: seq<bool>)
    ensures Inside(CellOf(bits))
    decreases |bits|
  {
    if bits != [] {
      InsideWorld(bits[..|bits| - 1]);
    }
  }

  /** The cell of a point's hash holds the point exactly when the point is on the globe. */
  lemma {:induction false} HashContains(lat: real, lon: real, n: nat)
    ensures Contains(CellOf(PathTo(lat, lon, n)), lat, lon) <==> Contains(World, lat, lon)
  {
    hide Half, Side, CellOf, Inside, Contains;
    if n == 0 {
      WholeWorld();
    } else {
      var bits := PathTo(lat, lon, n - 1);
      HashContains(lat, lon, n - 1);
      InsideWorld(bits);
      CellSnoc(bits, Side(CellOf(bits), (n - 1) % 2 == 0, lat, lon));
      ContainsHalf(CellOf(bits), (n - 1) % 2 == 0, lat, lon);
    }
  }

  lemma WholeWorld()
    ensures CellOf([]) == World
  {}

  lemma ContainsHalf(c: Cell, even: bool, lat: real, lon: real)
    requires Inside(c)
    ensures Contains(Half(c, even, Side(c, even, lat, lon)), lat, lon) <==> Contains(c, lat, lon)
  {}

  /** Cells of one length divide the plane: a point has the hash of exactly the cell that owns it. */
  lemma {:induction false} OwnerIsHash(lat: real, lon: real, bits: seq<bool>)
    ensures Owns(CellOf(bits), lat, lon) <==> PathTo(lat, lon, |bits|) == bits
    decreases |bits|
  {
    hide Half, Side, CellOf, Owns, Inside;
    if bits == [] {
      WholeWorld();
      OwnsWorld(lat, lon);
    } else {
      var m := |bits| - 1;
      var init := bits[..m];
      OwnerIsHash(lat, lon, init);
      InsideWorld(init);
      assert bits == init + [bits[m]];
      CellSnoc(init, bits[m]);
      OwnsHalf(CellOf(init), m % 2 == 0, bits[m], lat, lon);
      assert PathTo(lat, lon, m + 1)[..m] == PathTo(lat, lon, m);
    }
  }

  lemma OwnsWorld(lat: real, lon: real)
    ensures Owns(World, lat, lon)
  {}

  lemma OwnsHalf(c: Cell, even: bool, upper: bool, lat: real, lon: real)
    requires Inside(c)
    ensures Owns(Half(c, even, upper), lat, lon) <==> Owns(c, lat, lon) && Side(c, even, lat, lon) == upper
  {}

  /** A shorter hash of a point is a prefix of a longer one. */
  lemma {:induction false} PathPrefix(lat: real, lon: real, n: nat, m: nat)
    requires n <= m
    ensures PathTo(lat, lon, m)[..n] == PathTo(lat, lon, n)
    decreases m
  {
    hide CellOf, Side;
    if n < m {
      PathPrefix(lat, lon, n, m - 1);
      assert PathTo(lat, lon, m)[..n] == PathTo(lat, lon, m - 1)[..n];
    }
  }

  lemma {:induction false} CharsPrefix(bits: seq<bool>, n: nat)
    requires |bits| % 5 == 0 && 5 * n <= |bits|
    ensures CharsOf(bits[..5 * n]) == CharsOf(bits)[..n]
    decreases |bits|
  {
    hide CharsOf;
    if 5 * n == |bits| {
      assert bits[..5 * n] == bits && CharsOf(bits)[..n] == CharsOf(bits);
    } else {
      var init := bits[..|bits| - 5];
      CharsPrefix(init, n);
      CharsGrow(bits);
      assert init[..5 * n] == bits[..5 * n];
      assert CharsOf(bits)[..n] == CharsOf(init)[..n];
    }
  }

  lemma CharsGrow(bits: seq<bool>)
    requires |bits| % 5 == 0 && bits != []
    ensures CharsOf(bits[..|bits| - 5]) <= CharsOf(bits)
  {
    hide Value, Base32F;
  }

  /** One over a power of two. */
  function Fraction(k: nat): real {
    1.0 / Pow2(k) as real
  }

  lemma Halves(k: nat)
    ensures Fraction(k + 1) == Fraction(k) / 2.0
  {
    Doubles(k);
    var p := Pow2(k) as real;
    assert Pow2(k + 1) as real == 2.0 * p;
  }

  /** n bits narrow latitude floor(n/2) times and longitude ceil(n/2) times. */
  lemma {:induction false} CellSize(bits: seq<bool>)
    ensures CellOf(bits).latMax - CellOf(bits).latMin == 180.0 * Fraction(|bits| / 2)
    ensures CellOf(bits).lonMax - CellOf(bits).lonMin == 360.0 * Fraction((|bits| + 1) / 2)
    decreases |bits|
  {
    hide Fraction;
    if bits == [] {
      FractionOfZero();
    } else {
      var m := |bits| - 1;
      CellSize(bits[..m]);
      if m % 2 == 0 { Halves(m / 2); } else { Halves(m / 2); }
      HalfSize(CellOf(bits[..m]), m % 2 == 0, bits[m]);
    }
  }

  /** Every second bit of a bit string, from the first or from the second on. */
  function Every(bits: seq<bool>, first: bool): (r: seq<bool>)
    ensures |r| == (if first then |bits| + 1 else |bits|) / 2
  {
    if bits == [] then []
    else
      var m := |bits| - 1;
      Every(bits[..m], first) + if (m % 2 == 0) == first then [bits[m]] else []
  }

  lemma EverySnoc(bits: seq<bool>, first: bool)
    requires bits != []
    ensures var m := |bits| - 1;
            Every(bits, first) ==
              if (m % 2 == 0) == first then Every(bits[..m], first) + [bits[m]] else Every(bits[..m], first)
  {}

  /** The fraction 0.b1b2... that a bit string spells. */
  function Spelled(bits: seq<bool>): real {
    Value(bits) as real * Fraction(|bits|)
  }

  lemma SpelledSnoc(bits: seq<bool>, b: bool)
    ensures Spelled(bits + [b]) == Spelled(bits) + if b then Fraction(|bits|) / 2.0 else 0.0
  {
    hide Fraction, Value;
    Halves(|bits|);
    ValueSnoc(bits, b);
    Finer(Value(bits), b, Fraction(|bits|));
  }

  lemma ValueSnoc(bits: seq<bool>, b: bool)
    ensures Value(bits + [b]) == 2 * Value(bits) + Digit(b)
  {
    assert (bits + [b])[..|bits|] == bits;
  }

  lemma Finer(v: nat, b: bool, f: real)
    ensures (2 * v + Digit(b)) as real * (f / 2.0) == v as real * f + if b then f / 2.0 else 0.0
  {}

  /** Where a cell lies: the even bits spell how far east it begins, the odd ones how far north. */
  lemma {:induction false} CellCorner(bits: seq<bool>)
    ensures CellOf(bits).lonMin == -180.0 + 360.0 * Spelled(Every(bits, true))
    ensures CellOf(bits).latMin == -90.0 + 180.0 * Spelled(Every(bits, false))
    decreases |bits|
  {
    hide Fraction, Spelled, Half;
    if bits == [] {
      NothingSpelled();
    } else {
      var m := |bits| - 1;
      var init, b := bits[..m], bits[m];
      CellCorner(init);
      CellSize(init);
      HalfCorner(CellOf(init), m % 2 == 0, b);
      EverySnoc(bits, true);
      EverySnoc(bits, false);
      SpelledSnoc(Every(init, m % 2 == 0), b);
    }
  }

  lemma NothingSpelled()
    ensures Spelled([]) == 0.0
  {}

  lemma HalfCorner(c: Cell, even: bool, upper: bool)
    ensures var h := Half(c, even, upper);
            && h.lonMin == c.lonMin + (if even && upper then (c.lonMax - c.lonMin) / 2.0 else 0.0)
            && h.latMin == c.latMin + if !even && upper then (c.latMax - c.latMin) / 2.0 else 0.0
  {}

  lemma FractionOfZero()
    ensures Fraction(0) == 1.0
  {}

  lemma HalfSize(c: Cell, even: bool, upper: bool)
    ensures var h := Half(c, even, upper);
            && h.latMax - h.latMin == (if even then c.latMax - c.latMin else (c.latMax - c.latMin) / 2.0)
            && h.lonMax - h.lonMin == if even then (c.lonMax - c.lonMin) / 2.0 else c.lonMax - c.lonMin
  {}

  // ----- the functions

  datatype EncodeResult = Encoded(hash: Str) | InvalidPrecision

  function Hash(lat: real, lon: real, precision: nat): (h: Str)
    ensures |h| == precision
  {
    CharsOf(PathTo(lat, lon, 5 * precision))
  }

  /** Encode. Every five-bit number has a character, so only a precision below one fails. */
  method Encode(lat: real, lon: real, precision: int) returns (r: EncodeResult)
    ensures r == if precision < 1 then InvalidPrecision else Encoded(Hash(lat, lon, precision))
  {
    hide Half, Side, Encoding, Hash, Base32F;
    var idx, bit, evenBit := 0, 0, true;
    var cell := World;
    if precision < 1 { return InvalidPrecision; }
    var geohash: Str := [];
    ghost var done: seq<bool>, five: seq<bool> := [], [];
    EncodeStart(lat, lon);
    while |geohash| < precision
      invariant |geohash| <= precision && 0 <= bit < 5 && (|geohash| == precision ==> bit == 0)
      invariant Encoding(lat, lon, geohash, idx, bit, cell, evenBit, done, five)
      decreases precision - |geohash|, 5 - bit
    {
      EncodeBit(lat, lon, geohash, idx, bit, cell, evenBit, done, five);
      var upper := Side(cell, evenBit, lat, lon);
      idx := if upper then idx * 2 + 1 else idx * 2;
      cell := Half(cell, evenBit, upper);
      five := five + [upper];
      evenBit := !evenBit;
      bit := bit + 1;
      if bit == 5 {
        EncodeChar(lat, lon, geohash, idx, cell, evenBit, done, five);
        var b := Base32F(idx);
        geohash := geohash + [b];
        bit, idx := 0, 0;
        done, five := done + five, [];
      }
    }
    EncodeEnd(lat, lon, geohash, idx, cell, evenBit, done, five);
    r := Encoded(geohash);
  }

  /** Where the loop of Encode stands: the characters written spell `done`, the index spells `five`, and together
      they are the path so far. */
  ghost predicate Encoding(lat: real, lon: real, geohash: Str, idx: int, bit: nat, cell: Cell, evenBit: bool,
                           done: seq<bool>, five: seq<bool>)
  {
    && |done| % 5 == 0 && geohash == CharsOf(done) && |five| == bit && idx == Value(five)
    && done + five == PathTo(lat, lon, |done| + bit)
    && cell == CellOf(done + five) && evenBit == ((|done| + bit) % 2 == 0)
  }

  lemma EncodeStart(lat: real, lon: real)
    ensures Encoding(lat, lon, [], 0, 0, World, true, [], [])
  {}

  lemma EncodeBit(lat: real, lon: real, geohash: Str, idx: int, bit: nat, cell: Cell, evenBit: bool,
                  done: seq<bool>, five: seq<bool>)
    requires Encoding(lat, lon, geohash, idx, bit, cell, evenBit, done, five)
    ensures var upper := Side(cell, evenBit, lat, lon);
            Encoding(lat, lon, geohash, if upper then idx * 2 + 1 else idx * 2, bit + 1, Half(cell, evenBit, upper),
                     !evenBit, done, five + [upper])
  {
    hide Value, Half, Side, CellOf, PathTo, CharsOf;
    NextBit(lat, lon, done, five, Side(cell, evenBit, lat, lon));
  }

  lemma EncodeChar(lat: real, lon: real, geohash: Str, idx: int, cell: Cell, evenBit: bool, done: seq<bool>,
                   five: seq<bool>)
    requires Encoding(lat, lon, geohash, idx, 5, cell, evenBit, done, five)
    ensures Encoding(lat, lon, geohash + [Base32F(idx)], 0, 0, cell, evenBit, done + five, [])
    ensures Base32F(idx) != '?' as int
  {
    hide Half, Side, CellOf, PathTo, Base32F, CharsOf, Value, FiveBits, Pow2;
    NoBits();
    ValueFiveBits(five);
    Base32Inverse(idx, 0);
    CharsSnoc(done, five);
    assert done + five + [] == done + five;
  }

  lemma NoBits()
    ensures Value([]) == 0
  {}

  lemma EncodeEnd(lat: real, lon: real, geohash: Str, idx: int, cell: Cell, evenBit: bool, done: seq<bool>,
                  five: seq<bool>)
    requires Encoding(lat, lon, geohash, idx, 0, cell, evenBit, done, five)
    ensures geohash == Hash(lat, lon, |geohash|)
  {
    hide Value, CellOf, PathTo, CharsOf;
    assert done + five == done;
  }

  lemma NextBit(lat: real, lon: real, done: seq<bool>, five: seq<bool>, upper: bool)
    requires done + five == PathTo(lat, lon, |done| + |five|)
    requires upper == Side(CellOf(done + five), (|done| + |five|) % 2 == 0, lat, lon)
    ensures done + (five + [upper]) == PathTo(lat, lon, |done| + |five| + 1)
    ensures CellOf(done + (five + [upper])) == Half(CellOf(done + five), (|done| + |five|) % 2 == 0, upper)
    ensures Value(five + [upper]) == 2 * Value(five) + if upper then 1 else 0
  {
    hide Half, Side, CellOf;
    assert done + (five + [upper]) == (done + five) + [upper];
    CellSnoc(done + five, upper);
    assert (five + [upper])[..|five|] == five;
  }

  /** The inner loop of Bounds: the five bits of one character, highest first. */
  method NarrowFive(start: Cell, even: bool, idx: int, ghost bits: seq<bool>) returns (cell: Cell, evenBit: bool)
    requires start == CellOf(bits) && even == (|bits| % 2 == 0)
    ensures cell == CellOf(bits + FiveBits(idx)) && evenBit == ((|bits| + 5) % 2 == 0)
  {
    hide Half, CellOf, FiveBits;
    cell, evenBit := start, even;
    ghost var five := FiveBits(idx);
    assert bits + five[..0] == bits;
    for n := 5 downto 0
      invariant cell == CellOf(bits + five[..5 - n]) && evenBit == ((|bits| + 5 - n) % 2 == 0)
    {
      var bitN := Bit(idx, n);
      BitOfFive(idx, n);
      CellSnoc(bits + five[..4 - n], five[4 - n]);
      assert bits + five[..4 - n] + [five[4 - n]] == bits + five[..5 - n];
      cell := Half(cell, evenBit, bitN == 1);
      evenBit := !evenBit;
    }
    assert bits + five[..5] == bits + five;
  }

  datatype BoundsResult = Bounded(cell: Cell) | InvalidHash

  /** Bounds: the cell named by the characters' bits; one character outside the alphabet is an error. */
  method Bounds(hash: Str) returns (r: BoundsResult)
    ensures r == if IsHash(ToLower(hash)) then Bounded(CellOf(BitsOf(ToLower(hash)))) else InvalidHash
  {
    hide Half, CellOf, FiveBits, Base32R, ToLower, BitsOf;
    var geohash := ToLower(hash);
    var cell, evenBit := World, true;
    BoundsStart(geohash);
    for i := 0 to |geohash|
      invariant IsHash(geohash[..i])
      invariant cell == CellOf(BitsOf(geohash[..i])) && evenBit == (5 * i % 2 == 0)
    {
      var idx := Base32R(geohash[i]);
      assert geohash[..i + 1] == geohash[..i] + [geohash[i]];
      if idx == -1 { return InvalidHash; }
      BitsSnoc(geohash, i);
      cell, evenBit := NarrowFive(cell, evenBit, idx, BitsOf(geohash[..i]));
    }
    assert geohash[..|geohash|] == geohash;
    r := Bounded(cell);
  }

  lemma BoundsStart(h: Str)
    ensures CellOf(BitsOf(h[..0])) == World && IsHash(h[..0])
  {}

  lemma BitsSnoc(h: Str, i: nat)
    requires i < |h|
    ensures BitsOf(h[..i + 1]) == BitsOf(h[..i]) + FiveBits(Base32R(h[i]))
  {
    assert h[..i + 1][..i] == h[..i];
  }

  lemma BitOfFive(i: int, n: nat)
    requires n < 5
    ensures FiveBits(i)[4 - n] == (Bit(i, n) == 1)
  {}

  datatype DecodeResult = Decoded(lat: real, lon: real) | Undecodable

  function Centre(c: Cell): (real, real) {
    ((c.latMax - c.latMin) / 2.0 + c.latMin, (c.lonMax - c.lonMin) / 2.0 + c.lonMin)
  }

  method Decode(hash: Str) returns (r: DecodeResult)
    ensures IsHash(ToLower(hash)) ==>
              var (lat, lon) := Centre(CellOf(BitsOf(ToLower(hash)))); r == Decoded(lat, lon)
    ensures !IsHash(ToLower(hash)) ==> r == Undecodable
  {
    hide CellOf, BitsOf, ToLower, IsHash;
    var b := Bounds(hash);
    match b
    case InvalidHash => r := Undecodable;
    case Bounded(c) => r := Decoded((c.latMax - c.latMin) / 2.0 + c.latMin, (c.lonMax - c.lonMin) / 2.0 + c.lonMin);
  }

  // ----- what they promise together

  lemma CentreHash(bits: seq<bool>)
    ensures var (lat, lon) := Centre(CellOf(bits)); PathTo(lat, lon, |bits|) == bits
  {
    hide CellOf, PathTo;
    InsideWorld(bits);
    var (lat, lon) := Centre(CellOf(bits));
    OwnerIsHash(lat, lon, bits);
  }

  /** Decoding a hash and encoding the result at its length gives the hash back, in lower case. */
  method DecodeEncode(hash: Str) returns (r: EncodeResult)
    requires hash != [] && IsHash(ToLower(hash))
    ensures r == Encoded(ToLower(hash))
  {
    hide CellOf, BitsOf, ToLower, IsHash, PathTo, Centre, CharsOf;
    var d := Decode(hash);
    r := Encode(d.lat, d.lon, |ToLower(hash)|);
    CentreHash(BitsOf(ToLower(hash)));
    CharsOfBits(ToLower(hash));
  }

  lemma {:induction false} LowerIsLower(h: Str)
    requires IsHash(h)
    ensures ToLower(h) == h
    decreases |h|
  {
    if h != [] {
      assert Base32R(h[0]) != -1;
      LowerIsLower(h[1..]);
    }
  }

  /** Encoding a point and decoding the hash: the cell holds the point, so the result is off by at most half a
      cell; the hash at a shorter precision is a prefix. */
  method EncodeDecode(lat: real, lon: real, precision: nat) returns (d: DecodeResult)
    requires precision >= 1 && Contains(World, lat, lon)
    ensures d.Decoded?
    ensures -90.0 * Fraction(5 * precision / 2) <= d.lat - lat <= 90.0 * Fraction(5 * precision / 2)
    ensures -180.0 * Fraction((5 * precision + 1) / 2) <= d.lon - lon <= 180.0 * Fraction((5 * precision + 1) / 2)
  {
    hide CellOf, BitsOf, ToLower, IsHash, PathTo, CharsOf, Fraction;
    var e := Encode(lat, lon, precision);
    var bits := PathTo(lat, lon, 5 * precision);
    BitsOfChars(bits);
    LowerIsLower(e.hash);
    d := Decode(e.hash);
    HashContains(lat, lon, 5 * precision);
    CellSize(bits);
  }

  lemma HashPrefix(lat: real, lon: real, n: nat, m: nat)
    requires n <= m
    ensures Hash(lat, lon, n) == Hash(lat, lon, m)[..n]
  {
    hide PathTo, CharsOf;
    PathPrefix(lat, lon, 5 * n, 5 * m);
    CharsPrefix(PathTo(lat, lon, 5 * m), n);
  }

  /** Bounds of a point's hash hold the point exactly when it is on the globe. */
  lemma BoundsContain(lat: real, lon: real, precision: nat)
    ensures IsHash(Hash(lat, lon, precision)) && ToLower(Hash(lat, lon, precision)) == Hash(lat, lon, precision)
    ensures Contains(CellOf(BitsOf(Hash(lat, lon, precision))), lat, lon) <==> Contains(World, lat, lon)
  {
    hide CellOf, BitsOf, ToLower, IsHash, PathTo, CharsOf;
    BitsOfChars(PathTo(lat, lon, 5 * precision));
    LowerIsLower(Hash(lat, lon, precision));
    HashContains(lat, lon, 5 * precision);
  }
}
