/** Quadkeys of map tiles: one base-4 digit per level of detail, interleaving the bits of the tile coordinates,
    which are signed 64-bit words. */
module Quadkey {
  import opened Bytes
  import opened Powers

  /** partForTileXY: the quarter of its parent that a tile lies in. */
  function Part(tileX: int, tileY: int, level: nat): (part: nat)
    requires level >= 1
    ensures part == Masked(tileX, level - 1) + 2 * Masked(tileY, level - 1)
  {
    if Masked(tileX, level - 1) != 0 then
      if Masked(tileY, level - 1) != 0 then 3 else 1
    else if Masked(tileY, level - 1) != 0 then 2
    else 0
  }

  predicate IsKey(q: Str) {
    forall j :: 0 <= j < |q| ==> '0' as int <= q[j] <= '3' as int
  }

  datatype Axis = X | Y

  /** The bit of one coordinate in a digit. */
  function BitOf(c: byte, a: Axis): (b: int)
    requires '0' as int <= c <= '3' as int
    ensures 0 <= b <= 1
  {
    if a.X? then (c - '0' as int) % 2 else (c - '0' as int) / 2
  }

  /** The coordinate a key spells, most significant digit first. */
  function Coord(q: Str, a: Axis): (x: nat)
    requires IsKey(q)
    ensures x < Pow2(|q|)
  {
    if q == [] then 0 else 2 * Coord(q[..|q| - 1], a) + BitOf(q[|q| - 1], a)
  }

  lemma CoordSnoc(q: Str, j: nat, a: Axis)
    requires j < |q| && IsKey(q[..j + 1])
    ensures IsKey(q[..j]) && '0' as int <= q[j] <= '3' as int
    ensures Coord(q[..j + 1], a) == 2 * Coord(q[..j], a) + BitOf(q[j], a)
  {
    hide BitOf;
    assert q[..j + 1][..j] == q[..j] && q[..j + 1][j] == q[j];
  }

  // ----- encoding

  /** TileXYToQuadKey: the digit of level n is the part of the tile at that level, and the key spells the low 64
      bits of each coordinate, modulo the size of the map. */
  method TileXYToQuadKey(tileX: int, tileY: int, level: nat) returns (q: Str)
    ensures |q| == level && IsKey(q)
    ensures forall j :: 0 <= j < level ==> q[j] == '0' as int + Part(tileX, tileY, level - j)
    ensures Coord(q, X) == tileX % Pow2(64) % Pow2(level) && Coord(q, Y) == tileY % Pow2(64) % Pow2(level)
  {
    hide Masked, Pow2;
    var quadKey := new byte[level];
    var i, j := level, 0;
    while i > 0
      invariant 0 <= i <= level && i + j == level
      invariant forall n :: 0 <= n < j ==> quadKey[n] == '0' as int + Part(tileX, tileY, level - n)
    {
      if Masked(tileX, i - 1) != 0 {
        if Masked(tileY, i - 1) != 0 { quadKey[j] := '3' as int; } else { quadKey[j] := '1' as int; }
      } else if Masked(tileY, i - 1) != 0 {
        quadKey[j] := '2' as int;
      } else {
        quadKey[j] := '0' as int;
      }
      i, j := i - 1, j + 1;
    }
    q := quadKey[..];
    KeySpells(q, X, tileX);
    KeySpells(q, Y, tileY);
  }

  lemma KeySpells(q: Str, a: Axis, x: int)
    requires IsKey(q) && forall n :: 0 <= n < |q| ==> BitOf(q[n], a) == Masked(x, |q| - 1 - n)
    ensures Coord(q, a) == x % Pow2(64) % Pow2(|q|)
  {
    hide Bit, BitOf, Coord, Masked, Pow2;
    var y := x % Pow2(64);
    forall n | 0 <= n < |q| ensures BitOf(q[n], a) == Bit(y, |q| - 1 - n) { MaskedIsBit(x, |q| - 1 - n); }
    PrefixSpells(q, a, y, |q|);
    AllDigits(q);
  }

  /** The first `j` digits spell the coordinate without its low bits. */
  lemma {:induction false} PrefixSpells(q: Str, a: Axis, x: int, j: nat)
    requires j <= |q| && IsKey(q)
    requires forall n :: 0 <= n < |q| ==> BitOf(q[n], a) == Bit(x, |q| - 1 - n)
    ensures Coord(q[..j], a) == x / Pow2(|q| - j) % Pow2(j)
    decreases j
  {
    hide Bit, BitOf;
    if j > 0 {
      PrefixSpells(q, a, x, j - 1);
      CoordSnoc(q, j - 1, a);
      SpellStep(x, |q| - j, j - 1);
    }
  }

  lemma SpellStep(x: int, k: nat, j: nat)
    ensures x / Pow2(k) % Pow2(j + 1) == 2 * (x / Pow2(k + 1) % Pow2(j)) + Bit(x, k)
  {
    hide Bit, Pow2;
    DropOneLess(x, k);
    ModDouble(x / Pow2(k + 1), Bit(x, k), j);
  }

  // ----- decoding

  datatype Tile = Tile(x: int, y: int, level: nat) | Panic

  /** QuadKeyToTileXY: the words that hold the coordinates the key spells; a string with any other digit
      panics. */
  method QuadKeyToTileXY(q: Str) returns (t: Tile)
    ensures t == if IsKey(q) then Tile(Int64(Coord(q, X)), Int64(Coord(q, Y)), |q|) else Panic
  {
    hide Or64, Int64, Pow2, Coord;
    var level := |q|;
    var x, y, i := 0, 0, level;
    NoDigits(q);
    ZeroWord();
    while i > 0
      invariant 0 <= i <= level && IsKey(q[..level - i])
      invariant x == Int64(Coord(q[..level - i], X) * Pow2(i))
      invariant y == Int64(Coord(q[..level - i], Y) * Pow2(i))
    {
      var c := q[level - i];
      if !('0' as int <= c <= '3' as int) { return Panic; }
      ghost var j := level - i;
      assert q[..j + 1] == q[..j] + [c];
      CoordSnoc(q, j, X);
      CoordSnoc(q, j, Y);
      AddDigit(Coord(q[..j], X), BitOf(c, X), i - 1);
      AddDigit(Coord(q[..j], Y), BitOf(c, Y), i - 1);
      if c == '1' as int {
        x := Or64(x, i - 1);
      } else if c == '2' as int {
        y := Or64(y, i - 1);
      } else if c == '3' as int {
        x := Or64(x, i - 1);
        y := Or64(y, i - 1);
      }
      i := i - 1;
    }
    AllDigits(q);
    t := Tile(x, y, level);
  }

  lemma NoDigits(q: Str)
    ensures forall a :: Coord(q[..0], a) == 0
  {}

  lemma AllDigits(q: Str)
    ensures q[..|q|] == q && Pow2(0) == 1
  {}

  lemma ZeroWord()
    ensures Int64(0) == 0
  {
    hide Pow2;
    Int64OfWord(0);
  }

  /** Setting the next lower bit, or leaving it clear, appends that digit. */
  lemma AddDigit(a: nat, b: int, i: nat)
    requires 0 <= b <= 1
    ensures var x := Int64(a * Pow2(i + 1));
            (if b == 1 then Or64(x, i) else x) == Int64((2 * a + b) * Pow2(i))
  {
    hide Pow2, Int64, Or64;
    Doubles(i);
    Spread(a, b, Pow2(i));
    OrAddsDigit(a, i);
  }

  // ----- the two are inverse

  /** Keys that spell the same coordinates at the same level are the same key. */
  lemma {:induction false} KeyIsUnique(q: Str, r: Str)
    requires IsKey(q) && IsKey(r) && |q| == |r| && Coord(q, X) == Coord(r, X) && Coord(q, Y) == Coord(r, Y)
    ensures q == r
    decreases |q|
  {
    hide BitOf, Coord, Pow2;
    if q != [] {
      var m := |q| - 1;
      SameLast(q, r, X);
      SameLast(q, r, Y);
      KeyIsUnique(q[..m], r[..m]);
      SameDigit(q[m], r[m]);
      assert q == q[..m] + [q[m]] && r == r[..m] + [r[m]];
    }
  }

  lemma SameDigit(c: byte, d: byte)
    requires '0' as int <= c <= '3' as int && '0' as int <= d <= '3' as int
    requires BitOf(c, X) == BitOf(d, X) && BitOf(c, Y) == BitOf(d, Y)
    ensures c == d
  {}

  lemma SameLast(q: Str, r: Str, a: Axis)
    requires q != [] && IsKey(q) && IsKey(r) && |q| == |r| && Coord(q, a) == Coord(r, a)
    ensures var m := |q| - 1; Coord(q[..m], a) == Coord(r[..m], a) && BitOf(q[m], a) == BitOf(r[m], a)
  {
    hide BitOf;
  }

  /** Tile to key and back: below level 64 the coordinates are taken modulo the size of the map, and from there
      on every tile comes back. */
  method TileRoundTrip(tileX: int, tileY: int, level: nat) returns (t: Tile)
    requires IsInt64(tileX) && IsInt64(tileY)
    ensures t == if level < 64 then Tile(tileX % Pow2(level), tileY % Pow2(level), level) else Tile(tileX, tileY, level)
    ensures 0 <= tileX < Pow2(level) && 0 <= tileY < Pow2(level) ==> t == Tile(tileX, tileY, level)
  {
    hide Pow2, Coord, Int64, IsInt64;
    var q := TileXYToQuadKey(tileX, tileY, level);
    t := QuadKeyToTileXY(q);
    WordOfLow(tileX, level);
    WordOfLow(tileY, level);
    if 0 <= tileX < Pow2(level) && 0 <= tileY < Pow2(level) {
      SmallMod(tileX, Pow2(level));
      SmallMod(tileY, Pow2(level));
    }
  }

  /** Key to tile and back: the key, exactly when every digit above its last 64 is 0. */
  method KeyRoundTrip(q: Str) returns (r: Str)
    requires IsKey(q)
    ensures |r| == |q| && IsKey(r)
    ensures r == q <==> forall j :: 0 <= j < |q| - 64 ==> q[j] == '0' as int
  {
    hide Coord, Pow2, Int64;
    var t := QuadKeyToTileXY(q);
    r := TileXYToQuadKey(t.x, t.y, t.level);
    LowOfWord(q, X);
    LowOfWord(q, Y);
    if Coord(r, X) == Coord(q, X) && Coord(r, Y) == Coord(q, Y) { KeyIsUnique(q, r); }
    ZeroLead(q);
  }

  lemma WordOfLow(x: int, level: nat)
    requires IsInt64(x)
    ensures Int64(x % Pow2(64) % Pow2(level)) == if level < 64 then x % Pow2(level) else x
  {
    hide Pow2, Int64;
    var y := x % Pow2(64);
    if level < 64 {
      ModOfMod(x, level, 64 - level);
      PowAdd(level, 63 - level);
      Times(Pow2(63 - level), 1, Pow2(level));
      Int64OfWord(x % Pow2(level));
    } else {
      PowAdd(64, level - 64);
      Times(Pow2(level - 64), 1, Pow2(64));
      SmallMod(y, Pow2(level));
      Int64OfMod(x);
      Int64OfWord(x);
    }
  }

  /** Decoding and encoding again keeps the low 64 digits, so all of a coordinate below 2^64. */
  lemma LowOfWord(q: Str, a: Axis)
    requires IsKey(q)
    ensures Int64(Coord(q, a)) % Pow2(64) % Pow2(|q|) == Coord(q, a) <==> Coord(q, a) < Pow2(64)
  {
    hide Coord, Pow2, Int64;
    var c := Coord(q, a);
    Int64Mod(c);
    if c < Pow2(64) {
      SmallMod(c, Pow2(64));
      SmallMod(c, Pow2(|q|));
    } else {
      var y := c % Pow2(64);
      assert y < c < Pow2(|q|);
      SmallMod(y, Pow2(|q|));
    }
  }

  /** Both coordinates of a key are below 2^64 exactly when its digits above the last 64 are 0. */
  lemma ZeroLead(q: Str)
    requires IsKey(q)
    ensures (Coord(q, X) < Pow2(64) && Coord(q, Y) < Pow2(64))
            <==> forall j :: 0 <= j < |q| - 64 ==> q[j] == '0' as int
  {
    hide Coord, Pow2, BitOf;
    if |q| <= 64 {
      ShortKey(q, X);
      ShortKey(q, Y);
    } else {
      LeadOf(q, X);
      LeadOf(q, Y);
      var lead := q[..|q| - 64];
      ZeroKey(lead);
      assert forall j :: 0 <= j < |lead| ==> lead[j] == q[j];
    }
  }

  lemma ShortKey(q: Str, a: Axis)
    requires IsKey(q) && |q| <= 64
    ensures Coord(q, a) < Pow2(64)
  {
    hide Coord, Pow2;
    PowAdd(|q|, 64 - |q|);
    Times(Pow2(64 - |q|), 1, Pow2(|q|));
  }

  lemma LeadOf(q: Str, a: Axis)
    requires IsKey(q) && |q| > 64
    ensures IsKey(q[..|q| - 64]) && (Coord(q, a) < Pow2(64) <==> Coord(q[..|q| - 64], a) == 0)
  {
    hide Coord, Pow2;
    ContainingTile(q, |q| - 64, a);
    BelowIffZero(Coord(q, a), Pow2(64));
  }

  lemma BelowIffZero(c: nat, m: nat)
    requires m > 0
    ensures c < m <==> c / m == 0
  {
    if c < m { Quotient(c, m, 0, c); }
  }

  lemma {:induction false} ZeroKey(q: Str)
    requires IsKey(q)
    ensures (Coord(q, X) == 0 && Coord(q, Y) == 0) <==> forall j :: 0 <= j < |q| ==> q[j] == '0' as int
    decreases |q|
  {
    if q != [] {
      var m := |q| - 1;
      ZeroKey(q[..m]);
      assert forall j :: 0 <= j < m ==> q[..m][j] == q[j];
    }
  }

  lemma SmallMod(x: nat, m: nat)
    requires x < m
    ensures x % m == x
  {}

  /** The key of a tile extends the key of the tile that contains it at a coarser level. */
  lemma {:induction false} ContainingTile(q: Str, n: nat, a: Axis)
    requires IsKey(q) && n <= |q|
    ensures IsKey(q[..n]) && Coord(q[..n], a) == Coord(q, a) / Pow2(|q| - n)
    decreases |q|
  {
    hide BitOf;
    if n == |q| {
      assert q[..n] == q;
    } else {
      var m := |q| - 1;
      ContainingTile(q[..m], n, a);
      assert q[..m][..n] == q[..n];
      assert Coord(q, a) / 2 == Coord(q[..m], a);
      HalfThenDrop(Coord(q, a), |q| - n);
    }
  }

  lemma HalfThenDrop(x: nat, k: nat)
    requires k >= 1
    ensures x / 2 / Pow2(k - 1) == x / Pow2(k)
  {
    var p := Pow2(k - 1);
    var q, r := x / Pow2(k), x % Pow2(k);
    assert x == q * (2 * p) + r && 0 <= r < 2 * p;
    assert x / 2 == q * p + r / 2;
    Quotient(x / 2, p, q, r / 2);
  }
}
