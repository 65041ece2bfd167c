/** The packing of a feature's id and properties into one string, after white space has been taken out of both. */
module Feature {
  import opened Bytes
  import opened LittleEndian

  const QUOTE: byte := '"' as int
  const SPACE: byte := ' ' as int

  // ----- white space

  /** Where a byte stands: outside string literals, or inside one after an even or odd number of backslashes. */
  datatype Place = Outside | Inside(escaped: bool)

  function After(w: Place, c: byte): Place {
    match w
    case Outside => if c == QUOTE then Inside(false) else Outside
    case Inside(escaped) =>
      if c == BACKSLASH then Inside(!escaped) else if c == QUOTE && !escaped then Outside else Inside(false)
  }

  predicate Kept(w: Place, c: byte) {
    w.Inside? || c > SPACE
  }

  /** The text without the white space that stands outside string literals. */
  function Strip(w: Place, s: Str): (r: Str)
    ensures |r| <= |s|
    decreases |s|
  {
    if s == [] then [] else (if Kept(w, s[0]) then [s[0]] else []) + Strip(After(w, s[0]), s[1..])
  }

  function PlaceAfter(w: Place, s: Str): Place
    decreases |s|
  {
    if s == [] then w else PlaceAfter(After(w, s[0]), s[1..])
  }

  /** No white space outside string literals. */
  predicate Tight(w: Place, s: Str)
    decreases |s|
  {
    s == [] || (Kept(w, s[0]) && Tight(After(w, s[0]), s[1..]))
  }

  lemma StripCons(w: Place, x: byte, s: Str)
    ensures Strip(w, [x] + s) == (if Kept(w, x) then [x] else []) + Strip(After(w, x), s)
    ensures PlaceAfter(w, [x] + s) == PlaceAfter(After(w, x), s)
  {
    hide After, Kept;
    assert ([x] + s)[1..] == s;
  }

  lemma {:induction false} StripAppend(w: Place, a: Str, b: Str)
    ensures Strip(w, a + b) == Strip(w, a) + Strip(PlaceAfter(w, a), b)
    ensures PlaceAfter(w, a + b) == PlaceAfter(PlaceAfter(w, a), b)
    decreases |a|
  {
    hide After, Kept;
    if a == [] {
      assert a + b == b;
    } else {
      var x, rest := a[0], a[1..];
      StripAppend(After(w, x), rest, b);
      hide Strip, PlaceAfter;
      StripCons(w, x, rest);
      StripCons(w, x, rest + b);
      assert a == [x] + rest && a + b == [x] + (rest + b);
    }
  }

  /** Stripping leaves no such white space, and changes nothing when there is none. */
  lemma {:induction false} StripIsTight(w: Place, s: Str)
    ensures Tight(w, Strip(w, s))
    ensures Strip(w, s) == s <==> Tight(w, s)
    decreases |s|
  {
    if s != [] {
      var rest := Strip(After(w, s[0]), s[1..]);
      StripIsTight(After(w, s[0]), s[1..]);
      if Kept(w, s[0]) {
        assert Strip(w, s)[1..] == rest && Strip(w, s)[0] == s[0];
        assert s == [s[0]] + s[1..];
      } else {
        assert Strip(w, s) == rest && |rest| < |s|;
      }
    }
  }

  // ----- what stays and what goes

  /** The inside of a string literal: bytes other than quote and backslash, and escapes of any byte. */
  ghost predicate LiteralBody(s: Str)
    decreases |s|
  {
    || s == []
    || (s[0] != QUOTE && s[0] != BACKSLASH && LiteralBody(s[1..]))
    || (|s| >= 2 && s[0] == BACKSLASH && LiteralBody(s[2..]))
  }

  /** A string literal is kept as it is, whatever is in it, and what follows is stripped by itself. */
  lemma LiteralIsKept(body: Str, rest: Str)
    requires LiteralBody(body)
    ensures Strip(Outside, [QUOTE] + body + [QUOTE] + rest) == [QUOTE] + body + [QUOTE] + Strip(Outside, rest)
  {
    hide Strip;
    var tail := [QUOTE] + rest;
    StripCons(Outside, QUOTE, body + tail);
    BodyIsKept(body, tail);
    StripCons(Inside(false), QUOTE, rest);
    assert [QUOTE] + body + [QUOTE] + rest == [QUOTE] + (body + tail);
  }

  lemma {:induction false} BodyIsKept(body: Str, rest: Str)
    requires LiteralBody(body)
    ensures Strip(Inside(false), body + rest) == body + Strip(Inside(false), rest)
    decreases |body|
  {
    hide Strip;
    if body == [] {
      assert body + rest == rest;
    } else if body[0] == BACKSLASH {
      BodyIsKept(body[2..], rest);
      EscapeIsKept(body[1], body[2..] + rest);
      assert body + rest == [BACKSLASH, body[1]] + (body[2..] + rest);
      assert body == [BACKSLASH, body[1]] + body[2..];
    } else {
      BodyIsKept(body[1..], rest);
      StripCons(Inside(false), body[0], body[1..] + rest);
      assert body + rest == [body[0]] + (body[1..] + rest);
      assert body == [body[0]] + body[1..];
    }
  }

  lemma EscapeIsKept(c: byte, s: Str)
    ensures Strip(Inside(false), [BACKSLASH, c] + s) == [BACKSLASH, c] + Strip(Inside(false), s)
  {
    hide Strip;
    StripCons(Inside(false), BACKSLASH, [c] + s);
    StripCons(Inside(true), c, s);
    assert [BACKSLASH, c] + s == [BACKSLASH] + ([c] + s);
  }

  /** Outside literals a byte goes exactly if it is a space or below. */
  lemma OutsideByte(c: byte, rest: Str)
    requires c != QUOTE
    ensures Strip(Outside, [c] + rest) == (if c <= 0x20 then [] else [c]) + Strip(Outside, rest)
  {
    hide Strip;
    StripCons(Outside, c, rest);
  }

  /** Stripping twice is stripping once. */
  lemma StripTwice(s: Str)
    ensures Strip(Outside, Strip(Outside, s)) == Strip(Outside, s)
  {
    StripIsTight(Outside, s);
    StripIsTight(Outside, Strip(Outside, s));
  }

  /** stripWhitespace: the copy is started at the first byte that goes. */
  method StripWhitespace(s: Str) returns (r: Str)
    ensures r == Strip(Outside, s)
  {
    hide Strip, PlaceAfter;
    var p: Option<Str> := None;
    var str, escs := false, 0;
    assert s[..0] == [];
    Nothing();
    for i := 0 to |s|
      invariant escs >= 0 && (!str ==> escs == 0)
      invariant PlaceAfter(Outside, s[..i]) == if str then Inside(escs % 2 == 1) else Outside
      invariant Strip(Outside, s[..i]) == if p.Some? then p.value else s[..i]
    {
      var c := s[i];
      assert s[..i + 1] == s[..i] + [c];
      StripAppend(Outside, s[..i], [c]);
      OneByte(PlaceAfter(Outside, s[..i]), c);
      if str {
        if c == BACKSLASH {
          escs := escs + 1;
        } else {
          if c == QUOTE && escs % 2 == 0 { str := false; }
          escs := 0;
        }
      } else if c == QUOTE {
        str := true;
      } else if c <= SPACE {
        if p.None? { p := Some(s[..i]); }
        continue;
      }
      if p.Some? { p := Some(p.value + [c]); }
    }
    assert s[..|s|] == s;
    r := if p.None? then s else p.value;
  }

  lemma Nothing()
    ensures Strip(Outside, []) == [] && PlaceAfter(Outside, []) == Outside
  {}

  lemma OneByte(w: Place, c: byte)
    ensures Strip(w, [c]) == (if Kept(w, c) then [c] else []) && PlaceAfter(w, [c]) == After(w, c)
  {
    assert [c][1..] == [];
  }

  // ----- packing

  /** The packed form: the length of the id in one byte, or 0xFF and eight bytes, then the id, then the rest. */
  function Packed(id: Str, props: Str): Str {
    if id == [] && props == [] then []
    else if |id| > 0xFE then [0xFF] + Put(|id|, 8) + id + props
    else [|id|] + id + props
  }

  /** makeCompositeRaw. */
  method MakeCompositeRaw(idRaw: Str, propsRaw: Str) returns (r: Str)
    ensures r == Packed(Strip(Outside, idRaw), Strip(Outside, propsRaw))
  {
    hide Strip;
    var id := StripWhitespace(idRaw);
    var props := StripWhitespace(propsRaw);
    if |id| == 0 && |props| == 0 { return []; }
    var raw, at := new byte[if |id| > 0xFF - 1 then |id| + |props| + 9 else |id| + |props| + 1], 1;
    raw[0] := if |id| > 0xFF - 1 then 0xFF else |id|;
    assert raw[..1] == [raw[0]];
    if |id| > 0xFF - 1 {
      CopyInto(raw, 1, Put(|id|, 8));
      at := 9;
    }
    CopyInto(raw, at, id);
    CopyInto(raw, |id| + at, props);
    r := raw[..];
    assert raw[..|id| + at + |props|] == raw[..];
  }

  /** Copies `src` to the position up to which the buffer is filled. */
  method CopyInto(raw: array<byte>, at: nat, src: Str)
    requires at + |src| <= raw.Length
    modifies raw
    ensures raw[..at + |src|] == old(raw[..at]) + src
  {
    forall i | 0 <= i < |src| { raw[at + i] := src[i]; }
  }

  /** getRaw; None where the source would slice out of bounds. */
  function GetRaw(idprops: Str): Option<(Str, Str)> {
    if idprops == [] then Some(([], []))
    else if idprops[0] != 0xFF then
      var lnp := idprops[0] as int + 1;
      if lnp > |idprops| then None else Some((idprops[1..lnp], idprops[lnp..]))
    else if |idprops| < 9 then None
    else
      var lnp := Get(idprops[1..9]) + 9;
      if lnp > |idprops| then None else Some((idprops[9..lnp], idprops[lnp..]))
  }

  /** What the packing costs: nothing for nothing, one byte for ids of up to 254 bytes, nine for longer ones. */
  lemma PackedSize(id: Str, props: Str)
    ensures var n := |id| + |props|;
            |Packed(id, props)| == if n == 0 then 0 else if |id| <= 254 then n + 1 else n + 9
    ensures Packed(id, props) != [] ==> Packed(id, props)[0] == if |id| <= 254 then |id| else 0xFF
  {}

  /** getRaw gives back what was packed. */
  lemma UnpackPacked(id: Str, props: Str)
    requires |id| < Pow256(8)
    ensures GetRaw(Packed(id, props)) == Some((id, props))
  {
    hide Put, Get, Pow256;
    var s := Packed(id, props);
    if id == [] && props == [] {
    } else if |id| > 0xFE {
      assert s[1..9] == Put(|id|, 8);
      GetPut(|id|, 8);
      assert s[9..|id| + 9] == id && s[|id| + 9..] == props;
    } else {
      assert s[1..|id| + 1] == id && s[|id| + 1..] == props;
    }
  }

  /** getRaw undoes makeCompositeRaw up to the white space outside string literals. */
  method RoundTrip(idRaw: Str, propsRaw: Str) returns (raw: Option<(Str, Str)>)
    requires |idRaw| < Pow256(8)
    ensures raw == Some((Strip(Outside, idRaw), Strip(Outside, propsRaw)))
  {
    hide Strip, Packed, GetRaw, Pow256;
    var r := MakeCompositeRaw(idRaw, propsRaw);
    UnpackPacked(Strip(Outside, idRaw), Strip(Outside, propsRaw));
    raw := GetRaw(r);
  }

  /** Two pairs pack alike exactly when they differ only in such white space. */
  lemma PackedAlike(id: Str, props: Str, id': Str, props': Str)
    requires |id| < Pow256(8) && |id'| < Pow256(8)
    ensures Packed(Strip(Outside, id), Strip(Outside, props)) == Packed(Strip(Outside, id'), Strip(Outside, props'))
            <==> Strip(Outside, id) == Strip(Outside, id') && Strip(Outside, props) == Strip(Outside, props')
  {
    hide Strip, Packed, GetRaw, Pow256;
    UnpackPacked(Strip(Outside, id), Strip(Outside, props));
    UnpackPacked(Strip(Outside, id'), Strip(Outside, props'));
  }
}
