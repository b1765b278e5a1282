/** Small conversions of dvgutils/misc.py: FOURCC codec names, clipping points to an image,
    and "h:m:s.ms" time strings (here in whole milliseconds). */
module Misc {
  import opened Wrappers
  import opened Points
  import opened Decimal
  import opened Text
  import opened Arith

  // ---------------------------------------------------------------- FOURCC

  /** The place value of byte `i` of a little-endian 32-bit code. */
  function BytePlace(i: nat): (p: nat)
    requires i < 4
    ensures p > 0
  {
    if i == 0 then 1 else if i == 1 then 0x100 else if i == 2 then 0x1_0000 else 0x100_0000
  }

  /** `decode_fourcc`: character i is `(code >> 8*i) & 0xFF`. For a positive place value Dafny's `/`
      rounds down like Python's `>>`, and `% 256` is never negative, like `& 0xFF`. */
  function DecodeFourcc(code: int): (r: string)
    ensures |r| == 4
    ensures forall i :: 0 <= i < 4 ==> r[i] as int == (code / BytePlace(i)) % 256
  {
    seq(4, i requires 0 <= i < 4 => ((code / BytePlace(i)) % 256) as char)
  }

  /** The signed 32-bit code that `cv2.VideoWriter_fourcc(c1, c2, c3, c4)` builds:
      `(c1 & 255) + ((c2 & 255) << 8) + ((c3 & 255) << 16) + ((c4 & 255) << 24)` in a C `int`. */
  function EncodeFourcc(cs: string): (code: int)
    requires |cs| == 4
    ensures -0x8000_0000 <= code < 0x8000_0000
  {
    var u := (cs[0] as int % 256) + (cs[1] as int % 256) * 0x100
           + (cs[2] as int % 256) * 0x1_0000 + (cs[3] as int % 256) * 0x100_0000;
    if u < 0x8000_0000 then u else u - 0x1_0000_0000
  }

  /** Byte i of `q * 2^32 + r` is byte i of `r`. */
  lemma ByteOfHighWord(q: int, r: int, i: nat)
    requires i < 4
    ensures ((q * 0x1_0000_0000 + r) / BytePlace(i)) % 256 == (r / BytePlace(i)) % 256
  {
    var p := BytePlace(i);
    var k := 0x1_0000_0000 / p / 256;
    assert k * 256 * p == 0x1_0000_0000;
    var x := q * 0x1_0000_0000 + r;
    DivModUnique(x, p, q * k * 256 + r / p, r % p);
    DivModUnique(x / p, 256, q * k + (r / p) / 256, (r / p) % 256);
    DivModUnique(r / p, 256, (r / p) / 256, (r / p) % 256);
  }

  /** Only the low 32 bits of a code matter, so the signed and the unsigned reading of the same
      code decode alike. */
  lemma DecodeFourccLow32(code: int)
    ensures DecodeFourcc(code) == DecodeFourcc(code % 0x1_0000_0000)
  {
    var q, r := code / 0x1_0000_0000, code % 0x1_0000_0000;
    DivModUnique(r, 0x1_0000_0000, 0, r);
    forall i | 0 <= i < 4 ensures DecodeFourcc(code)[i] == DecodeFourcc(r)[i] {
      ByteOfHighWord(q, r, i);
    }
  }

  /** The unsigned value of four bytes, least significant first. */
  function Packed(b0: int, b1: int, b2: int, b3: int): int
  {
    b0 + b1 * 0x100 + b2 * 0x1_0000 + b3 * 0x100_0000
  }

  predicate IsByte(b: int) { 0 <= b < 256 }

  lemma PackedByte0(b0: int, b1: int, b2: int, b3: int)
    requires IsByte(b0) && IsByte(b1) && IsByte(b2) && IsByte(b3)
    ensures (Packed(b0, b1, b2, b3) / BytePlace(0)) % 256 == b0
  {
    var u := Packed(b0, b1, b2, b3);
    DivModUnique(u, 1, u, 0);
    DivModUnique(u, 256, b1 + b2 * 0x100 + b3 * 0x1_0000, b0);
  }

  lemma PackedByte1(b0: int, b1: int, b2: int, b3: int)
    requires IsByte(b0) && IsByte(b1) && IsByte(b2) && IsByte(b3)
    ensures (Packed(b0, b1, b2, b3) / BytePlace(1)) % 256 == b1
  {
    var u := Packed(b0, b1, b2, b3);
    DivModUnique(u, 0x100, b1 + b2 * 0x100 + b3 * 0x1_0000, b0);
    DivModUnique(b1 + b2 * 0x100 + b3 * 0x1_0000, 256, b2 + b3 * 0x100, b1);
  }

  lemma PackedByte2(b0: int, b1: int, b2: int, b3: int)
    requires IsByte(b0) && IsByte(b1) && IsByte(b2) && IsByte(b3)
    ensures (Packed(b0, b1, b2, b3) / BytePlace(2)) % 256 == b2
  {
    var u := Packed(b0, b1, b2, b3);
    DivModUnique(u, 0x1_0000, b2 + b3 * 0x100, b0 + b1 * 0x100);
    DivModUnique(b2 + b3 * 0x100, 256, b3, b2);
  }

  lemma PackedByte3(b0: int, b1: int, b2: int, b3: int)
    requires IsByte(b0) && IsByte(b1) && IsByte(b2) && IsByte(b3)
    ensures (Packed(b0, b1, b2, b3) / BytePlace(3)) % 256 == b3
  {
    var u := Packed(b0, b1, b2, b3);
    DivModUnique(u, 0x100_0000, b3, b0 + b1 * 0x100 + b2 * 0x1_0000);
    DivModUnique(b3, 256, 0, b3);
  }

  /** The signed code cv2 builds is the packed bytes modulo 2^32. */
  lemma EncodeFourccLow32(cs: string)
    requires |cs| == 4
    ensures EncodeFourcc(cs) % 0x1_0000_0000
         == Packed(cs[0] as int % 256, cs[1] as int % 256, cs[2] as int % 256, cs[3] as int % 256)
  {
    var u := Packed(cs[0] as int % 256, cs[1] as int % 256, cs[2] as int % 256, cs[3] as int % 256);
    var code := EncodeFourcc(cs);
    if u < 0x8000_0000 {
      DivModUnique(code, 0x1_0000_0000, 0, u);
    } else {
      DivModUnique(code, 0x1_0000_0000, -1, u);
    }
  }

  /** Decoding a packed code gives back its four bytes. */
  lemma DecodePacked(b0: int, b1: int, b2: int, b3: int)
    requires IsByte(b0) && IsByte(b1) && IsByte(b2) && IsByte(b3)
    ensures forall i :: 0 <= i < 4 ==> DecodeFourcc(Packed(b0, b1, b2, b3))[i] as int == [b0, b1, b2, b3][i]
  {
    var d := DecodeFourcc(Packed(b0, b1, b2, b3));
    assert d[0] as int == b0 by { PackedByte0(b0, b1, b2, b3); }
    assert d[1] as int == b1 by { PackedByte1(b0, b1, b2, b3); }
    assert d[2] as int == b2 by { PackedByte2(b0, b1, b2, b3); }
    assert d[3] as int == b3 by { PackedByte3(b0, b1, b2, b3); }
  }

  /** Packing four characters the way cv2 does and decoding the code gives back each character's
      low byte. */
  lemma DecodeEncodeFourcc(cs: string)
    requires |cs| == 4
    ensures forall i :: 0 <= i < 4 ==> DecodeFourcc(EncodeFourcc(cs))[i] as int == cs[i] as int % 256
  {
    var b0, b1, b2, b3 := cs[0] as int % 256, cs[1] as int % 256, cs[2] as int % 256, cs[3] as int % 256;
    assert DecodeFourcc(EncodeFourcc(cs)) == DecodeFourcc(Packed(b0, b1, b2, b3)) by {
      EncodeFourccLow32(cs);
      DecodeFourccLow32(EncodeFourcc(cs));
    }
    DecodePacked(b0, b1, b2, b3);
  }

  /** For characters below 256, decoding the encoded text gives the text back. */
  lemma DecodeEncodeFourccBytes(cs: string)
    requires |cs| == 4 && forall i :: 0 <= i < 4 ==> cs[i] as int < 256
    ensures DecodeFourcc(EncodeFourcc(cs)) == cs
  {
    DecodeEncodeFourcc(cs);
    LowBytesEqual(DecodeFourcc(EncodeFourcc(cs)), cs);
  }

  /** A text whose characters are the low bytes of those of a text below 256 is that text. */
  lemma LowBytesEqual(d: string, cs: string)
    requires |d| == |cs| && forall i :: 0 <= i < |cs| ==> cs[i] as int < 256
    requires forall i :: 0 <= i < |cs| ==> d[i] as int == cs[i] as int % 256
    ensures d == cs
  {
    forall i | 0 <= i < |cs| ensures d[i] == cs[i] {
      assert d[i] as int == cs[i] as int;
    }
  }

  // ---------------------------------------------------------------- clip_points

  /** `clip_points(pts, width, height)`: x is clipped into [0, width] and y into [0, height].
      An empty list becomes a one-dimensional array, which the column slicing rejects. */
  function ClipPoints(pts: seq<Point>, width: int, height: int): (r: Result<seq<Point>>)
    ensures r.Err? <==> |pts| == 0
    ensures r.Err? ==> r.error == IndexError
    ensures r.Ok? ==> |r.value| == |pts|
    ensures r.Ok? ==> forall i :: 0 <= i < |pts| ==>
              r.value[i] == Point(Clamp(pts[i].x, 0, width), Clamp(pts[i].y, 0, height))
  {
    if |pts| == 0 then Err(IndexError)
    else Ok(seq(|pts|, i requires 0 <= i < |pts| => Point(Clamp(pts[i].x, 0, width), Clamp(pts[i].y, 0, height))))
  }

  predicate InImage(p: Point, width: int, height: int)
  {
    0 <= p.x <= width && 0 <= p.y <= height
  }

  /** Clipping keeps the number and order of the points, puts every point inside the image
      (bounds included), and leaves points already inside unchanged. */
  lemma ClipPointsInside(pts: seq<Point>, width: nat, height: nat)
    requires |pts| > 0
    ensures ClipPoints(pts, width, height).Ok?
    ensures var r := ClipPoints(pts, width, height).value;
      |r| == |pts| &&
      (forall i :: 0 <= i < |r| ==> InImage(r[i], width, height)) &&
      (forall i :: 0 <= i < |r| && InImage(pts[i], width, height) ==> r[i] == pts[i])
  {
  }

  /** Clipping twice is clipping once. */
  lemma ClipPointsIdempotent(pts: seq<Point>, width: int, height: int)
    requires |pts| > 0
    ensures ClipPoints(ClipPoints(pts, width, height).value, width, height) == ClipPoints(pts, width, height)
  {
    var once := ClipPoints(pts, width, height).value;
    var twice := ClipPoints(once, width, height).value;
    forall i | 0 <= i < |pts| ensures twice[i] == once[i] {
      var x, y := pts[i].x, pts[i].y;
      assert Clamp(Clamp(x, 0, width), 0, width) == Clamp(x, 0, width);
      assert Clamp(Clamp(y, 0, height), 0, height) == Clamp(y, 0, height);
    }
    assert twice == once;
  }

  // ---------------------------------------------------------------- str_to_sec

  /** The weight of the colon field `i` places from the right. */
  function Weight(i: nat): nat
    requires i < 3
  {
    if i == 0 then 1 else if i == 1 then 60 else 3600
  }

  /** `sum(x * int(t) for x, t in zip([1, 60, 3600], reversed(fields)))`, from the field `i` places from
      the right onwards: at most three fields are read, and a field that is not an integer is a ValueError. */
  function ColonSeconds(fields: seq<string>, i: nat): Result<int>
    requires i <= 3
    decreases 3 - i
  {
    if i == 3 || i >= |fields| then Ok(0)
    else
      match ParseInt(fields[|fields| - 1 - i])
      case Err(e) => Err(e)
      case Ok(v) =>
        match ColonSeconds(fields, i + 1)
        case Err(e) => Err(e)
        case Ok(rest) => Ok(Weight(i) * v + rest)
  }

  /** `str_to_sec(time_str)` in milliseconds: the text before the first "." is read as colon-separated
      seconds, minutes and hours, and the text after it (up to a second ".") as an integer number of
      milliseconds, so ".19" is 19 ms and ".100" is 100 ms. */
  function StrToMs(timeStr: string): (r: Result<int>)
    ensures r.Err? ==> r.error == ValueError
  {
    TimeParts(Split(timeStr, '.'))
  }

  /** The value of `time_str.split(".")`. */
  function TimeParts(parts: seq<string>): (r: Result<int>)
    requires |parts| >= 1
    ensures r.Err? ==> r.error == ValueError
  {
    match ColonSeconds(Split(parts[0], ':'), 0)
    case Err(e) => Err(e)
    case Ok(sec) =>
      if |parts| > 1 then
        match ParseInt(parts[1])
        case Err(e) => Err(e)
        case Ok(ms) => Ok(1000 * sec + ms)
      else Ok(1000 * sec)
  }

  lemma NoSeparatorInDigits(s: string, c: char)
    requires AllDigits(s) && !IsDigit(c)
    ensures c !in s
  {
    forall i | 0 <= i < |s| ensures s[i] != c {
      assert IsDigit(s[i]);
    }
  }

  /** Colon-joined digit fields contain no "." and split back into the fields. */
  lemma DigitFields(fields: seq<string>)
    requires |fields| >= 1 && forall i :: 0 <= i < |fields| ==> IsDigits(fields[i])
    ensures Split(Join(fields, ':'), '.') == [Join(fields, ':')]
    ensures Split(Join(fields, ':'), ':') == fields
  {
    forall i | 0 <= i < |fields| ensures ':' !in fields[i] { NoSeparatorInDigits(fields[i], ':'); }
    SplitJoin(fields, ':');
    NoDotInJoin(fields);
    SplitNoSeparator(Join(fields, ':'), '.');
  }

  lemma {:induction false} NoDotInJoin(fields: seq<string>)
    requires |fields| >= 1 && forall i :: 0 <= i < |fields| ==> IsDigits(fields[i])
    ensures '.' !in Join(fields, ':')
    decreases |fields|
  {
    NoSeparatorInDigits(fields[0], '.');
    if |fields| > 1 {
      NoDotInJoin(fields[1..]);
    }
  }

  lemma ColonSecondsStep(fields: seq<string>, i: nat, v: int, rest: int)
    requires i < 3 && i < |fields|
    requires ParseInt(fields[|fields| - 1 - i]) == Ok(v) && ColonSeconds(fields, i + 1) == Ok(rest)
    ensures i == 0 ==> ColonSeconds(fields, i) == Ok(v + rest)
    ensures i == 1 ==> ColonSeconds(fields, i) == Ok(60 * v + rest)
    ensures i == 2 ==> ColonSeconds(fields, i) == Ok(3600 * v + rest)
  {
  }

  lemma ColonSecondsTwo(m: string, s: string, vm: int, vs: int)
    requires ParseInt(m) == Ok(vm) && ParseInt(s) == Ok(vs)
    ensures ColonSeconds([m, s], 0) == Ok(vs + 60 * vm)
  {
    var fields := [m, s];
    assert ColonSeconds(fields, 2) == Ok(0);
    ColonSecondsStep(fields, 1, vm, 0);
    ColonSecondsStep(fields, 0, vs, 60 * vm);
  }

  lemma ColonSecondsThree(h: string, m: string, s: string, vh: int, vm: int, vs: int)
    requires ParseInt(h) == Ok(vh) && ParseInt(m) == Ok(vm) && ParseInt(s) == Ok(vs)
    ensures ColonSeconds([h, m, s], 0) == Ok(vs + 60 * vm + 3600 * vh)
  {
    var fields := [h, m, s];
    assert ColonSeconds(fields, 3) == Ok(0);
    ColonSecondsStep(fields, 2, vh, 0);
    ColonSecondsStep(fields, 1, vm, 3600 * vh);
    ColonSecondsStep(fields, 0, vs, 60 * vm + 3600 * vh);
  }

  /** StrToMs of a text without ".". */
  lemma StrToMsNoDot(t: string, sec: int)
    requires Split(t, '.') == [t]
    requires ColonSeconds(Split(t, ':'), 0) == Ok(sec)
    ensures StrToMs(t) == Ok(1000 * sec)
  {
  }

  /** StrToMs of a text with one ".". */
  lemma StrToMsOneDot(s: string, t: string, f: string, sec: int, ms: int)
    requires Split(s, '.') == [t, f]
    requires ColonSeconds(Split(t, ':'), 0) == Ok(sec)
    requires ParseInt(f) == Ok(ms)
    ensures StrToMs(s) == Ok(1000 * sec + ms)
  {
  }

  /** A single field of digits that reads as vs is that many seconds. */
  lemma StrToMsSeconds(s: string, vs: int)
    requires IsDigits(s) && ParseInt(s) == Ok(vs)
    ensures StrToMs(s) == Ok(1000 * vs)
  {
    DigitFields([s]);
    assert Join([s], ':') == s;
    var fields := [s];
    assert ColonSeconds(fields, 1) == Ok(0);
    ColonSecondsStep(fields, 0, vs, 0);
    StrToMsNoDot(s, vs);
  }

  /** "h:m:s" whose fields read as vh, vm and vs weighs them 3600, 60 and 1; with no "." the millisecond part is 0. */
  lemma StrToMsHms(h: string, m: string, s: string, vh: int, vm: int, vs: int)
    requires IsDigits(h) && IsDigits(m) && IsDigits(s)
    requires ParseInt(h) == Ok(vh) && ParseInt(m) == Ok(vm) && ParseInt(s) == Ok(vs)
    ensures StrToMs(h + ":" + m + ":" + s) == Ok(1000 * (3600 * vh + 60 * vm + vs))
  {
    JoinThree(h, m, s);
    DigitFields([h, m, s]);
    ColonSecondsThree(h, m, s, vh, vm, vs);
    StrToMsNoDot(h + ":" + m + ":" + s, vs + 60 * vm + 3600 * vh);
  }

  lemma JoinThree(h: string, m: string, s: string)
    ensures Join([h, m, s], ':') == h + ":" + m + ":" + s
  {
    assert [h, m, s][1..] == [m, s] && [m, s][1..] == [s];
    assert Join([s], ':') == s;
    assert Join([m, s], ':') == m + [':'] + s;
  }

  /** "m:s" whose fields read as vm and vs weighs them 60 and 1. */
  lemma StrToMsMs(m: string, s: string, vm: int, vs: int)
    requires IsDigits(m) && IsDigits(s)
    requires ParseInt(m) == Ok(vm) && ParseInt(s) == Ok(vs)
    ensures StrToMs(m + ":" + s) == Ok(1000 * (60 * vm + vs))
  {
    JoinTwo(m, s);
    DigitFields([m, s]);
    ColonSecondsTwo(m, s, vm, vs);
    StrToMsNoDot(m + ":" + s, vs + 60 * vm);
  }

  lemma JoinTwo(m: string, s: string)
    ensures Join([m, s], ':') == m + ":" + s
  {
    assert [m, s][1..] == [s];
  }

  /** "m:s" with fields free of "." and ":" splits into no "." pieces and the two colon fields. */
  lemma TwoFields(m: string, s: string)
    requires '.' !in m && ':' !in m && '.' !in s && ':' !in s
    ensures Split(m + ":" + s, '.') == [m + ":" + s]
    ensures Split(m + ":" + s, ':') == [m, s]
  {
    assert '.' !in m + ":" + s;
    SplitNoSeparator(m + ":" + s, '.');
    ColonFieldsTwo(m, s);
  }

  lemma ColonFieldsTwo(m: string, s: string)
    requires ':' !in m && ':' !in s
    ensures Split(m + ":" + s, ':') == [m, s]
  {
    JoinTwo(m, s);
    assert forall i :: 0 <= i < |[m, s]| ==> ':' !in [m, s][i];
    SplitJoin([m, s], ':');
  }

  /** "m:s" whose fields `int()` reads as vm and vs, signs included, is 60·vm + vs seconds: so
      "-1:30" is -30 s, not -90 s. */
  lemma StrToMsSignedMs(m: string, s: string, vm: int, vs: int)
    requires '.' !in m && ':' !in m && '.' !in s && ':' !in s
    requires ParseInt(m) == Ok(vm) && ParseInt(s) == Ok(vs)
    ensures StrToMs(m + ":" + s) == Ok(1000 * (60 * vm + vs))
  {
    TwoFields(m, s);
    ColonSecondsTwo(m, s, vm, vs);
    StrToMsNoDot(m + ":" + s, vs + 60 * vm);
  }

  /** tests/test_misc.py reads no signed time; `int()` accepts "-1", so "-1:30" is -30 s. */
  lemma StrToMsExampleSigned()
    ensures StrToMs("-1" + ":" + "30") == Ok(-30000)
  {
    TwoDigits("30");
    assert ("-1")[1..] == "1";
    StrToMsSignedMs("-1", "30", -1, 30);
  }

  /** A seconds field that `int()` rejects makes `str_to_sec` raise ValueError. */
  lemma StrToMsBadField(m: string, s: string)
    requires '.' !in m && ':' !in m && '.' !in s && ':' !in s
    requires ParseInt(s).Err?
    ensures StrToMs(m + ":" + s) == Err(ValueError)
  {
    TwoFields(m, s);
    assert [m, s][|[m, s]| - 1] == s;
  }

  /** The digits after "." are added as whole milliseconds: ".19" adds 19 and ".100" adds 100. */
  lemma StrToMsFraction(t: string, f: string)
    requires '.' !in t && IsDigits(f)
    requires StrToMs(t).Ok?
    ensures StrToMs(t + "." + f) == Ok(StrToMs(t).value + Value(f))
  {
    var s := t + "." + f;
    NoSeparatorInDigits(f, '.');
    SplitNoSeparator(t, '.');
    SplitNoSeparator(f, '.');
    assert s == t + ['.'] + f;
    SplitConcat(t, f, '.');
    var sec := ColonSeconds(Split(t, ':'), 0).value;
    StrToMsNoDot(t, sec);
    StrToMsOneDot(s, t, f, sec, Value(f));
  }

  /** Colon fields beyond the third from the right are never read. */
  lemma {:induction false} ColonSecondsSuffix(pre: seq<string>, fields: seq<string>, i: nat)
    requires i <= 3 && |fields| >= 3
    ensures ColonSeconds(pre + fields, i) == ColonSeconds(fields, i)
    decreases 3 - i
  {
    if i < 3 {
      assert (pre + fields)[|pre + fields| - 1 - i] == fields[|fields| - 1 - i];
      ColonSecondsSuffix(pre, fields, i + 1);
    }
  }

  /** Texts whose first "."-piece reads as the same seconds and whose other pieces agree read alike. */
  lemma StrToMsSameSeconds(s1: string, s2: string)
    requires Split(s1, '.')[1..] == Split(s2, '.')[1..]
    requires ColonSeconds(Split(Split(s1, '.')[0], ':'), 0) == ColonSeconds(Split(Split(s2, '.')[0], ':'), 0)
    ensures StrToMs(s1) == StrToMs(s2)
  {
    TimePartsSame(Split(s1, '.'), Split(s2, '.'));
  }

  lemma TimePartsSame(p1: seq<string>, p2: seq<string>)
    requires |p1| >= 1 && |p2| >= 1 && p1[1..] == p2[1..]
    requires ColonSeconds(Split(p1[0], ':'), 0) == ColonSeconds(Split(p2[0], ':'), 0)
    ensures TimeParts(p1) == TimeParts(p2)
  {
    assert |p1| == |p2|;
    if |p1| > 1 {
      assert p1[1] == p1[1..][0] == p2[1..][0] == p2[1];
    }
  }

  /** Prefixing further colon fields to a time with three or more fields changes nothing. */
  lemma StrToMsExtraFields(x: string, t: string)
    requires '.' !in x
    requires |Split(Split(t, '.')[0], ':')| >= 3
    ensures StrToMs(x + ":" + t) == StrToMs(t)
  {
    var s := x + ":" + t;
    var tp := Split(t, '.');
    assert s == (x + ":") + t;
    assert '.' !in x + ":" by { NoDotColon(x); }
    SplitPrefix(x + ":", t, '.');
    var sp := Split(s, '.');
    assert sp[0] == x + [':'] + tp[0] && sp[1..] == tp[1..];
    SplitConcat(x, tp[0], ':');
    ColonSecondsSuffix(Split(x, ':'), Split(tp[0], ':'), 0);
    StrToMsSameSeconds(s, t);
  }

  lemma NoDotColon(x: string)
    requires '.' !in x
    ensures '.' !in [':'] + x && '.' !in x + ":"
  {
  }

  /** A two-digit field reads as tens and units. */
  lemma TwoDigits(s: string)
    requires |s| == 2 && AllDigits(s)
    ensures ParseInt(s) == Ok(10 * DigitValue(s[0]) + DigitValue(s[1]))
  {
    var p := s[..1];
    assert p[..0] == [] && p[0] == s[0] && s[..|s| - 1] == p;
    assert AllDigits(p) by { assert IsDigit(s[0]); }
    assert Value(p) == DigitValue(s[0]);
    assert Value(s) == 10 * Value(p) + DigitValue(s[1]);
  }

  /** Examples of tests/test_misc.py with two colon fields, in milliseconds. */
  lemma StrToMsExampleSecond()
    ensures StrToMs("0" + ":" + "1") == Ok(1000)
  {
    StrToMsMs("0", "1", 0, 1);
  }

  lemma StrToMsExampleMinute()
    ensures StrToMs("1" + ":" + "0") == Ok(60000)
  {
    StrToMsMs("1", "0", 1, 0);
  }

  lemma StrToMsExampleMinutesSeconds()
    ensures StrToMs("02" + ":" + "23") == Ok(143000)
  {
    TwoDigits("02");
    TwoDigits("23");
    StrToMsMs("02", "23", 2, 23);
  }

  /** Examples of tests/test_misc.py with three colon fields, in milliseconds. */
  lemma StrToMsExampleHourOnly()
    ensures StrToMs("1" + ":" + "0" + ":" + "0") == Ok(3600000)
  {
    StrToMsHms("1", "0", "0", 1, 0, 0);
  }

  lemma StrToMsExampleOnes()
    ensures StrToMs("1" + ":" + "1" + ":" + "1") == Ok(3661000)
  {
    StrToMsHms("1", "1", "1", 1, 1, 1);
  }

  lemma StrToMsExampleLeadingZeroHour()
    ensures StrToMs("00" + ":" + "02" + ":" + "23") == Ok(143000)
  {
    TwoDigits("00");
    TwoDigits("02");
    TwoDigits("23");
    StrToMsHms("00", "02", "23", 0, 2, 23);
  }

  lemma StrToMsExampleMixed()
    ensures StrToMs("01" + ":" + "02" + ":" + "23") == Ok(3743000)
  {
    TwoDigits("01");
    TwoDigits("02");
    TwoDigits("23");
    StrToMsHms("01", "02", "23", 1, 2, 23);
  }

  lemma ThreeDigits(s: string)
    requires |s| == 3 && AllDigits(s)
    ensures ParseInt(s) == Ok(100 * DigitValue(s[0]) + 10 * DigitValue(s[1]) + DigitValue(s[2]))
  {
    var p := s[..2];
    assert s[..|s| - 1] == p && p[0] == s[0] && p[1] == s[1];
    assert AllDigits(p) by { assert IsDigit(s[0]) && IsDigit(s[1]); }
    TwoDigits(p);
    assert Value(s) == 10 * Value(p) + DigitValue(s[2]);
  }

  /** "h:m:s.f" adds the integer that f reads as, in milliseconds, to the time of "h:m:s". */
  lemma StrToMsHmsMs(h: string, m: string, s: string, f: string, vh: int, vm: int, vs: int, vf: int)
    requires IsDigits(h) && IsDigits(m) && IsDigits(s) && IsDigits(f)
    requires ParseInt(h) == Ok(vh) && ParseInt(m) == Ok(vm) && ParseInt(s) == Ok(vs) && ParseInt(f) == Ok(vf)
    ensures StrToMs(h + ":" + m + ":" + s + "." + f) == Ok(1000 * (3600 * vh + 60 * vm + vs) + vf)
  {
    StrToMsHms(h, m, s, vh, vm, vs);
    JoinThree(h, m, s);
    NoDotInJoin([h, m, s]);
    StrToMsFraction(h + ":" + m + ":" + s, f);
  }

  /** Examples of tests/test_misc.py with a part after ".": it is read as a count of milliseconds,
      so ".19" adds 19 ms and ".100" adds 100 ms. */
  lemma StrToMsExampleHundredMs()
    ensures StrToMs("1" + ":" + "0" + ":" + "0" + "." + "100") == Ok(3600100)
  {
    ThreeDigits("100");
    StrToMsHmsMs("1", "0", "0", "100", 1, 0, 0, 100);
  }

  lemma StrToMsExampleNineteenMs()
    ensures StrToMs("1" + ":" + "0" + ":" + "0" + "." + "19") == Ok(3600019)
  {
    TwoDigits("19");
    StrToMsHmsMs("1", "0", "0", "19", 1, 0, 0, 19);
  }

  lemma StrToMsExampleThreeDigitMs()
    ensures StrToMs("1" + ":" + "0" + ":" + "0" + "." + "765") == Ok(3600765)
  {
    ThreeDigits("765");
    StrToMsHmsMs("1", "0", "0", "765", 1, 0, 0, 765);
  }
}
