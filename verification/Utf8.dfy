/** UTF-8 (section 3.9 of the Unicode Standard) as Rust's `str` holds it: the bytes of a text,
    and the byte offsets that fall on a character boundary. */
module Utf8 {
  import opened Strings

  type byte = n: int | 0 <= n < 256

  // ----- widths and boundaries -----

  /** `char::len_utf8`. */
  function Width(c: char): (w: nat)
    ensures 1 <= w <= 4
  {
    var n := c as int;
    if n < 0x80 then 1 else if n < 0x800 then 2 else if n < 0x10000 then 3 else 4
  }

  /** The byte offset of the character position `i`. */
  function Offset(s: string, i: nat): nat
    requires i <= |s|
  {
    if i == 0 then 0 else Offset(s, i - 1) + Width(s[i - 1])
  }

  /** `str::len`, in bytes. */
  function Len(s: string): nat {
    Offset(s, |s|)
  }

  lemma {:induction false} OffsetShift(r: string, i: nat, t: string, k: nat)
    requires k <= |t| && i + k <= |r| && forall m :: 0 <= m < k ==> r[i + m] == t[m]
    ensures Offset(r, i + k) == Offset(r, i) + Offset(t, k)
  {
    if k > 0 {
      OffsetShift(r, i, t, k - 1);
    }
  }

  /** Offsets look only at what stands before them. */
  lemma OffsetOfPrefix(r: string, t: string, k: nat)
    requires k <= |t| && k <= |r| && forall m :: 0 <= m < k ==> r[m] == t[m]
    ensures Offset(r, k) == Offset(t, k)
  {
    OffsetShift(r, 0, t, k);
  }

  lemma LenConcat(a: string, b: string)
    ensures Len(a + b) == Len(a) + Len(b)
  {
    OffsetOfPrefix(a + b, a, |a|);
    OffsetShift(a + b, |a|, b, |b|);
  }

  lemma {:induction false} OffsetGrows(s: string, i: nat, j: nat)
    requires i <= j <= |s|
    ensures j - i <= Offset(s, j) - Offset(s, i)
  {
    if i < j {
      OffsetGrows(s, i, j - 1);
    }
  }

  lemma LenAtLeast(s: string)
    ensures |s| <= Len(s)
  {
    OffsetGrows(s, 0, |s|);
  }

  /** `str::is_char_boundary`: the offsets of the text's character positions. */
  predicate Boundary(s: string, n: nat) {
    exists i: nat :: 0 <= i <= |s| && Offset(s, i) == n
  }

  /** Which character position the boundary `n` is. */
  function Index(s: string, n: nat): (i: nat)
    requires Boundary(s, n)
    ensures i <= |s| && Offset(s, i) == n
  {
    assert forall i: nat, j: nat :: i <= |s| && j <= |s| && Offset(s, i) == n && Offset(s, j) == n ==> i == j by {
      forall i: nat, j: nat | i < j <= |s| ensures Offset(s, i) < Offset(s, j) {
        OffsetGrows(s, i, j);
      }
    }
    var i: nat :| 0 <= i <= |s| && Offset(s, i) == n;
    i
  }

  /** Offsets and positions are one another's inverse. */
  lemma IndexOfOffset(s: string, i: nat)
    requires i <= |s|
    ensures Boundary(s, Offset(s, i)) && Index(s, Offset(s, i)) == i
  {
    var j := Index(s, Offset(s, i));
    if i < j {
      OffsetGrows(s, i, j);
    } else {
      OffsetGrows(s, j, i);
    }
  }

  /** Boundaries and character positions are ordered alike. */
  lemma IndexOrder(s: string, m: nat, n: nat)
    requires Boundary(s, m) && Boundary(s, n)
    ensures m < n <==> Index(s, m) < Index(s, n)
  {
    var i, j := Index(s, m), Index(s, n);
    if i < j {
      OffsetGrows(s, i, j);
    } else {
      OffsetGrows(s, j, i);
    }
  }

  lemma EndsAreBoundaries(s: string)
    ensures Boundary(s, 0) && Index(s, 0) == 0
    ensures Boundary(s, Len(s)) && Index(s, Len(s)) == |s|
  {
    IndexOfOffset(s, 0);
    IndexOfOffset(s, |s|);
  }

  // ----- bytes -----

  function EncodeChar(c: char): (b: seq<byte>)
    ensures |b| == Width(c)
  {
    var n := c as int;
    if n < 0x80 then [n]
    else if n < 0x800 then [0xC0 + n / 64, 0x80 + n % 64]
    else if n < 0x10000 then [0xE0 + n / 4096, 0x80 + n / 64 % 64, 0x80 + n % 64]
    else [0xF0 + n / 262144, 0x80 + n / 4096 % 64, 0x80 + n / 64 % 64, 0x80 + n % 64]
  }

  /** `str::as_bytes`. */
  function Encode(s: string): seq<byte> {
    if s == [] then [] else EncodeChar(s[0]) + Encode(s[1..])
  }

  lemma {:induction false} EncodeLength(s: string)
    ensures |Encode(s)| == Len(s)
  {
    if s != [] {
      EncodeLength(s[1..]);
      assert s == [s[0]] + s[1..];
      LenConcat([s[0]], s[1..]);
      assert Offset([s[0]], 1) == Offset([s[0]], 0) + Width(s[0]);
    }
  }

  function Continuation(b: seq<byte>, k: nat): Option<int> {
    if k < |b| && 0x80 <= b[k] < 0xC0 then Some(b[k] - 0x80) else None
  }

  /** The code point a byte sequence begins with, overlong and surrogate forms refused. */
  function DecodeChar(b: seq<byte>): (r: Option<char>)
    requires b != []
    ensures r.Some? ==> Width(r.value) <= |b|
  {
    if b[0] < 0x80 then Some(b[0] as char)
    else
      match (Continuation(b, 1), Continuation(b, 2), Continuation(b, 3))
      case (Some(x), _, _) =>
        if 0xC2 <= b[0] < 0xE0 then Some(((b[0] - 0xC0) * 64 + x) as char)
        else DecodeLong(b, x)
      case _ => None
  }

  function DecodeLong(b: seq<byte>, x: int): (r: Option<char>)
    requires |b| > 1 && 0 <= x < 64
    ensures r.Some? ==> Width(r.value) <= |b|
  {
    match (Continuation(b, 2), Continuation(b, 3))
    case (Some(y), z) =>
      if 0xE0 <= b[0] < 0xF0 then
        var n := (b[0] - 0xE0) * 4096 + x * 64 + y;
        if 0x800 <= n && Scalar(n) then Some(n as char) else None
      else if 0xF0 <= b[0] < 0xF8 && z.Some? then
        var n := (b[0] - 0xF0) * 262144 + x * 4096 + y * 64 + z.value;
        if 0x10000 <= n && Scalar(n) then Some(n as char) else None
      else None
    case _ => None
  }

  /** `std::str::from_utf8`. */
  function Decode(b: seq<byte>): Option<string> {
    if b == [] then Some([]) else
      match DecodeChar(b)
      case None => None
      case Some(c) =>
        match Decode(b[Width(c)..])
        case None => None
        case Some(rest) => Some([c] + rest)
  }

  /** Six-bit digits: taking the last one off, and what is left. */
  lemma LastDigit(a: int, z: int)
    requires 0 <= z < 64
    ensures (a * 64 + z) / 64 == a && (a * 64 + z) % 64 == z
  {
  }

  lemma Digits(a: int, x: int, y: int, z: int)
    requires 0 <= a && 0 <= x < 64 && 0 <= y < 64 && 0 <= z < 64
    ensures var n := a * 64 + x; n / 64 == a && n % 64 == x
    ensures var n := a * 4096 + x * 64 + y; n / 4096 == a && n / 64 % 64 == x && n % 64 == y
    ensures var n := a * 262144 + x * 4096 + y * 64 + z;
      n / 262144 == a && n / 4096 % 64 == x && n / 64 % 64 == y && n % 64 == z
  {
    LastDigit(a, x);
    LastDigit(a * 64 + x, y);
    LastDigit(a * 4096 + x * 64 + y, z);
  }

  lemma OfDigits(n: int)
    requires 0 <= n
    ensures n == (n / 64) * 64 + n % 64
    ensures n == (n / 4096) * 4096 + (n / 64 % 64) * 64 + n % 64
    ensures n == (n / 262144) * 262144 + (n / 4096 % 64) * 4096 + (n / 64 % 64) * 64 + n % 64
  {
    assert n / 4096 == n / 64 / 64;
    assert n / 262144 == n / 64 / 64 / 64;
  }

  lemma DecodeCharInverts(c: char, rest: seq<byte>)
    ensures DecodeChar(EncodeChar(c) + rest) == Some(c)
  {
    OfDigits(c as int);
    var b := EncodeChar(c) + rest;
    assert forall k :: 0 <= k < Width(c) ==> b[k] == EncodeChar(c)[k];
  }

  lemma EncodeLongInverts(b: seq<byte>, x: int)
    requires |b| > 1 && Continuation(b, 1) == Some(x) && DecodeLong(b, x).Some?
    ensures EncodeChar(DecodeLong(b, x).value) == b[..Width(DecodeLong(b, x).value)]
  {
    var c := DecodeLong(b, x).value;
    if b[0] < 0xF0 {
      Digits(b[0] - 0xE0, x, b[2] - 0x80, 0);
      assert Width(c) == 3;
    } else {
      Digits(b[0] - 0xF0, x, b[2] - 0x80, b[3] - 0x80);
      assert Width(c) == 4;
    }
  }

  lemma EncodeCharInverts(b: seq<byte>)
    requires b != [] && DecodeChar(b).Some?
    ensures EncodeChar(DecodeChar(b).value) == b[..Width(DecodeChar(b).value)]
  {
    if 0x80 <= b[0] {
      var x := Continuation(b, 1).value;
      if b[0] < 0xE0 {
        Digits(b[0] - 0xC0, x, 0, 0);
      } else {
        EncodeLongInverts(b, x);
      }
    }
  }

  /** Reading the bytes of a text gives it back. */
  lemma {:induction false} DecodeEncode(s: string)
    ensures Decode(Encode(s)) == Some(s)
  {
    if s != [] {
      var b := Encode(s);
      assert b == EncodeChar(s[0]) + Encode(s[1..]);
      DecodeCharInverts(s[0], Encode(s[1..]));
      assert b[Width(s[0])..] == Encode(s[1..]);
      DecodeEncode(s[1..]);
      assert [s[0]] + s[1..] == s;
    }
  }

  lemma EncodeCons(b: seq<byte>, c: char, rest: string)
    requires Width(c) <= |b| && EncodeChar(c) == b[..Width(c)] && Encode(rest) == b[Width(c)..]
    ensures Encode([c] + rest) == b
  {
    assert ([c] + rest)[1..] == rest;
  }

  /** A text read from bytes has exactly those bytes. */
  lemma {:induction false} EncodeDecode(b: seq<byte>)
    requires Decode(b).Some?
    ensures Encode(Decode(b).value) == b
  {
    if b != [] {
      EncodeCharInverts(b);
      var c := DecodeChar(b).value;
      EncodeDecode(b[Width(c)..]);
      EncodeCons(b, c, Decode(b[Width(c)..]).value);
    }
  }
}
