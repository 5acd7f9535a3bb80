/** Base64 as the layer's shared profile reads it: the standard alphabet with padding (section 4
    of RFC 4648), canonical, so nonzero pad bits are refused. */
module Base64 {
  import opened Strings
  import opened Utf8

  type sextet = n: int | 0 <= n < 64

  function Symbol(v: sextet): char {
    if v < 26 then (v + 'A' as int) as char
    else if v < 52 then (v - 26 + 'a' as int) as char
    else if v < 62 then (v - 52 + '0' as int) as char
    else if v == 62 then '+' else '/'
  }

  predicate IsSymbol(c: char) {
    'A' <= c <= 'Z' || 'a' <= c <= 'z' || '0' <= c <= '9' || c == '+' || c == '/'
  }

  function ValueOf(c: char): sextet
    requires IsSymbol(c)
  {
    if 'A' <= c <= 'Z' then c as int - 'A' as int
    else if 'a' <= c <= 'z' then c as int - 'a' as int + 26
    else if '0' <= c <= '9' then c as int - '0' as int + 52
    else if c == '+' then 62 else 63
  }

  lemma SymbolInverts(v: sextet)
    ensures IsSymbol(Symbol(v)) && ValueOf(Symbol(v)) == v
  {
  }

  lemma ValueInverts(c: char)
    requires IsSymbol(c)
    ensures Symbol(ValueOf(c)) == c
  {
  }

  /** The four sextets of three bytes, and back. */
  function Split(a: byte, b: byte, c: byte): (sextet, sextet, sextet, sextet) {
    (a / 4, a % 4 * 16 + b / 16, b % 16 * 4 + c / 64, c % 64)
  }

  function Merge(w: sextet, x: sextet, y: sextet, z: sextet): (byte, byte, byte) {
    (w * 4 + x / 16, x % 16 * 16 + y / 4, y % 4 * 64 + z)
  }

  lemma MergeSplit(a: byte, b: byte, c: byte)
    ensures var (w, x, y, z) := Split(a, b, c); Merge(w, x, y, z) == (a, b, c)
  {
  }

  lemma SplitMerge(w: sextet, x: sextet, y: sextet, z: sextet)
    ensures var (a, b, c) := Merge(w, x, y, z); Split(a, b, c) == (w, x, y, z)
  {
  }

  /** A last group on paper: its sextets and how many bytes they carry. */
  datatype Group = Group(w: sextet, x: sextet, y: sextet, z: sextet, n: nat)

  predicate Whole(g: Group) {
    1 <= g.n <= 3 && (g.n < 3 ==> g.z == 0) && (g.n < 2 ==> g.y == 0)
  }

  function Written(g: Group): (s: string)
    ensures |s| == 4
  {
    [Symbol(g.w), Symbol(g.x), if g.n > 1 then Symbol(g.y) else '=', if g.n > 2 then Symbol(g.z) else '=']
  }

  function Read(s: string): (g: Option<Group>)
    requires |s| == 4
    ensures g.Some? ==> Whole(g.value)
  {
    if !IsSymbol(s[0]) || !IsSymbol(s[1]) then None
    else if IsSymbol(s[2]) && IsSymbol(s[3]) then
      Some(Group(ValueOf(s[0]), ValueOf(s[1]), ValueOf(s[2]), ValueOf(s[3]), 3))
    else if IsSymbol(s[2]) && s[3] == '=' then
      Some(Group(ValueOf(s[0]), ValueOf(s[1]), ValueOf(s[2]), 0, 2))
    else if s[2] == '=' && s[3] == '=' then
      Some(Group(ValueOf(s[0]), ValueOf(s[1]), 0, 0, 1))
    else None
  }

  lemma ReadWritten(g: Group)
    requires Whole(g)
    ensures Read(Written(g)) == Some(g)
  {
    SymbolInverts(g.w);
    SymbolInverts(g.x);
    SymbolInverts(g.y);
    SymbolInverts(g.z);
    assert !IsSymbol('=');
  }

  lemma WrittenRead(s: string)
    requires |s| == 4 && Read(s).Some?
    ensures Written(Read(s).value) == s
  {
    ValueInverts(s[0]);
    ValueInverts(s[1]);
    if IsSymbol(s[2]) {
      ValueInverts(s[2]);
    }
    if IsSymbol(s[3]) {
      ValueInverts(s[3]);
    }
  }

  function GroupOf(data: seq<byte>): (g: Group)
    requires 1 <= |data| <= 3
    ensures Whole(g)
  {
    var b := if |data| > 1 then data[1] else 0;
    var c := if |data| > 2 then data[2] else 0;
    var (w, x, y, z) := Split(data[0], b, c);
    Group(w, x, y, z, |data|)
  }

  /** The bytes of a group; refused when the bits that padding leaves unused are not zero. */
  function BytesOf(g: Group): (data: Option<seq<byte>>)
    requires Whole(g)
    ensures data.Some? ==> |data.value| == g.n
  {
    var (a, b, c) := Merge(g.w, g.x, g.y, g.z);
    if g.n == 3 then Some([a, b, c])
    else if g.n == 2 then if c == 0 then Some([a, b]) else None
    else if b == 0 && c == 0 then Some([a]) else None
  }

  lemma BytesOfGroup(data: seq<byte>)
    requires 1 <= |data| <= 3
    ensures BytesOf(GroupOf(data)) == Some(data)
  {
    MergeSplit(data[0], if |data| > 1 then data[1] else 0, if |data| > 2 then data[2] else 0);
    assert |data| == 1 ==> data == [data[0]];
    assert |data| == 2 ==> data == [data[0], data[1]];
    assert |data| == 3 ==> data == [data[0], data[1], data[2]];
  }

  lemma GroupOfBytes(g: Group)
    requires Whole(g) && BytesOf(g).Some?
    ensures GroupOf(BytesOf(g).value) == g
  {
    SplitMerge(g.w, g.x, g.y, g.z);
  }

  function Encode(data: seq<byte>): string {
    if data == [] then []
    else if |data| <= 3 then Written(GroupOf(data))
    else Written(GroupOf(data[..3])) + Encode(data[3..])
  }

  function DecodeLast(s: string): (data: Option<seq<byte>>)
    requires |s| == 4
    ensures data.Some? ==> 1 <= |data.value| <= 3
  {
    match Read(s)
    case None => None
    case Some(g) => BytesOf(g)
  }

  function Decode(s: string): (r: Option<seq<byte>>) {
    if s == [] then Some([])
    else if |s| < 4 then None
    else if |s| == 4 then DecodeLast(s)
    else
      match (DecodeLast(s[..4]), Decode(s[4..]))
      case (Some(head), Some(rest)) => if |head| == 3 then Some(head + rest) else None
      case _ => None
  }

  lemma DecodeLastInverts(data: seq<byte>)
    requires 1 <= |data| <= 3
    ensures DecodeLast(Written(GroupOf(data))) == Some(data)
  {
    ReadWritten(GroupOf(data));
    BytesOfGroup(data);
  }

  /** Decoding what was encoded gives the bytes back. */
  lemma {:induction false} DecodeEncode(data: seq<byte>)
    ensures Decode(Encode(data)) == Some(data)
  {
    if 1 <= |data| <= 3 {
      DecodeLastInverts(data);
    } else if data != [] {
      var head, rest := Written(GroupOf(data[..3])), Encode(data[3..]);
      DecodeLastInverts(data[..3]);
      DecodeEncode(data[3..]);
      assert rest != [];
      assert (head + rest)[..4] == head && (head + rest)[4..] == rest;
      assert data[..3] + data[3..] == data;
    }
  }

  /** Four characters for every three bytes begun, all of them symbols or padding. */
  lemma {:induction false} EncodeLength(data: seq<byte>)
    ensures |Encode(data)| == (|data| + 2) / 3 * 4
    ensures forall c :: c in Encode(data) ==> IsSymbol(c) || c == '='
  {
    if data != [] {
      WrittenAlphabet(GroupOf(if |data| <= 3 then data else data[..3]));
      if |data| > 3 {
        EncodeLength(data[3..]);
        assert (|data| + 2) / 3 == 1 + (|data[3..]| + 2) / 3;
      }
    }
  }

  lemma WrittenAlphabet(g: Group)
    ensures forall c :: c in Written(g) ==> IsSymbol(c) || c == '='
  {
    SymbolInverts(g.w);
    SymbolInverts(g.x);
    SymbolInverts(g.y);
    SymbolInverts(g.z);
  }

  lemma EncodeLastInverts(s: string)
    requires |s| == 4 && DecodeLast(s).Some?
    ensures Written(GroupOf(DecodeLast(s).value)) == s
  {
    WrittenRead(s);
    GroupOfBytes(Read(s).value);
  }

  /** Canonical: bytes have one base64 text, so decoding accepts exactly what encoding makes. */
  lemma {:induction false} EncodeDecode(s: string)
    requires Decode(s).Some?
    ensures Encode(Decode(s).value) == s
  {
    if |s| == 4 {
      EncodeLastInverts(s);
    } else if s != [] {
      var head, rest := DecodeLast(s[..4]).value, Decode(s[4..]).value;
      EncodeLastInverts(s[..4]);
      EncodeDecode(s[4..]);
      assert (head + rest)[..3] == head && (head + rest)[3..] == rest;
      assert rest != [];
      assert s[..4] + s[4..] == s;
    }
  }

  /** The alphabet of section 4 of RFC 4648: `A` to `Z`, `a` to `z`, `0` to `9`, `+` and `/`. */
  lemma AlphabetIs(v: sextet)
    ensures Symbol(0) == 'A' && Symbol(25) == 'Z' && Symbol(26) == 'a' && Symbol(51) == 'z'
    ensures Symbol(52) == '0' && Symbol(61) == '9' && Symbol(62) == '+' && Symbol(63) == '/'
    ensures v < 61 && v != 25 && v != 51 ==> Symbol(v + 1) as int == Symbol(v) as int + 1
  {
  }

  /** Three bytes are four symbols, most significant bits first; one and two are padded. */
  lemma GroupsAre(a: byte, b: byte, c: byte)
    ensures Encode([a]) == [Symbol(a / 4), Symbol(a % 4 * 16), '=', '=']
    ensures Encode([a, b]) == [Symbol(a / 4), Symbol(a % 4 * 16 + b / 16), Symbol(b % 16 * 4), '=']
    ensures Encode([a, b, c])
      == [Symbol(a / 4), Symbol(a % 4 * 16 + b / 16), Symbol(b % 16 * 4 + c / 64), Symbol(c % 64)]
  {
  }

  /** And a text of several groups is theirs, one after the other. */
  lemma GroupsFollow(group: seq<byte>, rest: seq<byte>)
    requires |group| == 3 && rest != []
    ensures Encode(group + rest) == Encode(group) + Encode(rest)
  {
    assert (group + rest)[..3] == group && (group + rest)[3..] == rest;
  }
}
