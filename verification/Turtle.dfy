/** RDF 1.1 Turtle, the part the layer's entries are written in: how a reader takes their tokens
    and statements (section 6.4 for escapes, section 6.5 for the grammar), and how `layer.rs`
    writes literals and IRI references. */
module Turtle {
  import opened Strings

  // ----- writing -----

  /** An upper-case hexadecimal digit. */
  function HexDigit(v: nat): char
    requires v < 16
  {
    if v < 10 then (v + '0' as int) as char else (v - 10 + 'A' as int) as char
  }

  /** `{:04X}`. */
  function Hex4(n: nat): string
    requires n < 0x1_0000
  {
    [HexDigit(n / 4096), HexDigit(n / 256 % 16), HexDigit(n / 16 % 16), HexDigit(n % 16)]
  }

  /** One character of a literal. */
  function Escape(c: char): (e: string)
  {
    if c == '\\' then "\\\\"
    else if c == '"' then "\\\""
    else if c == '\n' then "\\n"
    else if c == '\r' then "\\r"
    else if c == '\t' then "\\t"
    else if c as int < 0x20 || c as int == 0x7F then "\\u" + Hex4(c as int)
    else [c]
  }

  function Escaped(text: string): string {
    if text == [] then [] else Escape(text[0]) + Escaped(text[1..])
  }

  /** `text` as a Turtle double-quoted literal. */
  function Literal(text: string): string {
    "\"" + Escaped(text) + "\""
  }

  lemma {:induction false} EscapedAppend(a: string, b: string)
    ensures Escaped(a + b) == Escaped(a) + Escaped(b)
  {
    if a == [] {
      assert a + b == b;
    } else {
      assert (a + b)[1..] == a[1..] + b;
      EscapedAppend(a[1..], b);
    }
  }

  lemma EscapedNext(text: string, i: nat)
    requires i < |text|
    ensures Escaped(text[..i + 1]) == Escaped(text[..i]) + Escape(text[i])
  {
    assert text[..i + 1] == text[..i] + [text[i]];
    EscapedAppend(text[..i], [text[i]]);
    assert Escaped([text[i]]) == Escape(text[i]) + Escaped([]);
  }

  lemma LiteralNext(text: string, i: nat, out: string)
    requires i < |text| && out == "\"" + Escaped(text[..i])
    ensures out + Escape(text[i]) == "\"" + Escaped(text[..i + 1])
  {
    EscapedNext(text, i);
    Regrouped("\"", Escaped(text[..i]), Escape(text[i]));
  }

  lemma Regrouped(a: string, b: string, c: string)
    ensures a + b + c == a + (b + c)
  {
  }

  /** `literal`: the loop over the characters. */
  method WriteLiteral(text: string) returns (out: string)
    ensures out == Literal(text)
  {
    out := "\"";
    for i := 0 to |text|
      invariant out == "\"" + Escaped(text[..i])
    {
      LiteralNext(text, i, out);
      out := out + Escape(text[i]);
    }
    assert text[..|text|] == text;
    out := out + "\"";
  }

  /** The characters an IRI reference may hold. */
  predicate IriChar(c: char) {
    && c as int > 0x20 && c != '<' && c != '>' && c != '"' && c != '{' && c != '}'
    && c != '|' && c != '^' && c != '`' && c != '\\'
  }

  predicate IriText(value: string) {
    ':' in value && forall c :: c in value ==> IriChar(c)
  }

  datatype Refusal = NotAnIri(value: string)

  /** `iri`: an IRI reference, refused when it cannot be one. */
  function Iri(value: string): (r: Result<string, Refusal>)
    ensures r.Ok? <==> IriText(value)
  {
    if value == [] || ':' !in value || exists c :: c in value && !IriChar(c) then Err(NotAnIri(value))
    else Ok("<" + value + ">")
  }

  // ----- reading characters of a quoted string -----

  function HexValue(c: char): Option<nat> {
    if '0' <= c <= '9' then Some(c as int - '0' as int)
    else if 'A' <= c <= 'F' then Some(c as int - 'A' as int + 10)
    else if 'a' <= c <= 'f' then Some(c as int - 'a' as int + 10)
    else None
  }

  function HexNumber(s: string): Option<nat> {
    if s == [] then Some(0) else
      match (HexNumber(s[..|s| - 1]), HexValue(s[|s| - 1]))
      case (Some(n), Some(v)) => Some(n * 16 + v)
      case _ => None
  }

  /** `UCHAR` after its `\u` or `\U`: `digits` hexadecimal digits of a character. */
  function ReadUchar(s: string, digits: nat): (r: Option<(char, string)>)
    ensures r.Some? ==> |r.value.1| <= |s|
  {
    if |s| < digits then None else
      match HexNumber(s[..digits])
      case None => None
      case Some(n) => if Scalar(n) then Some((n as char, s[digits..])) else None
  }

  /** What follows a backslash: `ECHAR` or `UCHAR`. */
  function ReadEscape(s: string): (r: Option<(char, string)>)
    ensures r.Some? ==> |r.value.1| < |s|
  {
    if s == [] then None
    else if s[0] == 't' then Some(('\t', s[1..]))
    else if s[0] == 'b' then Some((8 as char, s[1..]))
    else if s[0] == 'n' then Some(('\n', s[1..]))
    else if s[0] == 'r' then Some(('\r', s[1..]))
    else if s[0] == 'f' then Some((12 as char, s[1..]))
    else if s[0] == '"' || s[0] == '\'' || s[0] == '\\' then Some((s[0], s[1..]))
    else if s[0] == 'u' then ReadUchar(s[1..], 4)
    else if s[0] == 'U' then ReadUchar(s[1..], 8)
    else None
  }

  /** The rest of a `STRING_LITERAL_QUOTE` after its opening quote. */
  function ReadShort(s: string): (r: Option<(string, string)>)
    ensures r.Some? ==> |r.value.1| < |s|
    decreases |s|
  {
    if s == [] || s[0] == '\n' || s[0] == '\r' then None
    else if s[0] == '"' then Some(([], s[1..]))
    else if s[0] == '\\' then
      match ReadEscape(s[1..])
      case None => None
      case Some((c, rest)) => Then(c, ReadShort(rest))
    else Then(s[0], ReadShort(s[1..]))
  }

  function Then(c: char, r: Option<(string, string)>): Option<(string, string)> {
    match r
    case None => None
    case Some((text, rest)) => Some(([c] + text, rest))
  }

  predicate ThreeQuotes(s: string) {
    |s| >= 3 && s[0] == '"' && s[1] == '"' && s[2] == '"'
  }

  /** The rest of a `STRING_LITERAL_LONG_QUOTE` after its opening quotes. */
  function ReadLong(s: string): (r: Option<(string, string)>)
    ensures r.Some? ==> |r.value.1| < |s|
    decreases |s|
  {
    if s == [] then None
    else if ThreeQuotes(s) then Some(([], s[3..]))
    else if s[0] == '\\' then
      match ReadEscape(s[1..])
      case None => None
      case Some((c, rest)) => Then(c, ReadLong(rest))
    else Then(s[0], ReadLong(s[1..]))
  }

  /** A double-quoted string at the front of `s`: its text and what follows. Three quotes open
      a long one. */
  function ReadQuoted(s: string): (r: Option<(string, string)>)
    ensures r.Some? ==> |r.value.1| < |s|
  {
    if s == [] || s[0] != '"' then None
    else if ThreeQuotes(s) then ReadLong(s[3..])
    else ReadShort(s[1..])
  }

  // ----- a literal reads back -----

  lemma HexInverts(v: nat)
    requires v < 16
    ensures HexValue(HexDigit(v)) == Some(v)
  {
  }

  lemma HexNumberGrows(s: string, n: nat, v: nat)
    requires HexNumber(s) == Some(n) && v < 16
    ensures HexNumber(s + [HexDigit(v)]) == Some(n * 16 + v)
  {
    HexInverts(v);
    assert (s + [HexDigit(v)])[..|s|] == s;
  }

  lemma Hex4Inverts(n: nat)
    requires n < 0x1_0000
    ensures HexNumber(Hex4(n)) == Some(n)
  {
    var a, b, c, d := n / 4096, n / 256 % 16, n / 16 % 16, n % 16;
    OfHexDigits(n);
    Hex4Of(a, b, c, d);
  }

  lemma OfHexDigits(n: nat)
    ensures n == ((n / 4096 * 16 + n / 256 % 16) * 16 + n / 16 % 16) * 16 + n % 16
  {
    var p := n / 16;
    var q := p / 16;
    assert n / 256 == q && n / 4096 == q / 16;
    assert n == p * 16 + n % 16 && p == q * 16 + p % 16 && q == q / 16 * 16 + q % 16;
  }

  lemma Hex4Of(a: nat, b: nat, c: nat, d: nat)
    requires a < 16 && b < 16 && c < 16 && d < 16
    ensures HexNumber([HexDigit(a), HexDigit(b), HexDigit(c), HexDigit(d)])
      == Some(((a * 16 + b) * 16 + c) * 16 + d)
  {
    var one := [] + [HexDigit(a)];
    var two := one + [HexDigit(b)];
    var three := two + [HexDigit(c)];
    HexNumberGrows([], 0, a);
    HexNumberGrows(one, a, b);
    HexNumberGrows(two, a * 16 + b, c);
    HexNumberGrows(three, (a * 16 + b) * 16 + c, d);
    assert [HexDigit(a), HexDigit(b), HexDigit(c), HexDigit(d)] == three + [HexDigit(d)];
  }

  /** One written character is read as itself, whatever follows. */
  lemma EscapeReads(c: char, rest: string)
    ensures ReadShort(Escape(c) + rest) == Then(c, ReadShort(rest))
    ensures Escape(c) != [] && Escape(c)[0] != '"'
  {
    var s := Escape(c) + rest;
    if c == '\\' || c == '"' || c == '\n' || c == '\r' || c == '\t' {
      assert s[1..][1..] == rest;
    } else if c as int < 0x20 || c as int == 0x7F {
      Hex4Inverts(c as int);
      assert s[1..][1..] == Hex4(c as int) + rest;
      assert (Hex4(c as int) + rest)[..4] == Hex4(c as int) && (Hex4(c as int) + rest)[4..] == rest;
    } else {
      assert s[1..] == rest;
    }
  }

  lemma {:induction false} EscapedReads(text: string, rest: string)
    ensures ReadShort(Escaped(text) + "\"" + rest) == Some((text, rest))
  {
    if text == [] {
      assert (Escaped(text) + "\"" + rest)[1..] == rest;
    } else {
      var more := Escaped(text[1..]) + "\"" + rest;
      assert Escaped(text) + "\"" + rest == Escape(text[0]) + more;
      EscapeReads(text[0], more);
      EscapedReads(text[1..], rest);
      assert [text[0]] + text[1..] == text;
    }
  }

  lemma OneQuote(tail: string)
    requires tail != [] && tail[0] != '"'
    ensures ReadQuoted("\"" + tail) == ReadShort(tail)
  {
    assert ("\"" + tail)[1..] == tail;
    assert ("\"" + tail)[1] == tail[0];
  }

  lemma EscapedStarts(text: string)
    requires text != []
    ensures Escaped(text) != [] && Escaped(text)[0] != '"'
  {
    EscapeReads(text[0], []);
  }

  lemma NonemptyReadsBack(text: string, rest: string)
    requires text != []
    ensures ReadQuoted(Literal(text) + rest) == Some((text, rest))
  {
    var tail := Escaped(text) + "\"" + rest;
    EscapedStarts(text);
    OneQuote(tail);
    EscapedReads(text, rest);
    assert Literal(text) + rest == "\"" + tail;
  }

  lemma EmptyReadsBack(rest: string)
    ensures ReadQuoted(Literal([]) + rest) == Some(([], rest)) <==> !(rest != [] && rest[0] == '"')
  {
    var s := Literal([]) + rest;
    assert s == "\"\"" + rest;
    if rest != [] && rest[0] == '"' {
      assert |s[3..]| < |rest|;
    } else {
      assert |s| >= 3 ==> s[2] == rest[0];
      assert s[1..][1..] == rest;
    }
  }

  /** A literal is self-delimiting and reads back as its text, whatever the text and whatever
      follows, except when an empty one is followed by another quote: then the three quotes
      open a long string. */
  lemma LiteralReadsBack(text: string, rest: string)
    ensures ReadQuoted(Literal(text) + rest) == Some((text, rest))
      <==> !(text == [] && rest != [] && rest[0] == '"')
  {
    if text == [] {
      EmptyReadsBack(rest);
    } else {
      NonemptyReadsBack(text, rest);
    }
  }

  /** Nothing a literal may not hold raw is left in it. */
  lemma {:induction false} EscapedIsPlain(text: string)
    ensures forall c :: c in Escaped(text) ==> c as int >= 0x20 && c as int != 0x7F
  {
    if text != [] {
      EscapeIsPlain(text[0]);
      EscapedIsPlain(text[1..]);
    }
  }

  lemma EscapeIsPlain(c: char)
    ensures forall e :: e in Escape(c) ==> e as int >= 0x20 && e as int != 0x7F
  {
  }
}
