/** The pieces of the Rust standard library the models share: options, results, and the
    string searches (`split_once`, `trim`, `split`) with what they promise. */
module Strings {
  datatype Option<+T> = None | Some(value: T)

  datatype Result<+T, +E> = Ok(value: T) | Err(error: E)

  /** The index of the first `c` in `s`, or `|s|`. */
  function Find(s: string, c: char): (at: nat)
    ensures at <= |s|
    ensures c !in s[..at]
    ensures at < |s| ==> s[at] == c
  {
    if s == [] || s[0] == c then 0 else 1 + Find(s[1..], c)
  }

  /** `str::split_once` on a character. */
  function SplitOnce(s: string, c: char): (r: Option<(string, string)>)
    ensures r.None? <==> c !in s
    ensures r.Some? ==> s == r.value.0 + [c] + r.value.1 && c !in r.value.0
  {
    var at := Find(s, c);
    if at == |s| then
      assert s[..at] == s;
      None
    else
      Some((s[..at], s[at + 1..]))
  }

  lemma {:induction false} FindUnique(a: string, c: char, b: string)
    requires c !in a
    ensures Find(a + [c] + b, c) == |a|
  {
    if a != [] {
      assert (a + [c] + b)[1..] == a[1..] + [c] + b;
      FindUnique(a[1..], c, b);
    }
  }

  /** `split_once` is the only way to cut at the first `c`. */
  lemma SplitOnceUnique(a: string, c: char, b: string)
    requires c !in a
    ensures SplitOnce(a + [c] + b, c) == Some((a, b))
  {
    FindUnique(a, c, b);
    var s := a + [c] + b;
    assert s[..|a|] == a && s[|a| + 1..] == b;
  }

  /** The numbers that are characters: not a surrogate, and in range. */
  predicate Scalar(n: int) {
    0 <= n < 0xD800 || 0xE000 <= n < 0x11_0000
  }

  predicate Every(s: string, p: char -> bool) {
    forall k :: 0 <= k < |s| ==> p(s[k])
  }

  predicate IsDigit(c: char) {
    '0' <= c <= '9'
  }

  predicate HasPrefix(s: string, prefix: string) {
    |prefix| <= |s| && s[..|prefix|] == prefix
  }

  /** `char::is_whitespace`: the Unicode `White_Space` property. */
  predicate IsWhite(c: char) {
    var n := c as int;
    || 9 <= n <= 13 || n == 0x20 || n == 0x85 || n == 0xA0 || n == 0x1680
    || 0x2000 <= n <= 0x200A || n == 0x2028 || n == 0x2029 || n == 0x202F || n == 0x205F
    || n == 0x3000
  }

  predicate AllWhite(s: string) {
    forall c :: c in s ==> IsWhite(c)
  }

  /** `str::trim_start`, `str::trim_end`, `str::trim`. */
  function TrimStart(s: string): (t: string)
    ensures |t| <= |s| && (t == [] || !IsWhite(t[0]))
  {
    if s != [] && IsWhite(s[0]) then TrimStart(s[1..]) else s
  }

  function TrimEnd(s: string): (t: string)
    ensures |t| <= |s| && (t == [] || !IsWhite(t[|t| - 1]))
  {
    if s != [] && IsWhite(s[|s| - 1]) then TrimEnd(s[..|s| - 1]) else s
  }

  function Trim(s: string): string {
    TrimEnd(TrimStart(s))
  }

  /** A word: something, and no whitespace in it. */
  predicate Inky(s: string) {
    s != [] && forall k :: 0 <= k < |s| ==> !IsWhite(s[k])
  }

  /** What a trim can leave, unless it leaves nothing. */
  predicate Tidy(s: string) {
    s != [] && !IsWhite(s[0]) && !IsWhite(s[|s| - 1])
  }

  lemma {:induction false} TrimStartSplits(s: string) returns (before: string)
    ensures AllWhite(before) && s == before + TrimStart(s)
  {
    before := [];
    if s != [] && IsWhite(s[0]) {
      var more := TrimStartSplits(s[1..]);
      before := [s[0]] + more;
    }
  }

  lemma {:induction false} TrimEndSplits(s: string) returns (after: string)
    ensures AllWhite(after) && s == TrimEnd(s) + after
  {
    after := [];
    if s != [] && IsWhite(s[|s| - 1]) {
      var more := TrimEndSplits(s[..|s| - 1]);
      after := more + [s[|s| - 1]];
    }
  }

  /** A trim leaves nothing of whitespace alone, and otherwise what stands between it. */
  lemma TrimSplits(s: string) returns (before: string, after: string)
    ensures AllWhite(before) && AllWhite(after) && s == before + Trim(s) + after
    ensures Trim(s) == [] || Tidy(Trim(s))
  {
    before := TrimStartSplits(s);
    var rest := TrimStart(s);
    after := TrimEndSplits(rest);
    assert before + (TrimEnd(rest) + after) == before + TrimEnd(rest) + after;
    assert TrimEnd(rest) != [] ==> TrimEnd(rest)[0] == rest[0];
  }

  lemma {:induction false} TrimStartDrops(before: string, rest: string)
    requires AllWhite(before) && (rest == [] || !IsWhite(rest[0]))
    ensures TrimStart(before + rest) == rest
  {
    if before == [] {
      assert before + rest == rest;
    } else {
      assert before[0] in before;
      assert (before + rest)[1..] == before[1..] + rest;
      assert forall c :: c in before[1..] ==> c in before;
      TrimStartDrops(before[1..], rest);
    }
  }

  lemma {:induction false} TrimEndDrops(rest: string, after: string)
    requires AllWhite(after) && (rest == [] || !IsWhite(rest[|rest| - 1]))
    ensures TrimEnd(rest + after) == rest
  {
    if after == [] {
      assert rest + after == rest;
    } else {
      var n := |after| - 1;
      assert after[n] in after;
      assert (rest + after)[..|rest| + n] == rest + after[..n];
      assert forall c :: c in after[..n] ==> c in after;
      TrimEndDrops(rest, after[..n]);
    }
  }

  lemma TrimDrops(before: string, s: string, after: string)
    requires AllWhite(before) && AllWhite(after) && Tidy(s)
    ensures Trim(before + s + after) == s
  {
    assert before + s + after == before + (s + after);
    TrimStartDrops(before, s + after);
    TrimEndDrops(s, after);
  }

  lemma TrimBlank(s: string)
    requires AllWhite(s)
    ensures Trim(s) == []
  {
    assert s + [] == s;
    TrimStartDrops(s, []);
  }

  lemma TrimKeeps(s: string)
    requires s != [] && !IsWhite(s[0]) && !IsWhite(s[|s| - 1])
    ensures Trim(s) == s
  {
  }

  /** The index of the first whitespace, or `|s|`. */
  function FindWhite(s: string): (at: nat)
    ensures at <= |s|
    ensures forall k :: 0 <= k < at ==> !IsWhite(s[k])
    ensures at < |s| ==> IsWhite(s[at])
  {
    if s == [] || IsWhite(s[0]) then 0 else 1 + FindWhite(s[1..])
  }

  /** `str::split_once(char::is_whitespace)`. */
  function SplitWhite(s: string): Option<(string, string)> {
    var at := FindWhite(s);
    if at == |s| then None else Some((s[..at], s[at + 1..]))
  }

  lemma {:induction false} FindWhiteUnique(a: string, c: char, b: string)
    requires (forall k :: 0 <= k < |a| ==> !IsWhite(a[k])) && IsWhite(c)
    ensures FindWhite(a + [c] + b) == |a|
  {
    if a != [] {
      assert (a + [c] + b)[1..] == a[1..] + [c] + b;
      FindWhiteUnique(a[1..], c, b);
    }
  }

  lemma SplitWhiteUnique(a: string, c: char, b: string)
    requires (forall k :: 0 <= k < |a| ==> !IsWhite(a[k])) && IsWhite(c)
    ensures SplitWhite(a + [c] + b) == Some((a, b))
  {
    FindWhiteUnique(a, c, b);
    var s := a + [c] + b;
    assert s[..|a|] == a && s[|a| + 1..] == b;
  }

  /** `slice::join`, and `str::split` on a character. */
  function Joined(parts: seq<string>, sep: string): string
    decreases |parts|
  {
    if parts == [] then [] else if |parts| == 1 then parts[0]
    else parts[0] + sep + Joined(parts[1..], sep)
  }

  predicate Free(parts: seq<string>, c: char) {
    forall k :: 0 <= k < |parts| ==> c !in parts[k]
  }

  function SplitOn(s: string, c: char): (parts: seq<string>)
    ensures parts != [] && Free(parts, c) && Joined(parts, [c]) == s
    decreases |s|
  {
    match SplitOnce(s, c)
    case None => [s]
    case Some(cut) => [cut.0] + SplitOn(cut.1, c)
  }

  /** There is one way to cut at every `c`. */
  lemma {:induction false} SplitOnUnique(parts: seq<string>, c: char)
    requires parts != [] && Free(parts, c)
    ensures SplitOn(Joined(parts, [c]), c) == parts
    decreases |parts|
  {
    if |parts| > 1 {
      SplitOnceUnique(parts[0], c, Joined(parts[1..], [c]));
      SplitOnUnique(parts[1..], c);
    }
  }
}
