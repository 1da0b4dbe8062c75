/** String.prototype.trim as the validator uses it: strip every leading and
    trailing code point that ECMAScript classes as WhiteSpace or LineTerminator. */
module Whitespace {

  /** The WhiteSpace and LineTerminator code points of the ECMAScript language
      (tab, line feed, vertical tab, form feed, carriage return, space,
      no-break space, the Unicode space separators, the line and paragraph
      separators, and the byte order mark). */
  predicate IsWhitespace(c: char) {
    var u := c as int;
    u == 0x09 || u == 0x0A || u == 0x0B || u == 0x0C || u == 0x0D
    || u == 0x20 || u == 0xA0 || u == 0x1680
    || (0x2000 <= u <= 0x200A)
    || u == 0x2028 || u == 0x2029 || u == 0x202F || u == 0x205F
    || u == 0x3000 || u == 0xFEFF
  }

  /** Every character of `s` is whitespace (the empty string included). */
  predicate AllWhitespace(s: string) {
    forall i :: 0 <= i < |s| ==> IsWhitespace(s[i])
  }

  /** `s` with its leading whitespace removed: a suffix of `s` that starts with a
      non-whitespace character, and what was cut off is all whitespace. */
  function TrimStart(s: string): (r: string)
    ensures |r| <= |s| && r == s[|s| - |r|..]
    ensures AllWhitespace(s[..|s| - |r|])
    ensures r == [] || !IsWhitespace(r[0])
    decreases |s|
  {
    if |s| > 0 && IsWhitespace(s[0]) then
      var r := TrimStart(s[1..]);
      // the cut-off part is the first character followed by what the rest cut off
      assert s[..|s| - |r|] == [s[0]] + s[1..][..|s| - 1 - |r|];
      r
    else s
  }

  /** `s` with its trailing whitespace removed: a prefix of `s` that ends with a
      non-whitespace character, and what was cut off is all whitespace. */
  function TrimEnd(s: string): (r: string)
    ensures |r| <= |s| && r == s[..|r|]
    ensures AllWhitespace(s[|r|..])
    ensures r == [] || !IsWhitespace(r[|r| - 1])
    decreases |s|
  {
    if |s| > 0 && IsWhitespace(s[|s| - 1]) then
      var r := TrimEnd(s[..|s| - 1]);
      // the cut-off part is what the rest cut off followed by the last character
      assert s[|r|..] == s[..|s| - 1][|r|..] + [s[|s| - 1]];
      r
    else s
  }

  /** `r` is the part of `s` from index `k` on, with only whitespace before it
      and after it. */
  predicate MiddleOf(s: string, r: string, k: int) {
    0 <= k && k + |r| <= |s| && r == s[k..k + |r|]
    && AllWhitespace(s[..k]) && AllWhitespace(s[k + |r|..])
  }

  /** Cutting a whitespace prefix off `s` and then a whitespace suffix off what
      remains leaves a middle part of `s`. */
  lemma MiddleAfterCuts(s: string, t: string, r: string)
    requires |t| <= |s| && t == s[|s| - |t|..] && AllWhitespace(s[..|s| - |t|])
    requires |r| <= |t| && r == t[..|r|] && AllWhitespace(t[|r|..])
    ensures MiddleOf(s, r, |s| - |t|)
  {
    var k := |s| - |t|;
    assert r == s[k..k + |r|];
    assert s[k + |r|..] == t[|r|..];
  }

  /** `s.trim()`: the middle of `s` left after cutting whitespace off both
      ends, with neither end of the result whitespace. */
  function Trim(s: string): (r: string)
    ensures |r| <= |s|
    ensures exists k :: MiddleOf(s, r, k)
    ensures r == [] || (!IsWhitespace(r[0]) && !IsWhitespace(r[|r| - 1]))
  {
    var t := TrimStart(s);
    var r := TrimEnd(t);
    MiddleAfterCuts(s, t, r);
    r
  }

  /** Trimming leaves nothing exactly when the string is whitespace only. */
  lemma TrimEmptyIff(s: string)
    ensures Trim(s) == [] <==> AllWhitespace(s)
  {
    var t := TrimStart(s);
    if Trim(s) == [] {
      // the trailing pass found only whitespace, so the leading pass cut everything
      assert AllWhitespace(t[0..]);
      assert t == [];
      assert s[..|s|] == s;
    }
  }

  /** Trimming twice is the same as trimming once. */
  lemma TrimIdempotent(s: string)
    ensures Trim(Trim(s)) == Trim(s)
  {
    var r := Trim(s);
    if r != [] {
      assert TrimStart(r) == r;
      assert TrimEnd(r) == r;
    }
  }
}
