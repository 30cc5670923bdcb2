/** The string primitives the browser scripts rely on: the whitespace set
    shared by `String.prototype.trim` and the regex class `\s`, `trim()`,
    ASCII character classes, `toLowerCase`, `includes`, and the global
    `replace(/class/g, '')` filter. Strings are sequences of characters. */
module Text {

  /** ECMAScript WhiteSpace and LineTerminator code points. `trim()` strips
      exactly these and `\s` matches exactly these, so one predicate serves
      both. */
  predicate IsWhitespace(c: char)
  {
    var n := c as int;
    (9 <= n <= 13) || n == 0x20 || n == 0xA0 || n == 0x1680 ||
    (0x2000 <= n <= 0x200A) || n == 0x2028 || n == 0x2029 ||
    n == 0x202F || n == 0x205F || n == 0x3000 || n == 0xFEFF
  }

  /** The characters a regex `.` does not match. */
  predicate IsLineTerminator(c: char)
  {
    c == '\n' || c == '\r' || c as int == 0x2028 || c as int == 0x2029
  }

  predicate IsUpper(c: char) { 'A' <= c <= 'Z' }

  predicate IsLower(c: char) { 'a' <= c <= 'z' }

  /** `[A-Za-z]` */
  predicate IsLetter(c: char) { IsUpper(c) || IsLower(c) }

  /** `\d`, which in ECMAScript is the ASCII digits only. */
  predicate IsDigit(c: char) { '0' <= c <= '9' }

  /** `\D` */
  predicate IsNonDigit(c: char) { !IsDigit(c) }

  /** A string holding nothing but whitespace (the empty string included):
      the strings whose `trim()` is `''`. */
  predicate Blank(s: string)
  {
    forall k :: 0 <= k < |s| ==> IsWhitespace(s[k])
  }

  predicate HasWhitespace(s: string)
  {
    exists k :: 0 <= k < |s| && IsWhitespace(s[k])
  }

  /** Removes the leading whitespace. */
  function TrimStart(s: string): (r: string)
    ensures |r| <= |s| && r == s[|s| - |r|..]
    ensures forall k :: 0 <= k < |s| - |r| ==> IsWhitespace(s[k])
    ensures r == [] || !IsWhitespace(r[0])
  {
    if s != [] && IsWhitespace(s[0]) then TrimStart(s[1..]) else s
  }

  /** Removes the trailing whitespace. */
  function TrimEnd(s: string): (r: string)
    ensures |r| <= |s| && r == s[..|r|]
    ensures forall k :: |r| <= k < |s| ==> IsWhitespace(s[k])
    ensures r == [] || !IsWhitespace(r[|r| - 1])
  {
    if s != [] && IsWhitespace(s[|s| - 1]) then TrimEnd(s[..|s| - 1]) else s
  }

  /** `s.trim()`: the slice of `s` left after removing whitespace at both
      ends. It is empty exactly for blank strings, and otherwise starts and
      ends with a non-whitespace character. */
  function Trim(s: string): (r: string)
    ensures r == [] <==> Blank(s)
    ensures r != [] ==> !IsWhitespace(r[0]) && !IsWhitespace(r[|r| - 1])
    ensures |r| <= |s|
    ensures exists i :: CutFrom(s, r, i)
  {
    var t := TrimStart(s);
    var r := TrimEnd(t);
    assert r != [] ==> r[0] == t[0];
    CutOfCuts(s, t, r);
    r
  }

  /** `r` is the slice of `s` starting at `i`, and everything of `s`
      before and after that slice is whitespace. */
  predicate CutFrom(s: string, r: string, i: int)
  {
    0 <= i <= |s| - |r| && r == s[i..i + |r|] && Blank(s[..i]) && Blank(s[i + |r|..])
  }

  /** Cutting whitespace off the front and then off the back is one cut. */
  lemma CutOfCuts(s: string, t: string, r: string)
    requires |t| <= |s| && t == s[|s| - |t|..] && forall k :: 0 <= k < |s| - |t| ==> IsWhitespace(s[k])
    requires |r| <= |t| && r == t[..|r|] && forall k :: |r| <= k < |t| ==> IsWhitespace(t[k])
    ensures CutFrom(s, r, |s| - |t|)
  {
    var i := |s| - |t|;
    var head, tail := s[..i], s[i + |r|..];
    assert r == s[i..i + |r|];
    assert forall k :: 0 <= k < |head| ==> head[k] == s[k];
    assert forall k :: 0 <= k < |tail| ==> tail[k] == t[|r| + k];
  }

  /** A string is its own trim exactly when it is empty or has no
      whitespace at either end. */
  lemma TrimFixedPoint(s: string)
    ensures Trim(s) == s <==> (s == [] || (!IsWhitespace(s[0]) && !IsWhitespace(s[|s| - 1])))
  {
    if s != [] && !IsWhitespace(s[0]) && !IsWhitespace(s[|s| - 1]) {
      assert TrimStart(s) == s;
      assert TrimEnd(s) == s;
    }
  }

  /** `trim()` is idempotent. */
  lemma TrimIdempotent(s: string)
    ensures Trim(Trim(s)) == Trim(s)
  {
    TrimFixedPoint(Trim(s));
  }

  /** A string ending in a non-whitespace character keeps that end when
      trimmed: its trim is one of its suffixes. */
  lemma TrimKeepsEnd(s: string)
    requires s != [] && !IsWhitespace(s[|s| - 1])
    ensures Trim(s) == s[|s| - |Trim(s)|..]
  {
    var t := TrimStart(s);
    assert t != [] && t[|t| - 1] == s[|s| - 1];
    assert TrimEnd(t) == t;
  }

  /** A string without any whitespace is its own trim. */
  lemma TrimWithoutWhitespace(s: string)
    requires !HasWhitespace(s)
    ensures Trim(s) == s
  {
    TrimFixedPoint(s);
  }

  /** `s.replace(/c/g, '')` for a character class `c`: the characters of
      `s` for which `drop` is false, in order. */
  function Remove(s: string, drop: char -> bool): (r: string)
    ensures |r| <= |s|
    ensures forall k :: 0 <= k < |r| ==> !drop(r[k]) && r[k] in s
    ensures forall c {:trigger multiset(r)[c]} :: !drop(c) ==> multiset(r)[c] == multiset(s)[c]
  {
    if s == [] then []
    else if drop(s[0]) then
      assert s == [s[0]] + s[1..];
      Remove(s[1..], drop)
    else
      assert s == [s[0]] + s[1..];
      [s[0]] + Remove(s[1..], drop)
  }

  /** Removing distributes over concatenation: what is kept from each part
      is kept, in the order of the parts. */
  lemma {:induction false} RemoveAppend(a: string, b: string, drop: char -> bool)
    ensures Remove(a + b, drop) == Remove(a, drop) + Remove(b, drop)
  {
    if a != [] {
      assert (a + b)[0] == a[0];
      assert (a + b)[1..] == a[1..] + b;
      RemoveAppend(a[1..], b, drop);
      if drop(a[0]) {
        assert Remove(a + b, drop) == Remove(a[1..] + b, drop);
      } else {
        assert Remove(a + b, drop) == [a[0]] + Remove(a[1..] + b, drop);
      }
    } else {
      assert a + b == b;
    }
  }

  /** Removing a class twice removes nothing more. */
  lemma {:induction false} RemoveIdempotent(s: string, drop: char -> bool)
    ensures Remove(Remove(s, drop), drop) == Remove(s, drop)
  {
    RemoveNothing(Remove(s, drop), drop);
  }

  /** Removing a class that does not occur leaves the string as it was. */
  lemma {:induction false} RemoveNothing(s: string, drop: char -> bool)
    requires forall k :: 0 <= k < |s| ==> !drop(s[k])
    ensures Remove(s, drop) == s
  {
    if s != [] {
      RemoveNothing(s[1..], drop);
    }
  }

  /** Removing a class that covers every character leaves nothing. */
  lemma {:induction false} RemoveEverything(s: string, drop: char -> bool)
    requires forall k :: 0 <= k < |s| ==> drop(s[k])
    ensures Remove(s, drop) == []
  {
    if s != [] {
      RemoveEverything(s[1..], drop);
    }
  }

  /** ASCII lower-casing of one character. */
  function LowerChar(c: char): (r: char)
    ensures IsUpper(c) ==> IsLower(r) && r as int == c as int + 32
    ensures !IsUpper(c) ==> r == c
  {
    if IsUpper(c) then (c as int + 32) as char else c
  }

  /** `s.toLowerCase()` on ASCII letters; every other character is kept. */
  function Lower(s: string): (r: string)
    ensures |r| == |s|
    ensures forall k :: 0 <= k < |s| ==> r[k] == LowerChar(s[k])
  {
    seq(|s|, k requires 0 <= k < |s| => LowerChar(s[k]))
  }

  /** Lower-casing twice is lower-casing once. */
  lemma LowerIdempotent(s: string)
    ensures Lower(Lower(s)) == Lower(s)
  {
  }

  /** `haystack.includes(needle)`: `needle` occurs as a contiguous slice,
      that is, it is a prefix of some suffix of `haystack`. */
  predicate Contains(haystack: string, needle: string)
  {
    exists i :: 0 <= i <= |haystack| && needle <= haystack[i..]
  }

  /** Every string includes the empty string. */
  lemma ContainsEmpty(haystack: string)
    ensures Contains(haystack, [])
  {
    assert [] <= haystack[0..];
  }

  /** The decimal digits of `n`, as JavaScript prints a non-negative integer. */
  function Decimal(n: nat): (r: string)
    ensures r != [] && forall k :: 0 <= k < |r| ==> IsDigit(r[k])
    ensures |r| > 1 ==> r[0] != '0'
  {
    if n < 10 then ["0123456789"[n]]
    else Decimal(n / 10) + ["0123456789"[n % 10]]
  }

}
