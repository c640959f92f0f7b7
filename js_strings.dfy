/** The few ECMAScript string operations that the modelled code relies on:
    `String.prototype.trim`, `.length` (counted in UTF-16 code units) and the
    ASCII part of `toUpperCase`. Strings are Dafny `string`s, i.e. sequences of
    Unicode scalar values. */
module JsStrings {

  /** The ECMAScript WhiteSpace and LineTerminator code points, which is the
      set `trim()` removes and the set the regular-expression class `\s` matches. */
  predicate IsJsWhitespace(c: char) {
    c == '\t' || c == '\n' || c == '\U{000B}' || c == '\U{000C}' || c == '\r' || c == ' '
    || c == '\U{00A0}' || c == '\U{1680}' || ('\U{2000}' <= c <= '\U{200A}')
    || c == '\U{2028}' || c == '\U{2029}' || c == '\U{202F}' || c == '\U{205F}'
    || c == '\U{3000}' || c == '\U{FEFF}'
  }

  /** The LineTerminator code points: the characters the regular-expression `.` does not match. */
  predicate IsLineTerminator(c: char) {
    c == '\n' || c == '\r' || c == '\U{2028}' || c == '\U{2029}'
  }

  predicate AllWhitespace(s: string) {
    forall k :: 0 <= k < |s| ==> IsJsWhitespace(s[k])
  }

  /** The first position at or after `i` that does not hold whitespace. */
  function SkipSpace(s: string, i: nat): (k: nat)
    requires i <= |s|
    ensures i <= k <= |s|
    ensures forall m :: i <= m < k ==> IsJsWhitespace(s[m])
    ensures k < |s| ==> !IsJsWhitespace(s[k])
    decreases |s| - i
  {
    if i < |s| && IsJsWhitespace(s[i]) then SkipSpace(s, i + 1) else i
  }

  /** The end of `s[lo..j]` once its trailing whitespace is dropped. */
  function SkipSpaceBack(s: string, lo: nat, j: nat): (k: nat)
    requires lo <= j <= |s|
    ensures lo <= k <= j
    ensures forall m :: k <= m < j ==> IsJsWhitespace(s[m])
    ensures k > lo ==> !IsJsWhitespace(s[k - 1])
    decreases j - lo
  {
    if j > lo && IsJsWhitespace(s[j - 1]) then SkipSpaceBack(s, lo, j - 1) else j
  }

  /** `s.trim()`: the slice of `s` left after dropping leading and trailing whitespace. */
  function Trim(s: string): (r: string)
    ensures r != [] ==> !IsJsWhitespace(r[0]) && !IsJsWhitespace(r[|r| - 1])
    ensures r == [] <==> AllWhitespace(s)
  {
    var i := SkipSpace(s, 0);
    s[i..SkipSpaceBack(s, i, |s|)]
  }

  /** Trimming cuts a whitespace prefix and a whitespace suffix off `s` and keeps
      what lies between. */
  lemma TrimIsSlice(s: string)
    ensures exists i, j :: 0 <= i <= j <= |s| && AllWhitespace(s[..i]) && AllWhitespace(s[j..])
                           && Trim(s) == s[i..j]
  {
    var i := SkipSpace(s, 0);
    var j := SkipSpaceBack(s, i, |s|);
    assert AllWhitespace(s[..i]) by {
      forall k | 0 <= k < i ensures IsJsWhitespace(s[..i][k]) {
        assert s[..i][k] == s[k];
      }
    }
    assert AllWhitespace(s[j..]) by {
      forall k | 0 <= k < |s| - j ensures IsJsWhitespace(s[j..][k]) {
        assert s[j..][k] == s[j + k];
      }
    }
  }

  /** The scan forward stops exactly at the first non-whitespace position. */
  lemma {:induction false} SkipSpaceStopsAt(s: string, i: nat, k: nat)
    requires i <= k <= |s|
    requires forall m :: i <= m < k ==> IsJsWhitespace(s[m])
    requires k < |s| ==> !IsJsWhitespace(s[k])
    ensures SkipSpace(s, i) == k
    decreases k - i
  {
    if i < k {
      SkipSpaceStopsAt(s, i + 1, k);
    }
  }

  /** The scan backward stops exactly after the last non-whitespace position. */
  lemma {:induction false} SkipSpaceBackStopsAt(s: string, lo: nat, j: nat, k: nat)
    requires lo < k <= j <= |s|
    requires forall m :: k <= m < j ==> IsJsWhitespace(s[m])
    requires !IsJsWhitespace(s[k - 1])
    ensures SkipSpaceBack(s, lo, j) == k
    decreases j - k
  {
    if k < j {
      SkipSpaceBackStopsAt(s, lo, j - 1, k);
    }
  }

  /** Whitespace around a text that neither starts nor ends with whitespace is
      exactly what trimming removes. */
  lemma TrimOfPadded(front: string, middle: string, back: string)
    requires AllWhitespace(front) && AllWhitespace(back)
    requires middle != [] ==> !IsJsWhitespace(middle[0]) && !IsJsWhitespace(middle[|middle| - 1])
    ensures Trim(front + middle + back) == middle
  {
    var s := front + middle + back;
    if middle == [] {
      assert s == front + back;
      assert AllWhitespace(s) by {
        forall k | 0 <= k < |s| ensures IsJsWhitespace(s[k]) {
          if k < |front| { assert s[k] == front[k]; } else { assert s[k] == back[k - |front|]; }
        }
      }
    } else {
      var i, j := |front|, |front| + |middle|;
      forall m | 0 <= m < i ensures IsJsWhitespace(s[m]) {
        assert s[m] == front[m];
      }
      assert s[i] == middle[0];
      SkipSpaceStopsAt(s, 0, i);
      forall m | j <= m < |s| ensures IsJsWhitespace(s[m]) {
        assert s[m] == back[m - j];
      }
      assert s[j - 1] == middle[|middle| - 1];
      SkipSpaceBackStopsAt(s, i, |s|, j);
      assert s[i..j] == middle;
    }
  }

  /** A string that neither starts nor ends with whitespace is its own trim. */
  lemma TrimOfUnpadded(s: string)
    requires s != [] ==> !IsJsWhitespace(s[0]) && !IsJsWhitespace(s[|s| - 1])
    ensures Trim(s) == s
  {
    if s != [] {
      assert SkipSpace(s, 0) == 0;
      assert SkipSpaceBack(s, 0, |s|) == |s|;
    }
  }

  /** Trimming is idempotent. */
  lemma TrimIdempotent(s: string)
    ensures Trim(Trim(s)) == Trim(s)
  {
    TrimOfUnpadded(Trim(s));
  }

  /** The number of UTF-16 code units of one scalar value. */
  function Utf16Units(c: char): nat {
    if c as int >= 0x1_0000 then 2 else 1
  }

  /** JavaScript's `s.length`: the number of UTF-16 code units. */
  function Utf16Length(s: string): (n: nat)
    ensures |s| <= n <= 2 * |s|
  {
    if s == [] then 0 else Utf16Length(s[..|s| - 1]) + Utf16Units(s[|s| - 1])
  }

  /** The UTF-16 code units of `s`, as `charCodeAt` reports them one by one. */
  function Utf16CodeUnits(s: string): (u: seq<int>)
    ensures |u| == Utf16Length(s)
    ensures forall k :: 0 <= k < |u| ==> 0 <= u[k] < 0x1_0000
  {
    if s == [] then []
    else
      var c := s[|s| - 1] as int;
      Utf16CodeUnits(s[..|s| - 1])
      + (if c >= 0x1_0000 then [0xD800 + (c - 0x1_0000) / 0x400, 0xDC00 + (c - 0x1_0000) % 0x400] else [c])
  }

  predicate IsAsciiUpper(c: char) { 'A' <= c <= 'Z' }
  predicate IsAsciiLower(c: char) { 'a' <= c <= 'z' }
  predicate IsAsciiDigit(c: char) { '0' <= c <= '9' }
  predicate IsAsciiLetter(c: char) { IsAsciiUpper(c) || IsAsciiLower(c) }
  predicate IsAsciiAlnum(c: char) { IsAsciiLetter(c) || IsAsciiDigit(c) }

  /** Upper-casing of one character, for the ASCII letters. */
  function ToUpperChar(c: char): (d: char)
    ensures IsAsciiLower(c) ==> IsAsciiUpper(d) && d as int == c as int - 32
    ensures !IsAsciiLower(c) ==> d == c
  {
    if IsAsciiLower(c) then (c as int - 32) as char else c
  }

  function ToUpper(s: string): (r: string)
    ensures |r| == |s|
    ensures forall k :: 0 <= k < |s| ==> r[k] == ToUpperChar(s[k])
  {
    if s == [] then [] else [ToUpperChar(s[0])] + ToUpper(s[1..])
  }

  /** Equality of two strings ignoring the case of ASCII letters
      (the behaviour of a regular expression with the `i` flag). */
  predicate EqualsIgnoreCase(a: string, b: string) {
    |a| == |b| && forall k :: 0 <= k < |a| ==> ToUpperChar(a[k]) == ToUpperChar(b[k])
  }
}
