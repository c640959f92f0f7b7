/** The client-side validation helpers (frontend/src/utils/validators.js): the zod
    schemas as predicates, the room-code helpers, the avatar colour and the
    duration formatter. The zod `.url()` check is the parameter `zodUrl`. */
module Validators {
  import opened Wrappers
  import opened JsStrings

  // ---------------------------------------------------------------------------
  // NAME_REGEX and the letter-or-digit refinement

  /** The Turkish letters the name patterns accept besides ASCII: ç ğ ı ö ş ü Ç Ğ İ Ö Ş Ü. */
  predicate IsTurkishLetter(c: char) {
    c == '\U{00E7}' || c == '\U{011F}' || c == '\U{0131}' || c == '\U{00F6}' || c == '\U{015F}' || c == '\U{00FC}'
    || c == '\U{00C7}' || c == '\U{011E}' || c == '\U{0130}' || c == '\U{00D6}' || c == '\U{015E}' || c == '\U{00DC}'
  }

  /** The class `[A-Za-z0-9çğıöşüÇĞİÖŞÜ]` of the refinement. */
  predicate IsNameLetterOrDigit(c: char) {
    IsAsciiAlnum(c) || IsTurkishLetter(c)
  }

  /** The class of NAME_REGEX: letters and digits as above, space, `_`, `.` and `-`. */
  predicate IsNameChar(c: char) {
    IsNameLetterOrDigit(c) || c == ' ' || c == '_' || c == '.' || c == '-'
  }

  /** `NAME_REGEX.test(s)`: one or more characters, all from the class. */
  predicate MatchesNameRegex(s: string) {
    s != [] && forall k :: 0 <= k < |s| ==> IsNameChar(s[k])
  }

  predicate ContainsLetterOrDigit(s: string) {
    exists k :: 0 <= k < |s| && IsNameLetterOrDigit(s[k])
  }

  /** The rule shared by `name`, `createdBy` and `userName`: 2 to 50 UTF-16 units,
      the name pattern, and a letter or digit in the trimmed value. */
  predicate IsValidName(s: string) {
    2 <= Utf16Length(s) <= 50 && MatchesNameRegex(s) && ContainsLetterOrDigit(Trim(s))
  }

  /** Trimming never removes a letter or digit, so the refinement may be read on the
      untrimmed value. */
  lemma LetterOrDigitSurvivesTrim(s: string)
    ensures ContainsLetterOrDigit(Trim(s)) <==> ContainsLetterOrDigit(s)
  {
    var i := SkipSpace(s, 0);
    var j := SkipSpaceBack(s, i, |s|);
    assert Trim(s) == s[i..j];
    SliceKeepsLetterOrDigit(s, i, j);
  }

  lemma SliceKeepsLetterOrDigit(s: string, i: nat, j: nat)
    requires i <= j <= |s|
    requires forall m :: 0 <= m < i ==> IsJsWhitespace(s[m])
    requires forall m :: j <= m < |s| ==> IsJsWhitespace(s[m])
    ensures ContainsLetterOrDigit(s[i..j]) <==> ContainsLetterOrDigit(s)
  {
    var t := s[i..j];
    if ContainsLetterOrDigit(s) {
      var k :| 0 <= k < |s| && IsNameLetterOrDigit(s[k]);
      assert !IsJsWhitespace(s[k]);
      assert t[k - i] == s[k];
    }
    if ContainsLetterOrDigit(t) {
      var m :| 0 <= m < |t| && IsNameLetterOrDigit(t[m]);
      assert s[i + m] == t[m];
    }
  }

  /** Every name character is a single UTF-16 unit, so a name's length is the count
      of its characters. */
  lemma {:induction false} NameLengthIsCharCount(s: string)
    requires forall k :: 0 <= k < |s| ==> IsNameChar(s[k])
    ensures Utf16Length(s) == |s|
  {
    if s != [] {
      NameLengthIsCharCount(s[..|s| - 1]);
    }
  }

  // ---------------------------------------------------------------------------
  // The schemas; `None` is a missing or non-string field.

  predicate CreateRoomSchemaValid(name: Option<string>, createdBy: Option<string>) {
    name.Some? && IsValidName(name.value) && createdBy.Some? && IsValidName(createdBy.value)
  }

  /** The `roomCode` field of the join schema: length 8 and `^[A-Z0-9]+$`. */
  predicate IsJoinRoomCode(s: string) {
    8 <= Utf16Length(s) <= 8 && s != [] && forall k :: 0 <= k < |s| ==> IsAsciiUpper(s[k]) || IsAsciiDigit(s[k])
  }

  predicate JoinRoomSchemaValid(roomCode: Option<string>, userName: Option<string>) {
    roomCode.Some? && IsJoinRoomCode(roomCode.value) && userName.Some? && IsValidName(userName.value)
  }

  predicate VideoUrlSchemaValid(videoUrl: Option<string>, zodUrl: string -> bool) {
    videoUrl.Some? && zodUrl(videoUrl.value) && Utf16Length(videoUrl.value) >= 1
  }

  predicate ChatMessageSchemaValid(message: Option<string>) {
    message.Some? && 1 <= Utf16Length(message.value) <= 500
  }

  // ---------------------------------------------------------------------------
  // validateRoomCode and formatRoomCode

  /** `validateRoomCode(code)`: false for a missing or empty code, otherwise the test
      of `^[A-Z0-9]{8}$`. */
  function ValidateRoomCode(code: Option<string>): (b: bool)
    ensures b ==> code.Some? && |code.value| == 8
  {
    if code.None? || code.value == "" then false
    else |code.value| == 8 && forall k :: 0 <= k < 8 ==> IsAsciiUpper(code.value[k]) || IsAsciiDigit(code.value[k])
  }

  /** `validateRoomCode` accepts exactly the room codes the join schema accepts. */
  lemma ValidateRoomCodeIsJoinRule(s: string)
    ensures ValidateRoomCode(Some(s)) <==> IsJoinRoomCode(s)
  {
    if ValidateRoomCode(Some(s)) || IsJoinRoomCode(s) {
      if forall k :: 0 <= k < |s| ==> IsAsciiUpper(s[k]) || IsAsciiDigit(s[k]) {
        AsciiLengthIsCharCount(s);
      } else {
        UnitsAtLeastChars(s);
      }
    }
  }

  lemma {:induction false} AsciiLengthIsCharCount(s: string)
    requires forall k :: 0 <= k < |s| ==> IsAsciiUpper(s[k]) || IsAsciiDigit(s[k])
    ensures Utf16Length(s) == |s|
  {
    if s != [] {
      AsciiLengthIsCharCount(s[..|s| - 1]);
    }
  }

  lemma UnitsAtLeastChars(s: string)
    ensures |s| <= Utf16Length(s)
  {
  }

  predicate NoLineTerminator(s: string) {
    forall k :: 0 <= k < |s| ==> !IsLineTerminator(s[k])
  }

  /** `s.replace(/(.{4})/g, '$1 ')` from position `i`: wherever four characters
      without a line terminator start, they are kept and followed by a space, and
      the scan resumes after them; elsewhere one character is copied. */
  function GroupFours(s: string, i: nat): string
    requires i <= |s|
    decreases |s| - i
  {
    if i + 4 <= |s| && NoLineTerminator(s[i..i + 4]) then s[i..i + 4] + " " + GroupFours(s, i + 4)
    else if i < |s| then [s[i]] + GroupFours(s, i + 1)
    else []
  }

  /** `formatRoomCode(code)`. */
  function FormatRoomCode(code: Option<string>): (r: string)
    ensures code.None? || code == Some("") ==> r == ""
  {
    if code.None? || code.value == "" then ""
    else Trim(GroupFours(ToUpper(code.value), 0))
  }

  /** `s` without its space characters. */
  function RemoveSpaces(s: string): (r: string)
    ensures |r| <= |s|
  {
    if s == [] then [] else (if s[0] == ' ' then [] else [s[0]]) + RemoveSpaces(s[1..])
  }

  lemma {:induction false} RemoveSpacesConcat(a: string, b: string)
    ensures RemoveSpaces(a + b) == RemoveSpaces(a) + RemoveSpaces(b)
  {
    if a != [] {
      assert (a + b)[0] == a[0];
      assert (a + b)[1..] == a[1..] + b;
      RemoveSpacesConcat(a[1..], b);
      var h := if a[0] == ' ' then [] else [a[0]];
      assert RemoveSpaces(a + b) == h + RemoveSpaces(a[1..] + b);
      assert RemoveSpaces(a) == h + RemoveSpaces(a[1..]);
    } else {
      assert a + b == b;
    }
  }

  /** Text whose only whitespace is the space character. */
  predicate OnlySpacesAsWhitespace(s: string) {
    forall k :: 0 <= k < |s| && IsJsWhitespace(s[k]) ==> s[k] == ' '
  }

  predicate NoWhitespace(s: string) {
    forall k :: 0 <= k < |s| ==> !IsJsWhitespace(s[k])
  }

  /** Text made only of spaces. */
  predicate Blank(s: string) {
    forall k :: 0 <= k < |s| ==> s[k] == ' '
  }

  lemma {:induction false} RemoveSpacesOfBlank(s: string)
    requires Blank(s)
    ensures RemoveSpaces(s) == []
  {
    if s != [] {
      RemoveSpacesOfBlank(s[1..]);
    }
  }

  predicate NoSpace(s: string) {
    forall k :: 0 <= k < |s| ==> s[k] != ' '
  }

  lemma {:induction false} RemoveSpacesOfSpaceless(s: string)
    requires NoSpace(s)
    ensures RemoveSpaces(s) == s
  {
    if s != [] {
      assert s[0] != ' ';
      RemoveSpacesOfSpaceless(s[1..]);
    }
  }

  /** A run of whitespace in text whose only whitespace is spaces is all spaces. */
  lemma WhitespaceRunIsSpaces(s: string, lo: nat, hi: nat)
    requires lo <= hi <= |s| && OnlySpacesAsWhitespace(s)
    requires forall m :: lo <= m < hi ==> IsJsWhitespace(s[m])
    ensures Blank(s[lo..hi])
  {
    forall k | 0 <= k < hi - lo ensures s[lo..hi][k] == ' ' {
      assert s[lo..hi][k] == s[lo + k];
    }
  }

  /** Cutting text at two positions and joining the pieces gives it back. */
  lemma ThreeSlices(s: string, i: nat, j: nat)
    requires i <= j <= |s|
    ensures s == s[0..i] + s[i..j] + s[j..|s|]
  {
    assert s[0..i] + s[i..j] == s[..j];
    assert s[..j] + s[j..|s|] == s;
  }

  /** Spaces around a text disappear with the other spaces. */
  lemma RemoveSpacesOfPadded(front: string, middle: string, back: string)
    requires Blank(front) && Blank(back)
    ensures RemoveSpaces(front + middle + back) == RemoveSpaces(middle)
  {
    RemoveSpacesOfBlank(front);
    RemoveSpacesOfBlank(back);
    RemoveSpacesConcat(front + middle, back);
    RemoveSpacesConcat(front, middle);
  }

  /** Trimming text whose only whitespace is spaces removes nothing but spaces. */
  lemma RemoveSpacesOfTrim(s: string)
    requires OnlySpacesAsWhitespace(s)
    ensures RemoveSpaces(Trim(s)) == RemoveSpaces(s)
  {
    var i := SkipSpace(s, 0);
    var j := SkipSpaceBack(s, i, |s|);
    TrimIsSlice(s);
    WhitespaceRunIsSpaces(s, 0, i);
    WhitespaceRunIsSpaces(s, j, |s|);
    ThreeSlices(s, i, j);
    RemoveSpacesOfPadded(s[0..i], s[i..j], s[j..|s|]);
  }

  /** On text without whitespace, grouping only inserts spaces. */
  lemma GroupFoursInsertsSpaces(s: string, i: nat)
    requires i <= |s| && NoWhitespace(s)
    ensures RemoveSpaces(GroupFours(s, i)) == s[i..]
    ensures OnlySpacesAsWhitespace(GroupFours(s, i))
  {
    var nonWhite := (c: char) => !IsJsWhitespace(c);
    forall k | 0 <= k < |s| ensures s[k] != ' ' && nonWhite(s[k]) {
      assert !IsJsWhitespace(s[k]);
    }
    GroupFoursSpacing(s, i, nonWhite);
  }

  /** Every character of `s` is `p`. */
  predicate AllOf(s: string, p: char -> bool) {
    forall k :: 0 <= k < |s| ==> p(s[k])
  }

  /** Every character of `g` is a space or `p`. */
  predicate SpacesOr(g: string, p: char -> bool) {
    forall k :: 0 <= k < |g| ==> g[k] == ' ' || p(g[k])
  }

  /** Grouping text without spaces inserts spaces and copies the rest, whatever
      class `p` the copied characters are in. */
  lemma {:induction false} GroupFoursSpacing(s: string, i: nat, p: char -> bool)
    requires i <= |s| && NoSpace(s) && AllOf(s, p)
    ensures RemoveSpaces(GroupFours(s, i)) == s[i..]
    ensures SpacesOr(GroupFours(s, i), p)
    decreases |s| - i
  {
    if i + 4 <= |s| && NoLineTerminator(s[i..i + 4]) {
      GroupFoursSpacing(s, i + 4, p);
      GroupStep(s, i, p);
    } else if i < |s| {
      GroupFoursSpacing(s, i + 1, p);
      CopyStep(s, i, p);
    }
  }

  /** A group of four and its space, given the facts for the text after it. */
  lemma GroupStep(s: string, i: nat, p: char -> bool)
    requires i + 4 <= |s| && NoLineTerminator(s[i..i + 4]) && NoSpace(s) && AllOf(s, p)
    requires RemoveSpaces(GroupFours(s, i + 4)) == s[i + 4..]
    requires SpacesOr(GroupFours(s, i + 4), p)
    ensures RemoveSpaces(GroupFours(s, i)) == s[i..]
    ensures SpacesOr(GroupFours(s, i), p)
  {
    var rest := GroupFours(s, i + 4);
    assert GroupFours(s, i) == s[i..i + 4] + (" " + rest);
    BlockThenSpace(s[i..i + 4], rest, p);
    assert s[i..] == s[i..i + 4] + s[i + 4..];
  }

  /** One copied character, given the facts for the text after it. */
  lemma CopyStep(s: string, i: nat, p: char -> bool)
    requires i < |s| && !(i + 4 <= |s| && NoLineTerminator(s[i..i + 4])) && NoSpace(s) && AllOf(s, p)
    requires RemoveSpaces(GroupFours(s, i + 1)) == s[i + 1..]
    requires SpacesOr(GroupFours(s, i + 1), p)
    ensures RemoveSpaces(GroupFours(s, i)) == s[i..]
    ensures SpacesOr(GroupFours(s, i), p)
  {
    var rest := GroupFours(s, i + 1);
    assert GroupFours(s, i) == [s[i]] + rest;
    assert ([s[i]] + rest)[1..] == rest;
    assert s[i..] == [s[i]] + s[i + 1..];
  }

  /** One group followed by the inserted space. */
  lemma BlockThenSpace(block: string, rest: string, p: char -> bool)
    requires NoSpace(block) && AllOf(block, p) && SpacesOr(rest, p)
    ensures RemoveSpaces(block + (" " + rest)) == block + RemoveSpaces(rest)
    ensures SpacesOr(block + (" " + rest), p)
  {
    var t := " " + rest;
    assert t[0] == ' ' && t[1..] == rest;
    assert RemoveSpaces(t) == RemoveSpaces(rest);
    RemoveSpacesConcat(block, t);
    RemoveSpacesOfSpaceless(block);
    forall k | 0 <= k < |block + t| ensures (block + t)[k] == ' ' || p((block + t)[k]) {
      if k < |block| {
        assert (block + t)[k] == block[k];
      } else {
        assert (block + t)[k] == t[k - |block|];
      }
    }
  }

  lemma ToUpperKeepsNoWhitespace(s: string)
    requires NoWhitespace(s)
    ensures NoWhitespace(ToUpper(s))
  {
  }

  /** Removing the inserted spaces from a formatted code gives back the upper-cased
      code, for any code without whitespace. */
  lemma FormatRoomCodeRoundTrip(code: string)
    requires NoWhitespace(code)
    ensures RemoveSpaces(FormatRoomCode(Some(code))) == ToUpper(code)
  {
    if code != "" {
      var u := ToUpper(code);
      ToUpperKeepsNoWhitespace(code);
      GroupFoursInsertsSpaces(u, 0);
      RemoveSpacesOfTrim(GroupFours(u, 0));
      assert u[0..] == u;
    }
  }

  /** An eight-character alphanumeric code is shown as two groups of four. */
  lemma FormatEightCharCode(code: string)
    requires |code| == 8 && forall k :: 0 <= k < 8 ==> IsAsciiAlnum(code[k])
    ensures FormatRoomCode(Some(code)) == ToUpper(code)[..4] + " " + ToUpper(code)[4..]
  {
    var u := ToUpper(code);
    forall k | 0 <= k < 8 ensures !IsJsWhitespace(u[k]) {
      UpperAlnumIsNotWhitespace(code[k]);
    }
    TwoGroups(u);
  }

  lemma UpperAlnumIsNotWhitespace(c: char)
    requires IsAsciiAlnum(c)
    ensures !IsJsWhitespace(ToUpperChar(c))
  {
  }

  lemma TwoGroups(u: string)
    requires |u| == 8 && NoWhitespace(u)
    ensures Trim(GroupFours(u, 0)) == u[..4] + " " + u[4..]
  {
    GroupOfFour(u, 4);
    GroupOfFour(u, 0);
    assert GroupFours(u, 8) == [];
    var x := u[..4] + " " + u[4..];
    assert GroupFours(u, 0) == x + " ";
    assert x[0] == u[0] && x[|x| - 1] == u[7];
    TrimDropsTrailingSpace(x);
  }

  /** Four characters without whitespace form one group. */
  lemma GroupOfFour(s: string, i: nat)
    requires i + 4 <= |s| && NoWhitespace(s)
    ensures GroupFours(s, i) == s[i..i + 4] + " " + GroupFours(s, i + 4)
  {
    assert NoLineTerminator(s[i..i + 4]);
  }

  lemma TrimDropsTrailingSpace(x: string)
    requires x != [] && !IsJsWhitespace(x[0]) && !IsJsWhitespace(x[|x| - 1])
    ensures Trim(x + " ") == x
  {
    var s := x + " ";
    assert SkipSpace(s, 0) == 0;
    assert SkipSpaceBack(s, 0, |s|) == SkipSpaceBack(s, 0, |x|) == |x|;
  }

  // ---------------------------------------------------------------------------
  // getUserColor

  const Colors: seq<string> := ["bg-red-500", "bg-blue-500", "bg-green-500", "bg-yellow-500",
                                "bg-purple-500", "bg-pink-500", "bg-indigo-500", "bg-cyan-500"]

  /** ECMAScript ToInt32: the integer taken modulo 2^32 into [-2^31, 2^31). */
  function ToInt32(x: int): (r: int)
    ensures -0x8000_0000 <= r < 0x8000_0000
    ensures (r - x) % 0x1_0000_0000 == 0
  {
    (x + 0x8000_0000) % 0x1_0000_0000 - 0x8000_0000
  }

  /** One round of `hash = charCodeAt(i) + ((hash << 5) - hash)`: the shift works on
      the 32-bit value of `hash`, the subtraction and the addition do not. */
  function HashStep(hash: int, unit: int): int {
    unit + (ToInt32(hash * 32) - hash)
  }

  /** The hash of a sequence of UTF-16 code units, folded from the left. */
  function Hash(units: seq<int>): int {
    if units == [] then 0 else HashStep(Hash(units[..|units| - 1]), units[|units| - 1])
  }

  /** `username || 'Anonymous'` for a string or a missing value. */
  function SafeName(username: Option<string>): (s: string)
    ensures s != ""
  {
    if username.None? || username.value == "" then "Anonymous" else username.value
  }

  function Abs(x: int): nat { if x < 0 then -x else x }

  /** The colour `getUserColor` picks. */
  function UserColor(username: Option<string>): (color: string)
    ensures color in Colors
  {
    Colors[Abs(Hash(Utf16CodeUnits(SafeName(username)))) % |Colors|]
  }

  /** `getUserColor(username)`: the hash loop over the UTF-16 code units. */
  method GetUserColor(username: Option<string>) returns (color: string)
    ensures color == UserColor(username)
    ensures color in Colors
  {
    var safe := SafeName(username);
    var units := Utf16CodeUnits(safe);
    var hash := 0;
    var i := 0;
    while i < |units|
      invariant 0 <= i <= |units|
      invariant hash == Hash(units[..i])
    {
      assert units[..i + 1][..i] == units[..i];
      hash := units[i] + ((ToInt32(hash * 32)) - hash);
      i := i + 1;
    }
    assert units[..i] == units;
    color := Colors[Abs(hash) % |Colors|];
  }

  /** A missing name and an empty one get the colour of 'Anonymous'. */
  lemma MissingNameIsAnonymous()
    ensures UserColor(None) == UserColor(Some("")) == UserColor(Some("Anonymous"))
  {
  }

  /** Each round moves the hash by less than 2^31 + 2^16, so up to 2^21 code units
      it stays below 2^53 in size, where the double arithmetic of the source is exact. */
  lemma {:induction false} HashBound(units: seq<int>)
    requires forall k :: 0 <= k < |units| ==> 0 <= units[k] < 0x1_0000
    ensures Abs(Hash(units)) <= |units| * 0x8001_0000
  {
    if units != [] {
      HashBound(units[..|units| - 1]);
    }
  }

  lemma HashExact(units: seq<int>)
    requires forall k :: 0 <= k < |units| ==> 0 <= units[k] < 0x1_0000
    requires |units| <= 0x20_0000
    ensures Abs(Hash(units)) < 0x20_0000_0000_0000
  {
    HashBound(units);
  }

  // ---------------------------------------------------------------------------
  // formatVideoDuration

  /** The decimal digits of a natural number, without leading zeros. */
  function DigitString(n: nat): (s: string)
    ensures s != [] && forall k :: 0 <= k < |s| ==> IsAsciiDigit(s[k])
  {
    if n < 10 then [Digit(n)] else DigitString(n / 10) + [Digit(n % 10)]
  }

  function Digit(d: nat): (c: char)
    requires d < 10
    ensures IsAsciiDigit(c) && c as int - '0' as int == d
  {
    ('0' as int + d) as char
  }

  /** The value of a string of decimal digits. */
  function DecimalValue(s: string): nat
    requires forall k :: 0 <= k < |s| ==> IsAsciiDigit(s[k])
  {
    if s == [] then 0
    else
      var c := s[|s| - 1];
      assert IsAsciiDigit(c);
      10 * DecimalValue(s[..|s| - 1]) + (c as int - '0' as int)
  }

  lemma {:induction false} DigitStringValue(n: nat)
    ensures DecimalValue(DigitString(n)) == n
  {
    if n >= 10 {
      DigitStringValue(n / 10);
      var s := DigitString(n);
      assert s[..|s| - 1] == DigitString(n / 10);
    }
  }

  /** `Number.prototype.toString()` on an integer. */
  function IntToString(i: int): string {
    if i < 0 then "-" + DigitString(-i) else DigitString(i)
  }

  /** `t.padStart(2, '0')`. */
  function PadStart2(t: string): (r: string)
    ensures |r| == if |t| < 2 then 2 else |t|
  {
    if |t| == 0 then "00" else if |t| == 1 then "0" + t else t
  }

  /** The truncating remainder `x % m` of JavaScript, for a positive divisor. */
  function JsRem(x: real, m: real): real
    requires m > 0.0
  {
    var q := x / m;
    x - m * (if q >= 0.0 then q.Floor else -((-q).Floor)) as real
  }

  /** `formatVideoDuration(seconds)`; `None` is a missing value or NaN. */
  function FormatVideoDuration(seconds: Option<real>): (r: string)
    ensures seconds.None? || seconds == Some(0.0) ==> r == "0:00"
  {
    if seconds.None? || seconds.value == 0.0 then "0:00"
    else
      var s := seconds.value;
      var hours := (s / 3600.0).Floor;
      var minutes := (JsRem(s, 3600.0) / 60.0).Floor;
      var secs := JsRem(s, 60.0).Floor;
      if hours > 0 then IntToString(hours) + ":" + PadStart2(IntToString(minutes)) + ":" + PadStart2(IntToString(secs))
      else IntToString(minutes) + ":" + PadStart2(IntToString(secs))
  }

  /** Two decimal digits for a number below 100. */
  function TwoDigits(n: nat): (s: string)
    requires n < 100
    ensures |s| == 2 && forall k :: 0 <= k < 2 ==> IsAsciiDigit(s[k])
    ensures DecimalValue(s) == n
  {
    var s := [Digit(n / 10), Digit(n % 10)];
    assert s[..1] == [Digit(n / 10)];
    assert s[..1][..0] == [];
    assert DecimalValue(s[..1]) == n / 10;
    s
  }

  lemma PadOfSmall(n: nat)
    requires n < 100
    ensures PadStart2(DigitString(n)) == TwoDigits(n)
  {
    if n >= 10 {
      assert DigitString(n / 10) == [Digit(n / 10)];
    }
  }

  /** The three components as the source computes them, for a non-negative time,
      against whole-second integer arithmetic on `floor(s)`. */
  lemma DurationComponents(s: real)
    requires s >= 0.0
    ensures (s / 3600.0).Floor == s.Floor / 3600
    ensures (JsRem(s, 3600.0) / 60.0).Floor == (s.Floor % 3600) / 60
    ensures JsRem(s, 60.0).Floor == s.Floor % 60
  {
    var f := s.Floor;
    FloorDiv(s, 3600);
    FloorDiv(s, 60);
    var h := f / 3600;
    assert JsRem(s, 3600.0) == s - 3600.0 * h as real;
    FloorDiv(s - 3600.0 * h as real, 60);
    FloorShift(s, -3600 * h);
    FloorShift(s, -60 * (f / 60));
    assert JsRem(s, 60.0) == s - 60.0 * (f / 60) as real;
  }

  /** floor(x / n) == floor(x) div n for x >= 0. */
  lemma FloorDiv(x: real, n: int)
    requires x >= 0.0 && n > 0
    ensures (x / n as real).Floor == x.Floor / n
  {
    var f := x.Floor;
    var q := f / n;
    assert q as real * n as real <= f as real;
    assert f as real < (q + 1) as real * n as real;
    assert q as real <= x / n as real < (q + 1) as real;
  }

  lemma FloorShift(x: real, k: int)
    ensures (x + k as real).Floor == x.Floor + k
  {
  }

  /** Under an hour the duration reads M:SS of the whole seconds. */
  lemma DurationUnderAnHour(s: real)
    requires 0.0 < s < 3600.0
    ensures var f := s.Floor;
            FormatVideoDuration(Some(s)) == DigitString(f / 60) + ":" + TwoDigits(f % 60)
  {
    DurationComponents(s);
    FloorDiv(s, 3600);
    var f := s.Floor;
    assert f % 3600 == f;
    PadOfSmall(f % 60);
  }

  /** From an hour on the duration reads H:MM:SS of the whole seconds. */
  lemma DurationFromAnHour(s: real)
    requires s >= 3600.0
    ensures var f := s.Floor;
            FormatVideoDuration(Some(s)) == DigitString(f / 3600) + ":" + TwoDigits((f % 3600) / 60) + ":" + TwoDigits(f % 60)
  {
    DurationComponents(s);
    var f := s.Floor;
    assert f >= 3600;
    PadOfSmall((f % 3600) / 60);
    PadOfSmall(f % 60);
  }

  /** The components always recombine to the whole seconds. */
  lemma DurationRecombines(s: real)
    requires s >= 0.0
    ensures var h, m, sec := (s / 3600.0).Floor, (JsRem(s, 3600.0) / 60.0).Floor, JsRem(s, 60.0).Floor;
            3600 * h + 60 * m + sec == s.Floor && 0 <= m < 60 && 0 <= sec < 60
  {
    DurationComponents(s);
    ClockArithmetic(s.Floor);
  }

  lemma ClockArithmetic(f: nat)
    ensures 3600 * (f / 3600) + 60 * ((f % 3600) / 60) + f % 60 == f
    ensures (f % 3600) / 60 < 60
  {
    var h, r := f / 3600, f % 3600;
    assert f == 3600 * h + r;
    var m, sec := r / 60, r % 60;
    assert r == 60 * m + sec;
    assert f == 60 * (60 * h + m) + sec;
    SixtiethRemainder(60 * h + m, sec);
  }

  lemma SixtiethRemainder(k: nat, s: nat)
    requires s < 60
    ensures (60 * k + s) % 60 == s
  {
  }
}
