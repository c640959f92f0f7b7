/** The regular expressions of both video-URL parser copies, written out as
    explicit scans over the string. Each pattern is searched the way
    `String.prototype.match` does without the `g` flag: the leftmost position
    at which the pattern matches wins, and at one position the alternatives of
    a group are tried in the order written. */
module VideoPatterns {
  import opened Wrappers
  import opened JsStrings

  /** The platform tag of a parsed video (`type`: 'youtube', 'vimeo' or 'direct'). */
  datatype Platform = YouTube | Vimeo | Direct

  /** Why a parser copy throws: a missing or non-string input, a string that
      the URL parser rejects, or a URL of no supported platform. */
  datatype ParseFailure = InvalidUrlProvided | InvalidUrlFormat | UnsupportedVideoUrl

  /** `[a-zA-Z0-9_-]` */
  predicate IsIdChar(c: char) {
    IsAsciiAlnum(c) || c == '_' || c == '-'
  }

  /** What the capture group after the literal prefix takes. */
  datatype Capture =
    | ElevenIdChars   // ([a-zA-Z0-9_-]{11})
    | DigitRun        // (\d+), greedy

  /** A pattern `(?:lit1|lit2|...)(capture)`. */
  datatype Pattern = Pattern(alternatives: seq<string>, capture: Capture)

  /** `/(?:youtube\.com\/watch\?v=|youtu\.be\/)([a-zA-Z0-9_-]{11})/`,
      `/youtube\.com\/embed\/([a-zA-Z0-9_-]{11})/`, `/youtube\.com\/v\/([a-zA-Z0-9_-]{11})/` */
  const YouTubePatterns: seq<Pattern> := [
    Pattern(["youtube.com/watch?v=", "youtu.be/"], ElevenIdChars),
    Pattern(["youtube.com/embed/"], ElevenIdChars),
    Pattern(["youtube.com/v/"], ElevenIdChars)
  ]

  /** `/vimeo\.com\/(\d+)/`, `/player\.vimeo\.com\/video\/(\d+)/` */
  const VimeoPatterns: seq<Pattern> := [
    Pattern(["vimeo.com/"], DigitRun),
    Pattern(["player.vimeo.com/video/"], DigitRun)
  ]

  /** The extensions of `/\.(mp4|webm|ogg|mov|avi|mkv|flv)(\?.*)?$/i`. */
  const VideoExtensions: seq<string> := ["mp4", "webm", "ogg", "mov", "avi", "mkv", "flv"]

  predicate LiteralAt(s: string, i: nat, lit: string) {
    i + |lit| <= |s| && s[i..i + |lit|] == lit
  }

  /** The number of digits starting at `j` (the greedy `\d+` run). */
  function DigitRunLength(s: string, j: nat): (n: nat)
    requires j <= |s|
    ensures j + n <= |s|
    ensures forall k :: j <= k < j + n ==> IsAsciiDigit(s[k])
    ensures j + n < |s| ==> !IsAsciiDigit(s[j + n])
    decreases |s| - j
  {
    if j < |s| && IsAsciiDigit(s[j]) then 1 + DigitRunLength(s, j + 1) else 0
  }

  /** The text the capture group takes when it starts at position `j`, if it can. */
  function CaptureAt(s: string, j: nat, c: Capture): (r: Option<string>)
    requires j <= |s|
    ensures r.Some? && c == ElevenIdChars ==>
              j + 11 <= |s| && r.value == s[j..j + 11]
    ensures r.Some? && c == DigitRun ==>
              r.value != [] && j + |r.value| <= |s| && r.value == s[j..j + |r.value|]
              && (j + |r.value| < |s| ==> !IsAsciiDigit(s[j + |r.value|]))
    ensures r.Some? ==> forall k :: 0 <= k < |r.value| ==>
              (if c == ElevenIdChars then IsIdChar(r.value[k]) else IsAsciiDigit(r.value[k]))
  {
    match c
    case ElevenIdChars =>
      if j + 11 <= |s| && forall k :: j <= k < j + 11 ==> IsIdChar(s[k]) then Some(s[j..j + 11]) else None
    case DigitRun =>
      var n := DigitRunLength(s, j);
      if n > 0 then Some(s[j..j + n]) else None
  }

  /** The capture of the first alternative (from index `a` on) that matches at position `i`. */
  function MatchAt(s: string, i: nat, alts: seq<string>, c: Capture, a: nat := 0): Option<string>
    requires i <= |s|
    decreases |alts| - a
  {
    if a >= |alts| then None
    else if LiteralAt(s, i, alts[a]) && CaptureAt(s, i + |alts[a]|, c).Some?
    then CaptureAt(s, i + |alts[a]|, c)
    else MatchAt(s, i, alts, c, a + 1)
  }

  /** The capture of the leftmost match of `p` at or after position `i`. */
  function SearchFrom(s: string, p: Pattern, i: nat): Option<string>
    requires i <= |s|
    decreases |s| - i
  {
    var m := MatchAt(s, i, p.alternatives, p.capture);
    if m.Some? then m
    else if i == |s| then None
    else SearchFrom(s, p, i + 1)
  }

  /** `s.match(p)` followed by `match[1]`. */
  function Search(s: string, p: Pattern): Option<string> {
    SearchFrom(s, p, 0)
  }

  /** The capture of the first pattern in the list that matches somewhere in `s`. */
  function FirstMatch(s: string, pats: seq<Pattern>): Option<string> {
    if pats == [] then None
    else
      var m := Search(s, pats[0]);
      if m.Some? then m else FirstMatch(s, pats[1..])
  }

  // ---------------------------------------------------------------------------
  // What the scans mean, stated without them.

  /** The alternative `alt` is written at `i` and the capture can follow it. */
  predicate AltMatches(s: string, i: nat, alt: string, c: Capture) {
    LiteralAt(s, i, alt) && CaptureAt(s, i + |alt|, c).Some?
  }

  /** The pattern `p` matches at position `i`. */
  predicate PatternAt(s: string, i: nat, p: Pattern) {
    exists a :: 0 <= a < |p.alternatives| && AltMatches(s, i, p.alternatives[a], p.capture)
  }

  /** The pattern `p` matches somewhere in `s`. */
  predicate PatternIn(s: string, p: Pattern) {
    exists i :: 0 <= i <= |s| && PatternAt(s, i, p)
  }

  /** `i` is the leftmost position where `p` matches in `s`, `a` the first alternative
      that matches there, and `id` what the capture group takes after it. */
  predicate SearchWitness(s: string, p: Pattern, i: nat, a: nat, id: string) {
    a < |p.alternatives|
    && LiteralAt(s, i, p.alternatives[a])
    && CaptureAt(s, i + |p.alternatives[a]|, p.capture) == Some(id)
    && (forall b :: 0 <= b < a ==> !AltMatches(s, i, p.alternatives[b], p.capture))
    && (forall j :: 0 <= j < i ==> !PatternAt(s, j, p))
  }

  /** Pattern `k` is the first of `pats` that occurs in `s`, and `i`, `a`, `id` describe
      its leftmost match. */
  predicate FirstMatchWitness(s: string, pats: seq<Pattern>, k: nat, i: nat, a: nat, id: string) {
    k < |pats| && SearchWitness(s, pats[k], i, a, id)
    && (forall m :: 0 <= m < k ==> !PatternIn(s, pats[m]))
  }

  /** A match from alternative `a` on is the capture of the first alternative from `a`
      on that matches at `i`. */
  lemma {:induction false} MatchAtAlternative(s: string, i: nat, alts: seq<string>, c: Capture, a: nat) returns (x: nat)
    requires i <= |s| && MatchAt(s, i, alts, c, a).Some?
    ensures a <= x < |alts| && AltMatches(s, i, alts[x], c)
    ensures CaptureAt(s, i + |alts[x]|, c) == MatchAt(s, i, alts, c, a)
    ensures forall y :: a <= y < x ==> !AltMatches(s, i, alts[y], c)
    decreases |alts| - a
  {
    if AltMatches(s, i, alts[a], c) {
      x := a;
    } else {
      x := MatchAtAlternative(s, i, alts, c, a + 1);
    }
  }

  /** No match from alternative `a` on means no alternative from `a` on matches at `i`. */
  lemma {:induction false} MatchAtNone(s: string, i: nat, alts: seq<string>, c: Capture, a: nat)
    requires i <= |s| && MatchAt(s, i, alts, c, a).None?
    ensures forall x :: a <= x < |alts| ==> !AltMatches(s, i, alts[x], c)
    decreases |alts| - a
  {
    if a < |alts| {
      MatchAtNone(s, i, alts, c, a + 1);
    }
  }

  /** A match at `i` is a match of some alternative there. */
  lemma MatchAtIsPatternAt(s: string, i: nat, p: Pattern)
    requires i <= |s|
    ensures MatchAt(s, i, p.alternatives, p.capture).Some? <==> PatternAt(s, i, p)
  {
    if MatchAt(s, i, p.alternatives, p.capture, 0).Some? {
      var x := MatchAtAlternative(s, i, p.alternatives, p.capture, 0);
    } else {
      MatchAtNone(s, i, p.alternatives, p.capture, 0);
    }
  }

  /** A scan from `i` that finds something finds it at the leftmost position from `i` on
      where `p` matches. */
  lemma {:induction false} SearchFromPosition(s: string, p: Pattern, i: nat) returns (j: nat)
    requires i <= |s| && SearchFrom(s, p, i).Some?
    ensures i <= j <= |s| && MatchAt(s, j, p.alternatives, p.capture, 0) == SearchFrom(s, p, i)
    ensures forall k :: i <= k < j ==> !PatternAt(s, k, p)
    decreases |s| - i
  {
    if MatchAt(s, i, p.alternatives, p.capture).Some? {
      j := i;
    } else {
      MatchAtIsPatternAt(s, i, p);
      j := SearchFromPosition(s, p, i + 1);
    }
  }

  /** A scan from `i` that finds nothing means `p` matches at no position from `i` on. */
  lemma {:induction false} SearchFromNone(s: string, p: Pattern, i: nat)
    requires i <= |s| && SearchFrom(s, p, i).None?
    ensures forall j :: i <= j <= |s| ==> !PatternAt(s, j, p)
    decreases |s| - i
  {
    MatchAtIsPatternAt(s, i, p);
    if i < |s| {
      SearchFromNone(s, p, i + 1);
    }
  }

  /** `Search` finds something exactly when `p` occurs in `s`. */
  lemma SearchFindsPattern(s: string, p: Pattern)
    ensures Search(s, p).Some? <==> PatternIn(s, p)
  {
    if Search(s, p).Some? {
      var j := SearchFromPosition(s, p, 0);
      MatchAtIsPatternAt(s, j, p);
    } else {
      SearchFromNone(s, p, 0);
    }
  }

  /** A `FirstMatch` that finds something takes it from the first pattern that occurs. */
  lemma {:induction false} FirstMatchPattern(s: string, pats: seq<Pattern>) returns (k: nat)
    requires FirstMatch(s, pats).Some?
    ensures k < |pats| && Search(s, pats[k]) == FirstMatch(s, pats)
    ensures forall m :: 0 <= m < k ==> !PatternIn(s, pats[m])
  {
    if Search(s, pats[0]).Some? {
      k := 0;
    } else {
      SearchFindsPattern(s, pats[0]);
      var k' := FirstMatchPattern(s, pats[1..]);
      k := k' + 1;
      assert pats[k] == pats[1..][k'];
      forall m | 0 <= m < k ensures !PatternIn(s, pats[m]) {
        if m > 0 { assert pats[m] == pats[1..][m - 1]; }
      }
    }
  }

  /** A `FirstMatch` that finds nothing means no pattern of the list occurs. */
  lemma {:induction false} FirstMatchNone(s: string, pats: seq<Pattern>)
    requires FirstMatch(s, pats).None?
    ensures forall k :: 0 <= k < |pats| ==> !PatternIn(s, pats[k])
  {
    if pats != [] {
      SearchFindsPattern(s, pats[0]);
      FirstMatchNone(s, pats[1..]);
      forall k | 0 <= k < |pats| ensures !PatternIn(s, pats[k]) {
        if k > 0 { assert pats[k] == pats[1..][k - 1]; }
      }
    }
  }

  /** A scan that finds `id` has a witness for it. */
  lemma SearchHasWitness(s: string, p: Pattern) returns (i: nat, a: nat)
    requires Search(s, p).Some?
    ensures SearchWitness(s, p, i, a, Search(s, p).value)
  {
    i := SearchFromPosition(s, p, 0);
    a := MatchAtAlternative(s, i, p.alternatives, p.capture, 0);
  }

  /** A witness shows that its pattern occurs in `s`. */
  lemma SearchWitnessOccurs(s: string, p: Pattern, i: nat, a: nat, id: string)
    requires SearchWitness(s, p, i, a, id)
    ensures i <= |s| && PatternAt(s, i, p) && PatternIn(s, p)
  {
    assert AltMatches(s, i, p.alternatives[a], p.capture);
  }

  /** A witness names the leftmost position where its pattern matches. */
  lemma SearchWitnessLeftmost(s: string, p: Pattern, i: nat, a: nat, id: string, j: nat)
    requires SearchWitness(s, p, i, a, id) && PatternAt(s, j, p)
    ensures i <= j
  {
  }

  /** A witness names the first alternative that matches at its position. */
  lemma SearchWitnessFirstAlt(s: string, p: Pattern, i: nat, a: nat, id: string, b: nat)
    requires SearchWitness(s, p, i, a, id) && b < |p.alternatives| && AltMatches(s, i, p.alternatives[b], p.capture)
    ensures a <= b
  {
  }

  /** At most one witness describes a string and a pattern. */
  lemma SearchWitnessUnique(s: string, p: Pattern, i: nat, a: nat, id: string, i': nat, a': nat, id': string)
    requires SearchWitness(s, p, i, a, id) && SearchWitness(s, p, i', a', id')
    ensures i == i' && a == a' && id == id'
  {
    assert i == i' by {
      SearchWitnessOccurs(s, p, i, a, id);
      SearchWitnessOccurs(s, p, i', a', id');
      SearchWitnessLeftmost(s, p, i, a, id, i');
      SearchWitnessLeftmost(s, p, i', a', id', i);
    }
    assert a == a' by {
      assert AltMatches(s, i, p.alternatives[a], p.capture);
      assert AltMatches(s, i, p.alternatives[a'], p.capture);
      SearchWitnessFirstAlt(s, p, i, a, id, a');
      SearchWitnessFirstAlt(s, p, i', a', id', a);
    }
  }

  /** At most one witness describes a string and a list of patterns. */
  lemma FirstMatchWitnessUnique(s: string, pats: seq<Pattern>, k: nat, i: nat, a: nat, id: string,
                                k': nat, i': nat, a': nat, id': string)
    requires FirstMatchWitness(s, pats, k, i, a, id) && FirstMatchWitness(s, pats, k', i', a', id')
    ensures k == k' && i == i' && a == a' && id == id'
  {
    SearchWitnessOccurs(s, pats[k], i, a, id);
    SearchWitnessOccurs(s, pats[k'], i', a', id');
    assert k == k';
    SearchWitnessUnique(s, pats[k], i, a, id, i', a', id');
  }

  /** `FirstMatch` returns `id` exactly when the first pattern of the list that occurs
      anywhere in `s`, taken at its leftmost position and its first matching
      alternative there, captures `id`; it returns nothing exactly when no pattern
      occurs. */
  lemma FirstMatchMeans(s: string, pats: seq<Pattern>, id: string)
    ensures FirstMatch(s, pats) == Some(id) <==> exists k, i, a :: FirstMatchWitness(s, pats, k, i, a, id)
    ensures FirstMatch(s, pats).None? <==> forall k :: 0 <= k < |pats| ==> !PatternIn(s, pats[k])
  {
    if FirstMatch(s, pats).Some? {
      var k := FirstMatchPattern(s, pats);
      var i, a := SearchHasWitness(s, pats[k]);
      var v := FirstMatch(s, pats).value;
      SearchWitnessOccurs(s, pats[k], i, a, v);
      assert FirstMatchWitness(s, pats, k, i, a, v);
      forall k': nat, i': nat, a': nat | FirstMatchWitness(s, pats, k', i', a', id) ensures v == id {
        FirstMatchWitnessUnique(s, pats, k, i, a, v, k', i', a', id);
      }
    } else {
      FirstMatchNone(s, pats);
      forall k': nat, i': nat, a': nat | FirstMatchWitness(s, pats, k', i', a', id) ensures false {
        SearchWitnessOccurs(s, pats[k'], i', a', id);
      }
    }
  }

  /** `(\?.*)?$` matches at `j`: the string ends there, or a `?` follows and then no line terminator. */
  predicate QueryTailAt(s: string, j: nat)
    requires j <= |s|
  {
    j == |s| || (s[j] == '?' && forall k :: j < k < |s| ==> !IsLineTerminator(s[k]))
  }

  /** `/\.(mp4|webm|ogg|mov|avi|mkv|flv)(\?.*)?$/i.test(s)`: some position holds a match. */
  predicate HasVideoExtension(s: string) {
    ExtensionFrom(s, 0)
  }

  /** A match of the extension pattern starts at some position `>= i`. */
  predicate ExtensionFrom(s: string, i: nat)
    decreases |s| - i
  {
    i < |s| && (AnyExtensionAt(s, i, 0) || ExtensionFrom(s, i + 1))
  }

  /** One of the extensions from index `e` on matches at position `i`. */
  predicate AnyExtensionAt(s: string, i: nat, e: nat)
    decreases |VideoExtensions| - e
  {
    e < |VideoExtensions| && (ExtensionAt(s, i, VideoExtensions[e]) || AnyExtensionAt(s, i, e + 1))
  }

  /** A dot at `i`, the extension `ext` right after it (ignoring case) and an allowed tail. */
  predicate ExtensionAt(s: string, i: nat, ext: string) {
    i < |s| && s[i] == '.' && i + 1 + |ext| <= |s| && EqualsIgnoreCase(s[i + 1..i + 1 + |ext|], ext)
    && QueryTailAt(s, i + 1 + |ext|)
  }

  /** The scan finds a match exactly when one exists. */
  lemma {:induction false} ExtensionFromMeans(s: string, i: nat)
    ensures ExtensionFrom(s, i) <==>
              exists j, e :: i <= j < |s| && 0 <= e < |VideoExtensions| && ExtensionAt(s, j, VideoExtensions[e])
    decreases |s| - i
  {
    if i < |s| {
      ExtensionFromMeans(s, i + 1);
      AnyExtensionAtMeans(s, i, 0);
    }
  }

  lemma {:induction false} AnyExtensionAtMeans(s: string, i: nat, e: nat)
    ensures AnyExtensionAt(s, i, e) <==>
              exists x :: e <= x < |VideoExtensions| && ExtensionAt(s, i, VideoExtensions[x])
    decreases |VideoExtensions| - e
  {
    if e < |VideoExtensions| { AnyExtensionAtMeans(s, i, e + 1); }
  }

  // ---------------------------------------------------------------------------
  // Facts used by the round-trip lemmas of the parsers.

  /** Where no alternative can start (its first character is absent), scanning moves on. */
  lemma {:induction false} SkipUnmatchable(s: string, p: Pattern, i: nat, n: nat, c: char)
    requires i <= n <= |s|
    requires forall a :: 0 <= a < |p.alternatives| ==> p.alternatives[a] != [] && p.alternatives[a][0] == c
    requires forall k :: i <= k < n ==> s[k] != c
    ensures SearchFrom(s, p, i) == SearchFrom(s, p, n)
    decreases n - i
  {
    if i < n {
      NoMatchWithoutFirstChar(s, i, p.alternatives, p.capture, c, 0);
      SkipUnmatchable(s, p, i + 1, n, c);
    }
  }

  lemma {:induction false} NoMatchWithoutFirstChar(s: string, i: nat, alts: seq<string>, cap: Capture, c: char, a: nat)
    requires i < |s| && s[i] != c
    requires forall b :: 0 <= b < |alts| ==> alts[b] != [] && alts[b][0] == c
    ensures MatchAt(s, i, alts, cap, a).None?
    decreases |alts| - a
  {
    if a < |alts| {
      NoMatchWithoutFirstChar(s, i, alts, cap, c, a + 1);
    }
  }

  /** A pattern whose alternatives all start with `c` finds nothing in a string lacking `c`. */
  lemma NoMatchInStringWithout(s: string, p: Pattern, c: char)
    requires forall a :: 0 <= a < |p.alternatives| ==> p.alternatives[a] != [] && p.alternatives[a][0] == c
    requires forall k :: 0 <= k < |s| ==> s[k] != c
    ensures Search(s, p).None?
  {
    SkipUnmatchable(s, p, 0, |s|, c);
    NoMatchAtEnd(s, p.alternatives, p.capture, 0);
  }

  lemma {:induction false} NoMatchAtEnd(s: string, alts: seq<string>, cap: Capture, a: nat)
    requires forall b :: 0 <= b < |alts| ==> alts[b] != []
    ensures MatchAt(s, |s|, alts, cap, a).None?
    decreases |alts| - a
  {
    if a < |alts| { NoMatchAtEnd(s, alts, cap, a + 1); }
  }

  /** Every alternative is non-empty and starts with `c`. */
  predicate StartsAllWith(alts: seq<string>, c: char) {
    forall a :: 0 <= a < |alts| ==> alts[a] != [] && alts[a][0] == c
  }

  lemma StartsAllWithPair(x: string, y: string, c: char)
    requires x != [] && y != [] && x[0] == c && y[0] == c
    ensures StartsAllWith([x, y], c)
  {
  }

  /** A list of patterns whose alternatives all start with `c` finds nothing in a
      string lacking `c`. */
  lemma {:induction false} NoneMatchWithout(s: string, pats: seq<Pattern>, c: char)
    requires forall k :: 0 <= k < |pats| ==> StartsAllWith(pats[k].alternatives, c)
    requires forall k :: 0 <= k < |s| ==> s[k] != c
    ensures FirstMatch(s, pats).None?
  {
    if pats != [] {
      NoMatchInStringWithout(s, pats[0], c);
      assert forall k :: 0 <= k < |pats[1..]| ==> pats[1..][k] == pats[k + 1];
      NoneMatchWithout(s, pats[1..], c);
    }
  }

  /** No YouTube pattern matches a string without the letter `y`. */
  lemma NoYouTubeWithoutY(s: string)
    requires forall k :: 0 <= k < |s| ==> s[k] != 'y'
    ensures FirstMatch(s, YouTubePatterns).None?
  {
    YouTubePatternsStartWithY();
    NoneMatchWithout(s, YouTubePatterns, 'y');
  }

  /** Every YouTube alternative begins with `y`. */
  lemma YouTubePatternsStartWithY()
    ensures forall k :: 0 <= k < |YouTubePatterns| ==> StartsAllWith(YouTubePatterns[k].alternatives, 'y')
  {
    StartsAllWithPair("youtube.com/watch?v=", "youtu.be/", 'y');
    assert StartsAllWith(YouTubePatterns[0].alternatives, 'y');
    assert StartsAllWith(YouTubePatterns[1].alternatives, 'y');
    assert StartsAllWith(YouTubePatterns[2].alternatives, 'y');
  }
}
