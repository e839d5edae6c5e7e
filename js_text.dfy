/** The JavaScript string primitives the controllers use: `trim`, `toLowerCase`,
    `replace(/\D/g, '')` and `split('@')[1]`. */
module JsText {
  import opened Wrappers

  /** The characters `String.prototype.trim` removes: ECMAScript WhiteSpace
      (TAB, VT, FF, ZWNBSP and the Unicode space separators) and LineTerminator. */
  predicate IsJsSpace(c: char) {
    || c == '\t' || c == '\n' || c == '\U{000B}' || c == '\U{000C}' || c == '\r'
    || c == ' ' || c == '\U{00A0}' || c == '\U{1680}' || ('\U{2000}' <= c <= '\U{200A}')
    || c == '\U{2028}' || c == '\U{2029}' || c == '\U{202F}' || c == '\U{205F}'
    || c == '\U{3000}' || c == '\U{FEFF}'
  }

  /** The ASCII digits that `\d` matches. */
  predicate IsDecimalDigit(c: char) {
    '0' <= c <= '9'
  }

  predicate IsAsciiUpper(c: char) {
    'A' <= c <= 'Z'
  }

  /** A string with no leading and no trailing JavaScript space. */
  predicate IsTrimmed(s: string) {
    s == [] || (!IsJsSpace(s[0]) && !IsJsSpace(s[|s| - 1]))
  }

  /** The characters of `s` from index `i` up to, not including, `j` are all spaces. */
  predicate SpacesBetween(s: string, i: int, j: int)
    requires 0 <= i <= j <= |s|
  {
    forall k :: i <= k < j ==> IsJsSpace(s[k])
  }

  /** The first index from `i` on whose character is not a space (`|s|` if none is). */
  function SkipSpaces(s: string, i: nat): (j: nat)
    requires i <= |s|
    ensures i <= j <= |s| && SpacesBetween(s, i, j)
    ensures j < |s| ==> !IsJsSpace(s[j])
    decreases |s| - i
  {
    if i < |s| && IsJsSpace(s[i]) then SkipSpaces(s, i + 1) else i
  }

  /** Going back from `j`, but not past `lo`: the index after the last character
      that is not a space (`lo` if none is). */
  function SkipSpacesBack(s: string, lo: nat, j: nat): (i: nat)
    requires lo <= j <= |s|
    ensures lo <= i <= j && SpacesBetween(s, i, j)
    ensures i > lo ==> !IsJsSpace(s[i - 1])
  {
    if j > lo && IsJsSpace(s[j - 1]) then SkipSpacesBack(s, lo, j - 1) else j
  }

  /** `s` without its leading spaces. */
  function TrimStart(s: string): string {
    s[SkipSpaces(s, 0)..]
  }

  /** `r` is `s` with `i` characters, all spaces, cut from the front and only spaces
      cut from the back. */
  ghost predicate CutSpaces(s: string, i: int, r: string) {
    && 0 <= i <= i + |r| <= |s| && r == s[i..i + |r|]
    && SpacesBetween(s, 0, i) && SpacesBetween(s, i + |r|, |s|)
  }

  /** `s.trim()`: a slice of `s` that neither starts nor ends with a space,
      obtained by cutting spaces only. */
  function Trim(s: string): (r: string)
    ensures IsTrimmed(r)
    ensures exists i :: CutSpaces(s, i, r)
  {
    var i := SkipSpaces(s, 0);
    var j := SkipSpacesBack(s, i, |s|);
    assert CutSpaces(s, i, s[i..j]);
    s[i..j]
  }

  lemma TrimStartOfTrimmed(s: string)
    requires s == [] || !IsJsSpace(s[0])
    ensures TrimStart(s) == s
  {
    assert SkipSpaces(s, 0) == 0;
  }

  /** A trimmed string is its own trim ... */
  lemma TrimOfTrimmed(s: string)
    requires IsTrimmed(s)
    ensures Trim(s) == s
  {
    assert SkipSpaces(s, 0) == 0;
    assert SkipSpacesBack(s, 0, |s|) == |s|;
  }

  /** ... so trimming a string twice is trimming it once. */
  lemma TrimIdempotent(s: string)
    ensures Trim(Trim(s)) == Trim(s)
  {
    TrimOfTrimmed(Trim(s));
  }

  /** `toLowerCase` on one character; only the letters A to Z are modelled: each
      becomes its lower-case letter, 32 code points further on, and every other
      character stays as it is. */
  function LowerChar(c: char): (d: char)
    ensures !IsAsciiUpper(d)
    ensures IsAsciiUpper(c) ==> d as int == c as int + 32
    ensures !IsAsciiUpper(c) ==> d == c
    ensures IsJsSpace(d) == IsJsSpace(c)
  {
    if IsAsciiUpper(c) then (c as int - 'A' as int + 'a' as int) as char else c
  }

  /** `s.toLowerCase()`: same length, each capital A to Z turned into its lower-case
      letter, and every other character kept. */
  function Lower(s: string): (r: string)
    ensures |r| == |s|
    ensures forall k :: 0 <= k < |r| ==> !IsAsciiUpper(r[k])
    ensures forall k :: 0 <= k < |r| && IsAsciiUpper(s[k]) ==> r[k] as int == s[k] as int + 32
    ensures forall k :: 0 <= k < |r| && !IsAsciiUpper(s[k]) ==> r[k] == s[k]
  {
    seq(|s|, k requires 0 <= k < |s| => LowerChar(s[k]))
  }

  /** Lower-casing twice is lower-casing once. */
  lemma LowerIdempotent(s: string)
    ensures Lower(Lower(s)) == Lower(s)
  {
  }

  /** Lower-casing works character by character, so it commutes with cutting a
      string up. */
  lemma LowerSlice(s: string, i: int, j: int)
    requires 0 <= i <= j <= |s|
    ensures Lower(s[i..j]) == Lower(s)[i..j]
  {
  }

  /** Lower-casing keeps every space, and every non-space, where it is, so trimming
      before or after it gives the same string. */
  lemma TrimLower(s: string)
    ensures Trim(Lower(s)) == Lower(Trim(s))
  {
    var l := Lower(s);
    LowerKeepsSpaces(s);
    SkipSpacesSame(l, s, 0);
    var i := SkipSpaces(s, 0);
    SkipSpacesBackSame(l, s, i, |s|);
    LowerSlice(s, i, SkipSpacesBack(s, i, |s|));
  }

  lemma LowerKeepsSpaces(s: string)
    ensures SameSpaces(Lower(s), s)
  {
  }

  /** `a` and `b` have their spaces in the same places. */
  ghost predicate SameSpaces(a: string, b: string) {
    |a| == |b| && forall k :: 0 <= k < |a| ==> IsJsSpace(a[k]) == IsJsSpace(b[k])
  }

  lemma {:induction false} SkipSpacesSame(a: string, b: string, i: nat)
    requires SameSpaces(a, b) && i <= |a|
    ensures SkipSpaces(a, i) == SkipSpaces(b, i)
    decreases |a| - i
  {
    if i < |a| {
      SkipSpacesSame(a, b, i + 1);
    }
  }

  lemma {:induction false} SkipSpacesBackSame(a: string, b: string, lo: nat, j: nat)
    requires SameSpaces(a, b) && lo <= j <= |a|
    ensures SkipSpacesBack(a, lo, j) == SkipSpacesBack(b, lo, j)
  {
    if j > lo {
      SkipSpacesBackSame(a, b, lo, j - 1);
    }
  }

  /** A space in front of a string is cut by the trim. */
  lemma TrimLeadingSpace(c: char, s: string)
    requires IsJsSpace(c)
    ensures Trim([c] + s) == Trim(s)
  {
    var cs := [c] + s;
    assert cs[0] == c;
    assert SkipSpaces(cs, 0) == SkipSpaces(cs, 1);
    SkipSpacesShift(c, s, 0);
    var i := SkipSpaces(s, 0);
    var j := SkipSpacesBack(s, i, |s|);
    SkipSpacesBackShift(c, s, i, |s|);
    assert SkipSpaces(cs, 0) == i + 1 && |cs| == |s| + 1;
    assert SkipSpacesBack(cs, i + 1, |cs|) == j + 1;
    assert Trim(cs) == cs[i + 1..j + 1];
    ConsSlice(c, s, i, j);
  }

  lemma ConsSlice<T>(c: T, s: seq<T>, i: int, j: int)
    requires 0 <= i <= j <= |s|
    ensures ([c] + s)[i + 1..j + 1] == s[i..j]
  {
  }

  lemma SnocSlice<T>(s: seq<T>, c: T, i: int, j: int)
    requires 0 <= i <= j <= |s|
    ensures (s + [c])[i..j] == s[i..j]
  {
  }

  lemma {:induction false} SkipSpacesShift(c: char, s: string, i: nat)
    requires i <= |s|
    ensures SkipSpaces([c] + s, i + 1) == SkipSpaces(s, i) + 1
    decreases |s| - i
  {
    if i < |s| {
      assert ([c] + s)[i + 1] == s[i];
      SkipSpacesShift(c, s, i + 1);
    }
  }

  lemma {:induction false} SkipSpacesBackShift(c: char, s: string, lo: nat, j: nat)
    requires lo <= j <= |s|
    ensures SkipSpacesBack([c] + s, lo + 1, j + 1) == SkipSpacesBack(s, lo, j) + 1
  {
    if j > lo {
      assert ([c] + s)[j] == s[j - 1];
      SkipSpacesBackShift(c, s, lo, j - 1);
    }
  }

  /** A space after a string is cut by the trim. */
  lemma TrimTrailingSpace(s: string, c: char)
    requires IsJsSpace(c)
    ensures Trim(s + [c]) == Trim(s)
  {
    var sc := s + [c];
    SkipSpacesAppend(s, c, 0);
    var i := SkipSpaces(s, 0);
    if i < |s| {
      assert sc[|s|] == c;
      assert SkipSpacesBack(sc, i, |s| + 1) == SkipSpacesBack(sc, i, |s|);
      SkipSpacesBackPrefix(s, c, i, |s|);
      SnocSlice(s, c, i, SkipSpacesBack(s, i, |s|));
    } else {
      assert Trim(sc) == sc[|s| + 1..|s| + 1];
    }
  }

  lemma {:induction false} SkipSpacesAppend(s: string, c: char, i: nat)
    requires IsJsSpace(c) && i <= |s|
    ensures SkipSpaces(s + [c], i) == if SkipSpaces(s, i) == |s| then |s| + 1 else SkipSpaces(s, i)
    decreases |s| - i
  {
    var sc := s + [c];
    if i < |s| {
      assert sc[i] == s[i];
      SkipSpacesAppend(s, c, i + 1);
    } else {
      assert sc[i] == c;
    }
  }

  lemma {:induction false} SkipSpacesBackPrefix(s: string, c: char, lo: nat, j: nat)
    requires lo <= j <= |s|
    ensures SkipSpacesBack(s + [c], lo, j) == SkipSpacesBack(s, lo, j)
  {
    if j > lo {
      assert (s + [c])[j - 1] == s[j - 1];
      SkipSpacesBackPrefix(s, c, lo, j - 1);
    }
  }

  /** Lower-casing keeps the characters that are spaces where they are, so it does not undo a trim. */
  lemma LowerKeepsTrimmed(s: string)
    requires IsTrimmed(s)
    ensures IsTrimmed(Lower(s))
  {
    if s != [] {
      assert Lower(s)[0] == LowerChar(s[0]);
      assert Lower(s)[|s| - 1] == LowerChar(s[|s| - 1]);
    }
  }

  /** `s.replace(/\D/g, '')`: the decimal digits of `s`, in their order. Each digit
      occurs in the result exactly as often as in `s`, and nothing else occurs. */
  function DigitsOf(s: string): (r: string)
    ensures |r| <= |s|
    ensures forall k :: 0 <= k < |r| ==> IsDecimalDigit(r[k])
    ensures forall c :: c in r <==> c in s && IsDecimalDigit(c)
    ensures forall c :: multiset(r)[c] == if IsDecimalDigit(c) then multiset(s)[c] else 0
  {
    if s == [] then []
    else
      assert s == [s[0]] + s[1..];
      assert multiset(s) == multiset{s[0]} + multiset(s[1..]);
      if IsDecimalDigit(s[0]) then [s[0]] + DigitsOf(s[1..])
      else DigitsOf(s[1..])
  }

  /** The digit filter works piece by piece: the digits of `a + b` are those of `a`
      followed by those of `b`, so their order is kept. */
  lemma {:induction false} DigitsOfAppend(a: string, b: string)
    ensures DigitsOf(a + b) == DigitsOf(a) + DigitsOf(b)
  {
    if a == [] {
      assert a + b == b;
    } else {
      var ab := a + b;
      var rest := a[1..] + b;
      assert ab[0] == a[0] && ab[1..] == rest;
      DigitsOfAppend(a[1..], b);
      var h := DigitsOfHead(a[0]);
      DigitsOfStep(ab);
      DigitsOfStep(a);
      SeqAssoc(h, DigitsOf(a[1..]), DigitsOf(b));
    }
  }

  /** The digit string of the one character `x`. */
  function DigitsOfHead(x: char): (r: string)
    ensures r == DigitsOf([x])
  {
    if IsDecimalDigit(x) then [x] else []
  }

  /** One step of the digit filter. */
  lemma DigitsOfStep(s: string)
    requires s != []
    ensures DigitsOf(s) == DigitsOfHead(s[0]) + DigitsOf(s[1..])
  {
  }

  lemma SeqAssoc(x: string, y: string, z: string)
    ensures x + (y + z) == (x + y) + z
  {
  }

  /** A string made only of digits is its own digit string. */
  lemma {:induction false} DigitsOfDigits(s: string)
    requires forall k :: 0 <= k < |s| ==> IsDecimalDigit(s[k])
    ensures DigitsOf(s) == s
  {
    if s != [] {
      DigitsOfDigits(s[1..]);
    }
  }

  /** The part of `s` before its first `c` (all of `s` when there is none). */
  function UpTo(s: string, c: char): (p: string)
    ensures |p| <= |s| && p == s[..|p|]
    ensures c !in p
    ensures |p| < |s| ==> s[|p|] == c
  {
    if s == [] || s[0] == c then [] else [s[0]] + UpTo(s[1..], c)
  }

  /** `s.split(c)[1]`: the piece between the first and the second `c`, or
      `undefined` (None) when `s` holds no `c` at all. */
  function SecondPiece(s: string, c: char): (r: Option<string>)
    ensures r.None? <==> c !in s
    ensures r.Some? ==> c !in r.value
  {
    var first := UpTo(s, c);
    if |first| == |s| then
      assert s == first;
      None
    else
      Some(UpTo(s[|first| + 1..], c))
  }

  /** `s` has its first `c` at index `i`, and `piece` runs from there up to the
      next `c` or to the end of `s`. */
  ghost predicate SplitsAt(s: string, c: char, i: int, piece: string) {
    && 0 <= i < |s| && s[i] == c && c !in s[..i]
    && i + 1 + |piece| <= |s| && s[i + 1..i + 1 + |piece|] == piece && c !in piece
    && (i + 1 + |piece| == |s| || s[i + 1 + |piece|] == c)
  }

  /** The piece `split(c)[1]` yields is exactly the text between the first `c` and
      the next one (or the end): both directions. */
  lemma SecondPieceIff(s: string, c: char, piece: string)
    ensures SecondPiece(s, c) == Some(piece) <==> exists i :: SplitsAt(s, c, i, piece)
  {
    if SecondPiece(s, c) == Some(piece) {
      var n := |UpTo(s, c)|;
      assert UpTo(s, c) == s[..n];
      var tail := s[n + 1..];
      assert tail[..|piece|] == s[n + 1..n + 1 + |piece|];
      assert SplitsAt(s, c, n, piece);
    }
    if i :| SplitsAt(s, c, i, piece) {
      UpToFirst(s, c, i);
      var tail := s[i + 1..];
      assert tail[..|piece|] == piece;
      UpToFirst(tail, c, |piece|);
    }
  }

  /** `UpTo` stops where a `c`-free head meets a `c`. */
  lemma {:induction false} UpToStops(head: string, c: char, tail: string)
    requires c !in head
    requires tail == [] || tail[0] == c
    ensures UpTo(head + tail, c) == head
  {
    if head != [] {
      assert (head + tail)[1..] == head[1..] + tail;
      UpToStops(head[1..], c, tail);
    }
  }

  /** `UpTo` stops at the first `c`. */
  lemma UpToFirst(s: string, c: char, i: int)
    requires 0 <= i <= |s| && c !in s[..i] && (i == |s| || s[i] == c)
    ensures UpTo(s, c) == s[..i]
  {
  }
}
