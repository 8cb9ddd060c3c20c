/** The parts of JavaScript's String and Array behaviour that the opening-hours
    evaluator relies on: `split` with a string separator, `trim`, `replace` of the
    first occurrence of a character, `reverse`, `slice(1, -1)` and `parseInt`. */
module JsString {
  import opened Wrappers

  // ---------------------------------------------------------------------------
  // split
  // ---------------------------------------------------------------------------

  /** `s.split(sep)` for a non-empty separator: the separator's occurrences,
      found left to right without overlap, cut `s` into pieces; there is always
      at least one piece (`"".split(sep)` is `[""]`). */
  function Split(s: string, sep: string): (pieces: seq<string>)
    requires |sep| > 0
    ensures |pieces| >= 1
    decreases |s|
  {
    if |s| < |sep| then [s]
    else if s[..|sep|] == sep then [""] + Split(s[|sep|..], sep)
    else
      var rest := Split(s[1..], sep);
      [[s[0]] + rest[0]] + rest[1..]
  }

  /** `pieces.join(sep)`: the inverse of `Split`. */
  function Join(pieces: seq<string>, sep: string): (s: string)
    ensures |pieces| > 0 ==> pieces[0] <= s
  {
    if |pieces| == 0 then ""
    else if |pieces| == 1 then pieces[0]
    else pieces[0] + sep + Join(pieces[1..], sep)
  }

  /** Joining the pieces of a split with the same separator gives back the string. */
  lemma {:induction false} SplitJoin(s: string, sep: string)
    requires |sep| > 0
    ensures Join(Split(s, sep), sep) == s
    decreases |s|
  {
    if |s| < |sep| {
    } else if s[..|sep|] == sep {
      SplitJoin(s[|sep|..], sep);
      JoinAtSeparator(s, sep);
    } else {
      SplitJoin(s[1..], sep);
      JoinAtCharacter(s, sep);
    }
  }

  /** Splitting the join of pieces that hold no separator character gives back
      the pieces. */
  lemma {:induction false} JoinSplit(pieces: seq<string>, sep: string)
    requires |sep| > 0 && |pieces| >= 1
    requires forall i :: 0 <= i < |pieces| ==> sep[0] !in pieces[i]
    ensures Split(Join(pieces, sep), sep) == pieces
    decreases |pieces|
  {
    if |pieces| == 1 {
      SplitWithoutSeparator(pieces[0], sep);
    } else {
      var rest := pieces[1..];
      JoinSplit(rest, sep);
      SplitAfterPrefix(pieces[0], sep, Join(rest, sep));
      assert pieces == [pieces[0]] + rest;
    }
  }

  /** The join step of `SplitJoin` where `s` starts with the separator. */
  lemma JoinAtSeparator(s: string, sep: string)
    requires 0 < |sep| <= |s| && s[..|sep|] == sep
    requires Join(Split(s[|sep|..], sep), sep) == s[|sep|..]
    ensures Join(Split(s, sep), sep) == s
  {
    var t := s[|sep|..];
    var r := Split(t, sep);
    assert Split(s, sep) == [""] + r;
    JoinCons("", r, sep);
    assert s == s[..|sep|] + t;
    assert "" + sep + t == sep + t;
  }

  /** The join step of `SplitJoin` where `s` does not start with the separator. */
  lemma JoinAtCharacter(s: string, sep: string)
    requires 0 < |sep| <= |s| && s[..|sep|] != sep
    requires Join(Split(s[1..], sep), sep) == s[1..]
    ensures Join(Split(s, sep), sep) == s
  {
    var rest := Split(s[1..], sep);
    assert Split(s, sep) == [[s[0]] + rest[0]] + rest[1..];
    JoinHead(s[0], rest, sep);
    assert s == [s[0]] + s[1..];
  }

  lemma JoinCons(p: string, r: seq<string>, sep: string)
    requires |r| >= 1
    ensures Join([p] + r, sep) == p + sep + Join(r, sep)
  {
    assert ([p] + r)[1..] == r;
  }

  /** Prepending a character to the first piece prepends it to the join. */
  lemma JoinHead(c: char, r: seq<string>, sep: string)
    requires |r| >= 1
    ensures Join([[c] + r[0]] + r[1..], sep) == [c] + Join(r, sep)
  {
    var pieces := [[c] + r[0]] + r[1..];
    if |r| > 1 {
      assert pieces[1..] == r[1..];
      assert Join(pieces, sep) == ([c] + r[0]) + sep + Join(r[1..], sep);
    }
  }

  /** A one-character separator never survives inside a piece. */
  lemma {:induction false} SplitPiecesLackSeparator(s: string, c: char)
    ensures forall i :: 0 <= i < |Split(s, [c])| ==> c !in Split(s, [c])[i]
    decreases |s|
  {
    if |s| < 1 {
    } else if s[..1] == [c] {
      SplitPiecesLackSeparator(s[1..], c);
    } else {
      SplitPiecesLackSeparator(s[1..], c);
      var rest := Split(s[1..], [c]);
      assert s[0] != c;
      assert forall i :: 1 <= i < |rest| ==> Split(s, [c])[i] == rest[i];
    }
  }

  /** A string that does not contain the separator's first character is one piece. */
  lemma {:induction false} SplitWithoutSeparator(s: string, sep: string)
    requires |sep| > 0 && sep[0] !in s
    ensures Split(s, sep) == [s]
    decreases |s|
  {
    if |s| < |sep| {
    } else {
      assert s[..|sep|][0] == s[0] != sep[0];
      SplitWithoutSeparator(s[1..], sep);
      assert [s[0]] + s[1..] == s;
    }
  }

  /** When `a` holds no character that starts the separator, the first cut of
      `a + sep + b` falls right after `a`. */
  lemma {:induction false} SplitAfterPrefix(a: string, sep: string, b: string)
    requires |sep| > 0 && sep[0] !in a
    ensures Split(a + sep + b, sep) == [a] + Split(b, sep)
    decreases |a|
  {
    var s := a + sep + b;
    if |a| == 0 {
      assert s == sep + b;
      assert s[..|sep|] == sep;
      assert s[|sep|..] == b;
    } else {
      assert s[..|sep|][0] == a[0] != sep[0];
      assert s[1..] == a[1..] + sep + b;
      SplitAfterPrefix(a[1..], sep, b);
      assert [a[0]] + a[1..] == a;
    }
  }

  /** Splitting on one character distributes over a concatenation around an
      occurrence of that character. */
  lemma {:induction false} SplitConcat(a: string, c: char, b: string)
    ensures Split(a + [c] + b, [c]) == Split(a, [c]) + Split(b, [c])
    decreases |a|
  {
    if |a| == 0 {
      assert a + [c] + b == [c] + b;
      SplitCons(c, b, c);
    } else {
      var t := a[1..];
      assert a + [c] + b == [a[0]] + (t + [c] + b);
      assert a == [a[0]] + t;
      SplitCons(a[0], t + [c] + b, c);
      SplitConcat(t, c, b);
      ConsPieceAppend(a[0], c, Split(t, [c]), Split(b, [c]));
      SplitCons(a[0], t, c);
    }
  }

  /** The pieces of `[x] + t` from the pieces `r` of `t`, for the separator `[c]`. */
  function ConsPiece(x: char, c: char, r: seq<string>): seq<string>
    requires |r| >= 1
  {
    if x == c then [""] + r else [[x] + r[0]] + r[1..]
  }

  lemma ConsPieceAppend(x: char, c: char, ra: seq<string>, rb: seq<string>)
    requires |ra| >= 1
    ensures ConsPiece(x, c, ra + rb) == ConsPiece(x, c, ra) + rb
  {
    if x != c {
      assert (ra + rb)[1..] == ra[1..] + rb;
    }
  }

  /** Splitting on a one-character separator, one character at a time. */
  lemma SplitCons(x: char, t: string, c: char)
    ensures Split([x] + t, [c]) == ConsPiece(x, c, Split(t, [c]))
  {
    var s := [x] + t;
    assert s[..1] == [x] && s[1..] == t;
  }

  /** `sep` starts at position `i` of `s`. */
  predicate OccursAt(s: string, sep: string, i: int)
  {
    0 <= i && i + |sep| <= |s| && s[i..i + |sep|] == sep
  }

  /** `sep` occurs in `s` as a contiguous substring. */
  ghost predicate Occurs(s: string, sep: string)
  {
    exists i :: OccursAt(s, sep, i)
  }

  /** A separator whose first character appears at no position where it could
      start does not occur. */
  lemma NoOccurrence(s: string, sep: string)
    requires |sep| > 0
    requires forall i :: 0 <= i <= |s| - |sep| ==> s[i] != sep[0]
    ensures !Occurs(s, sep)
  {
    forall i | OccursAt(s, sep, i)
      ensures s[i] == sep[0]
    {
      assert s[i..i + |sep|][0] == s[i];
    }
  }

  lemma SliceOfTail(s: string, lo: int, hi: int)
    requires 1 <= lo <= hi <= |s|
    ensures s[1..][lo - 1..hi - 1] == s[lo..hi]
  {
    assert forall k :: 0 <= k < hi - lo ==> s[1..][lo - 1..hi - 1][k] == s[lo..hi][k];
  }

  /** `split` cuts the string at all iff the separator occurs in it. */
  lemma {:induction false} SplitCutsIffOccurs(s: string, sep: string)
    requires |sep| > 0
    ensures |Split(s, sep)| > 1 <==> Occurs(s, sep)
    decreases |s|
  {
    if |s| < |sep| {
    } else if s[..|sep|] == sep {
      assert OccursAt(s, sep, 0);
    } else {
      SplitCutsIffOccurs(s[1..], sep);
      if Occurs(s, sep) {
        var i :| OccursAt(s, sep, i);
        assert i != 0;
        SliceOfTail(s, i, i + |sep|);
        assert OccursAt(s[1..], sep, i - 1);
      }
      if Occurs(s[1..], sep) {
        var i :| OccursAt(s[1..], sep, i);
        SliceOfTail(s, i + 1, i + 1 + |sep|);
        assert OccursAt(s, sep, i + 1);
      }
    }
  }

  /** An occurrence after the first character is an occurrence. */
  lemma OccursInTail(s: string, sep: string)
    requires |s| > 0
    ensures Occurs(s[1..], sep) ==> Occurs(s, sep)
  {
    if Occurs(s[1..], sep) {
      var i :| OccursAt(s[1..], sep, i);
      SliceOfTail(s, i + 1, i + 1 + |sep|);
      assert OccursAt(s, sep, i + 1);
    }
  }

  /** A string in which the separator does not occur is one piece. */
  lemma SplitWithoutOccurrence(s: string, sep: string)
    requires |sep| > 0 && !Occurs(s, sep)
    ensures Split(s, sep) == [s]
  {
    SplitCutsIffOccurs(s, sep);
    SplitJoin(s, sep);
  }

  /** The first cut of `a + sep + b` falls right after `a` when no occurrence
      of the separator starts inside `a`, that is, none occurs in `a` followed
      by all but the last character of the separator. */
  lemma {:induction false} SplitAtFirstOccurrence(a: string, sep: string, b: string)
    requires |sep| > 0 && !Occurs(a + sep[..|sep| - 1], sep)
    ensures Split(a + sep + b, sep) == [a] + Split(b, sep)
    decreases |a|
  {
    var s := a + sep + b;
    var p := sep[..|sep| - 1];
    if |a| == 0 {
      assert s == sep + b;
      assert s[..|sep|] == sep;
      assert s[|sep|..] == b;
    } else {
      assert (a + p)[..|sep|] == s[..|sep|];
      assert !OccursAt(a + p, sep, 0);
      assert s[1..] == a[1..] + sep + b;
      assert (a + p)[1..] == a[1..] + p;
      OccursInTail(a + p, sep);
      SplitAtFirstOccurrence(a[1..], sep, b);
      assert [a[0]] + a[1..] == a;
    }
  }

  // ---------------------------------------------------------------------------
  // trim
  // ---------------------------------------------------------------------------

  /** The characters `String.prototype.trim` removes, by code point:
      ECMAScript's WhiteSpace (tab U+0009, vertical tab U+000B, form feed
      U+000C, space, no-break space U+00A0, the zero-width no-break space
      U+FEFF and the Unicode space separators U+1680, U+2000 to U+200A, U+202F,
      U+205F and U+3000) and LineTerminator (LF U+000A, CR U+000D, U+2028 and
      U+2029). */
  predicate IsWhiteSpace(c: char)
  {
    var n := c as int;
    (0x09 <= n <= 0x0D) || n == 0x20 || n == 0xA0 || n == 0x1680 ||
    (0x2000 <= n <= 0x200A) || n == 0x2028 || n == 0x2029 || n == 0x202F ||
    n == 0x205F || n == 0x3000 || n == 0xFEFF
  }

  /** Every character of `t` is white space. */
  predicate AllWhiteSpace(t: string)
  {
    forall k :: 0 <= k < |t| ==> IsWhiteSpace(t[k])
  }

  /** The number of white-space characters `s` starts with. */
  function LeadingWhiteSpace(s: string): (n: nat)
    ensures n <= |s|
  {
    if |s| > 0 && IsWhiteSpace(s[0]) then 1 + LeadingWhiteSpace(s[1..]) else 0
  }

  /** The length of `s` without the white-space characters it ends with. */
  function TrailingWhiteSpaceStart(s: string): (n: nat)
    ensures n <= |s|
  {
    if |s| > 0 && IsWhiteSpace(s[|s| - 1]) then TrailingWhiteSpaceStart(s[..|s| - 1]) else |s|
  }

  /** `s.trimStart()`. */
  function TrimStart(s: string): string
  {
    s[LeadingWhiteSpace(s)..]
  }

  /** `s.trimEnd()`. */
  function TrimEnd(s: string): string
  {
    s[..TrailingWhiteSpaceStart(s)]
  }

  /** `s.trim()`. */
  function Trim(s: string): (r: string)
    ensures |r| <= |s|
  {
    TrimEnd(TrimStart(s))
  }

  /** The leading run is white space and is followed by a character that is not. */
  lemma {:induction false} LeadingWhiteSpaceRun(s: string)
    ensures AllWhiteSpace(s[..LeadingWhiteSpace(s)])
    ensures LeadingWhiteSpace(s) == |s| || !IsWhiteSpace(s[LeadingWhiteSpace(s)])
    decreases |s|
  {
    if |s| > 0 && IsWhiteSpace(s[0]) {
      LeadingWhiteSpaceRun(s[1..]);
      var n := LeadingWhiteSpace(s[1..]);
      assert s[..n + 1] == [s[0]] + s[1..][..n];
      assert n + 1 == |s| || s[n + 1] == s[1..][n];
    }
  }

  /** The trailing run is white space and is preceded by a character that is not. */
  lemma {:induction false} TrailingWhiteSpaceRun(s: string)
    ensures AllWhiteSpace(s[TrailingWhiteSpaceStart(s)..])
    ensures TrailingWhiteSpaceStart(s) == 0 || !IsWhiteSpace(s[TrailingWhiteSpaceStart(s) - 1])
    decreases |s|
  {
    if |s| > 0 && IsWhiteSpace(s[|s| - 1]) {
      var init := s[..|s| - 1];
      TrailingWhiteSpaceRun(init);
      var j := TrailingWhiteSpaceStart(init);
      assert TrailingWhiteSpaceStart(s) == j;
      forall k | 0 <= k < |s| - j ensures IsWhiteSpace(s[j..][k]) {
        if j + k < |s| - 1 {
          assert s[j..][k] == init[j..][k];
        }
      }
      assert j == 0 || s[j - 1] == init[j - 1];
    }
  }

  /** `Trim` cuts only white space, from either end, and leaves none at either end. */
  lemma TrimCutsWhiteSpace(s: string)
    ensures exists i, j :: 0 <= i <= j <= |s| && Trim(s) == s[i..j] && AllWhiteSpace(s[..i]) && AllWhiteSpace(s[j..])
    ensures Trim(s) == [] || (!IsWhiteSpace(Trim(s)[0]) && !IsWhiteSpace(Trim(s)[|Trim(s)| - 1]))
  {
    var i := LeadingWhiteSpace(s);
    var t := s[i..];
    var j := TrailingWhiteSpaceStart(t);
    LeadingWhiteSpaceRun(s);
    TrailingWhiteSpaceRun(t);
    assert Trim(s) == t[..j] == s[i..i + j];
    assert t[j..] == s[i + j..];
    if j > 0 {
      assert Trim(s)[0] == s[i];
      assert Trim(s)[|Trim(s)| - 1] == t[j - 1];
    }
  }

  /** A string that neither starts nor ends with white space is its own trim. */
  lemma TrimTrimmed(s: string)
    requires s == [] || (!IsWhiteSpace(s[0]) && !IsWhiteSpace(s[|s| - 1]))
    ensures Trim(s) == s
  {
  }

  /** One space on either side of a trimmed string is cut by `Trim`. */
  lemma TrimPadded(s: string)
    requires |s| > 0 && !IsWhiteSpace(s[0]) && !IsWhiteSpace(s[|s| - 1])
    ensures Trim(s + " ") == s && Trim(" " + s) == s && Trim(" " + s + " ") == s
  {
    var a, b, c := s + " ", " " + s, " " + s + " ";
    assert LeadingWhiteSpace(a) == 0;
    assert a[..|a| - 1] == s;
    assert TrailingWhiteSpaceStart(a) == |s|;
    assert b[1..] == s;
    assert LeadingWhiteSpace(b) == 1;
    assert c[1..] == a;
    assert LeadingWhiteSpace(c) == 1;
    TrimTrimmed(s);
  }

  // ---------------------------------------------------------------------------
  // replace, reverse, slice
  // ---------------------------------------------------------------------------

  /** `s.replace(c, '')` with a one-character string pattern: only the first
      occurrence of `c` is removed. */
  function RemoveFirst(s: string, c: char): (r: string)
    ensures c !in s ==> r == s
    ensures c in s ==> exists i :: 0 <= i < |s| && s[i] == c && c !in s[..i] && r == s[..i] + s[i + 1..]
  {
    var i := FirstIndex(s, c);
    if i < |s| then s[..i] + s[i + 1..] else s
  }

  /** The position of the first `c` in `s`, or `|s|` when there is none. */
  function FirstIndex(s: string, c: char): (i: nat)
    ensures i <= |s| && c !in s[..i]
    ensures i < |s| ==> s[i] == c
    decreases |s|
  {
    if |s| == 0 then 0
    else if s[0] == c then 0
    else
      var i := FirstIndex(s[1..], c);
      assert s[..i + 1] == [s[0]] + s[1..][..i];
      i + 1
  }

  /** `Array.prototype.reverse`, on a value. */
  function Reverse<T>(s: seq<T>): (r: seq<T>)
    ensures |r| == |s|
    ensures forall k :: 0 <= k < |s| ==> r[k] == s[|s| - 1 - k]
  {
    if |s| == 0 then [] else Reverse(s[1..]) + [s[0]]
  }

  /** `s.slice(1, -1)`: drop the first and the last character. */
  function SliceInner(s: string): (r: string)
    ensures |s| >= 2 ==> [s[0]] + r + [s[|s| - 1]] == s
    ensures |s| < 2 ==> r == ""
  {
    if |s| >= 2 then s[1..|s| - 1] else ""
  }

  // ---------------------------------------------------------------------------
  // parseInt
  // ---------------------------------------------------------------------------

  /** The value of a digit character: 0 to 9 for the decimal digits, 10 to 35
      for the Latin letters in either case, and 36, a digit of no radix, for
      every other character. */
  function DigitValue(c: char): nat
  {
    if '0' <= c <= '9' then c as int - '0' as int
    else if 'a' <= c <= 'z' then c as int - 'a' as int + 10
    else if 'A' <= c <= 'Z' then c as int - 'A' as int + 10
    else 36
  }

  /** `c` is a digit in base `radix`. */
  predicate IsDigitIn(c: char, radix: nat)
  {
    DigitValue(c) < radix
  }

  predicate IsDigit(c: char)
  {
    '0' <= c <= '9'
  }

  /** A non-empty string of decimal digits. */
  predicate IsDecimal(s: string)
  {
    |s| > 0 && forall k :: 0 <= k < |s| ==> IsDigit(s[k])
  }

  /** Every character of `s` is a digit in base `radix`. */
  predicate AllDigitsIn(s: string, radix: nat)
  {
    forall k :: 0 <= k < |s| ==> IsDigitIn(s[k], radix)
  }

  /** The value of a numeral in base `radix`, most significant digit first. */
  function NumeralValue(digits: string, radix: nat): nat
    requires AllDigitsIn(digits, radix)
  {
    if |digits| == 0 then 0
    else
      assert IsDigitIn(digits[|digits| - 1], radix);
      NumeralValue(digits[..|digits| - 1], radix) * radix + DigitValue(digits[|digits| - 1])
  }

  /** The value of a string of decimal digits. */
  function DecimalValue(digits: string): nat
    requires forall k :: 0 <= k < |digits| ==> IsDigit(digits[k])
  {
    DecimalDigits(digits);
    NumeralValue(digits, 10)
  }

  lemma DecimalDigits(s: string)
    requires forall k :: 0 <= k < |s| ==> IsDigit(s[k])
    ensures AllDigitsIn(s, 10)
  {
    forall k | 0 <= k < |s| ensures IsDigitIn(s[k], 10) {
      assert s[k] as int <= '9' as int;
    }
  }

  /** The number of digits in base `radix` that `s` starts with. */
  function LeadingDigitCount(s: string, radix: nat): (n: nat)
    ensures n <= |s|
    decreases |s|
  {
    if |s| > 0 && IsDigitIn(s[0], radix) then 1 + LeadingDigitCount(s[1..], radix) else 0
  }

  /** The leading run is digits, and is followed by a character that is not one. */
  lemma {:induction false} LeadingDigitRun(s: string, radix: nat)
    ensures AllDigitsIn(s[..LeadingDigitCount(s, radix)], radix)
    ensures LeadingDigitCount(s, radix) < |s| ==> !IsDigitIn(s[LeadingDigitCount(s, radix)], radix)
    decreases |s|
  {
    if |s| > 0 && IsDigitIn(s[0], radix) {
      var t := s[1..];
      LeadingDigitRun(t, radix);
      var n := LeadingDigitCount(t, radix);
      assert s[..n + 1] == [s[0]] + t[..n];
    }
  }

  /** A run of digits followed by a non-digit, or by nothing, is the leading run. */
  lemma {:induction false} LeadingDigitsThenRest(d: string, rest: string, radix: nat)
    requires AllDigitsIn(d, radix)
    requires rest == [] || !IsDigitIn(rest[0], radix)
    ensures LeadingDigitCount(d + rest, radix) == |d|
    decreases |d|
  {
    if |d| > 0 {
      assert (d + rest)[1..] == d[1..] + rest;
      LeadingDigitsThenRest(d[1..], rest, radix);
    } else {
      assert d + rest == rest;
    }
  }

  /** `s` starts with `0x` or `0X`. */
  predicate HasHexPrefix(s: string)
  {
    |s| >= 2 && s[0] == '0' && (s[1] == 'x' || s[1] == 'X')
  }

  /** `s` with one leading `+` or `-` removed. */
  function Unsigned(s: string): string
  {
    if |s| > 0 && (s[0] == '+' || s[0] == '-') then s[1..] else s
  }

  /** `parseInt(s)` without a radix argument (section 19.2.5 of ECMAScript
      2024): skip the leading white space, take one `+` or `-`, and read base
      16 after a `0x` or `0X` prefix, base 10 otherwise. The result is the
      signed value of the longest run of digits that follows, or NaN (`None`)
      when that run is empty. A negative zero is 0: `parseHoursAndMins` only
      adds it to a number, which leaves that number unchanged. */
  function ParseInt(s: string): (r: Option<int>)
    ensures r.Some? ==> HasDigit(s)
  {
    var r := ParseSigned(TrimStart(s));
    assert r.Some? ==> HasDigit(s) by {
      if r.Some? {
        DigitInSuffix(s, LeadingWhiteSpace(s));
      }
    }
    r
  }

  /** Some character of `s` is a digit in base 16, the widest base `parseInt`
      reads without a radix. */
  ghost predicate HasDigit(s: string)
  {
    exists k :: 0 <= k < |s| && IsDigitIn(s[k], 16)
  }

  lemma DigitInSuffix(s: string, i: nat)
    requires i <= |s| && HasDigit(s[i..])
    ensures HasDigit(s)
  {
    var k :| 0 <= k < |s| - i && IsDigitIn(s[i..][k], 16);
    assert s[i..][k] == s[i + k];
  }

  /** `parseInt` is NaN when no digit follows the white space and the sign:
      the next character is not a decimal digit, or it starts a `0x` or `0X`
      prefix that no hex digit follows. */
  lemma ParseIntNoDigits(w: string, sign: string, u: string)
    requires AllWhiteSpace(w)
    requires sign == "" || sign == "+" || sign == "-"
    requires u == [] || (!IsWhiteSpace(u[0]) && u[0] != '+' && u[0] != '-')
    requires u == [] || !IsDigit(u[0]) || (HasHexPrefix(u) && (|u| == 2 || !IsDigitIn(u[2], 16)))
    ensures ParseInt(w + sign + u) == None
  {
    assert w + sign + u == w + (sign + u);
    ParseIntSkipsWhiteSpace(w, sign + u);
    UnsignedStart(u);
    if HasHexPrefix(u) {
      assert u[2..] == [] || u[2..][0] == u[2];
    } else if u != [] {
      assert !IsDigitIn(u[0], 10);
    }
    assert ParseMagnitude(u) == None;
    if sign != "" {
      ParseIntSign(u);
    } else {
      assert sign + u == u;
    }
  }

  /** On a string of decimal digits `parseInt` is the decimal value. */
  lemma ParseIntDecimal(s: string)
    requires IsDecimal(s)
    ensures ParseInt(s) == Some(DecimalValue(s))
  {
    DigitNotWhiteSpace(s[0]);
    NotWhiteSpaceStart(s);
  }

  /** A string of white space alone is NaN. */
  lemma ParseIntWhiteSpace(s: string)
    requires AllWhiteSpace(s)
    ensures ParseInt(s) == None
  {
    TrimStartSkips(s, []);
    assert s + [] == s;
  }

  /** `parseInt` after the white space: an optional sign, then the magnitude. */
  function ParseSigned(t: string): (r: Option<int>)
    ensures IsDecimal(t) ==> r == Some(DecimalValue(t))
    ensures r.Some? ==> HasDigit(t)
  {
    var u := Unsigned(t);
    var m := ParseMagnitude(u);
    assert m.Some? ==> HasDigit(t) by {
      if m.Some? {
        assert t[|t| - |u|..] == u;
        DigitInSuffix(t, |t| - |u|);
      }
    }
    if |t| > 0 && t[0] == '-' && m.Some? then Some(-m.value) else m
  }

  /** `parseInt` after the sign: the value of the leading digits, in base 16
      after `0x` or `0X`, in base 10 otherwise. */
  function ParseMagnitude(u: string): (r: Option<int>)
    ensures r.Some? ==> r.value >= 0
    ensures IsDecimal(u) ==> r == Some(DecimalValue(u))
    ensures r.Some? ==> HasDigit(u)
  {
    var radix := if HasHexPrefix(u) then 16 else 10;
    var digits := if HasHexPrefix(u) then u[2..] else u;
    var n := LeadingDigitCount(digits, radix);
    if n == 0 then None
    else
      assert digits[0] == u[|u| - |digits|] && IsDigitIn(digits[0], 16);
      LeadingDigitRun(digits, radix);
      if IsDecimal(u) then
        LeadingDigitsThenRest(u, [], 10);
        assert u + [] == u && u[..n] == u;
        Some(NumeralValue(digits[..n], radix))
      else Some(NumeralValue(digits[..n], radix))
  }

  /** A string that starts with a character other than white space is its own
      `trimStart`. */
  lemma NotWhiteSpaceStart(s: string)
    requires s == [] || !IsWhiteSpace(s[0])
    ensures TrimStart(s) == s
  {
  }

  /** White space in front of a string is what `trimStart` removes. */
  lemma {:induction false} TrimStartSkips(w: string, s: string)
    requires AllWhiteSpace(w)
    ensures TrimStart(w + s) == TrimStart(s)
    decreases |w|
  {
    if |w| > 0 {
      assert (w + s)[1..] == w[1..] + s;
      assert AllWhiteSpace(w[1..]);
      TrimStartSkips(w[1..], s);
    } else {
      assert w + s == s;
    }
  }

  /** Leading white space makes no difference to `parseInt`. */
  lemma ParseIntSkipsWhiteSpace(w: string, s: string)
    requires AllWhiteSpace(w)
    ensures ParseInt(w + s) == ParseInt(s)
  {
    TrimStartSkips(w, s);
  }

  /** A numeral read in base 10: its value is that of the leading decimal
      digits, and the first character that is not a digit ends it. */
  lemma ParseIntDecimalPrefix(d: string, rest: string)
    requires IsDecimal(d) && (rest == [] || !IsDigit(rest[0]))
    requires !HasHexPrefix(d + rest)
    ensures ParseInt(d + rest) == Some(DecimalValue(d))
  {
    var s := d + rest;
    assert s[0] == d[0];
    DigitNotWhiteSpace(s[0]);
    UnsignedStart(s);
    DecimalDigits(d);
    LeadingDigitsThenRest(d, rest, 10);
    assert s[..|d|] == d;
  }

  /** A numeral read in base 16 after `0x` or `0X`. */
  lemma ParseIntHexPrefix(x: char, h: string, rest: string)
    requires x == 'x' || x == 'X'
    requires |h| > 0 && AllDigitsIn(h, 16) && (rest == [] || !IsDigitIn(rest[0], 16))
    ensures ParseInt(['0', x] + h + rest) == Some(NumeralValue(h, 16))
  {
    var s := ['0', x] + (h + rest);
    assert ['0', x] + h + rest == s;
    assert s[0] == '0';
    DigitNotWhiteSpace(s[0]);
    UnsignedStart(s);
    HexMagnitude(x, h, rest);
  }

  lemma DigitNotWhiteSpace(c: char)
    requires IsDigit(c)
    ensures !IsWhiteSpace(c) && c != '+' && c != '-'
  {
  }

  /** Without leading white space or a sign, `parseInt` reads the magnitude. */
  lemma UnsignedStart(s: string)
    requires s == [] || (!IsWhiteSpace(s[0]) && s[0] != '+' && s[0] != '-')
    ensures ParseInt(s) == ParseMagnitude(s)
  {
    NotWhiteSpaceStart(s);
  }

  lemma HexMagnitude(x: char, h: string, rest: string)
    requires x == 'x' || x == 'X'
    requires |h| > 0 && AllDigitsIn(h, 16) && (rest == [] || !IsDigitIn(rest[0], 16))
    ensures ParseMagnitude(['0', x] + (h + rest)) == Some(NumeralValue(h, 16))
  {
    var u := h + rest;
    var s := ['0', x] + u;
    assert HasHexPrefix(s) && s[2..] == u;
    LeadingDigitsThenRest(h, rest, 16);
    assert u[..|h|] == h;
  }

  /** One sign before the digits: `+` keeps the value and `-` negates it. */
  lemma ParseIntSign(s: string)
    requires s == [] || (!IsWhiteSpace(s[0]) && s[0] != '+' && s[0] != '-')
    ensures ParseInt("+" + s) == ParseInt(s)
    ensures ParseInt("-" + s) == if ParseInt(s).Some? then Some(-ParseInt(s).value) else None
  {
    NotWhiteSpaceStart(s);
    NotWhiteSpaceStart("+" + s);
    NotWhiteSpaceStart("-" + s);
    assert Unsigned(s) == s;
    assert Unsigned("+" + s) == s && Unsigned("-" + s) == s;
  }
}
