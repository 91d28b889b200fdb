/**
 * The Python string operations the book scripts rely on, stated exactly:
 * `in`, `str.split`, `str.join`, `str.strip`, `str.endswith`, `str(n)`
 * for integers and the built-in `int()` parser.
 */
module Text {
  import opened Wrappers

  // ---------------------------------------------------------------------------
  // Substring search (`pat in s`)
  // ---------------------------------------------------------------------------

  /** `pat` occurs in `s` starting at index `i`. */
  predicate OccursAt(s: string, pat: string, i: int)
  {
    0 <= i && i + |pat| <= |s| && s[i..i + |pat|] == pat
  }

  lemma OccursShift(s: string, pat: string, j: int)
    requires s != [] && j >= 1
    ensures OccursAt(s, pat, j) <==> OccursAt(s[1..], pat, j - 1)
  {
    if j + |pat| <= |s| {
      assert s[1..][j - 1..j - 1 + |pat|] == s[j..j + |pat|];
    }
  }

  /** An occurrence inside a prefix is an occurrence in the whole text, ending within the prefix. */
  lemma OccursInPrefix(s: string, pat: string, i: nat, j: int)
    requires i <= |s| && OccursAt(s[..i], pat, j)
    ensures OccursAt(s, pat, j) && j + |pat| <= i
  {
    assert s[..i][j..j + |pat|] == s[j..j + |pat|];
  }

  /** The index of the first occurrence of `pat` in `s` (Python's `s.find(pat)`). */
  function FindFirst(s: string, pat: string): (r: Option<nat>)
    ensures r.Some? ==> OccursAt(s, pat, r.value)
    ensures r.Some? ==> forall j :: 0 <= j < r.value ==> !OccursAt(s, pat, j)
    ensures r.None? ==> forall j :: !OccursAt(s, pat, j)
    decreases |s|
  {
    if |pat| > |s| then None
    else if s[..|pat|] == pat then Some(0)
    else
      var rest := FindFirst(s[1..], pat);
      assert forall j | j >= 1 :: OccursAt(s, pat, j) <==> OccursAt(s[1..], pat, j - 1) by {
        forall j | j >= 1 ensures OccursAt(s, pat, j) <==> OccursAt(s[1..], pat, j - 1) {
          OccursShift(s, pat, j);
        }
      }
      match rest
      case None => None
      case Some(i) => Some(i + 1)
  }

  /** Python's `pat in s`. */
  predicate Contains(s: string, pat: string)
  {
    FindFirst(s, pat).Some?
  }

  // ---------------------------------------------------------------------------
  // `str.split(sep)` and `sep.join(pieces)`
  // ---------------------------------------------------------------------------

  /** Python's `s.split(sep)` for a non-empty separator. */
  function Split(s: string, sep: string): (pieces: seq<string>)
    requires sep != []
    ensures |pieces| >= 1
    ensures |pieces| >= 2 <==> Contains(s, sep)
    decreases |s|
  {
    match FindFirst(s, sep)
    case None => [s]
    case Some(i) => [s[..i]] + Split(s[i + |sep|..], sep)
  }

  /** Python's `sep.join(pieces)`. */
  function Join(pieces: seq<string>, sep: string): string
    decreases |pieces|
  {
    if |pieces| == 0 then ""
    else if |pieces| == 1 then pieces[0]
    else pieces[0] + sep + Join(pieces[1..], sep)
  }

  /** Joining a piece in front of a non-empty list puts it and a separator in front. */
  lemma JoinCons(head: string, rest: seq<string>, sep: string)
    requires rest != []
    ensures Join([head] + rest, sep) == head + sep + Join(rest, sep)
  {
    assert ([head] + rest)[1..] == rest;
  }

  /** Extending the first piece extends the joined text at the front. */
  lemma JoinExtendFirst(prefix: string, pieces: seq<string>, sep: string)
    requires pieces != []
    ensures Join([prefix + pieces[0]] + pieces[1..], sep) == prefix + Join(pieces, sep)
  {
    if |pieces| > 1 {
      JoinCons(prefix + pieces[0], pieces[1..], sep);
      JoinCons(pieces[0], pieces[1..], sep);
      assert [pieces[0]] + pieces[1..] == pieces;
    } else {
      assert [prefix + pieces[0]] + pieces[1..] == [prefix + pieces[0]];
    }
  }

  /** Splitting and joining with the same separator gives back the text. */
  lemma {:induction false} JoinSplit(s: string, sep: string)
    requires sep != []
    ensures Join(Split(s, sep), sep) == s
    decreases |s|
  {
    match FindFirst(s, sep)
    case None =>
    case Some(i) =>
      var rest := s[i + |sep|..];
      assert Join(Split(s, sep), sep) == s[..i] + sep + Join(Split(rest, sep), sep) by {
        assert Split(s, sep) == [s[..i]] + Split(rest, sep);
        JoinCons(s[..i], Split(rest, sep), sep);
      }
      JoinSplit(rest, sep);
      Around(s, i, i + |sep|);
  }

  /** Where each of five concatenated parts sits in the whole. */
  lemma FiveParts(a: string, b: string, c: string, d: string, e: string)
    ensures var r := a + b + c + d + e;
      && |r| == |a| + |b| + |c| + |d| + |e|
      && r[..|a|] == a && r[|a|..|a| + |b|] == b
      && r[|a| + |b| + |c|..|a| + |b| + |c| + |d|] == d && r[|a| + |b| + |c| + |d|..] == e
  {
    var r := a + b + c + d + e;
    assert r == a + (b + (c + (d + e)));
  }

  /** A text is its part before `i`, its part from `i` to `j`, and the rest. */
  lemma Around(s: string, i: nat, j: nat)
    requires i <= j <= |s|
    ensures s == s[..i] + s[i..j] + s[j..]
  {
  }

  /** No piece of a split contains the separator. */
  lemma {:induction false} SplitPiecesFree(s: string, sep: string, k: nat)
    requires sep != []
    requires k < |Split(s, sep)|
    ensures !Contains(Split(s, sep)[k], sep)
    decreases |s|
  {
    match FindFirst(s, sep)
    case None =>
    case Some(i) =>
      if k == 0 {
        var head := s[..i];
        if Contains(head, sep) {
          OccursInPrefix(s, sep, i, FindFirst(head, sep).value);
          assert false;
        }
      } else {
        SplitPiecesFree(s[i + |sep|..], sep, k - 1);
      }
  }

  /** The first piece of a split is the text before the first separator. */
  lemma SplitHead(s: string, sep: string)
    requires sep != []
    ensures Split(s, sep)[0] == match FindFirst(s, sep) case None => s case Some(i) => s[..i]
  {
  }

  /** The second piece of a split is the text between the first and the second separator. */
  lemma SplitSecond(s: string, sep: string, i: nat)
    requires sep != []
    requires FindFirst(s, sep) == Some(i)
    ensures Split(s, sep)[1] == Split(s[i + |sep|..], sep)[0]
  {
  }

  // ---------------------------------------------------------------------------
  // `str.strip()`
  // ---------------------------------------------------------------------------

  /** The characters for which Python's `str.isspace()` holds. */
  const Whitespace: set<char> := {
    ' ', '\t', '\n', '\U{b}', '\U{c}', '\r', '\U{1c}', '\U{1d}', '\U{1e}', '\U{1f}', '\U{85}', '\U{a0}',
    '\U{1680}', '\U{2000}', '\U{2001}', '\U{2002}', '\U{2003}', '\U{2004}', '\U{2005}', '\U{2006}',
    '\U{2007}', '\U{2008}', '\U{2009}', '\U{200a}', '\U{2028}', '\U{2029}', '\U{202f}', '\U{205f}',
    '\U{3000}'
  }

  /** Python's `str.isspace()` on one character. */
  predicate IsSpace(c: char)
  {
    c in Whitespace
  }

  predicate AllSpace(s: string)
  {
    forall k :: 0 <= k < |s| ==> IsSpace(s[k])
  }

  function StripLeft(s: string): (r: string)
    ensures |r| <= |s| && r == s[|s| - |r|..]
    ensures r != [] ==> !IsSpace(r[0])
  {
    if s != [] && IsSpace(s[0]) then StripLeft(s[1..]) else s
  }

  function StripRight(s: string): (r: string)
    ensures |r| <= |s| && r == s[..|r|]
    ensures r != [] ==> !IsSpace(r[|r| - 1])
  {
    if s != [] && IsSpace(s[|s| - 1]) then StripRight(s[..|s| - 1]) else s
  }

  lemma {:induction false} StripLeftDropsSpace(s: string)
    ensures AllSpace(s[..|s| - |StripLeft(s)|])
  {
    if s != [] && IsSpace(s[0]) {
      StripLeftDropsSpace(s[1..]);
      assert s[..|s| - |StripLeft(s)|] == [s[0]] + s[1..][..|s| - 1 - |StripLeft(s[1..])|];
    }
  }

  lemma {:induction false} StripRightDropsSpace(s: string)
    ensures AllSpace(s[|StripRight(s)|..])
  {
    if s != [] && IsSpace(s[|s| - 1]) {
      StripRightDropsSpace(s[..|s| - 1]);
      assert s[|StripRight(s)|..] == s[..|s| - 1][|StripRight(s[..|s| - 1])|..] + [s[|s| - 1]];
    }
  }

  /** No whitespace at either end. */
  predicate Trimmed(s: string)
  {
    s != [] ==> !IsSpace(s[0]) && !IsSpace(s[|s| - 1])
  }

  /** Python's `s.strip()`: drop leading and trailing whitespace, keep the middle. */
  function Strip(s: string): (r: string)
    ensures |r| <= |s| && Trimmed(r)
  {
    StripRight(StripLeft(s))
  }

  /** What `strip()` removes is whitespace, and what it keeps is one unbroken piece of the text. */
  lemma StripKeepsMiddle(s: string)
    ensures var r := Strip(s);
      exists i :: 0 <= i <= |s| - |r| && r == s[i..i + |r|] && AllSpace(s[..i]) && AllSpace(s[i + |r|..])
  {
    var l := StripLeft(s);
    var r := StripRight(l);
    var i := |s| - |l|;
    StripLeftDropsSpace(s);
    StripRightDropsSpace(l);
    assert r == s[i..i + |r|];
    assert s[i + |r|..] == l[|r|..];
    assert 0 <= i <= |s| - |r| && r == s[i..i + |r|] && AllSpace(s[..i]) && AllSpace(s[i + |r|..]);
  }

  /** A text with no whitespace at either end is left alone by `strip()`. */
  lemma StripUnchanged(s: string)
    requires Trimmed(s)
    ensures Strip(s) == s
  {
  }

  lemma StripIdempotent(s: string)
    ensures Strip(Strip(s)) == Strip(s)
  {
    StripUnchanged(Strip(s));
  }

  /** Python's `s.endswith(suffix)`. */
  predicate EndsWith(s: string, suffix: string)
  {
    |suffix| <= |s| && s[|s| - |suffix|..] == suffix
  }

  // ---------------------------------------------------------------------------
  // Decimal integers: `str(n)` and `int(s)`
  // ---------------------------------------------------------------------------

  predicate IsDigit(c: char)
  {
    '0' <= c <= '9'
  }

  predicate AllDigits(s: string)
  {
    forall k :: 0 <= k < |s| ==> IsDigit(s[k])
  }

  function DigitChar(d: nat): (c: char)
    requires d < 10
    ensures IsDigit(c)
  {
    ('0' as int + d) as char
  }

  function DigitValue(c: char): nat
    requires IsDigit(c)
  {
    c as int - '0' as int
  }

  /** The value of a string of decimal digits, most significant first. */
  function DigitsValue(s: string): nat
    requires AllDigits(s)
  {
    if s == [] then 0 else DigitsValue(s[..|s| - 1]) * 10 + DigitValue(s[|s| - 1])
  }

  /** Python's `str(n)` for `n >= 0`: decimal digits without leading zeros. */
  function NatToString(n: nat): (s: string)
    ensures s != [] && AllDigits(s)
    ensures |s| > 1 ==> s[0] != '0'
  {
    if n < 10 then [DigitChar(n)] else NatToString(n / 10) + [DigitChar(n % 10)]
  }

  /**
   * Python's `str(n)`: the sign, then the digits of `|n|`. Python raises
   * instead when `|n|` has more than `MaxStrDigits` digits (see
   * `WithinStrDigits`).
   */
  function IntToString(n: int): (s: string)
    ensures s != [] && (n < 0 <==> s[0] == '-') && Trimmed(s)
  {
    if n < 0 then "-" + NatToString(-n) else NatToString(n)
  }

  /** Python's default limit on the digits `int()` reads and `str()` writes in base 10. */
  const MaxStrDigits: nat := 4300

  function Abs(n: int): nat
  {
    if n < 0 then -n else n
  }

  /** `str(n)` writes, and `int()` reads back, at most `MaxStrDigits` digits. */
  predicate WithinStrDigits(n: int)
  {
    |NatToString(Abs(n))| <= MaxStrDigits
  }

  /** A numeral's value never needs more digits than the numeral has. */
  lemma {:induction false} NatToStringNoLonger(d: string)
    requires AllDigits(d)
    ensures d != [] ==> |NatToString(DigitsValue(d))| <= |d|
    decreases |d|
  {
    if d != [] && DigitsValue(d) >= 10 {
      var p := d[..|d| - 1];
      assert DigitsValue(d) / 10 == DigitsValue(p);
      NatToStringNoLonger(p);
    }
  }

  lemma {:induction false} NatToStringRoundTrip(n: nat)
    ensures DigitsValue(NatToString(n)) == n
  {
    if n >= 10 {
      var s := NatToString(n);
      NatToStringRoundTrip(n / 10);
      assert s[..|s| - 1] == NatToString(n / 10);
    }
  }

  /**
   * Two strings that each start with a run of digits ended by a non-digit
   * agree on that run: a number written before a separator reads back uniquely.
   */
  lemma DigitRunUnique(a: string, x: string, b: string, y: string)
    requires AllDigits(a) && AllDigits(b) && a + x == b + y
    requires x != [] && !IsDigit(x[0]) && y != [] && !IsDigit(y[0])
    ensures a == b
  {
    var k := if |a| < |b| then |a| else |b|;
    assert (a + x)[k] == (b + y)[k];
    assert |a| == |b|;
    assert a == (a + x)[..|a|];
    assert b == (b + y)[..|b|];
  }

  /** Different numbers print differently, so numbered titles never coincide. */
  lemma NatToStringInjective(a: nat, b: nat)
    requires NatToString(a) == NatToString(b)
    ensures a == b
  {
    NatToStringRoundTrip(a);
    NatToStringRoundTrip(b);
  }

  /** The digits of a numeral written with Python's single underscores between digits. */
  function RemoveUnderscores(s: string): (r: string)
    ensures |r| <= |s|
    ensures (forall k :: 0 <= k < |s| ==> IsDigit(s[k]) || s[k] == '_') ==> AllDigits(r)
  {
    if s == [] then []
    else if s[0] == '_' then RemoveUnderscores(s[1..])
    else [s[0]] + RemoveUnderscores(s[1..])
  }

  /** The digit part Python's `int()` accepts in base 10: digits, optionally grouped by single underscores. */
  predicate ValidNumeral(s: string)
  {
    && s != []
    && IsDigit(s[0]) && IsDigit(s[|s| - 1])
    && (forall k :: 0 <= k < |s| ==> IsDigit(s[k]) || s[k] == '_')
    && NoDoubleUnderscore(s)
  }

  /** No two underscores in a row. */
  predicate NoDoubleUnderscore(s: string)
  {
    |s| < 2 || (!(s[0] == '_' && s[1] == '_') && NoDoubleUnderscore(s[1..]))
  }

  /**
   * Python's `int(s)` in base 10 on ASCII digits, for a text already
   * stripped of surrounding whitespace (every caller strips first): an
   * optional sign, then the numeral, of at most `MaxStrDigits` digits;
   * anything else makes `int()` raise `ValueError`, here `None`.
   */
  function ParseInt(s: string): (r: Option<int>)
    ensures r.Some? ==> s != [] && IsDigit(s[|s| - 1])
    ensures r.Some? ==> WithinStrDigits(r.value)
  {
    if s == [] then None
    else
      var negative := s[0] == '-';
      var body := if s[0] == '-' || s[0] == '+' then s[1..] else s;
      if !ValidNumeral(body) then None
      else
        var digits := RemoveUnderscores(body);
        if |digits| > MaxStrDigits then None
        else
          NatToStringNoLonger(digits);
          var magnitude: int := DigitsValue(digits);
          Some(if negative then -magnitude else magnitude)
  }

  lemma DigitsHaveNoDoubleUnderscore(s: string)
    requires AllDigits(s)
    ensures NoDoubleUnderscore(s)
  {
    if |s| >= 2 {
      DigitsHaveNoDoubleUnderscore(s[1..]);
    }
  }

  lemma RemoveUnderscoresOfDigits(s: string)
    requires AllDigits(s)
    ensures RemoveUnderscores(s) == s
  {
    if s != [] {
      RemoveUnderscoresOfDigits(s[1..]);
    }
  }

  /**
   * `int(str(n)) == n` for every integer of at most `MaxStrDigits` digits;
   * the digits of a longer one are more than `int()` reads.
   */
  lemma ParseIntRoundTrip(n: int)
    ensures ParseInt(IntToString(n)) == if WithinStrDigits(n) then Some(n) else None
  {
    var s := IntToString(n);
    var digits := NatToString(Abs(n));
    assert s == (if n < 0 then "-" + digits else digits);
    var body := if s[0] == '-' || s[0] == '+' then s[1..] else s;
    assert body == digits;
    RemoveUnderscoresOfDigits(digits);
    DigitsHaveNoDoubleUnderscore(digits);
    NatToStringRoundTrip(Abs(n));
  }

  // ---------------------------------------------------------------------------
  // `os.path.basename`
  // ---------------------------------------------------------------------------

  /** POSIX `os.path.basename(p)`: the part of the path after its last `/`. */
  function BaseName(p: string): (r: string)
    ensures |r| <= |p| && r == p[|p| - |r|..]
    ensures forall k :: 0 <= k < |r| ==> r[k] != '/'
    ensures |r| < |p| ==> p[|p| - |r| - 1] == '/'
  {
    if p == [] || p[|p| - 1] == '/' then [] else BaseName(p[..|p| - 1]) + [p[|p| - 1]]
  }
}
