/**
 * The category field of the search form is a comma-separated list. It is
 * turned into the list of requested categories by splitting it on every
 * comma and trimming surrounding white space from each piece, in the manner
 * of JavaScript's `String.prototype.split(',')` followed by
 * `String.prototype.trim()` on every element.
 */
module CategoryParsing {

  /** The field separator. */
  const Comma: char := ','

  /**
   * The characters `String.prototype.trim` removes: ECMAScript's WhiteSpace
   * (tab, vertical tab, form feed, the byte order mark and every space
   * separator of Unicode category Zs) and LineTerminator (line feed,
   * carriage return, line and paragraph separator). The list of Zs code
   * points is the one of Unicode 15; a later Unicode revision that adds a
   * space separator is not reflected here.
   */
  predicate IsWhitespace(c: char)
  {
    || c == '\t' || c == '\U{000B}' || c == '\U{000C}' || c == ' '
    || c == '\U{00A0}' || c == '\U{1680}'
    || ('\U{2000}' <= c <= '\U{200A}')
    || c == '\U{202F}' || c == '\U{205F}' || c == '\U{3000}' || c == '\U{FEFF}'
    || c == '\n' || c == '\r' || c == '\U{2028}' || c == '\U{2029}'
  }

  /** Every character of `s` at a position in `[lo, hi)` is white space. */
  predicate WhiteBetween(s: string, lo: int, hi: int)
    requires 0 <= lo && hi <= |s|
  {
    forall k :: lo <= k < hi ==> IsWhitespace(s[k])
  }

  /** A string with no white space at either end. */
  predicate IsTrimmed(s: string)
  {
    s == [] || (!IsWhitespace(s[0]) && !IsWhitespace(s[|s| - 1]))
  }

  /**
   * `r` is `s` with some white space removed at its start and some at its
   * end, and nothing else removed.
   */
  ghost predicate StripsWhitespace(s: string, r: string)
  {
    exists i | 0 <= i <= |s| - |r| ::
      r == s[i..i + |r|] && WhiteBetween(s, 0, i) && WhiteBetween(s, i + |r|, |s|)
  }

  // ---------------------------------------------------------------------
  // Splitting on commas

  /** The number of commas in `s`. */
  function CommaCount(s: string): nat
  {
    if s == [] then 0 else (if s[0] == Comma then 1 else 0) + CommaCount(s[1..])
  }

  /**
   * `s.split(',')`: the maximal comma-free pieces between commas, in order.
   * The empty string gives one empty piece, and two adjacent commas give an
   * empty piece between them.
   */
  function Split(s: string): (r: seq<string>)
    ensures |r| == CommaCount(s) + 1
    ensures forall k :: 0 <= k < |r| ==> Comma !in r[k]
  {
    if s == [] then [""]
    else
      var rest := Split(s[1..]);
      if s[0] == Comma then [""] + rest
      else [[s[0]] + rest[0]] + rest[1..]
  }

  /** `parts.join(',')`, the inverse of `Split`. */
  function Join(parts: seq<string>): string
    requires parts != []
  {
    if |parts| == 1 then parts[0] else parts[0] + [Comma] + Join(parts[1..])
  }

  /** Joining the pieces again with commas gives back the field. */
  lemma {:induction false} JoinSplit(s: string)
    ensures Join(Split(s)) == s
  {
    if s != [] {
      var rest := Split(s[1..]);
      JoinSplit(s[1..]);
      if s[0] == Comma {
        assert Split(s)[1..] == rest;
      } else {
        var r := Split(s);
        assert r[0] == [s[0]] + rest[0];
        if |rest| == 1 {
          assert s == [s[0]] + s[1..];
        } else {
          assert r[1..] == rest[1..];
          JoinTail(rest);
          assert s == [s[0]] + s[1..];
        }
      }
    }
  }

  lemma JoinTail(parts: seq<string>)
    requires |parts| > 1
    ensures Join(parts) == parts[0] + [Comma] + Join(parts[1..])
  {
  }

  /** Splitting a join of comma-free pieces gives back the pieces. */
  lemma {:induction false} SplitJoin(parts: seq<string>)
    requires parts != []
    requires forall k :: 0 <= k < |parts| ==> Comma !in parts[k]
    ensures Split(Join(parts)) == parts
  {
    if |parts| == 1 {
      SplitCommaFree(parts[0]);
    } else {
      SplitJoin(parts[1..]);
      SplitPrefix(parts[0], Join(parts[1..]));
      assert [parts[0]] + parts[1..] == parts;
    }
  }

  /** A string without commas splits into itself alone. */
  lemma {:induction false} SplitCommaFree(p: string)
    requires Comma !in p
    ensures Split(p) == [p]
  {
    if p != [] {
      SplitCommaFree(p[1..]);
      assert p == [p[0]] + p[1..];
    }
  }

  /** A comma-free piece followed by a comma and a tail. */
  lemma {:induction false} SplitPrefix(p: string, tail: string)
    requires Comma !in p
    ensures Split(p + [Comma] + tail) == [p] + Split(tail)
  {
    var s := p + [Comma] + tail;
    if p == [] {
      assert s[0] == Comma && s[1..] == tail;
    } else {
      assert s[0] == p[0] && s[1..] == p[1..] + [Comma] + tail;
      SplitPrefix(p[1..], tail);
      assert p == [p[0]] + p[1..];
    }
  }

  // ---------------------------------------------------------------------
  // Trimming

  /** The first position at or after `i` that does not hold white space. */
  function SkipWhite(s: string, i: nat): (a: nat)
    requires i <= |s|
    ensures i <= a <= |s| && WhiteBetween(s, i, a)
    ensures a == |s| || !IsWhitespace(s[a])
    decreases |s| - i
  {
    if i < |s| && IsWhitespace(s[i]) then SkipWhite(s, i + 1) else i
  }

  /** The position just after the last non-white character in `s[lo..j]`, or `lo`. */
  function SkipWhiteBack(s: string, lo: nat, j: nat): (b: nat)
    requires lo <= j <= |s|
    ensures lo <= b <= j && WhiteBetween(s, b, j)
    ensures b == lo || !IsWhitespace(s[b - 1])
  {
    if lo < j && IsWhitespace(s[j - 1]) then SkipWhiteBack(s, lo, j - 1) else j
  }

  /**
   * `s.trim()`: the slice of `s` between its leading and its trailing white
   * space.
   */
  function Trim(s: string): (r: string)
    ensures IsTrimmed(r)
    ensures StripsWhitespace(s, r)
  {
    var a := SkipWhite(s, 0);
    var b := SkipWhiteBack(s, a, |s|);
    assert a < b ==> s[a..b][0] == s[a] && s[a..b][b - a - 1] == s[b - 1];
    assert s[a..a + (b - a)] == s[a..b];
    s[a..b]
  }

  /** Trim leaves a string alone exactly when it is already trimmed. */
  lemma TrimFixedPoints(s: string)
    ensures Trim(s) == s <==> IsTrimmed(s)
  {
    if IsTrimmed(s) && s != [] {
      assert SkipWhite(s, 0) == 0;
      assert SkipWhiteBack(s, 0, |s|) == |s|;
    }
  }

  /** Trimming twice is trimming once. */
  lemma TrimIdempotent(s: string)
    ensures Trim(Trim(s)) == Trim(s)
  {
    TrimFixedPoints(Trim(s));
  }

  /**
   * The two properties of `Trim`'s contract determine its result: any
   * trimmed string obtained from `s` by stripping white space at its ends
   * is `Trim(s)`.
   */
  lemma TrimUnique(s: string, r': string)
    requires IsTrimmed(r')
    requires StripsWhitespace(s, r')
    ensures r' == Trim(s)
  {
    var i :| 0 <= i <= |s| - |r'| && r' == s[i..i + |r'|]
      && WhiteBetween(s, 0, i) && WhiteBetween(s, i + |r'|, |s|);
    TrimUniqueAt(s, i, i + |r'|);
  }

  /** `TrimUnique` for a slice `s[i..j]` given by its bounds. */
  lemma TrimUniqueAt(s: string, i: nat, j: nat)
    requires i <= j <= |s| && IsTrimmed(s[i..j])
    requires WhiteBetween(s, 0, i) && WhiteBetween(s, j, |s|)
    ensures s[i..j] == Trim(s)
  {
    var a := SkipWhite(s, 0);
    if i == j {
      WhiteSplit(s, i);
      SolidAfterWhite(s, |s|, a);
    } else {
      assert s[i] == s[i..j][0] && s[j - 1] == s[i..j][j - i - 1];
      SolidAfterWhite(s, a, i);
      SolidAfterWhite(s, i, a);
      var b := SkipWhiteBack(s, a, |s|);
      SolidBeforeWhite(s, b, j - 1);
      SolidBeforeWhite(s, j, b - 1);
    }
  }

  /** A non-white character at `j` lies at or after the end of a white prefix. */
  lemma SolidAfterWhite(s: string, i: nat, j: nat)
    requires i <= |s| && WhiteBetween(s, 0, i)
    requires j <= |s| && (j == |s| || !IsWhitespace(s[j]))
    ensures i <= j
  {
  }

  /** A non-white character lies before the start of a white suffix. */
  lemma SolidBeforeWhite(s: string, i: nat, j: nat)
    requires i <= |s| && WhiteBetween(s, i, |s|)
    requires j < |s| && !IsWhitespace(s[j])
    ensures j < i
  {
  }

  /** White space on both sides of `i` is white space throughout. */
  lemma WhiteSplit(s: string, i: nat)
    requires i <= |s| && WhiteBetween(s, 0, i) && WhiteBetween(s, i, |s|)
    ensures WhiteBetween(s, 0, |s|)
  {
  }

  // ---------------------------------------------------------------------
  // The category field

  /** `field.split(',').map(cat => cat.trim())`. */
  function ParseCategories(field: string): (r: seq<string>)
    ensures |r| == CommaCount(field) + 1
    ensures forall k :: 0 <= k < |r| ==> r[k] == Trim(Split(field)[k])
    ensures forall k :: 0 <= k < |r| ==> IsTrimmed(r[k]) && Comma !in r[k]
  {
    var parts := Split(field);
    seq(|parts|, k requires 0 <= k < |parts| => Trim(parts[k]))
  }

  /** An empty field yields one empty category name. */
  lemma ParseEmptyField()
    ensures ParseCategories("") == [""]
  {
  }

  /**
   * Parsing is stable: parsing the names again, joined with commas, gives
   * the same list.
   */
  lemma {:induction false} ParseReparse(field: string)
    ensures ParseCategories(Join(ParseCategories(field))) == ParseCategories(field)
  {
    var r := ParseCategories(field);
    SplitJoin(r);
    forall k | 0 <= k < |r| ensures Trim(r[k]) == r[k] {
      TrimFixedPoints(r[k]);
    }
  }
}
