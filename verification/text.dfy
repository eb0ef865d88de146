/** JavaScript string semantics that the Mongoose schemas rely on:
    `String.prototype.trim` (the `trim: true` setter) and `String.length`
    (what `maxlength` measures, in UTF-16 code units). */
module Text {

  /** The characters `trim` strips: ECMAScript WhiteSpace (tab, vertical tab,
      form feed, space, no-break space, byte order mark and the Unicode space
      separators) and LineTerminator (line feed, carriage return, line and
      paragraph separator). */
  predicate IsJsSpace(c: char) {
    || c == '\t' || c == '\n' || c == '\U{000B}' || c == '\U{000C}' || c == '\r'
    || c == ' ' || c == '\U{00A0}' || c == '\U{1680}'
    || ('\U{2000}' <= c <= '\U{200A}')
    || c == '\U{2028}' || c == '\U{2029}' || c == '\U{202F}' || c == '\U{205F}'
    || c == '\U{3000}' || c == '\U{FEFF}'
  }

  predicate AllSpace(s: string) {
    forall i :: 0 <= i < |s| ==> IsJsSpace(s[i])
  }

  /** Neither end of `s` is a space. */
  predicate IsTrimmed(s: string) {
    |s| == 0 || (!IsJsSpace(s[0]) && !IsJsSpace(s[|s| - 1]))
  }

  /** `r` is what remains of `s` once its leading and trailing spaces are cut
      off: a trimmed slice of `s` with only spaces around it. */
  ghost predicate IsTrimOf(s: string, r: string) {
    && IsTrimmed(r)
    && exists a :: 0 <= a <= |s| - |r| && r == s[a..a + |r|]
                   && AllSpace(s[..a]) && AllSpace(s[a + |r|..])
  }

  /** The first position at or after `i` that is not a space (or `|s|`). */
  function LeadingEnd(s: string, i: nat): (k: nat)
    requires i <= |s|
    ensures i <= k <= |s|
    ensures forall j :: i <= j < k ==> IsJsSpace(s[j])
    ensures k < |s| ==> !IsJsSpace(s[k])
    decreases |s| - i
  {
    if i < |s| && IsJsSpace(s[i]) then LeadingEnd(s, i + 1) else i
  }

  /** Where the run of spaces that ends at `e` begins, not going below `lo`. */
  function TrailingStart(s: string, lo: nat, e: nat): (k: nat)
    requires lo <= e <= |s|
    ensures lo <= k <= e
    ensures forall j :: k <= j < e ==> IsJsSpace(s[j])
    ensures lo < k ==> !IsJsSpace(s[k - 1])
  {
    if lo < e && IsJsSpace(s[e - 1]) then TrailingStart(s, lo, e - 1) else e
  }

  /** `String.prototype.trim`. */
  function Trim(s: string): (r: string)
    ensures |r| <= |s|
    ensures IsTrimOf(s, r)
  {
    var a := LeadingEnd(s, 0);
    var b := TrailingStart(s, a, |s|);
    CutIsTrimOf(s, a, b);
    s[a..b]
  }

  /** Cutting the leading run of spaces and then the trailing run of what is
      left gives a trim of `s`. */
  lemma CutIsTrimOf(s: string, a: nat, b: nat)
    requires a == LeadingEnd(s, 0) && b == TrailingStart(s, a, |s|)
    ensures IsTrimOf(s, s[a..b])
  {
    var r := s[a..b];
    if a < b {
      assert r[0] == s[a] && r[|r| - 1] == s[b - 1];
    }
    assert AllSpace(s[..a]) by {
      forall i | 0 <= i < a ensures IsJsSpace(s[..a][i]) { assert s[..a][i] == s[i]; }
    }
    assert AllSpace(s[b..]) by {
      forall i | 0 <= i < |s| - b ensures IsJsSpace(s[b..][i]) { assert s[b..][i] == s[b + i]; }
    }
    TrimOfAt(s, r, a);
  }

  lemma TrimOfAt(s: string, r: string, a: nat)
    requires a + |r| <= |s| && r == s[a..a + |r|] && IsTrimmed(r)
    requires AllSpace(s[..a]) && AllSpace(s[a + |r|..])
    ensures IsTrimOf(s, r)
  {
  }

  /** A string made only of spaces trims to nothing, and only such a string
      does. */
  lemma TrimEmptyIff(s: string)
    ensures Trim(s) == [] <==> AllSpace(s)
  {
    if Trim(s) == [] {
      TrimOfEmptyMeansAllSpace(s, Trim(s));
    } else {
      NonEmptyTrimHasNonSpace(s, Trim(s));
    }
  }

  /** Any two trims of the same string agree: `IsTrimOf` pins `Trim` down. */
  lemma TrimOfUnique(s: string, r1: string, r2: string)
    requires IsTrimOf(s, r1) && IsTrimOf(s, r2)
    ensures r1 == r2
  {
    if |r1| > 0 && |r2| > 0 {
      TrimIsCore(s, r1);
      TrimIsCore(s, r2);
    } else if |r1| > 0 {
      NonEmptyTrimHasNonSpace(s, r1);
      TrimOfEmptyMeansAllSpace(s, r2);
    } else if |r2| > 0 {
      NonEmptyTrimHasNonSpace(s, r2);
      TrimOfEmptyMeansAllSpace(s, r1);
    }
  }

  /** A non-empty trim of `s` is the slice between the leading and the
      trailing run of spaces. */
  lemma TrimIsCore(s: string, r: string)
    requires IsTrimOf(s, r) && |r| > 0
    ensures var a := LeadingEnd(s, 0); r == s[a..TrailingStart(s, a, |s|)]
  {
    var a :| 0 <= a <= |s| - |r| && r == s[a..a + |r|]
             && AllSpace(s[..a]) && AllSpace(s[a + |r|..]);
    assert !IsJsSpace(s[a]) && !IsJsSpace(s[a + |r| - 1]) by {
      assert r[0] == s[a] && r[|r| - 1] == s[a + |r| - 1];
    }
    StartIsLeading(s, a);
    EndIsTrailing(s, a, a + |r|);
  }

  lemma StartIsLeading(s: string, a: nat)
    requires a < |s| && !IsJsSpace(s[a]) && AllSpace(s[..a])
    ensures LeadingEnd(s, 0) == a
  {
    assert forall j :: 0 <= j < a ==> IsJsSpace(s[j]) by {
      forall j | 0 <= j < a ensures IsJsSpace(s[j]) { assert s[..a][j] == s[j]; }
    }
  }

  lemma EndIsTrailing(s: string, a: nat, e: nat)
    requires a < e <= |s| && !IsJsSpace(s[e - 1]) && AllSpace(s[e..])
    ensures TrailingStart(s, a, |s|) == e
  {
    assert forall j :: e <= j < |s| ==> IsJsSpace(s[j]) by {
      forall j | e <= j < |s| ensures IsJsSpace(s[j]) { assert s[e..][j - e] == s[j]; }
    }
  }

  lemma NonEmptyTrimHasNonSpace(s: string, r: string)
    requires IsTrimOf(s, r) && |r| > 0
    ensures !AllSpace(s)
  {
    var a :| 0 <= a <= |s| - |r| && r == s[a..a + |r|]
             && AllSpace(s[..a]) && AllSpace(s[a + |r|..]);
    assert r[0] == s[a];
  }

  lemma TrimOfEmptyMeansAllSpace(s: string, r: string)
    requires IsTrimOf(s, r) && |r| == 0
    ensures AllSpace(s)
  {
    var a :| 0 <= a <= |s| - |r| && r == s[a..a + |r|]
             && AllSpace(s[..a]) && AllSpace(s[a + |r|..]);
    forall i | 0 <= i < |s| ensures IsJsSpace(s[i]) {
      if i < a { assert s[i] == s[..a][i]; } else { assert s[i] == s[a..][i - a]; }
    }
  }

  lemma TrimmedIsOwnTrim(s: string)
    requires IsTrimmed(s)
    ensures Trim(s) == s
  {
    assert s == s[0..0 + |s|];
    assert AllSpace(s[..0]) && AllSpace(s[0 + |s|..]);
    assert IsTrimOf(s, s);
    TrimOfUnique(s, Trim(s), s);
  }

  /** Trimming twice is trimming once. */
  lemma TrimIdempotent(s: string)
    ensures Trim(Trim(s)) == Trim(s)
  {
    TrimmedIsOwnTrim(Trim(s));
  }

  /** `String.length`: characters outside the Basic Multilingual Plane take
      two UTF-16 code units. */
  function Utf16Length(s: string): (n: nat)
    ensures |s| <= n <= 2 * |s|
    ensures |s| == 1 ==> (n == 2 <==> s[0] as int > 0xFFFF)
  {
    if |s| == 0 then 0
    else (if s[0] as int > 0xFFFF then 2 else 1) + Utf16Length(s[1..])
  }

  /** The length of a concatenation is the sum of the lengths, so with the
      one-character case the length of any string is fixed. */
  lemma {:induction false} Utf16LengthAppend(a: string, b: string)
    ensures Utf16Length(a + b) == Utf16Length(a) + Utf16Length(b)
  {
    if |a| > 0 {
      assert (a + b)[1..] == a[1..] + b;
      Utf16LengthAppend(a[1..], b);
    } else {
      assert a + b == b;
    }
  }
}
