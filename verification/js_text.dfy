/** The JavaScript string operations the relay relies on, over sequences of Unicode scalars. */
module JsText {

  /**
   * The characters `String.prototype.trim` removes: ECMAScript WhiteSpace
   * (tab, vertical tab, form feed, no-break space, byte order mark and the
   * space separators) and LineTerminator (LF, CR, LS, PS).
   */
  predicate IsJsSpace(c: char)
  {
    || c == '\t' || c == '\n' || c == '\U{B}' || c == '\U{C}' || c == '\r' || c == ' '
    || c == '\U{A0}' || c == '\U{1680}' || ('\U{2000}' <= c <= '\U{200A}')
    || c == '\U{2028}' || c == '\U{2029}' || c == '\U{202F}' || c == '\U{205F}'
    || c == '\U{3000}' || c == '\U{FEFF}'
  }

  predicate AllSpace(s: string)
  {
    forall k :: 0 <= k < |s| ==> IsJsSpace(s[k])
  }

  /** How many white-space characters `s` starts with. */
  function LeadingSpace(s: string): (n: nat)
    ensures n <= |s|
    ensures forall k :: 0 <= k < n ==> IsJsSpace(s[k])
    ensures n < |s| ==> !IsJsSpace(s[n])
  {
    if |s| > 0 && IsJsSpace(s[0]) then 1 + LeadingSpace(s[1..]) else 0
  }

  /** How many white-space characters `s` ends with. */
  function TrailingSpace(s: string): (n: nat)
    ensures n <= |s|
    ensures forall k :: |s| - n <= k < |s| ==> IsJsSpace(s[k])
    ensures n < |s| ==> !IsJsSpace(s[|s| - n - 1])
  {
    if |s| > 0 && IsJsSpace(s[|s| - 1]) then 1 + TrailingSpace(s[..|s| - 1]) else 0
  }

  /**
   * `s.trim()`: the part of `s` between its leading and its trailing white
   * space; empty exactly when `s` is all white space.
   */
  function Trim(s: string): (r: string)
    ensures r == [] <==> AllSpace(s)
    ensures r != [] ==> !IsJsSpace(r[0]) && !IsJsSpace(r[|r| - 1])
    ensures LeadingSpace(s) + |r| <= |s|
    ensures r == s[LeadingSpace(s)..LeadingSpace(s) + |r|]
    ensures forall k :: LeadingSpace(s) + |r| <= k < |s| ==> IsJsSpace(s[k])
  {
    var a := LeadingSpace(s);
    var b := TrailingSpace(s[a..]);
    TrimmedPart(s, a, b);
    s[a..|s| - b]
  }

  lemma TrimmedPart(s: string, a: nat, b: nat)
    requires a == LeadingSpace(s) && b == TrailingSpace(s[a..])
    ensures a + b <= |s|
    ensures a + b == |s| <==> AllSpace(s)
    ensures a + b < |s| ==> !IsJsSpace(s[a]) && !IsJsSpace(s[|s| - b - 1])
    ensures forall k :: |s| - b <= k < |s| ==> IsJsSpace(s[k])
  {
    SpaceAfterDrop(s, a, b);
    if AllSpace(s) {
      LeadingSpaceOfAllSpace(s);
    }
    if a + b < |s| {
      assert s[|s| - b - 1] == s[a..][|s| - a - b - 1];
    }
  }

  /** White space at the end of `s[a..]` is white space at the end of `s`. */
  lemma SpaceAfterDrop(s: string, a: nat, b: nat)
    requires a + b <= |s|
    requires forall k :: |s| - a - b <= k < |s| - a ==> IsJsSpace(s[a..][k])
    ensures forall k :: |s| - b <= k < |s| ==> IsJsSpace(s[k])
  {
    forall k | |s| - b <= k < |s|
      ensures IsJsSpace(s[k])
    {
      assert s[k] == s[a..][k - a];
    }
  }

  lemma {:induction false} LeadingSpaceOfAllSpace(s: string)
    requires AllSpace(s)
    ensures LeadingSpace(s) == |s|
    decreases |s|
  {
    if |s| > 0 {
      LeadingSpaceOfAllSpace(s[1..]);
    }
  }

  lemma AllSpaceAppend(w1: string, w2: string)
    requires AllSpace(w1) && AllSpace(w2)
    ensures AllSpace(w1 + w2)
  {
    var s := w1 + w2;
    forall k | 0 <= k < |s|
      ensures IsJsSpace(s[k])
    {
      if k < |w1| {
        assert s[k] == w1[k];
      } else {
        assert s[k] == w2[k - |w1|];
      }
    }
  }

  /** `s.startsWith(p)`. */
  predicate StartsWith(s: string, p: string)
  {
    |p| <= |s| && s[..|p|] == p
  }

  /** Leading white space adds to the count of the rest. */
  lemma {:induction false} LeadingSpaceAppend(w: string, x: string)
    requires AllSpace(w)
    ensures LeadingSpace(w + x) == |w| + LeadingSpace(x)
    decreases |w|
  {
    if |w| > 0 {
      assert (w + x)[0] == w[0];
      assert (w + x)[1..] == w[1..] + x;
      LeadingSpaceAppend(w[1..], x);
    } else {
      assert w + x == x;
    }
  }

  /** Trailing white space adds to the count of what precedes it. */
  lemma {:induction false} TrailingSpaceAppend(x: string, w: string)
    requires AllSpace(w)
    ensures TrailingSpace(x + w) == TrailingSpace(x) + |w|
    decreases |w|
  {
    if |w| > 0 {
      assert (x + w)[|x + w| - 1] == w[|w| - 1];
      assert (x + w)[..|x + w| - 1] == x + w[..|w| - 1];
      TrailingSpaceAppend(x, w[..|w| - 1]);
    } else {
      assert x + w == x;
    }
  }

  /** White space around a string that has none at its ends is exactly what `trim` removes. */
  lemma TrimSurrounded(w1: string, t: string, w2: string)
    requires AllSpace(w1) && AllSpace(w2)
    requires t == [] || (!IsJsSpace(t[0]) && !IsJsSpace(t[|t| - 1]))
    ensures Trim(w1 + t + w2) == t
  {
    var s := w1 + t + w2;
    if t == [] {
      assert s == w1 + w2;
      AllSpaceAppend(w1, w2);
    } else {
      var u := t + w2;
      SliceOfThree(w1, t, w2);
      LeadingSpaceAppend(w1, u);
      TrailingSpaceAppend(t, w2);
    }
  }

  /** Where the middle part of a three-part concatenation sits. */
  lemma SliceOfThree<T>(a: seq<T>, b: seq<T>, c: seq<T>)
    requires |b| > 0
    ensures a + b + c == a + (b + c)
    ensures (b + c)[0] == b[0]
    ensures (a + b + c)[|a|..] == b + c
    ensures (a + b + c)[|a|..|a| + |b|] == b
  {
  }

  /** Trimming twice is trimming once. */
  lemma TrimIdempotent(s: string)
    ensures Trim(Trim(s)) == Trim(s)
  {
    TrimSurrounded([], Trim(s), []);
    assert [] + Trim(s) + [] == Trim(s);
  }

  /**
   * Length as JavaScript counts it (`s.length`): UTF-16 code units, so a scalar
   * above U+FFFF, which UTF-16 writes as a surrogate pair, counts twice.
   */
  function Utf16Length(s: string): nat
  {
    if |s| == 0 then 0 else (if s[0] as int > 0xFFFF then 2 else 1) + Utf16Length(s[1..])
  }

  /**
   * The JavaScript length lies between the number of scalars and twice it, and
   * is the number of scalars exactly when none lies above U+FFFF.
   */
  lemma {:induction false} Utf16LengthCounts(s: string)
    ensures |s| <= Utf16Length(s) <= 2 * |s|
    ensures Utf16Length(s) == |s| <==> forall k :: 0 <= k < |s| ==> s[k] as int <= 0xFFFF
    decreases |s|
  {
    if |s| > 0 {
      Utf16LengthCounts(s[1..]);
      assert forall k :: 1 <= k < |s| ==> s[k] == s[1..][k - 1];
    }
  }

  lemma {:induction false} Utf16LengthAppend(a: string, b: string)
    ensures Utf16Length(a + b) == Utf16Length(a) + Utf16Length(b)
    decreases |a|
  {
    if |a| > 0 {
      assert (a + b)[1..] == a[1..] + b;
      Utf16LengthAppend(a[1..], b);
    } else {
      assert a + b == b;
    }
  }

  /** `' '.repeat(n)`. */
  function Spaces(n: nat): (r: string)
    ensures |r| == n && Utf16Length(r) == n
    ensures forall k :: 0 <= k < n ==> r[k] == ' '
  {
    if n == 0 then "" else " " + Spaces(n - 1)
  }
}
