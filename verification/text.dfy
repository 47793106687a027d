/** The few `java.lang.String` operations the scheduler relies on, restricted to
    ASCII: occurrence counting, `contains`, `trim`, `equalsIgnoreCase`,
    `toUpperCase`, removal of regex whitespace, `replace`, and the rendering of
    a null reference inside a string concatenation. */
module JavaText {
  import opened Wrappers

  // ---------------------------------------------------------------------------
  // Counting occurrences
  // ---------------------------------------------------------------------------

  /** Number of positions of `xs` that hold `x`. */
  function Count<T(==)>(xs: seq<T>, x: T): (n: nat)
    ensures n <= |xs|
    ensures n == 0 <==> x !in xs
  {
    if xs == [] then 0
    else
      assert xs == [xs[0]] + xs[1..];
      (if xs[0] == x then 1 else 0) + Count(xs[1..], x)
  }

  lemma {:induction false} CountAppend<T>(a: seq<T>, b: seq<T>, x: T)
    ensures Count(a + b, x) == Count(a, x) + Count(b, x)
  {
    if a == [] {
      assert a + b == b;
    } else {
      assert (a + b)[1..] == a[1..] + b;
      CountAppend(a[1..], b, x);
    }
  }

  /** Counting over a sequence that grows by one element at the end. */
  lemma CountSnoc<T>(xs: seq<T>, y: T, x: T)
    ensures Count(xs + [y], x) == Count(xs, x) + (if y == x then 1 else 0)
  {
    CountAppend(xs, [y], x);
  }

  /** Counting over a prefix that grows by one position. */
  lemma CountPrefixStep<T>(xs: seq<T>, k: nat, x: T)
    requires k < |xs|
    ensures Count(xs[..k+1], x) == Count(xs[..k], x) + (if xs[k] == x then 1 else 0)
  {
    assert xs[..k+1] == xs[..k] + [xs[k]];
    CountAppend(xs[..k], [xs[k]], x);
  }

  /** Overwriting one position changes the count by at most one, in the obvious way. */
  lemma CountUpdate<T>(xs: seq<T>, i: nat, v: T, x: T)
    requires i < |xs|
    ensures Count(xs[i := v], x)
         == Count(xs, x) - (if xs[i] == x then 1 else 0) + (if v == x then 1 else 0)
  {
    assert xs == xs[..i] + [xs[i]] + xs[i+1..];
    assert xs[i := v] == xs[..i] + [v] + xs[i+1..];
    CountAppend(xs[..i] + [xs[i]], xs[i+1..], x);
    CountAppend(xs[..i], [xs[i]], x);
    CountAppend(xs[..i] + [v], xs[i+1..], x);
    CountAppend(xs[..i], [v], x);
  }

  // ---------------------------------------------------------------------------
  // contains
  // ---------------------------------------------------------------------------

  predicate StartsWith(s: string, prefix: string) {
    |prefix| <= |s| && s[..|prefix|] == prefix
  }

  /** `s.contains(sub)`: some window of `s` spells `sub`, scanned from the left. */
  predicate Contains(s: string, sub: string)
    decreases |s|
  {
    StartsWith(s, sub) || (|s| > 0 && Contains(s[1..], sub))
  }

  /** `sub` occurs in `s` starting at index `i`. */
  predicate OccursAt(s: string, sub: string, i: int) {
    0 <= i && i + |sub| <= |s| && s[i..i + |sub|] == sub
  }

  /** An occurrence at index `i` is found by the left-to-right scan. */
  lemma {:induction false} OccursThenContains(s: string, sub: string, i: int)
    requires OccursAt(s, sub, i)
    ensures Contains(s, sub)
    decreases i
  {
    if i > 0 {
      assert s[1..][i - 1..i - 1 + |sub|] == s[i..i + |sub|];
      OccursThenContains(s[1..], sub, i - 1);
    }
  }

  /** What the left-to-right scan finds is an occurrence at some index. */
  lemma {:induction false} ContainsThenOccurs(s: string, sub: string)
    requires Contains(s, sub)
    ensures exists i :: OccursAt(s, sub, i)
    decreases |s|
  {
    if StartsWith(s, sub) {
      assert OccursAt(s, sub, 0);
    } else {
      ContainsThenOccurs(s[1..], sub);
      var i :| OccursAt(s[1..], sub, i);
      assert s[1..][i..i + |sub|] == s[i + 1..i + 1 + |sub|];
      assert OccursAt(s, sub, i + 1);
    }
  }

  /** The left-to-right scan finds `sub` exactly when some window spells it. */
  lemma ContainsIffOccurs(s: string, sub: string)
    ensures Contains(s, sub) <==> exists i :: OccursAt(s, sub, i)
  {
    if Contains(s, sub) {
      ContainsThenOccurs(s, sub);
    }
    forall i | OccursAt(s, sub, i)
      ensures Contains(s, sub)
    {
      OccursThenContains(s, sub, i);
    }
  }

  /** Whatever occurs in a suffix occurs in the whole string. */
  lemma ContainsInSuffix(a: string, b: string, sub: string)
    requires Contains(b, sub)
    ensures Contains(a + b, sub)
  {
    ContainsIffOccurs(b, sub);
    var i :| OccursAt(b, sub, i);
    assert (a + b)[|a| + i..|a| + i + |sub|] == b[i..i + |sub|];
    assert OccursAt(a + b, sub, |a| + i);
    ContainsIffOccurs(a + b, sub);
  }

  // ---------------------------------------------------------------------------
  // String conversion of a possibly-null reference
  // ---------------------------------------------------------------------------

  /** What `"" + ref` produces: the text, or "null" for a null reference. */
  function JavaString(o: Option<string>): string {
    match o
    case Some(s) => s
    case None => "null"
  }

  // ---------------------------------------------------------------------------
  // trim, equalsIgnoreCase
  // ---------------------------------------------------------------------------

  /** Number of leading characters `String.trim` removes (code point at most U+0020). */
  function LeadingSpace(s: string): (n: nat)
    ensures n <= |s|
    ensures forall k :: 0 <= k < n ==> s[k] <= ' '
    ensures n < |s| ==> s[n] > ' '
  {
    if s == [] || s[0] > ' ' then 0 else 1 + LeadingSpace(s[1..])
  }

  /** Length of `s` once `String.trim` has removed its trailing characters. */
  function TrailingEnd(s: string): (n: nat)
    ensures n <= |s|
    ensures forall k :: n <= k < |s| ==> s[k] <= ' '
    ensures n > 0 ==> s[n - 1] > ' '
  {
    if s == [] || s[|s| - 1] > ' ' then |s| else TrailingEnd(s[..|s| - 1])
  }

  /** `String.trim`: the slice of `s` between its leading and trailing control/space characters. */
  function Trim(s: string): (r: string)
    ensures r == [] || (r[0] > ' ' && r[|r| - 1] > ' ')
    ensures r == [] <==> forall k :: 0 <= k < |s| ==> s[k] <= ' '
    ensures LeadingSpace(s) + |r| <= |s|
    ensures r == s[LeadingSpace(s)..LeadingSpace(s) + |r|]
    ensures forall k :: LeadingSpace(s) + |r| <= k < |s| ==> s[k] <= ' '
  {
    var a := LeadingSpace(s);
    if a == |s| then ""
    else
      var b := TrailingEnd(s);
      assert s[a] > ' ';
      s[a..b]
  }

  function LowerAscii(c: char): char {
    if 'A' <= c <= 'Z' then (c as int + 32) as char else c
  }

  function UpperAscii(c: char): char {
    if 'a' <= c <= 'z' then (c as int - 32) as char else c
  }

  /** `String.equalsIgnoreCase` on ASCII text. */
  predicate EqualsIgnoreCase(a: string, b: string) {
    |a| == |b| && forall i :: 0 <= i < |a| ==> LowerAscii(a[i]) == LowerAscii(b[i])
  }

  // ---------------------------------------------------------------------------
  // replaceAll("\\s+", "") and toUpperCase
  // ---------------------------------------------------------------------------

  /** The regex class `\s`: space, tab, newline, vertical tab, form feed, carriage return. */
  predicate IsRegexSpace(c: char) {
    c == ' ' || 9 <= c as int <= 13
  }

  /** `s.replaceAll("\\s+", "")`: the characters of `s` that are not regex whitespace, in order. */
  function RemoveWhitespace(s: string): (r: string)
    ensures forall k :: 0 <= k < |r| ==> !IsRegexSpace(r[k])
    ensures forall k :: 0 <= k < |s| && !IsRegexSpace(s[k]) ==> s[k] in r
    ensures |r| <= |s|
  {
    if s == [] then ""
    else if IsRegexSpace(s[0]) then RemoveWhitespace(s[1..])
    else [s[0]] + RemoveWhitespace(s[1..])
  }

  /** Whitespace removal works character by character: removing it from a
      concatenation is removing it from each part. */
  lemma {:induction false} RemoveWhitespaceAppend(a: string, b: string)
    ensures RemoveWhitespace(a + b) == RemoveWhitespace(a) + RemoveWhitespace(b)
  {
    if a == [] {
      assert a + b == b;
    } else {
      assert (a + b)[0] == a[0];
      assert (a + b)[1..] == a[1..] + b;
      RemoveWhitespaceAppend(a[1..], b);
    }
  }

  /** A single character is dropped exactly when it is regex whitespace. */
  lemma RemoveWhitespaceChar(c: char)
    ensures RemoveWhitespace([c]) == if IsRegexSpace(c) then [] else [c]
  {
    assert [c][1..] == [];
  }

  /** `String.toUpperCase` on ASCII text. */
  function ToUpperAscii(s: string): (r: string)
    ensures |r| == |s|
    ensures forall k :: 0 <= k < |s| ==> r[k] == UpperAscii(s[k])
  {
    if s == [] then "" else [UpperAscii(s[0])] + ToUpperAscii(s[1..])
  }

  /** Upper-casing a concatenation upper-cases each part. */
  lemma ToUpperAsciiAppend(a: string, b: string)
    ensures ToUpperAscii(a + b) == ToUpperAscii(a) + ToUpperAscii(b)
  {
    var l, r := ToUpperAscii(a + b), ToUpperAscii(a) + ToUpperAscii(b);
    assert |l| == |r|;
    forall k | 0 <= k < |l| ensures l[k] == r[k] {
      if k < |a| {
        assert (a + b)[k] == a[k];
      } else {
        assert (a + b)[k] == b[k - |a|];
      }
    }
  }

  // ---------------------------------------------------------------------------
  // replace(CharSequence, CharSequence)
  // ---------------------------------------------------------------------------

  /** `String.replace(target, replacement)` with an empty target: the
      replacement is inserted before every character and at the end. */
  function InsertEverywhere(s: string, replacement: string): string {
    if s == [] then replacement
    else replacement + [s[0]] + InsertEverywhere(s[1..], replacement)
  }

  /** `String.replace(target, replacement)`: every non-overlapping occurrence
      of `target`, scanning left to right, is replaced. */
  function Replace(s: string, target: string, replacement: string): string
    decreases |s|
  {
    if |target| == 0 then InsertEverywhere(s, replacement)
    else if StartsWith(s, target) then replacement + Replace(s[|target|..], target, replacement)
    else if s == [] then ""
    else [s[0]] + Replace(s[1..], target, replacement)
  }

  /** Replacing a target that does not occur leaves the text unchanged. */
  lemma {:induction false} ReplaceAbsent(s: string, target: string, replacement: string)
    requires |target| > 0 && !Contains(s, target)
    ensures Replace(s, target, replacement) == s
    decreases |s|
  {
    if s != [] {
      ReplaceAbsent(s[1..], target, replacement);
      assert s == [s[0]] + s[1..];
    }
  }

  /** Replacing a target with itself leaves the text unchanged. */
  lemma {:induction false} ReplaceWithItself(s: string, target: string)
    requires |target| > 0
    ensures Replace(s, target, target) == s
    decreases |s|
  {
    if StartsWith(s, target) {
      ReplaceWithItself(s[|target|..], target);
      assert s == s[..|target|] + s[|target|..];
    } else if s != [] {
      ReplaceWithItself(s[1..], target);
      assert s == [s[0]] + s[1..];
    }
  }
}
