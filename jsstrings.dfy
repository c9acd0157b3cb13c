/** The JavaScript string operations the core relies on: `split` with a
    non-empty separator, `join`, the decimal rendering a template literal
    gives an integer, and the first and last position of a character, from
    which the match of `/\{[\s\S]*\}/` is computed. */
module JsStrings {
  import opened Results

  /** `pat` occurs in `s` starting at index `k`. */
  predicate OccursAt(s: string, pat: string, k: nat) {
    k + |pat| <= |s| && s[k..k + |pat|] == pat
  }

  /** `pat` occurs nowhere in `s`. */
  predicate Free(s: string, pat: string) {
    forall k: nat | k <= |s| :: !OccursAt(s, pat, k)
  }

  /** `s.indexOf(pat, from)`: the first index at or after `from` where `pat` occurs. */
  function IndexOfFrom(s: string, pat: string, from: nat): (r: Option<nat>)
    ensures r.Some? ==> from <= r.value && OccursAt(s, pat, r.value)
    ensures r.Some? ==> forall k: nat :: from <= k < r.value ==> !OccursAt(s, pat, k)
    ensures r.None? ==> forall k: nat :: from <= k ==> !OccursAt(s, pat, k)
    decreases |s| - from
  {
    if |s| < from + |pat| then None
    else if s[from..from + |pat|] == pat then Some(from)
    else IndexOfFrom(s, pat, from + 1)
  }

  /** The first position of the character `c` in `s` (where a leftmost
      regular-expression match starting with `c` can begin). */
  function FirstIndex(s: string, c: char): (r: Option<nat>)
    ensures r.Some? ==> r.value < |s| && s[r.value] == c && c !in s[..r.value]
    ensures r.None? <==> c !in s
    decreases |s|
  {
    if s == [] then None
    else if s[0] == c then Some(0)
    else match FirstIndex(s[1..], c)
      case None => None
      case Some(k) =>
        assert s[..k + 1] == [s[0]] + s[1..][..k];
        Some(k + 1)
  }

  /** The last position of the character `c` in `s` (where a greedy
      regular-expression match ending with `c` stops). */
  function LastIndex(s: string, c: char): (r: Option<nat>)
    ensures r.Some? ==> r.value < |s| && s[r.value] == c && c !in s[r.value + 1..]
    ensures r.None? <==> c !in s
    decreases |s|
  {
    if s == [] then None
    else if s[|s| - 1] == c then Some(|s| - 1)
    else match LastIndex(s[..|s| - 1], c)
      case None => None
      case Some(k) =>
        assert s[k + 1..] == s[..|s| - 1][k + 1..] + [s[|s| - 1]];
        Some(k)
  }

  /** `FirstIndex` finds an occurrence no later than any given one. */
  lemma FirstIndexAtMost(s: string, c: char, i: nat)
    requires i < |s| && s[i] == c
    ensures FirstIndex(s, c).Some? && FirstIndex(s, c).value <= i
  {
    assert s[i] in s;
    var k := FirstIndex(s, c).value;
    forall m | 0 <= m < k ensures s[m] != c {
      assert s[..k][m] == s[m];
    }
  }

  /** `LastIndex` finds an occurrence no earlier than any given one. */
  lemma LastIndexAtLeast(s: string, c: char, j: nat)
    requires j < |s| && s[j] == c
    ensures LastIndex(s, c).Some? && j <= LastIndex(s, c).value
  {
    assert s[j] in s;
    var k := LastIndex(s, c).value;
    forall m | k < m < |s| ensures s[m] != c {
      assert s[k + 1..][m - k - 1] == s[m];
    }
  }

  /** An occurrence inside a prefix of `s` is an occurrence in `s`. */
  lemma OccursInPrefix(s: string, pat: string, i: nat, k: nat)
    requires i <= |s| && OccursAt(s[..i], pat, k)
    ensures OccursAt(s, pat, k)
  {
    assert s[..i][k..k + |pat|] == s[k..k + |pat|];
  }

  /** `s.split(sep)` for a non-empty separator: the pieces between
      successive non-overlapping occurrences, scanned left to right. */
  function Split(s: string, sep: string): (pieces: seq<string>)
    requires |sep| > 0
    ensures |pieces| >= 1
    ensures forall k | 0 <= k < |pieces| :: Free(pieces[k], sep)
    ensures |pieces| == 1 <==> IndexOfFrom(s, sep, 0).None?
    ensures |pieces| > 1 ==> IndexOfFrom(s, sep, 0) == Some(|pieces[0]|)
    decreases |s|
  {
    match IndexOfFrom(s, sep, 0)
    case None => [s]
    case Some(i) =>
      var head := s[..i];
      assert Free(head, sep) by {
        forall k: nat ensures !OccursAt(head, sep, k) {
          if OccursAt(head, sep, k) {
            OccursInPrefix(s, sep, i, k);
          }
        }
      }
      [head] + Split(s[i + |sep|..], sep)
  }

  /** Splitting on a single character cuts at its first occurrence: the text
      before it is the first piece. */
  lemma SplitAtFirst(a: string, c: char, b: string)
    requires c !in a
    ensures Split(a + [c] + b, [c]) == [a] + Split(b, [c])
  {
    var s := a + [c] + b;
    assert s[|a|..|a| + 1] == [c];
    assert OccursAt(s, [c], |a|);
    forall k: nat | k < |a| ensures !OccursAt(s, [c], k) {
      assert s[k] == a[k];
    }
    match IndexOfFrom(s, [c], 0)
    case None =>
    case Some(i) =>
      assert !(i < |a|);
      assert !(|a| < i);
    assert s[..|a|] == a;
    assert s[|a| + 1..] == b;
  }

  /** The second piece of a split starts right after the first occurrence of
      the separator and runs up to the next occurrence after it, or the end. */
  lemma SplitSecond(s: string, sep: string)
    requires |sep| > 0 && |Split(s, sep)| > 1
    ensures IndexOfFrom(s, sep, 0).Some?
    ensures var start := IndexOfFrom(s, sep, 0).value + |sep|;
      var rest := s[start..];
      var next := IndexOfFrom(rest, sep, 0);
      Split(s, sep)[1] == if next.Some? then rest[..next.value] else rest
  {
    var i := IndexOfFrom(s, sep, 0).value;
    var rest := s[i + |sep|..];
    assert Split(s, sep) == [s[..i]] + Split(rest, sep);
  }

  /** A string without the separator character splits into itself. */
  lemma SplitWithout(s: string, c: char)
    requires c !in s
    ensures Split(s, [c]) == [s]
  {
    forall k: nat | k < |s| ensures !OccursAt(s, [c], k) {
      assert s[k..k + 1] == [s[k]];
    }
  }

  /** `pieces.join(sep)`. */
  function Join(pieces: seq<string>, sep: string): string
    decreases |pieces|
  {
    if |pieces| == 0 then ""
    else if |pieces| == 1 then pieces[0]
    else pieces[0] + sep + Join(pieces[1..], sep)
  }

  /** One step of `Split`: the piece before the first separator, then the
      pieces of the rest. */
  lemma JoinSplitStep(s: string, sep: string, i: nat)
    requires |sep| > 0 && IndexOfFrom(s, sep, 0) == Some(i)
    ensures Join(Split(s, sep), sep) == s[..i] + sep + Join(Split(s[i + |sep|..], sep), sep)
  {
    var pieces := Split(s, sep);
    assert pieces == [s[..i]] + Split(s[i + |sep|..], sep);
    assert pieces[1..] == Split(s[i + |sep|..], sep);
  }

  /** Splitting loses nothing: joining the pieces with the separator gives
      the string back. */
  lemma {:induction false} SplitJoin(s: string, sep: string)
    requires |sep| > 0
    ensures Join(Split(s, sep), sep) == s
    decreases |s|
  {
    match IndexOfFrom(s, sep, 0)
    case None =>
    case Some(i) =>
      var rest := s[i + |sep|..];
      SplitJoin(rest, sep);
      JoinSplitStep(s, sep, i);
      assert s == s[..i] + s[i..i + |sep|] + rest;
  }

  /** A string joined from two or more pieces is never empty; so the join is
      empty exactly for no pieces or a single empty piece. */
  lemma JoinEmpty(pieces: seq<string>, sep: string)
    requires |sep| > 0
    ensures Join(pieces, sep) == "" <==> pieces == [] || pieces == [""]
  {
    if |pieces| >= 2 {
      assert |Join(pieces, sep)| >= |sep|;
    }
  }

  /** Joining adds no character that is neither in the pieces nor in the
      separator. */
  lemma {:induction false} JoinWithout(pieces: seq<string>, sep: string, c: char)
    requires c !in sep && forall k | 0 <= k < |pieces| :: c !in pieces[k]
    ensures c !in Join(pieces, sep)
    decreases |pieces|
  {
    if |pieces| >= 2 {
      JoinWithout(pieces[1..], sep, c);
      assert pieces[0] + sep + Join(pieces[1..], sep) == Join(pieces, sep);
    }
  }

  predicate IsDigit(c: char) {
    '0' <= c <= '9'
  }

  predicate IsDigits(s: string) {
    forall k | 0 <= k < |s| :: IsDigit(s[k])
  }

  function DigitChar(d: nat): (c: char)
    requires d < 10
    ensures IsDigit(c)
  {
    ('0' as int + d) as char
  }

  function DigitValue(c: char): nat
    requires IsDigit(c)
  {
    c as int - '0' as int
  }

  /** The text a template literal gives a non-negative integer below 10^21:
      its decimal digits, most significant first, without leading zeros.
      (From 10^21 on, JavaScript switches to exponent notation.) */
  function NatToDecimal(n: nat): (r: string)
    ensures |r| >= 1 && IsDigits(r)
    ensures r[0] == '0' ==> n == 0
    decreases n
  {
    if n < 10 then [DigitChar(n)] else NatToDecimal(n / 10) + [DigitChar(n % 10)]
  }

  /** The reading of a string of digits as a number: the reference against
      which the rendering is checked. */
  function DecimalValue(s: string): nat
    requires IsDigits(s)
    decreases |s|
  {
    if s == [] then 0 else DecimalValue(s[..|s| - 1]) * 10 + DigitValue(s[|s| - 1])
  }

  lemma {:induction false} DecimalRoundTrip(n: nat)
    ensures DecimalValue(NatToDecimal(n)) == n
    decreases n
  {
    if n >= 10 {
      DecimalRoundTrip(n / 10);
      var r := NatToDecimal(n);
      assert r[..|r| - 1] == NatToDecimal(n / 10);
    }
  }

  /** Distinct numbers render as distinct texts. */
  lemma NatToDecimalInjective(m: nat, n: nat)
    ensures NatToDecimal(m) == NatToDecimal(n) ==> m == n
  {
    DecimalRoundTrip(m);
    DecimalRoundTrip(n);
  }

  /** The text a template literal gives an integer of magnitude below 10^21
      (a minus sign for negatives). */
  function IntToDecimal(i: int): (r: string)
    ensures |r| >= 1
    ensures i < 0 <==> r[0] == '-'
  {
    if i < 0 then "-" + NatToDecimal(-i) else NatToDecimal(i)
  }
}
