/**
 * The handful of java.lang.String and java.util.regex operations the step type
 * creator relies on: `replaceAll`, `replaceFirst`, `indexOf`, `lastIndexOf`,
 * `contains` and `startsWith`. Every regular expression it passes is made of
 * literal characters and unescaped dots, so a pattern is its text plus the set
 * of positions that hold a dot.
 */
module JavaString {
  import opened Wrappers

  /** The characters Java's `.` does not match when DOTALL is off. */
  predicate IsLineTerminator(c: char) {
    c == '\n' || c == '\r' || c == '\U{0085}' || c == '\U{2028}' || c == '\U{2029}'
  }

  /** A regular expression with no metacharacter other than `.`: `text` is the
      expression as written and `dots` the positions in it meaning "any character". */
  datatype Pattern = Pattern(text: string, dots: set<nat>)

  /** A pattern with no metacharacter at all (what `"\\.te"` or `"template"` compile to). */
  function Literal(t: string): (p: Pattern)
    ensures p.text == t && p.dots == {}
  {
    Pattern(t, {})
  }

  /** Position `j` of `p` accepts `c`. */
  predicate AtomMatches(p: Pattern, j: nat, c: char)
    requires j < |p.text|
  {
    if j in p.dots then !IsLineTerminator(c) else c == p.text[j]
  }

  /** `p` matches a prefix of `s` (all patterns here have fixed length). */
  predicate MatchesPrefix(p: Pattern, s: string) {
    |p.text| <= |s| && forall j | 0 <= j < |p.text| :: AtomMatches(p, j, s[j])
  }

  /** What `Matcher.find()` from the start returns: the leftmost index at which `p` matches. */
  function FirstMatch(s: string, p: Pattern): (r: Option<nat>)
    ensures r.Some? ==> r.value + |p.text| <= |s| && MatchesPrefix(p, s[r.value..])
    ensures r.Some? ==> forall i | 0 <= i < r.value :: !MatchesPrefix(p, s[i..])
    ensures r.None? ==> forall i | 0 <= i <= |s| :: !MatchesPrefix(p, s[i..])
    decreases |s|
  {
    if MatchesPrefix(p, s) then Some(0)
    else if s == [] then None
    else
      match FirstMatch(s[1..], p)
      case None => NoMatchInTail(s, p); None
      case Some(i) => MatchInTail(s, p, i); Some(i + 1)
  }

  /** No match in the tail and none at the front: no match at all. */
  lemma NoMatchInTail(s: string, p: Pattern)
    requires s != [] && !MatchesPrefix(p, s)
    requires forall i | 0 <= i <= |s[1..]| :: !MatchesPrefix(p, s[1..][i..])
    ensures forall i | 0 <= i <= |s| :: !MatchesPrefix(p, s[i..])
  {
    forall i | 0 <= i <= |s| ensures !MatchesPrefix(p, s[i..]) {
      if i == 0 { assert s[i..] == s; } else { assert s[i..] == s[1..][i - 1..]; }
    }
  }

  /** The leftmost match in the tail, shifted by one, is the leftmost match. */
  lemma MatchInTail(s: string, p: Pattern, i: nat)
    requires s != [] && !MatchesPrefix(p, s)
    requires i + |p.text| <= |s[1..]| && MatchesPrefix(p, s[1..][i..])
    requires forall j | 0 <= j < i :: !MatchesPrefix(p, s[1..][j..])
    ensures MatchesPrefix(p, s[i + 1..])
    ensures forall j | 0 <= j < i + 1 :: !MatchesPrefix(p, s[j..])
  {
    assert s[i + 1..] == s[1..][i..];
    forall j | 0 <= j < i + 1 ensures !MatchesPrefix(p, s[j..]) {
      if j == 0 { assert s[j..] == s; } else { assert s[j..] == s[1..][j - 1..]; }
    }
  }

  /** `s.replaceAll(p, r)` for a replacement without `$` or `\`: every leftmost,
      non-overlapping match is replaced and the replacement is not scanned again.
      An empty pattern matches at every position, between and around all characters. */
  function ReplaceAll(s: string, p: Pattern, r: string): string
    decreases |s|
  {
    if |p.text| == 0 then
      (if s == [] then r else r + [s[0]] + ReplaceAll(s[1..], p, r))
    else if MatchesPrefix(p, s) then r + ReplaceAll(s[|p.text|..], p, r)
    else if s == [] then []
    else [s[0]] + ReplaceAll(s[1..], p, r)
  }

  /** `s.replaceFirst(p, r)` for a replacement without `$` or `\`. */
  function ReplaceFirst(s: string, p: Pattern, r: string): string {
    match FirstMatch(s, p)
    case None => s
    case Some(i) => s[..i] + r + s[i + |p.text|..]
  }

  /** `s.indexOf(t)`: the first index of `t` in `s`, or -1. */
  function IndexOf(s: string, t: string): int {
    match FirstMatch(s, Literal(t))
    case None => -1
    case Some(i) => i
  }

  /** `s.contains(t)`, which Java defines as `indexOf(t) >= 0`. */
  predicate Contains(s: string, t: string) {
    IndexOf(s, t) >= 0
  }

  /** `s.lastIndexOf(c)` for a one-character argument: the last index of `c`, or -1. */
  function LastIndexOfChar(s: string, c: char): (k: int)
    ensures -1 <= k < |s|
    ensures k == -1 <==> c !in s
    ensures k >= 0 ==> s[k] == c && c !in s[k + 1..]
    decreases |s|
  {
    if s == [] then -1
    else if s[|s| - 1] == c then |s| - 1
    else
      var k := LastIndexOfChar(s[..|s| - 1], c);
      assert s == s[..|s| - 1] + [s[|s| - 1]];
      assert k >= 0 ==> s[k + 1..] == s[..|s| - 1][k + 1..] + [s[|s| - 1]];
      k
  }

  /** `s.startsWith(t)`. */
  predicate StartsWith(s: string, t: string) {
    |t| <= |s| && s[..|t|] == t
  }

  // ---------------------------------------------------------------------------
  // Searching

  /** A literal pattern matches exactly where its text occurs. */
  lemma LiteralMatchesIff(t: string, s: string)
    ensures MatchesPrefix(Literal(t), s) <==> StartsWith(s, t)
  {
    if StartsWith(s, t) {
      forall j | 0 <= j < |t| ensures AtomMatches(Literal(t), j, s[j]) {
        assert s[..|t|][j] == s[j];
      }
    }
    if MatchesPrefix(Literal(t), s) {
      assert s[..|t|] == t;
    }
  }

  /** A match at `i` with none before it is what the search reports. */
  lemma FirstMatchAt(s: string, p: Pattern, i: nat)
    requires i <= |s| && MatchesPrefix(p, s[i..])
    requires forall k | 0 <= k < i :: !MatchesPrefix(p, s[k..])
    ensures FirstMatch(s, p) == Some(i)
  {
  }

  /** `s.indexOf(c)` for a one-character string: the first index of `c`, or -1 when `s` lacks it. */
  lemma IndexOfChar(s: string, c: char)
    ensures -1 <= IndexOf(s, [c]) < |s|
    ensures IndexOf(s, [c]) == -1 <==> c !in s
    ensures IndexOf(s, [c]) >= 0 ==> s[IndexOf(s, [c])] == c && c !in s[..IndexOf(s, [c])]
  {
    var p := Literal([c]);
    match FirstMatch(s, p)
    case None =>
      forall i | 0 <= i < |s| ensures s[i] != c {
        assert !MatchesPrefix(p, s[i..]);
        assert s[i..][0] == s[i];
      }
    case Some(j) =>
      assert s[j..][0] == s[j];
      forall i | 0 <= i < j ensures s[i] != c {
        assert !MatchesPrefix(p, s[i..]);
        assert s[i..][0] == s[i];
      }
  }

  /** The first occurrence of a character is what `indexOf` reports. */
  lemma IndexOfCharAt(s: string, c: char, i: nat)
    requires i < |s| && s[i] == c && c !in s[..i]
    ensures IndexOf(s, [c]) == i
  {
    var p := Literal([c]);
    assert s[i..][0] == s[i];
    forall k | 0 <= k < i ensures !MatchesPrefix(p, s[k..]) {
      assert s[k..][0] == s[k] == s[..i][k];
    }
    FirstMatchAt(s, p, i);
  }

  /** `t` occurs in `s` starting at index `i`. */
  predicate OccursAt(s: string, t: string, i: int) {
    0 <= i <= |s| - |t| && s[i..i + |t|] == t
  }

  /** `contains` agrees with the textbook definition of a substring occurrence. */
  lemma ContainsIff(s: string, t: string)
    ensures Contains(s, t) <==> exists i :: OccursAt(s, t, i)
  {
    if Contains(s, t) {
      var i := IndexOf(s, t);
      LiteralMatchesIff(t, s[i..]);
      assert s[i..][..|t|] == s[i..i + |t|];
      assert OccursAt(s, t, i);
    }
    if exists i :: OccursAt(s, t, i) {
      var i :| OccursAt(s, t, i);
      assert s[i..][..|t|] == s[i..i + |t|];
      LiteralMatchesIff(t, s[i..]);
    }
  }

  /** An occurrence of `t` between `x` and `y` is found. */
  lemma ContainsMiddle(x: string, t: string, y: string)
    ensures Contains(x + t + y, t)
  {
    var s := x + t + y;
    assert s[|x|..|x| + |t|] == t;
    assert OccursAt(s, t, |x|);
    ContainsIff(s, t);
  }

  /** If some literal position of `p` holds a character that `s` lacks, `p` occurs nowhere. */
  lemma NoMatchMissingChar(s: string, p: Pattern, k: nat)
    requires k < |p.text| && k !in p.dots && p.text[k] !in s
    ensures FirstMatch(s, p) == None
  {
    forall i | 0 <= i <= |s| ensures !MatchesPrefix(p, s[i..]) {
      if |p.text| <= |s| - i {
        assert s[i..][k] == s[i + k];
        assert !AtomMatches(p, k, s[i..][k]);
      }
    }
  }

  /** The first position of `p` is literal and occurs in `s` only at the listed cut-off. */
  lemma NoMatchBeforeByFirstChar(s: string, p: Pattern, n: nat)
    requires 0 < |p.text| && 0 !in p.dots && n <= |s|
    requires forall i | 0 <= i < n :: s[i] != p.text[0]
    ensures forall i | 0 <= i < n :: !MatchesPrefix(p, s[i..])
  {
    forall i | 0 <= i < n ensures !MatchesPrefix(p, s[i..]) {
      assert !AtomMatches(p, 0, s[i..][0]);
    }
  }

  /** The first two positions of `p` are literal and never occur side by side before `n`. */
  lemma NoMatchBeforeByTwoChars(s: string, p: Pattern, n: nat)
    requires 1 < |p.text| && 0 !in p.dots && 1 !in p.dots && n <= |s|
    requires forall i | 0 <= i < n && i + 1 < |s| :: !(s[i] == p.text[0] && s[i + 1] == p.text[1])
    ensures forall i | 0 <= i < n :: !MatchesPrefix(p, s[i..])
  {
    forall i | 0 <= i < n ensures !MatchesPrefix(p, s[i..]) {
      if |p.text| <= |s| - i {
        assert !(AtomMatches(p, 0, s[i..][0]) && AtomMatches(p, 1, s[i..][1]));
      }
    }
  }

  /** The first three positions of `p` are literal and never occur in a row before `n`. */
  lemma NoMatchBeforeByThreeChars(s: string, p: Pattern, n: nat)
    requires 2 < |p.text| && 0 !in p.dots && 1 !in p.dots && 2 !in p.dots && n <= |s|
    requires forall i | 0 <= i < n && i + 2 < |s| ::
      !(s[i] == p.text[0] && s[i + 1] == p.text[1] && s[i + 2] == p.text[2])
    ensures forall i | 0 <= i < n :: !MatchesPrefix(p, s[i..])
  {
    forall i | 0 <= i < n ensures !MatchesPrefix(p, s[i..]) {
      if |p.text| <= |s| - i {
        assert s[i..][0] == s[i] && s[i..][1] == s[i + 1] && s[i..][2] == s[i + 2];
        assert !(AtomMatches(p, 0, s[i..][0]) && AtomMatches(p, 1, s[i..][1]) && AtomMatches(p, 2, s[i..][2]));
      }
    }
  }

  // ---------------------------------------------------------------------------
  // Replacing

  /** Characters before the first match are copied: the scan equals Java's
      find / appendReplacement / appendTail loop. */
  lemma {:induction false} ReplaceAllSkips(s: string, p: Pattern, r: string, n: nat)
    requires 0 < |p.text| && n <= |s|
    requires forall i | 0 <= i < n :: !MatchesPrefix(p, s[i..])
    ensures ReplaceAll(s, p, r) == s[..n] + ReplaceAll(s[n..], p, r)
    decreases n
  {
    if n == 0 {
      assert s[..0] == [] && s[0..] == s;
    } else {
      assert s[0..] == s;
      NoMatchInTailPrefix(s, p, n);
      ReplaceAllSkips(s[1..], p, r, n - 1);
      SkipsOneMore(s, p, r, n);
    }
  }

  /** The induction step of `ReplaceAllSkips`: one more copied character. */
  lemma SkipsOneMore(s: string, p: Pattern, r: string, n: nat)
    requires 0 < |p.text| && 0 < n <= |s| && !MatchesPrefix(p, s)
    requires ReplaceAll(s[1..], p, r) == s[1..][..n - 1] + ReplaceAll(s[1..][n - 1..], p, r)
    ensures ReplaceAll(s, p, r) == s[..n] + ReplaceAll(s[n..], p, r)
  {
    assert s[1..][n - 1..] == s[n..];
    ReplaceAllNoMatchHere(s, p, r);
    CopiedPrefix(s, n, ReplaceAll(s, p, r), ReplaceAll(s[1..], p, r), ReplaceAll(s[n..], p, r));
  }

  /** The sequence arithmetic of `SkipsOneMore`. */
  lemma CopiedPrefix(s: string, n: nat, x: string, y: string, z: string)
    requires 0 < n <= |s| && x == [s[0]] + y && y == s[1..][..n - 1] + z
    ensures x == s[..n] + z
  {
    assert s[..n] == [s[0]] + s[1..][..n - 1];
  }

  /** Without a match at the front, the scan copies the first character. */
  lemma ReplaceAllNoMatchHere(s: string, p: Pattern, r: string)
    requires 0 < |p.text| && s != [] && !MatchesPrefix(p, s)
    ensures ReplaceAll(s, p, r) == [s[0]] + ReplaceAll(s[1..], p, r)
  {
  }

  lemma NoMatchInTailPrefix(s: string, p: Pattern, n: nat)
    requires 0 < n <= |s|
    requires forall i | 0 <= i < n :: !MatchesPrefix(p, s[i..])
    ensures forall i | 0 <= i < n - 1 :: !MatchesPrefix(p, s[1..][i..])
  {
    forall i | 0 <= i < n - 1 ensures !MatchesPrefix(p, s[1..][i..]) {
      assert s[1..][i..] == s[i + 1..];
    }
  }

  /** `replaceAll` as Java's matcher loop computes it: copy up to the match that
      `find()` reports, emit the replacement, continue after the match. */
  lemma ReplaceAllAtFirst(s: string, p: Pattern, r: string, i: nat)
    requires 0 < |p.text| && FirstMatch(s, p) == Some(i)
    ensures ReplaceAll(s, p, r) == s[..i] + r + ReplaceAll(s[i + |p.text|..], p, r)
  {
    ReplaceAllAtMatch(s, p, r, i);
  }

  lemma ReplaceAllWithoutMatch(s: string, p: Pattern, r: string)
    requires 0 < |p.text|
    requires forall i | 0 <= i <= |s| :: !MatchesPrefix(p, s[i..])
    ensures ReplaceAll(s, p, r) == s
  {
    ReplaceAllSkips(s, p, r, |s|);
    assert s[|s|..] == [];
    assert s[..|s|] == s;
  }

  lemma ReplaceAllAtMatch(s: string, p: Pattern, r: string, i: nat)
    requires 0 < |p.text| && i + |p.text| <= |s| && MatchesPrefix(p, s[i..])
    requires forall j | 0 <= j < i :: !MatchesPrefix(p, s[j..])
    ensures ReplaceAll(s, p, r) == s[..i] + r + ReplaceAll(s[i + |p.text|..], p, r)
  {
    ReplaceAllSkips(s, p, r, i);
    assert s[i..][|p.text|..] == s[i + |p.text|..];
  }

  /** Without a match, `replaceAll` leaves the text alone. */
  lemma ReplaceAllNoMatch(s: string, p: Pattern, r: string)
    requires 0 < |p.text| && FirstMatch(s, p) == None
    ensures ReplaceAll(s, p, r) == s
  {
    ReplaceAllWithoutMatch(s, p, r);
  }

  /** A literal pattern that occurs first at `|x|` in `x + t + y`. */
  lemma ReplaceAllLiteralAt(x: string, t: string, y: string, r: string)
    requires 0 < |t|
    requires forall i | 0 <= i < |x| :: !MatchesPrefix(Literal(t), (x + t + y)[i..])
    ensures ReplaceAll(x + t + y, Literal(t), r) == x + r + ReplaceAll(y, Literal(t), r)
  {
    var s := x + t + y;
    assert s[|x|..] == t + y;
    LiteralMatchesIff(t, t + y);
    assert (t + y)[..|t|] == t;
    ReplaceAllAtMatch(s, Literal(t), r, |x|);
    assert s[..|x|] == x;
    assert s[|x| + |t|..] == y;
  }

  /** No match of `p` covers the character at index `|a|` of `a + [c] + b`. */
  predicate NoMatchAcross(a: string, c: char, b: string, p: Pattern) {
    forall i | 0 <= i <= |a| && |a| < i + |p.text| :: !MatchesPrefix(p, (a + [c] + b)[i..])
  }

  /** A character that no position of `p` accepts is never covered by a match. */
  lemma NoMatchAcrossUnmatchedChar(a: string, c: char, b: string, p: Pattern)
    requires forall k | 0 <= k < |p.text| :: !AtomMatches(p, k, c)
    ensures NoMatchAcross(a, c, b, p)
  {
    var s := a + [c] + b;
    forall i | 0 <= i <= |a| && |a| < i + |p.text| ensures !MatchesPrefix(p, s[i..]) {
      if |p.text| <= |s| - i {
        assert s[i..][|a| - i] == c;
        assert !AtomMatches(p, |a| - i, s[i..][|a| - i]);
      }
    }
  }

  /** When `a` is shorter than `p`, no match starts in `a` or covers `c`. */
  lemma ReplaceAllSplitShort(a: string, c: char, b: string, p: Pattern, r: string)
    requires |a| < |p.text| && NoMatchAcross(a, c, b, p)
    ensures ReplaceAll(a + [c] + b, p, r) == a + [c] + ReplaceAll(b, p, r)
  {
    var s := a + [c] + b;
    ReplaceAllSkips(s, p, r, |a| + 1);
    assert s[..|a| + 1] == a + [c];
    assert s[|a| + 1..] == b;
  }

  /** A pattern longer than the text never matches in it. */
  lemma ReplaceAllShort(a: string, p: Pattern, r: string)
    requires |a| < |p.text|
    ensures ReplaceAll(a, p, r) == a
  {
    ReplaceAllSkips(a, p, r, |a|);
    assert a[..|a|] == a;
  }

  /** Dropping `n <= |a|` leading characters keeps the no-match-across property. */
  lemma NoMatchAcrossDrop(a: string, c: char, b: string, p: Pattern, n: nat)
    requires n <= |a| && NoMatchAcross(a, c, b, p)
    ensures NoMatchAcross(a[n..], c, b, p)
  {
    var s := a + [c] + b;
    var a' := a[n..];
    forall i | 0 <= i <= |a'| && |a'| < i + |p.text|
      ensures !MatchesPrefix(p, (a' + [c] + b)[i..])
    {
      assert (a' + [c] + b)[i..] == s[i + n..];
    }
  }

  /** Whether `p` matches at the front of `a + [c] + b` is decided inside `a` when `a` is long enough. */
  lemma MatchesPrefixInside(a: string, c: char, b: string, p: Pattern)
    requires |p.text| <= |a|
    ensures MatchesPrefix(p, a + [c] + b) <==> MatchesPrefix(p, a)
  {
    var s := a + [c] + b;
    assert forall j | 0 <= j < |p.text| :: s[j] == a[j];
  }

  /** With `a` at least as long as `p`, the first step of the scan over `a + [c] + b`
      is the first step of the scan over `a`. */
  lemma ReplaceAllFront(a: string, c: char, b: string, p: Pattern, r: string)
    requires 0 < |p.text| <= |a|
    ensures var n := if MatchesPrefix(p, a) then |p.text| else 1;
      var h := if MatchesPrefix(p, a) then r else [a[0]];
      && ReplaceAll(a + [c] + b, p, r) == h + ReplaceAll(a[n..] + [c] + b, p, r)
      && ReplaceAll(a, p, r) == h + ReplaceAll(a[n..], p, r)
  {
    var s := a + [c] + b;
    MatchesPrefixInside(a, c, b, p);
    if MatchesPrefix(p, a) {
      assert s[|p.text|..] == a[|p.text|..] + [c] + b;
    } else {
      assert s[1..] == a[1..] + [c] + b;
    }
  }

  /** `replaceAll` works independently on each side of a character no match covers. */
  lemma {:induction false} ReplaceAllSplit(a: string, c: char, b: string, p: Pattern, r: string)
    requires 0 < |p.text| && NoMatchAcross(a, c, b, p)
    ensures ReplaceAll(a + [c] + b, p, r) == ReplaceAll(a, p, r) + [c] + ReplaceAll(b, p, r)
    decreases |a|
  {
    if |a| < |p.text| {
      ReplaceAllSplitShort(a, c, b, p, r);
      ReplaceAllShort(a, p, r);
    } else {
      var n := if MatchesPrefix(p, a) then |p.text| else 1;
      NoMatchAcrossDrop(a, c, b, p, n);
      ReplaceAllSplit(a[n..], c, b, p, r);
      SplitOneMore(a, c, b, p, r, n);
    }
  }

  /** The induction step of `ReplaceAllSplit`: one more step of the scan over `a`. */
  lemma SplitOneMore(a: string, c: char, b: string, p: Pattern, r: string, n: nat)
    requires 0 < |p.text| <= |a| && n == if MatchesPrefix(p, a) then |p.text| else 1
    requires ReplaceAll(a[n..] + [c] + b, p, r) == ReplaceAll(a[n..], p, r) + [c] + ReplaceAll(b, p, r)
    ensures ReplaceAll(a + [c] + b, p, r) == ReplaceAll(a, p, r) + [c] + ReplaceAll(b, p, r)
  {
    var h := if MatchesPrefix(p, a) then r else [a[0]];
    ReplaceAllFront(a, c, b, p, r);
    Regrouped(h, c, ReplaceAll(a + [c] + b, p, r), ReplaceAll(a[n..] + [c] + b, p, r),
      ReplaceAll(a, p, r), ReplaceAll(a[n..], p, r), ReplaceAll(b, p, r));
  }

  /** The sequence arithmetic of `SplitOneMore`. */
  lemma Regrouped(h: string, c: char, whole: string, wholeRest: string, left: string, leftRest: string, right: string)
    requires whole == h + wholeRest && wholeRest == leftRest + [c] + right && left == h + leftRest
    ensures whole == left + [c] + right
  {
  }
}
