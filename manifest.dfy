/**
 * The update of the step type registry `setupNodes.js` (StepTypeCreator.main,
 * lines 249-270): a new entry is spliced in after the last `}` that precedes
 * the first `]`, and a warning flag records whether the new upper-first name
 * already occurred in the file.
 */
module Manifest {
  import opened Wrappers
  import opened JavaString
  import opened Names

  /** The literal parts of the entry of lines 268-269, around the two names. */
  const EntryHead := ",\n\t{\n\t\tnodeName:\""
  const EntryMiddle := "Node\",\n\t\tnodeSetupPath:\"vle/node/"
  const EntryTail := "/setup.js\"\n\t}"

  /** Lines 268-269: the registration of the new step type. */
  function Entry(ns: NameSet): string {
    EntryHead + ns.upperFirst + EntryMiddle + ns.lowerFirst + EntryTail
  }

  /** The rewritten registry and whether the name was already in it. */
  datatype Patch = Patch(text: string, duplicate: bool)

  /** Line 252: the first `]`, or -1. */
  function BracketIndex(text: string): (j: int)
    ensures -1 <= j < |text|
    ensures j == -1 <==> ']' !in text
    ensures j >= 0 ==> text[j] == ']' && ']' !in text[..j]
  {
    IndexOfChar(text, ']');
    IndexOf(text, "]")
  }

  /** Lines 253-256: the last `}` before index `j`, or -1. */
  function BraceIndex(text: string, j: nat): (k: int)
    requires j <= |text|
    ensures -1 <= k < j
    ensures k == -1 <==> '}' !in text[..j]
    ensures k >= 0 ==> text[k] == '}' && '}' !in text[k + 1..j]
  {
    var k := LastIndexOfChar(text[..j], '}');
    assert k >= 0 ==> text[..j][k + 1..] == text[k + 1..j];
    k
  }

  /** `e` inserted at index `n` of `s`. */
  function Splice(s: string, n: nat, e: string): (t: string)
    requires n <= |s|
    ensures |t| == |s| + |e|
    ensures t[..n] == s[..n] && t[n..n + |e|] == e && t[n + |e|..] == s[n..]
  {
    s[..n] + e + s[n..]
  }

  /** Lines 249-270. Without a `]`, `substring(0, -1)` throws; that outcome is `None`.
      The entry is spliced in after the last `}` before the first `]` (or at the
      front), whatever the flag says. */
  function PatchManifest(text: string, ns: NameSet): (r: Option<Patch>)
    ensures r.None? <==> ']' !in text
    ensures r.Some? ==> r.value.duplicate == Contains(text, ns.upperFirst)
    ensures r.Some? ==> r.value.text == Splice(text, BraceIndex(text, BracketIndex(text)) + 1, Entry(ns))
  {
    var j := BracketIndex(text);
    if j < 0 then None
    else
      var k := BraceIndex(text, j);
      Some(Patch(text[..k + 1] + Entry(ns) + text[k + 1..], Contains(text, ns.upperFirst)))
  }

  // ---------------------------------------------------------------------------
  // The entry

  /** For an accepted name the entry holds no `]`. */
  lemma EntryHasNoBracket(ns: NameSet)
    requires ValidNameSet(ns)
    ensures ']' !in Entry(ns)
  {
    NonWordNotIn(']', ns.upperFirst);
    NonWordNotIn(']', ns.lowerFirst);
    assert ']' !in EntryHead && ']' !in EntryMiddle && ']' !in EntryTail;
  }

  // ---------------------------------------------------------------------------
  // The splice

  /** Inserting a text without `c` after some index before the first `c` moves
      the first `c` by the inserted length. */
  lemma SpliceMovesFirst(s: string, n: nat, e: string, c: char)
    requires c in s && c !in e && n <= IndexOf(s, [c])
    ensures IndexOf(Splice(s, n, e), [c]) == IndexOf(s, [c]) + |e|
  {
    IndexOfChar(s, c);
    var j := IndexOf(s, [c]);
    var t := Splice(s, n, e);
    var j' := j + |e|;
    assert t[j'] == t[n + |e|..][j - n] == s[n..][j - n] == c;
    forall i | 0 <= i < j' ensures t[i] != c {
      if i < n {
        assert t[i] == t[..n][i] == s[..n][i] == s[i];
      } else if i < n + |e| {
        assert t[i] == t[n..n + |e|][i - n] == e[i - n];
      } else {
        assert t[i] == t[n + |e|..][i - n - |e|] == s[n..][i - n - |e|] == s[i - |e|];
      }
      assert i < n + |e| || s[i - |e|] == s[..j][i - |e|];
      assert i >= n || s[i] == s[..j][i];
    }
    assert c !in t[..j'];
    IndexOfCharAt(t, c, j');
  }

  /** The new entry sits before the first `]` of the result, which is the old first
      `]` moved by the entry's length. */
  lemma PatchBracketMoves(text: string, ns: NameSet)
    requires ']' in text && ValidNameSet(ns)
    ensures BracketIndex(PatchManifest(text, ns).value.text) == BracketIndex(text) + |Entry(ns)|
  {
    EntryHasNoBracket(ns);
    SpliceMovesFirst(text, BraceIndex(text, BracketIndex(text)) + 1, Entry(ns), ']');
  }

  // ---------------------------------------------------------------------------
  // The duplicate warning

  /** A text spliced into another occurs in the result. */
  lemma SpliceContains(s: string, n: nat, e: string)
    requires n <= |s|
    ensures Contains(Splice(s, n, e), e)
  {
    assert Splice(s, n, e) == s[..n] + e + s[n..];
    ContainsMiddle(s[..n], e, s[n..]);
  }

  /** What contains a text contains each part of it. */
  lemma ContainsPart(s: string, x: string, t: string, y: string)
    requires Contains(s, x + t + y)
    ensures Contains(s, t)
  {
    ContainsIff(s, x + t + y);
    var i :| OccursAt(s, x + t + y, i);
    OccursInside(s, x, t, y, i);
    ContainsIff(s, t);
  }

  lemma OccursInside(s: string, x: string, t: string, y: string, i: int)
    requires OccursAt(s, x + t + y, i)
    ensures OccursAt(s, t, i + |x|)
  {
    MiddleSlice(x, t, y);
    SliceOfSlice(s, i, i + |x + t + y|, |x|, |x| + |t|);
  }

  lemma SliceOfSlice(s: string, i: nat, j: nat, a: nat, b: nat)
    requires i <= j <= |s| && a <= b <= j - i
    ensures s[i..j][a..b] == s[i + a..i + b]
  {
    forall k | 0 <= k < b - a ensures s[i..j][a..b][k] == s[i + a..i + b][k] {
    }
  }

  lemma MiddleSlice(x: string, t: string, y: string)
    ensures (x + t + y)[|x|..|x| + |t|] == t
  {
    forall k | 0 <= k < |t| ensures (x + t + y)[|x| + k] == t[k] {
    }
  }

  /** The entry itself holds the upper-first name, so the patched registry always does. */
  lemma PatchedContainsName(text: string, ns: NameSet)
    requires ']' in text
    ensures Contains(PatchManifest(text, ns).value.text, ns.upperFirst)
  {
    var n := BraceIndex(text, BracketIndex(text)) + 1;
    SpliceContains(text, n, Entry(ns));
    ContainsSecondOfFive(Splice(text, n, Entry(ns)), EntryHead, ns.upperFirst, EntryMiddle, ns.lowerFirst, EntryTail);
  }

  lemma ContainsSecondOfFive(s: string, a: string, b: string, c: string, d: string, e: string)
    requires Contains(s, a + b + c + d + e)
    ensures Contains(s, b)
  {
    assert a + b + c + d + e == a + b + (c + d + e);
    ContainsPart(s, a, b, c + d + e);
  }

  /** Patching an already patched registry raises the warning and adds a second
      entry: the patch is not idempotent. */
  lemma PatchTwice(text: string, ns: NameSet)
    requires ']' in text && ValidNameSet(ns)
    ensures var once := PatchManifest(text, ns).value.text;
      && ']' in once
      && PatchManifest(once, ns).value.duplicate
      && PatchManifest(once, ns).value.text != once
  {
    var once := PatchManifest(text, ns).value.text;
    PatchBracketMoves(text, ns);
    assert BracketIndex(once) >= 0;
    assert ']' in once;
    PatchedContainsName(text, ns);
    var twice := PatchManifest(once, ns).value;
    assert twice.duplicate;
    assert |twice.text| == |once| + |Entry(ns)|;
    assert |Entry(ns)| > 0;
  }
}
