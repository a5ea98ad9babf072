/**
 * Argument validation and name casing (StepTypeCreator.main, lines 56-75):
 * the step type name and extension must each match `[a-zA-Z_0-9]*`, and the
 * name yields a lower-first variant (the stand-in for `template`) and an
 * upper-first variant (the stand-in for `Template`).
 */
module Names {

  /** One character of the class `[a-zA-Z_0-9]`. */
  predicate IsWordChar(c: char) {
    ('a' <= c <= 'z') || ('A' <= c <= 'Z') || c == '_' || ('0' <= c <= '9')
  }

  /** Every character of `s` is in the class. */
  predicate IsWord(s: string) {
    forall i | 0 <= i < |s| :: IsWordChar(s[i])
  }

  lemma WordConcat(x: string, y: string)
    requires IsWord(x) && IsWord(y)
    ensures IsWord(x + y)
  {
    forall i | 0 <= i < |x + y| ensures IsWordChar((x + y)[i]) {
      if i < |x| { assert (x + y)[i] == x[i]; } else { assert (x + y)[i] == y[i - |x|]; }
    }
  }

  /** A character outside the class occurs in no word. */
  lemma NonWordNotIn(c: char, t: string)
    requires !IsWordChar(c) && IsWord(t)
    ensures c !in t
  {
    forall i | 0 <= i < |t| ensures t[i] != c {
    }
  }

  /** `Pattern.compile("[a-zA-Z_0-9]*").matcher(s).matches()`: the starred class
      must consume the whole of `s`, one character per iteration. */
  predicate MatchesWordStar(s: string)
    decreases |s|
  {
    s == [] || (IsWordChar(s[0]) && MatchesWordStar(s[1..]))
  }

  /** The regular expression accepts exactly the strings made of class characters,
      the empty string included. */
  lemma {:induction false} MatchesWordStarIff(s: string)
    ensures MatchesWordStar(s) <==> IsWord(s)
    decreases |s|
  {
    if s != [] {
      MatchesWordStarIff(s[1..]);
      assert forall i | 1 <= i < |s| :: s[i] == s[1..][i - 1];
    }
  }

  /** Outcome of checking the two command-line arguments. */
  datatype Validation = Accepted | InvalidName | InvalidExtension

  /** The name is checked first, so an invalid name is reported even when the
      extension is invalid too. */
  function Validate(name: string, ext: string): (v: Validation)
    ensures v == Accepted <==> IsWord(name) && IsWord(ext)
    ensures v == InvalidName <==> !IsWord(name)
    ensures v == InvalidExtension <==> IsWord(name) && !IsWord(ext)
  {
    MatchesWordStarIff(name);
    MatchesWordStarIff(ext);
    if !MatchesWordStar(name) then InvalidName
    else if !MatchesWordStar(ext) then InvalidExtension
    else Accepted
  }

  /** `toLowerCase` of a one-character string of the class; only A-Z change. */
  function ToLowerAscii(c: char): (d: char)
    ensures 'A' <= c <= 'Z' ==> 'a' <= d <= 'z' && d as int == c as int + 32
    ensures !('A' <= c <= 'Z') ==> d == c
  {
    if 'A' <= c <= 'Z' then (c as int + 32) as char else c
  }

  /** `toUpperCase` of a one-character string of the class; only a-z change. */
  function ToUpperAscii(c: char): (d: char)
    ensures 'a' <= c <= 'z' ==> 'A' <= d <= 'Z' && d as int == c as int - 32
    ensures !('a' <= c <= 'z') ==> d == c
  {
    if 'a' <= c <= 'z' then (c as int - 32) as char else c
  }

  /** `name.substring(0, 1).toLowerCase() + name.substring(1)` (line 72). */
  function LowerFirst(name: string): (r: string)
    requires |name| > 0
    ensures |r| == |name| && r[1..] == name[1..]
    ensures r[0] == ToLowerAscii(name[0]) && !('A' <= r[0] <= 'Z')
    ensures IsWord(name) ==> IsWord(r)
  {
    [ToLowerAscii(name[0])] + name[1..]
  }

  /** `name.substring(0, 1).toUpperCase() + name.substring(1)` (line 75). */
  function UpperFirst(name: string): (r: string)
    requires |name| > 0
    ensures |r| == |name| && r[1..] == name[1..]
    ensures r[0] == ToUpperAscii(name[0]) && !('a' <= r[0] <= 'z')
    ensures IsWord(name) ==> IsWord(r)
  {
    [ToUpperAscii(name[0])] + name[1..]
  }

  /** The two variants differ at most in the case of their first letter: casing
      either one again gives the other, whatever the case of the name's first letter. */
  lemma CasingVariantsAgree(name: string)
    requires |name| > 0
    ensures LowerFirst(UpperFirst(name)) == LowerFirst(name)
    ensures UpperFirst(LowerFirst(name)) == UpperFirst(name)
    ensures LowerFirst(LowerFirst(name)) == LowerFirst(name)
    ensures UpperFirst(UpperFirst(name)) == UpperFirst(name)
    ensures LowerFirst(name) == UpperFirst(name) <==> !IsLetter(name[0])
  {
    var c := name[0];
    assert LowerFirst(UpperFirst(name))[0] == LowerFirst(name)[0];
    assert UpperFirst(LowerFirst(name))[0] == UpperFirst(name)[0];
    assert LowerFirst(name) == UpperFirst(name) ==> LowerFirst(name)[0] == UpperFirst(name)[0];
  }

  /** An ASCII letter. */
  predicate IsLetter(c: char) {
    ('a' <= c <= 'z') || ('A' <= c <= 'Z')
  }

  /** The names derived once per run: the extension and the two casing variants. */
  datatype NameSet = NameSet(ext: string, lowerFirst: string, upperFirst: string)

  /** Lines 72-75, for a non-empty name (an empty one makes `substring(0, 1)` throw). */
  function MakeNameSet(name: string, ext: string): (ns: NameSet)
    requires |name| > 0
    ensures ns.ext == ext && ns.lowerFirst == LowerFirst(name) && ns.upperFirst == UpperFirst(name)
  {
    NameSet(ext, LowerFirst(name), UpperFirst(name))
  }

  /** What every name set built from accepted arguments satisfies. */
  predicate ValidNameSet(ns: NameSet) {
    && IsWord(ns.ext) && IsWord(ns.lowerFirst) && IsWord(ns.upperFirst)
    && |ns.lowerFirst| > 0 && |ns.lowerFirst| == |ns.upperFirst|
    && ns.lowerFirst[1..] == ns.upperFirst[1..]
  }

  /** Accepted, non-empty arguments give a valid name set. */
  lemma MakeNameSetValid(name: string, ext: string)
    requires |name| > 0 && Validate(name, ext) == Accepted
    ensures ValidNameSet(MakeNameSet(name, ext))
  {
  }

  /** The running example of the source's comments: name `quiz`, extension `qz`. */
  function Quiz(): NameSet {
    NameSet("qz", "quiz", "Quiz")
  }

  /** `quiz` and `qz` are accepted and give `quiz` / `Quiz`. */
  lemma QuizNameSet()
    ensures Validate("quiz", "qz") == Accepted
    ensures MakeNameSet("quiz", "qz") == Quiz() && ValidNameSet(Quiz())
  {
    assert LowerFirst("quiz") == "quiz";
    assert UpperFirst("quiz") == ['Q'] + "quiz"[1..];
  }

  /** Rejected arguments: a `-` in the name, a `!` in the extension, and with both
      bad the name is reported (lines 62-67). */
  lemma RejectedExamples()
    ensures Validate("abc-def", "qz") == InvalidName
    ensures Validate("quiz", "t!") == InvalidExtension
    ensures Validate("abc-def", "t!") == InvalidName
  {
    assert !IsWordChar("abc-def"[3]);
    assert !IsWordChar("t!"[1]);
  }
}
