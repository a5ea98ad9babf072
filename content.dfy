/**
 * The content rewrite of every copied template file (StepTypeCreator.main,
 * lines 182-212): ten `replaceAll` calls in a fixed order. Two set the new
 * extension, two rename `template` / `Template`, and six restore the identifiers
 * of the step type framework that contain `Template` and must keep it.
 */
module Content {
  import opened Wrappers
  import opened JavaString
  import opened Names

  /** The part of the line-182 expression before its unescaped dot. */
  const PathHead := "nodeTemplateFilePath:'node/" + "template/templateTemplate"

  /** Line 182's expression: `PathHead`, then a dot that matches any character
      but a line terminator, then `te'`. */
  function PathPattern(): (p: Pattern)
    ensures |p.text| == 56 && p.dots == {52}
    ensures p.text[..52] == PathHead && p.text[52..] == ".te'"
  {
    Pattern(PathHead + ".te'", {|PathHead|})
  }

  /** Lines 182-183: the file path and the extension of the template step type. */
  function ReplaceExtensions(text: string, ns: NameSet): string {
    var s := ReplaceAll(text, PathPattern(), PathHead + "." + ns.ext + "'");
    ReplaceAll(s, Literal("nodeExtension:'te'"), "nodeExtension:'" + ns.ext + "'")
  }

  /** One `replaceAll` whose expression is a plain literal. */
  datatype Replacement = Replacement(target: string, substitute: string)

  /** The replacements of `rs` one after the other, each on the result of the last. */
  function ReplaceEach(text: string, rs: seq<Replacement>): string
    decreases |rs|
  {
    if rs == [] then text
    else ReplaceEach(ReplaceAll(text, Literal(rs[0].target), rs[0].substitute), rs[1..])
  }

  /** Lines 186 and 189: every `template` and then every `Template`. */
  function Renamings(ns: NameSet): seq<Replacement> {
    [Replacement("template", ns.lowerFirst), Replacement("Template", ns.upperFirst)]
  }

  /** Lines 196-212: the six identifiers that the renaming must not change, put
      back (the first one, `templateTemplate`, was renamed to lower-first plus
      upper-first). */
  function Restorations(ns: NameSet): seq<Replacement> {
    var upper := ns.upperFirst;
    [ Replacement(ns.lowerFirst + upper, ns.lowerFirst + "Template"),
      Replacement("node" + upper + "Params", "nodeTemplateParams"),
      Replacement("addNode" + upper + "Params", "addNodeTemplateParams"),
      Replacement("node" + upper + "FilePath", "nodeTemplateFilePath"),
      Replacement("getHTMLContent" + upper, "getHTMLContentTemplate"),
      Replacement("excelExportString" + upper, "excelExportStringTemplate") ]
  }

  function RenameTokens(text: string, ns: NameSet): string {
    ReplaceEach(text, Renamings(ns))
  }

  function RestoreIdentifiers(text: string, ns: NameSet): string {
    ReplaceEach(text, Restorations(ns))
  }

  /** Lines 182-212: the whole pipeline, in the source's order. */
  function Rewrite(text: string, ns: NameSet): string {
    RestoreIdentifiers(RenameTokens(ReplaceExtensions(text, ns), ns), ns)
  }

  // ---------------------------------------------------------------------------
  // The rewrite works piece by piece

  /** The characters the literal parts of the ten expressions are made of, for
      every accepted name and extension. */
  predicate InPatternAlphabet(t: string) {
    forall i | 0 <= i < |t| :: IsWordChar(t[i]) || t[i] == ':' || t[i] == '\'' || t[i] == '/'
  }

  /** A character that no literal part of any expression contains: a space, a
      line break, a `.`, a `"`, a `,` or a bracket, for instance. */
  predicate IsSeparator(c: char) {
    !IsWordChar(c) && c != ':' && c != '\'' && c != '/'
  }

  lemma AlphabetConcat(x: string, y: string)
    requires InPatternAlphabet(x) && InPatternAlphabet(y)
    ensures InPatternAlphabet(x + y)
  {
    forall i | 0 <= i < |x + y|
      ensures IsWordChar((x + y)[i]) || (x + y)[i] == ':' || (x + y)[i] == '\'' || (x + y)[i] == '/'
    {
      if i < |x| { assert (x + y)[i] == x[i]; } else { assert (x + y)[i] == y[i - |x|]; }
    }
  }

  /** `replaceAll` of a literal works on each side of a character the literal lacks. */
  lemma SplitAtAbsentChar(a: string, c: char, b: string, t: string, r: string)
    requires 0 < |t| && c !in t
    ensures ReplaceAll(a + [c] + b, Literal(t), r) == ReplaceAll(a, Literal(t), r) + [c] + ReplaceAll(b, Literal(t), r)
  {
    forall k | 0 <= k < |t| ensures !AtomMatches(Literal(t), k, c) {
      assert t[k] in t;
    }
    NoMatchAcrossUnmatchedChar(a, c, b, Literal(t));
    ReplaceAllSplit(a, c, b, Literal(t), r);
  }

  lemma PathHeadAlphabet()
    ensures InPatternAlphabet(PathHead)
  {
    var h1 := "nodeTemplateFilePath:'node/";
    var h2 := "template/templateTemplate";
    assert InPatternAlphabet(h1);
    assert InPatternAlphabet(h2);
    AlphabetConcat(h1, h2);
  }

  /** No match of the line-182 expression covers a separator, unless the separator
      stands where the dot is and `te'` follows it. */
  lemma PathPatternAcross(a: string, c: char, b: string)
    requires IsSeparator(c) && (IsLineTerminator(c) || !StartsWith(b, "te'"))
    ensures NoMatchAcross(a, c, b, PathPattern())
  {
    var p := PathPattern();
    var s := a + [c] + b;
    PathHeadAlphabet();
    forall i | 0 <= i <= |a| && |a| < i + |p.text| ensures !MatchesPrefix(p, s[i..]) {
      if |p.text| <= |s| - i {
        var o := |a| - i;
        assert s[i..][o] == c;
        if o < 52 {
          assert p.text[o] == PathHead[o];
          assert !AtomMatches(p, o, s[i..][o]);
        } else if o > 52 {
          assert p.text[o] in ".te'";
          assert !AtomMatches(p, o, s[i..][o]);
        } else if IsLineTerminator(c) {
          assert !AtomMatches(p, o, s[i..][o]);
        } else {
          assert |b| >= 3;
          assert b[..3] != "te'";
          var j :| 0 <= j < 3 && b[j] != "te'"[j];
          assert s[i..][53 + j] == b[j];
          assert p.text[53 + j] == "te'"[j];
          assert !AtomMatches(p, 53 + j, s[i..][53 + j]);
        }
      }
    }
  }

  lemma ReplaceExtensionsSplit(a: string, c: char, b: string, ns: NameSet)
    requires IsSeparator(c) && (IsLineTerminator(c) || !StartsWith(b, "te'"))
    ensures ReplaceExtensions(a + [c] + b, ns) == ReplaceExtensions(a, ns) + [c] + ReplaceExtensions(b, ns)
  {
    var r1 := PathHead + "." + ns.ext + "'";
    PathPatternAcross(a, c, b);
    ReplaceAllSplit(a, c, b, PathPattern(), r1);
    SplitAtAbsentChar(ReplaceAll(a, PathPattern(), r1), c, ReplaceAll(b, PathPattern(), r1),
      "nodeExtension:'te'", "nodeExtension:'" + ns.ext + "'");
  }

  /** A character absent from every target of `rs` separates independent pieces. */
  lemma {:induction false} ReplaceEachSplit(a: string, c: char, b: string, rs: seq<Replacement>)
    requires forall k | 0 <= k < |rs| :: 0 < |rs[k].target| && c !in rs[k].target
    ensures ReplaceEach(a + [c] + b, rs) == ReplaceEach(a, rs) + [c] + ReplaceEach(b, rs)
    decreases |rs|
  {
    if rs != [] {
      var t, r := rs[0].target, rs[0].substitute;
      SplitAtAbsentChar(a, c, b, t, r);
      ReplaceEachSplit(ReplaceAll(a, Literal(t), r), c, ReplaceAll(b, Literal(t), r), rs[1..]);
    }
  }

  /** The renaming works on each side of any character outside `[a-zA-Z_0-9]`. */
  lemma RenameTokensSplit(a: string, c: char, b: string, ns: NameSet)
    requires !IsWordChar(c)
    ensures RenameTokens(a + [c] + b, ns) == RenameTokens(a, ns) + [c] + RenameTokens(b, ns)
  {
    ReplaceEachSplit(a, c, b, Renamings(ns));
  }

  /** For accepted names, every target of the restorations is made of word characters. */
  lemma RestorationTargetsAreWords(ns: NameSet)
    requires ValidNameSet(ns)
    ensures forall k | 0 <= k < |Restorations(ns)| :: 0 < |Restorations(ns)[k].target| && IsWord(Restorations(ns)[k].target)
  {
    var u := ns.upperFirst;
    WordConcat(ns.lowerFirst, u);
    WordConcat("node", u);
    WordConcat("node" + u, "Params");
    WordConcat("addNode", u);
    WordConcat("addNode" + u, "Params");
    WordConcat("node" + u, "FilePath");
    WordConcat("getHTMLContent", u);
    WordConcat("excelExportString", u);
  }

  /** So do the restorations, for accepted names. */
  lemma RestoreIdentifiersSplit(a: string, c: char, b: string, ns: NameSet)
    requires !IsWordChar(c) && ValidNameSet(ns)
    ensures RestoreIdentifiers(a + [c] + b, ns) == RestoreIdentifiers(a, ns) + [c] + RestoreIdentifiers(b, ns)
  {
    var rs := Restorations(ns);
    RestorationTargetsAreWords(ns);
    forall k | 0 <= k < |rs| ensures 0 < |rs[k].target| && c !in rs[k].target {
      NonWordNotIn(c, rs[k].target);
    }
    ReplaceEachSplit(a, c, b, rs);
  }

  /** The rewrite treats the text on either side of a separator independently:
      no replacement reaches across one. The dot of line 182 is the one place
      where a separator can be part of a match, so the separator must not be
      followed by `te'` unless it is a line terminator. */
  lemma RewriteSplit(a: string, c: char, b: string, ns: NameSet)
    requires ValidNameSet(ns) && IsSeparator(c)
    requires IsLineTerminator(c) || !StartsWith(b, "te'")
    ensures Rewrite(a + [c] + b, ns) == Rewrite(a, ns) + [c] + Rewrite(b, ns)
  {
    ReplaceExtensionsSplit(a, c, b, ns);
    assert !IsWordChar(c);
    RenameTokensSplit(ReplaceExtensions(a, ns), c, ReplaceExtensions(b, ns), ns);
    RestoreIdentifiersSplit(RenameTokens(ReplaceExtensions(a, ns), ns), c,
      RenameTokens(ReplaceExtensions(b, ns), ns), ns);
  }

  /** In particular the rewrite works line by line. */
  lemma RewriteLines(a: string, b: string, ns: NameSet)
    requires ValidNameSet(ns)
    ensures Rewrite(a + "\n" + b, ns) == Rewrite(a, ns) + "\n" + Rewrite(b, ns)
  {
    RewriteSplit(a, '\n', b, ns);
    assert a + "\n" + b == a + ['\n'] + b;
  }
}
