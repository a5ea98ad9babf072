/**
 * The destination file name of a template entry (StepTypeCreator.main, lines
 * 139-160): keep the part after the last `/`, turn every `.te` into `.` plus
 * the extension, replace the first `template` with the lower-first name, and
 * then the first `Template` with the upper-first name unless the name from the
 * extension step contains `templateTemplate`.
 */
module FileNames {
  import opened Wrappers
  import opened JavaString
  import opened Names

  /** `zipEntryName.substring(zipEntryName.lastIndexOf("/") + 1)`. */
  function BaseName(path: string): (b: string)
    ensures '/' !in b
    ensures |b| <= |path| && path[|path| - |b|..] == b
    ensures |b| < |path| ==> path[|path| - |b| - 1] == '/'
  {
    path[LastIndexOfChar(path, '/') + 1..]
  }

  /** The compound whose presence switches the upper-case rename off. */
  const Compound := "templateTemplate"

  /** Line 142, `replaceAll("\\.te", "." + ext)`: the escaped dot is a literal. */
  function WithExtension(base: string, ns: NameSet): string {
    ReplaceAll(base, Literal(".te"), "." + ns.ext)
  }

  /** Lines 139-160. */
  function FileName(path: string, ns: NameSet): string {
    var named := WithExtension(BaseName(path), ns);
    var renamed := ReplaceFirst(named, Literal("template"), ns.lowerFirst);
    if !Contains(named, Compound) then ReplaceFirst(renamed, Literal("Template"), ns.upperFirst)
    else renamed
  }

  // ---------------------------------------------------------------------------

  /** A search for a string that does not occur finds nothing. */
  lemma NotContainsNoMatch(s: string, t: string)
    requires !Contains(s, t)
    ensures FirstMatch(s, Literal(t)) == None
  {
  }

  /** The search at the front of `t + y` for `t` succeeds at once. */
  lemma LiteralAtFront(t: string, y: string)
    ensures FirstMatch(t + y, Literal(t)) == Some(0)
  {
    LiteralMatchesIff(t, t + y);
    assert (t + y)[..|t|] == t;
    assert (t + y)[0..] == t + y;
    FirstMatchAt(t + y, Literal(t), 0);
  }

  /** An occurrence of `t + u` is also an occurrence of `t`. */
  lemma ContainsPrefixOfNeedle(s: string, t: string, u: string)
    ensures Contains(s, t + u) ==> Contains(s, t)
  {
    if Contains(s, t + u) {
      ContainsPrefixOfNeedleAt(s, t, u);
    }
  }

  lemma ContainsPrefixOfNeedleAt(s: string, t: string, u: string)
    requires Contains(s, t + u)
    ensures Contains(s, t)
  {
    ContainsIff(s, t + u);
    var i :| OccursAt(s, t + u, i);
    assert s[i..i + |t|] == (t + u)[..|t|] == t;
    assert OccursAt(s, t, i);
    ContainsIff(s, t);
  }

  /** The last occurrence of `c` in `x + [c] + y` is the one after `x` when `y` lacks `c`. */
  lemma {:induction false} LastIndexOfCharAfter(x: string, c: char, y: string)
    requires c !in y
    ensures LastIndexOfChar(x + [c] + y, c) == |x|
    decreases |y|
  {
    if y != [] {
      var y' := y[..|y| - 1];
      assert (x + [c] + y)[..|x + [c] + y| - 1] == x + [c] + y';
      LastIndexOfCharAfter(x, c, y');
    }
  }

  /** Only the last path segment matters: sub-directories of the template folder
      flatten into the one destination folder. */
  lemma FileNameOfLastSegment(dir: string, base: string, ns: NameSet)
    requires '/' !in base
    ensures BaseName(dir + "/" + base) == base
    ensures FileName(dir + "/" + base, ns) == FileName(base, ns)
  {
    var path := dir + "/" + base;
    LastIndexOfCharAfter(dir, '/', base);
    assert path[|dir| + 1..] == base;
    assert LastIndexOfChar(base, '/') == -1;
  }

  /** `FileName` from the results of its stages. */
  lemma FileNameByStages(base: string, ns: NameSet, named: string, renamed: string, result: string)
    requires '/' !in base && WithExtension(base, ns) == named
    requires ReplaceFirst(named, Literal("template"), ns.lowerFirst) == renamed
    requires !Contains(named, Compound) ==> ReplaceFirst(renamed, Literal("Template"), ns.upperFirst) == result
    requires Contains(named, Compound) ==> renamed == result
    ensures FileName(base, ns) == result
  {
    assert LastIndexOfChar(base, '/') == -1;
    assert BaseName(base) == base;
  }

  /** `FileName` from its stages, for a name without `/` whose extension step changes nothing. */
  lemma FileNameFromStages(base: string, ns: NameSet, renamed: string, result: string)
    requires '/' !in base && !Contains(base, ".te")
    requires ReplaceFirst(base, Literal("template"), ns.lowerFirst) == renamed
    requires !Contains(base, Compound) ==> ReplaceFirst(renamed, Literal("Template"), ns.upperFirst) == result
    requires Contains(base, Compound) ==> renamed == result
    ensures FileName(base, ns) == result
  {
    NotContainsNoMatch(base, ".te");
    ReplaceAllNoMatch(base, Literal(".te"), "." + ns.ext);
    FileNameByStages(base, ns, base, renamed, result);
  }

  /** `replaceFirst` of a string that does not occur changes nothing. */
  lemma ReplaceFirstAbsent(s: string, t: string, r: string)
    requires !Contains(s, t)
    ensures ReplaceFirst(s, Literal(t), r) == s
  {
    NotContainsNoMatch(s, t);
  }

  /** `replaceFirst` of a string at the front. */
  lemma ReplaceFirstAtFront(t: string, y: string, r: string)
    ensures ReplaceFirst(t + y, Literal(t), r) == r + y
  {
    LiteralAtFront(t, y);
    assert (t + y)[..0] == [] && (t + y)[|t|..] == y;
  }

  /** A text without `template` has no compound either. */
  lemma NoCompoundWithoutLower(s: string)
    requires !Contains(s, "template")
    ensures !Contains(s, Compound)
  {
    ContainsPrefixOfNeedle(s, "template", "Template");
    assert "template" + "Template" == Compound;
  }

  /** A name with no `.te`, `template` or `Template` is kept as it is (e.g. `setup.js`). */
  lemma FileNameUnchanged(base: string, ns: NameSet)
    requires '/' !in base
    requires !Contains(base, ".te") && !Contains(base, "template") && !Contains(base, "Template")
    ensures FileName(base, ns) == base
  {
    ReplaceFirstAbsent(base, "template", ns.lowerFirst);
    ReplaceFirstAbsent(base, "Template", ns.upperFirst);
    NoCompoundWithoutLower(base);
    FileNameFromStages(base, ns, base, base);
  }

  /** `Template<rest>` becomes `<Upper><rest>` (`TemplateNode.js` gives `QuizNode.js`). */
  lemma FileNameUpperPrefix(rest: string, ns: NameSet)
    requires '/' !in rest
    requires !Contains("Template" + rest, ".te") && !Contains("Template" + rest, "template")
    ensures FileName("Template" + rest, ns) == ns.upperFirst + rest
  {
    var base := "Template" + rest;
    assert '/' !in base;
    ReplaceFirstAbsent(base, "template", ns.lowerFirst);
    NoCompoundWithoutLower(base);
    ReplaceFirstAtFront("Template", rest, ns.upperFirst);
    FileNameFromStages(base, ns, base, ns.upperFirst + rest);
  }

  /** `template<rest>` becomes `<lower><rest>` (`template.html` gives `quiz.html`),
      unless the upper-case rename then finds a `Template` in the result. */
  lemma FileNameLowerPrefix(rest: string, ns: NameSet)
    requires '/' !in rest
    requires !Contains("template" + rest, ".te") && !Contains("template" + rest, Compound)
    requires !Contains(ns.lowerFirst + rest, "Template")
    ensures FileName("template" + rest, ns) == ns.lowerFirst + rest
  {
    var base := "template" + rest;
    assert '/' !in base;
    ReplaceFirstAtFront("template", rest, ns.lowerFirst);
    ReplaceFirstAbsent(ns.lowerFirst + rest, "Template", ns.upperFirst);
    FileNameFromStages(base, ns, ns.lowerFirst + rest, ns.lowerFirst + rest);
  }

  /** The extension step on the compound file: its only `.te` is the suffix. */
  lemma CompoundWithExtension(base: string, ns: NameSet)
    requires base == Compound + ".te"
    ensures WithExtension(base, ns) == Compound + "." + ns.ext
  {
    assert base == Compound + ".te" + "";
    NoMatchBeforeByFirstChar(base, Literal(".te"), 16);
    ReplaceAllLiteralAt("templateTemplate", ".te", "", "." + ns.ext);
  }

  /** Two spellings of the compound file's name after the extension step. */
  lemma CompoundSplit(ext: string)
    ensures Compound + "." + ext == "template" + ("Template." + ext)
    ensures Compound + "." + ext == "" + Compound + ("." + ext)
  {
  }

  /** The compound file `templateTemplate.te` keeps its `Template`: it becomes
      `<lower>Template.<ext>` for every name set. */
  lemma FileNameCompound(base: string, ns: NameSet)
    requires base == Compound + ".te"
    ensures FileName(base, ns) == ns.lowerFirst + ("Template." + ns.ext)
  {
    CompoundWithExtension(base, ns);
    CompoundSplit(ns.ext);
    ContainsMiddle("", Compound, "." + ns.ext);
    ReplaceFirstAtFront("template", "Template." + ns.ext, ns.lowerFirst);
    var result := ns.lowerFirst + ("Template." + ns.ext);
    FileNameByStages(base, ns, Compound + "." + ns.ext, result, result);
  }

  // Examples with the name `quiz` and the extension `qz`: the template folder's own files.
  lemma QuizHtmlFileName(base: string, ns: NameSet)
    requires base == "template.html" && ns == Quiz()
    ensures FileName(base, ns) == "quiz.html"
  {
    var rest := HtmlSplit(base);
    HtmlRenamed(ns.lowerFirst + rest);
    FileNameLowerPrefix(rest, ns);
  }

  lemma HtmlSplit(base: string) returns (rest: string)
    requires base == "template.html"
    ensures base == "template" + rest && rest == ".html" && '/' !in rest
    ensures !Contains(base, ".te") && !Contains(base, Compound)
  {
    rest := base[8..];
    NoMatchBeforeByTwoChars(base, Literal(".te"), |base|);
  }

  lemma HtmlRenamed(s: string)
    requires s == "quiz.html"
    ensures !Contains(s, "Template")
  {
    NoMatchMissingChar(s, Literal("Template"), 0);
  }

  lemma QuizNodeFileName(base: string, ns: NameSet)
    requires base == "TemplateNode.js" && ns == Quiz()
    ensures FileName(base, ns) == "QuizNode.js"
  {
    var rest := NodeSplit(base);
    NodeWithoutExtension(base);
    NodeWithoutLower(base);
    FileNameUpperPrefix(rest, ns);
    QuizNodeName(rest, ns);
  }

  lemma NodeSplit(base: string) returns (rest: string)
    requires base == "TemplateNode.js"
    ensures base == "Template" + rest && rest == "Node.js" && '/' !in rest
  {
    rest := base[8..];
  }

  lemma NodeWithoutExtension(base: string)
    requires base == "TemplateNode.js"
    ensures !Contains(base, ".te")
  {
    NoMatchBeforeByTwoChars(base, Literal(".te"), |base|);
  }

  lemma NodeWithoutLower(base: string)
    requires base == "TemplateNode.js"
    ensures !Contains(base, "template")
  {
    NoMatchBeforeByThreeChars(base, Literal("template"), |base|);
  }

  lemma QuizNodeName(rest: string, ns: NameSet)
    requires rest == "Node.js" && ns == Quiz()
    ensures ns.upperFirst + rest == "QuizNode.js"
  {
  }

  lemma QuizCompoundFileName(base: string, ns: NameSet)
    requires base == "templateTemplate.te" && ns == Quiz()
    ensures FileName(base, ns) == "quizTemplate.qz"
  {
    FileNameCompound(base, ns);
    QuizCompoundName(ns);
  }

  lemma QuizCompoundName(ns: NameSet)
    requires ns == Quiz()
    ensures ns.lowerFirst + ("Template." + ns.ext) == "quizTemplate.qz"
  {
  }

  lemma QuizSetupFileName(base: string, ns: NameSet)
    requires base == "setup.js" && ns == Quiz()
    ensures FileName(base, ns) == "setup.js"
  {
    SetupWithoutExtension(base);
    SetupWithoutLower(base);
    SetupWithoutUpper(base);
    FileNameUnchanged(base, ns);
  }

  lemma SetupWithoutExtension(base: string)
    requires base == "setup.js"
    ensures !Contains(base, ".te")
  {
    NoMatchBeforeByTwoChars(base, Literal(".te"), |base|);
  }

  lemma SetupWithoutLower(base: string)
    requires base == "setup.js"
    ensures !Contains(base, "template")
  {
    NoMatchMissingChar(base, Literal("template"), 2);
  }

  lemma SetupWithoutUpper(base: string)
    requires base == "setup.js"
    ensures !Contains(base, "Template")
  {
    NoMatchMissingChar(base, Literal("Template"), 0);
  }
}
