/**
 * The content rewrite on the identifiers and the path line of the template
 * step type, for the name `quiz` and the extension `qz`
 * (StepTypeCreator.main, lines 182-212, applied to src/template/setup.js).
 */
module ContentExamples {
  import opened Wrappers
  import opened JavaString
  import opened Names
  import opened Content

  // ---------------------------------------------------------------------------
  // One replacement at a time

  /** A literal with a character the text lacks changes nothing. */
  lemma KeepsByChar(s: string, t: string, r: string, k: nat)
    requires k < |t| && t[k] !in s
    ensures ReplaceAll(s, Literal(t), r) == s
  {
    NoMatchMissingChar(s, Literal(t), k);
    ReplaceAllNoMatch(s, Literal(t), r);
  }

  /** A literal whose first three characters never occur together changes nothing. */
  lemma KeepsByThree(s: string, t: string, r: string)
    requires 2 < |t|
    requires forall i | 0 <= i && i + 2 < |s| :: !(s[i] == t[0] && s[i + 1] == t[1] && s[i + 2] == t[2])
    ensures ReplaceAll(s, Literal(t), r) == s
  {
    NoMatchBeforeByThreeChars(s, Literal(t), |s|);
    assert FirstMatch(s, Literal(t)) == None;
    ReplaceAllNoMatch(s, Literal(t), r);
  }

  /** A text that is exactly the literal becomes the replacement. */
  lemma ReplacesWhole(t: string, r: string)
    requires 0 < |t|
    ensures ReplaceAll(t, Literal(t), r) == r
  {
    LiteralMatchesIff(t, t);
    assert t[|t|..] == [];
  }

  /** One occurrence of `t` between `x` and `y`: `x` holds no two-character start of `t`
      and `y` lacks one of its characters. */
  lemma ReplacesOnce(x: string, t: string, y: string, r: string, k: nat)
    requires 1 < |t| && k < |t| && t[k] !in y
    requires forall i | 0 <= i < |x| :: !(x[i] == t[0] && (x + [t[0]])[i + 1] == t[1])
    ensures ReplaceAll(x + t + y, Literal(t), r) == x + r + y
  {
    var s := x + t + y;
    forall i | 0 <= i < |x| && i + 1 < |s| ensures !(s[i] == t[0] && s[i + 1] == t[1]) {
      assert s[i] == x[i];
      assert s[i + 1] == (x + [t[0]])[i + 1];
    }
    NoMatchBeforeByTwoChars(s, Literal(t), |x|);
    ReplaceAllLiteralAt(x, t, y, r);
    KeepsByChar(y, t, r, k);
  }

  /** A text that starts with the literal: the start is replaced and the search
      goes on after it. */
  lemma ReplacesPrefix(t: string, y: string, r: string)
    requires 0 < |t|
    ensures ReplaceAll(t + y, Literal(t), r) == r + ReplaceAll(y, Literal(t), r)
  {
    LiteralMatchesIff(t, t + y);
    assert (t + y)[..|t|] == t;
    assert (t + y)[|t|..] == y;
  }

  /** `t` at the front of `t + y`, when `y` lacks one of the characters of `t`. */
  lemma ReplacesAtStart(t: string, y: string, r: string, k: nat)
    requires 0 < |t| && k < |t| && t[k] !in y
    ensures ReplaceAll(t + y, Literal(t), r) == r + y
  {
    ReplacesPrefix(t, y, r);
    KeepsByChar(y, t, r, k);
  }

  /** `t` at the front of `t + y`, when `y` never holds the first three characters of `t`. */
  lemma ReplacesAtFront(t: string, y: string, r: string)
    requires 2 < |t|
    requires forall i | 0 <= i && i + 2 < |y| :: !(y[i] == t[0] && y[i + 1] == t[1] && y[i + 2] == t[2])
    ensures ReplaceAll(t + y, Literal(t), r) == r + y
  {
    ReplacesPrefix(t, y, r);
    KeepsByThree(y, t, r);
  }

  // ---------------------------------------------------------------------------
  // The stages from their steps

  /** The extension stage needs a `:` to change anything. */
  lemma ExtensionsKeep(s: string, ns: NameSet)
    requires ':' !in s
    ensures ReplaceExtensions(s, ns) == s
  {
    assert PathPattern().text[20] == ':';
    NoMatchMissingChar(s, PathPattern(), 20);
    ReplaceAllNoMatch(s, PathPattern(), PathHead + "." + ns.ext + "'");
    KeepsByChar(s, "nodeExtension:'te'", "nodeExtension:'" + ns.ext + "'", 13);
  }

  lemma RenamedBySteps(s0: string, ns: NameSet, s1: string, s2: string)
    requires ReplaceAll(s0, Literal("template"), ns.lowerFirst) == s1
    requires ReplaceAll(s1, Literal("Template"), ns.upperFirst) == s2
    ensures RenameTokens(s0, ns) == s2
  {
    var rs := Renamings(ns);
    assert ReplaceEach(s0, rs) == ReplaceEach(s1, rs[1..]);
    assert ReplaceEach(s1, rs[1..]) == ReplaceEach(s2, rs[2..]);
  }

  /** A text with neither `t` nor `T` is not renamed. */
  lemma RenameKeeps(v: string, ns: NameSet)
    requires 't' !in v && 'T' !in v
    ensures RenameTokens(v, ns) == v
  {
    KeepsByChar(v, "template", ns.lowerFirst, 0);
    KeepsByChar(v, "Template", ns.upperFirst, 0);
    RenamedBySteps(v, ns, v, v);
  }

  /** A text with neither `m` nor `T` is not renamed. */
  lemma RenameKeepsWithoutM(v: string, ns: NameSet)
    requires 'm' !in v && 'T' !in v
    ensures RenameTokens(v, ns) == v
  {
    KeepsByChar(v, "template", ns.lowerFirst, 2);
    KeepsByChar(v, "Template", ns.upperFirst, 0);
    RenamedBySteps(v, ns, v, v);
  }

  /** A text without `tem` that holds one `Template`, not preceded by `Te` and not
      followed by another `T`, only has that `Template` renamed. */
  lemma RenamedOnce(w: string, x: string, y: string, ns: NameSet)
    requires w == x + "Template" + y && 'T' !in y
    requires forall i | 0 <= i && i + 2 < |w| :: !(w[i] == 't' && w[i + 1] == 'e' && w[i + 2] == 'm')
    requires forall i | 0 <= i < |x| :: !(x[i] == 'T' && (x + ['T'])[i + 1] == 'e')
    ensures RenameTokens(w, ns) == x + ns.upperFirst + y
  {
    KeepsByThree(w, "template", ns.lowerFirst);
    ReplacesOnce(x, "Template", y, ns.upperFirst, 0);
    RenamedBySteps(w, ns, w, x + ns.upperFirst + y);
  }

  /** Two lists of replacements in a row. */
  lemma {:induction false} ReplaceEachAppend(s: string, a: seq<Replacement>, b: seq<Replacement>)
    ensures ReplaceEach(s, a + b) == ReplaceEach(ReplaceEach(s, a), b)
    decreases |a|
  {
    if a == [] {
      assert a + b == b;
    } else {
      assert (a + b)[0] == a[0];
      assert (a + b)[1..] == a[1..] + b;
      ReplaceEachAppend(ReplaceAll(s, Literal(a[0].target), a[0].substitute), a[1..], b);
    }
  }

  /** Replacements none of which changes `s` leave it as it is. */
  lemma {:induction false} ReplaceEachPrefixKeeps(s: string, rs: seq<Replacement>, j: nat)
    requires j <= |rs|
    requires forall k | 0 <= k < j :: ReplaceAll(s, Literal(rs[k].target), rs[k].substitute) == s
    ensures ReplaceEach(s, rs[..j]) == s
  {
    if j > 0 {
      ReplaceEachPrefixKeeps(s, rs, j - 1);
      assert rs[..j] == rs[..j - 1] + [rs[j - 1]];
      ReplaceEachAppend(s, rs[..j - 1], [rs[j - 1]]);
      assert [rs[j - 1]][1..] == [];
    }
  }

  /** Where the upper-first name starts inside each restoration's target. */
  function UpperOffset(ns: NameSet, j: nat): nat {
    if j == 0 then |ns.lowerFirst| else if j == 1 then 4 else if j == 2 then 7
    else if j == 3 then 4 else if j == 4 then 14 else 17
  }

  /** Every restoration's target contains the upper-first name, so a text without
      its first character is restored to itself from any step on. */
  lemma RestorationsKeep(s: string, ns: NameSet, j: nat)
    requires 0 < |ns.upperFirst| && ns.upperFirst[0] !in s && j <= 6
    ensures ReplaceEach(s, Restorations(ns)[j..]) == s
    decreases 6 - j
  {
    var rs := Restorations(ns);
    if j < 6 {
      assert rs[j].target[UpperOffset(ns, j)] == ns.upperFirst[0];
      KeepsByChar(s, rs[j].target, rs[j].substitute, UpperOffset(ns, j));
      RestorationsKeep(s, ns, j + 1);
      assert rs[j..][1..] == rs[j + 1..];
    }
  }

  /** A text that no restoration changes on its own is not restored at all. */
  lemma RestorationsUnchanged(s: string, ns: NameSet)
    requires ReplaceAll(s, Literal(Restorations(ns)[0].target), Restorations(ns)[0].substitute) == s
    requires ReplaceAll(s, Literal(Restorations(ns)[1].target), Restorations(ns)[1].substitute) == s
    requires ReplaceAll(s, Literal(Restorations(ns)[2].target), Restorations(ns)[2].substitute) == s
    requires ReplaceAll(s, Literal(Restorations(ns)[3].target), Restorations(ns)[3].substitute) == s
    requires ReplaceAll(s, Literal(Restorations(ns)[4].target), Restorations(ns)[4].substitute) == s
    requires ReplaceAll(s, Literal(Restorations(ns)[5].target), Restorations(ns)[5].substitute) == s
    ensures RestoreIdentifiers(s, ns) == s
  {
    var rs := Restorations(ns);
    forall k | 0 <= k < 6 ensures ReplaceAll(s, Literal(rs[k].target), rs[k].substitute) == s {
      if k == 0 {} else if k == 1 {} else if k == 2 {} else if k == 3 {} else if k == 4 {}
    }
    ReplaceEachPrefixKeeps(s, rs, 6);
    assert rs[..6] == rs;
  }

  /** The restorations when only the one at `j` changes the text, into one that
      lacks the first character of the upper-first name. */
  lemma RestoredAt(s: string, w: string, ns: NameSet, j: nat)
    requires j < 6 && 0 < |ns.upperFirst| && ns.upperFirst[0] !in w
    requires forall k | 0 <= k < j ::
      ReplaceAll(s, Literal(Restorations(ns)[k].target), Restorations(ns)[k].substitute) == s
    requires ReplaceAll(s, Literal(Restorations(ns)[j].target), Restorations(ns)[j].substitute) == w
    ensures RestoreIdentifiers(s, ns) == w
  {
    var rs := Restorations(ns);
    ReplaceEachPrefixKeeps(s, rs, j);
    RestorationsKeep(w, ns, j + 1);
    ReplaceEachOneFires(s, w, rs, j);
  }

  /** A list of replacements of which only the one at `j` changes the text, and
      the later ones leave its result alone. */
  lemma ReplaceEachOneFires(s: string, w: string, rs: seq<Replacement>, j: nat)
    requires j < |rs| && ReplaceEach(s, rs[..j]) == s
    requires ReplaceAll(s, Literal(rs[j].target), rs[j].substitute) == w
    requires ReplaceEach(w, rs[j + 1..]) == w
    ensures ReplaceEach(s, rs) == w
  {
    assert rs == rs[..j] + rs[j..];
    ReplaceEachAppend(s, rs[..j], rs[j..]);
    assert rs[j..][0] == rs[j] && rs[j..][1..] == rs[j + 1..];
  }

  /** Position `i` of restoration `k`'s target holds a character absent from `s`,
      so that restoration leaves `s` alone. */
  predicate Lacks(ns: NameSet, k: nat, i: nat, s: string)
    requires k < 6
  {
    i < |Restorations(ns)[k].target| && Restorations(ns)[k].target[i] !in s
  }

  /** The restorations of a text that only restoration `j` changes. */
  lemma RestoredFrom(s: string, w: string, ns: NameSet, j: nat, ks: seq<nat>)
    requires j < 6 && |ks| == j && 0 < |ns.upperFirst| && ns.upperFirst[0] !in w
    requires forall k | 0 <= k < j :: Lacks(ns, k, ks[k], s)
    requires ReplaceAll(s, Literal(Restorations(ns)[j].target), Restorations(ns)[j].substitute) == w
    ensures RestoreIdentifiers(s, ns) == w
  {
    var rs := Restorations(ns);
    forall k | 0 <= k < j ensures ReplaceAll(s, Literal(rs[k].target), rs[k].substitute) == s {
      assert Lacks(ns, k, ks[k], s);
      KeepsByChar(s, rs[k].target, rs[k].substitute, ks[k]);
    }
    RestoredAt(s, w, ns, j);
  }

  /** The target of restoration `j` is restored by it alone when every earlier
      target has a character it lacks. */
  lemma RestoredWhole(ns: NameSet, j: nat, ks: seq<nat>)
    requires j < 6 && |ks| == j && 0 < |ns.upperFirst|
    requires forall k | 0 <= k < j :: Lacks(ns, k, ks[k], Restorations(ns)[j].target)
    requires ns.upperFirst[0] !in Restorations(ns)[j].substitute
    ensures RestoreIdentifiers(Restorations(ns)[j].target, ns) == Restorations(ns)[j].substitute
  {
    var rs := Restorations(ns);
    ReplacesWhole(rs[j].target, rs[j].substitute);
    RestoredFrom(rs[j].target, rs[j].substitute, ns, j, ks);
  }

  // ---------------------------------------------------------------------------
  // The identifiers the renaming would break, for `quiz`

  lemma NodeParamsExtensions(w: string, ns: NameSet)
    requires w == "nodeTemplateParams"
    ensures ReplaceExtensions(w, ns) == w
  {
    ExtensionsKeep(w, ns);
  }

  lemma NodeParamsRenamed(w: string, ns: NameSet)
    requires w == "nodeTemplateParams" && ns == Quiz()
    ensures RenameTokens(w, ns) == "node" + ns.upperFirst + "Params"
  {
    RenamedOnce(w, "node", "Params", ns);
  }

  lemma NodeParamsRestored1(ns: NameSet)
    requires ns == Quiz()
    ensures Lacks(ns, 0, 0, Restorations(ns)[1].target)
  {
  }

  lemma NodeParamsRestored2(ns: NameSet)
    requires ns == Quiz()
    ensures ns.upperFirst[0] !in Restorations(ns)[1].substitute
  {
  }

  lemma NodeParamsRestores(ns: NameSet)
    requires ns == Quiz()
    ensures RestoreIdentifiers(Restorations(ns)[1].target, ns) == Restorations(ns)[1].substitute
  {
    NodeParamsRestored1(ns);
    NodeParamsRestored2(ns);
    RestoredWhole(ns, 1, [0]);
  }

  /** `nodeTemplateParams` is renamed and then restored. */
  lemma KeepsNodeParams(w: string, ns: NameSet)
    requires w == "nodeTemplateParams" && ns == Quiz()
    ensures Rewrite(w, ns) == w
  {
    NodeParamsExtensions(w, ns);
    NodeParamsRenamed(w, ns);
    NodeParamsRestores(ns);
  }

  lemma AddNodeParamsExtensions(w: string, ns: NameSet)
    requires w == "addNodeTemplateParams"
    ensures ReplaceExtensions(w, ns) == w
  {
    ExtensionsKeep(w, ns);
  }

  lemma AddNodeParamsRenamed(w: string, ns: NameSet)
    requires w == "addNodeTemplateParams" && ns == Quiz()
    ensures RenameTokens(w, ns) == "addNode" + ns.upperFirst + "Params"
  {
    RenamedOnce(w, "addNode", "Params", ns);
  }

  lemma AddNodeParamsRestores(ns: NameSet)
    requires ns == Quiz()
    ensures RestoreIdentifiers(Restorations(ns)[2].target, ns) == Restorations(ns)[2].substitute
  {
    AddNodeParamsRestored1(ns);
    AddNodeParamsRestored2(ns);
    AddNodeParamsRestored3(ns);
    RestoredWhole(ns, 2, [0, 0]);
  }

  /** `addNodeTemplateParams` is renamed and then restored. */
  lemma KeepsAddNodeParams(w: string, ns: NameSet)
    requires w == "addNodeTemplateParams" && ns == Quiz()
    ensures Rewrite(w, ns) == w
  {
    AddNodeParamsExtensions(w, ns);
    AddNodeParamsRenamed(w, ns);
    AddNodeParamsRestores(ns);
  }

  lemma NodeFilePathExtensions(w: string, ns: NameSet)
    requires w == "nodeTemplateFilePath"
    ensures ReplaceExtensions(w, ns) == w
  {
    ExtensionsKeep(w, ns);
  }

  lemma NodeFilePathRenamed(w: string, ns: NameSet)
    requires w == "nodeTemplateFilePath" && ns == Quiz()
    ensures RenameTokens(w, ns) == "node" + ns.upperFirst + "FilePath"
  {
    RenamedOnce(w, "node", "FilePath", ns);
  }

  lemma AddNodeParamsRestored1(ns: NameSet)
    requires ns == Quiz()
    ensures Lacks(ns, 0, 0, Restorations(ns)[2].target)
  {
  }

  lemma AddNodeParamsRestored2(ns: NameSet)
    requires ns == Quiz()
    ensures Lacks(ns, 1, 0, Restorations(ns)[2].target)
  {
  }

  lemma AddNodeParamsRestored3(ns: NameSet)
    requires ns == Quiz()
    ensures ns.upperFirst[0] !in Restorations(ns)[2].substitute
  {
  }

  lemma NodeFilePathRestores(ns: NameSet)
    requires ns == Quiz()
    ensures RestoreIdentifiers(Restorations(ns)[3].target, ns) == Restorations(ns)[3].substitute
  {
    NodeFilePathRestored1(ns);
    NodeFilePathRestored2(ns);
    NodeFilePathRestored3(ns);
    NodeFilePathRestored4(ns);
    RestoredWhole(ns, 3, [0, 10, 3]);
  }

  /** `nodeTemplateFilePath` is renamed and then restored. */
  lemma KeepsNodeFilePath(w: string, ns: NameSet)
    requires w == "nodeTemplateFilePath" && ns == Quiz()
    ensures Rewrite(w, ns) == w
  {
    NodeFilePathExtensions(w, ns);
    NodeFilePathRenamed(w, ns);
    NodeFilePathRestores(ns);
  }

  lemma HtmlContentExtensions(w: string, ns: NameSet)
    requires w == "getHTMLContentTemplate"
    ensures ReplaceExtensions(w, ns) == w
  {
    ExtensionsKeep(w, ns);
  }

  lemma HtmlContentRenamed(w: string, ns: NameSet)
    requires w == "getHTMLContentTemplate" && ns == Quiz()
    ensures RenameTokens(w, ns) == "getHTMLContent" + ns.upperFirst
  {
    RenamedOnce(w, "getHTMLContent", "", ns);
  }

  lemma NodeFilePathRestored1(ns: NameSet)
    requires ns == Quiz()
    ensures Lacks(ns, 0, 0, Restorations(ns)[3].target)
  {
  }

  lemma NodeFilePathRestored2(ns: NameSet)
    requires ns == Quiz()
    ensures Lacks(ns, 1, 10, Restorations(ns)[3].target)
  {
  }

  lemma NodeFilePathRestored3(ns: NameSet)
    requires ns == Quiz()
    ensures Lacks(ns, 2, 3, Restorations(ns)[3].target)
  {
  }

  lemma NodeFilePathRestored4(ns: NameSet)
    requires ns == Quiz()
    ensures ns.upperFirst[0] !in Restorations(ns)[3].substitute
  {
  }

  lemma HtmlContentRestored1(ns: NameSet)
    requires ns == Quiz()
    ensures Lacks(ns, 0, 0, Restorations(ns)[4].target)
  {
  }

  lemma HtmlContentRestored2(ns: NameSet)
    requires ns == Quiz()
    ensures Lacks(ns, 1, 2, Restorations(ns)[4].target)
  {
  }

  lemma HtmlContentRestored3(ns: NameSet)
    requires ns == Quiz()
    ensures Lacks(ns, 2, 1, Restorations(ns)[4].target)
  {
  }

  lemma HtmlContentRestored4(ns: NameSet)
    requires ns == Quiz()
    ensures Lacks(ns, 3, 2, Restorations(ns)[4].target)
  {
  }

  lemma HtmlContentRestored5(ns: NameSet)
    requires ns == Quiz()
    ensures ns.upperFirst[0] !in Restorations(ns)[4].substitute
  {
  }

  lemma HtmlContentRestores(ns: NameSet)
    requires ns == Quiz()
    ensures RestoreIdentifiers(Restorations(ns)[4].target, ns) == Restorations(ns)[4].substitute
  {
    HtmlContentRestored1(ns);
    HtmlContentRestored2(ns);
    HtmlContentRestored3(ns);
    HtmlContentRestored4(ns);
    HtmlContentRestored5(ns);
    RestoredWhole(ns, 4, [0, 2, 1, 2]);
  }

  /** `getHTMLContentTemplate` is renamed and then restored. */
  lemma KeepsHtmlContent(w: string, ns: NameSet)
    requires w == "getHTMLContentTemplate" && ns == Quiz()
    ensures Rewrite(w, ns) == w
  {
    HtmlContentExtensions(w, ns);
    HtmlContentRenamed(w, ns);
    HtmlContentRestores(ns);
  }

  lemma ExcelExportExtensions(w: string, ns: NameSet)
    requires w == "excelExportStringTemplate"
    ensures ReplaceExtensions(w, ns) == w
  {
    ExtensionsKeep(w, ns);
  }

  lemma ExcelExportRenamed(w: string, ns: NameSet)
    requires w == "excelExportStringTemplate" && ns == Quiz()
    ensures RenameTokens(w, ns) == "excelExportString" + ns.upperFirst
  {
    RenamedOnce(w, "excelExportString", "", ns);
  }

  lemma ExcelExportRestored1(ns: NameSet)
    requires ns == Quiz()
    ensures Lacks(ns, 0, 0, Restorations(ns)[5].target)
  {
  }

  lemma ExcelExportRestored2(ns: NameSet)
    requires ns == Quiz()
    ensures Lacks(ns, 1, 2, Restorations(ns)[5].target)
  {
  }

  lemma ExcelExportRestored3(ns: NameSet)
    requires ns == Quiz()
    ensures Lacks(ns, 2, 1, Restorations(ns)[5].target)
  {
  }

  lemma ExcelExportRestored4(ns: NameSet)
    requires ns == Quiz()
    ensures Lacks(ns, 3, 2, Restorations(ns)[5].target)
  {
  }

  lemma ExcelExportRestored5(ns: NameSet)
    requires ns == Quiz()
    ensures Lacks(ns, 4, 7, Restorations(ns)[5].target)
  {
  }

  lemma ExcelExportRestored6(ns: NameSet)
    requires ns == Quiz()
    ensures ns.upperFirst[0] !in Restorations(ns)[5].substitute
  {
  }

  lemma ExcelExportRestores(ns: NameSet)
    requires ns == Quiz()
    ensures RestoreIdentifiers(Restorations(ns)[5].target, ns) == Restorations(ns)[5].substitute
  {
    ExcelExportRestored1(ns);
    ExcelExportRestored2(ns);
    ExcelExportRestored3(ns);
    ExcelExportRestored4(ns);
    ExcelExportRestored5(ns);
    ExcelExportRestored6(ns);
    RestoredWhole(ns, 5, [0, 2, 1, 2, 7]);
  }

  /** `excelExportStringTemplate` is renamed and then restored. */
  lemma KeepsExcelExport(w: string, ns: NameSet)
    requires w == "excelExportStringTemplate" && ns == Quiz()
    ensures Rewrite(w, ns) == w
  {
    ExcelExportExtensions(w, ns);
    ExcelExportRenamed(w, ns);
    ExcelExportRestores(ns);
  }

  // ---------------------------------------------------------------------------
  // `templateTemplate` becomes lower-first plus `Template`

  lemma CompoundExtensions(w: string, ns: NameSet)
    requires w == "templateTemplate"
    ensures ReplaceExtensions(w, ns) == w
  {
    ExtensionsKeep(w, ns);
  }

  lemma CompoundLowerRenamed(w: string, ns: NameSet)
    requires w == "templateTemplate"
    ensures ReplaceAll(w, Literal("template"), ns.lowerFirst) == ns.lowerFirst + "Template"
  {
    assert w == "template" + "Template";
    ReplacesAtFront("template", "Template", ns.lowerFirst);
  }

  lemma CompoundUpperRenamed(ns: NameSet)
    requires ns == Quiz()
    ensures ReplaceAll(ns.lowerFirst + "Template", Literal("Template"), ns.upperFirst) == Restorations(ns)[0].target
  {
    assert ns.lowerFirst + "Template" == ns.lowerFirst + "Template" + "";
    ReplacesOnce(ns.lowerFirst, "Template", "", ns.upperFirst, 0);
  }

  lemma CompoundRestored(ns: NameSet)
    requires ns == Quiz()
    ensures ns.upperFirst[0] !in Restorations(ns)[0].substitute
  {
  }

  lemma CompoundRenamed(w: string, ns: NameSet)
    requires w == "templateTemplate" && ns == Quiz()
    ensures RenameTokens(w, ns) == Restorations(ns)[0].target
  {
    CompoundLowerRenamed(w, ns);
    CompoundUpperRenamed(ns);
    RenamedBySteps(w, ns, ns.lowerFirst + "Template", Restorations(ns)[0].target);
  }

  lemma CompoundRestores(ns: NameSet)
    requires ns == Quiz()
    ensures RestoreIdentifiers(Restorations(ns)[0].target, ns) == "quizTemplate"
  {
    CompoundRestored(ns);
    RestoredWhole(ns, 0, []);
  }

  /** With `quiz`, `templateTemplate` becomes `quizTemplate`: renamed to `quizQuiz`,
      then partly restored. */
  lemma RewriteCompound(w: string, ns: NameSet)
    requires w == "templateTemplate" && ns == Quiz()
    ensures Rewrite(w, ns) == "quizTemplate"
  {
    CompoundExtensions(w, ns);
    CompoundRenamed(w, ns);
    CompoundRestores(ns);
  }

  // ---------------------------------------------------------------------------
  // The rewrite is not one-to-one

  lemma QuizParamsExtensions(v: string, ns: NameSet)
    requires v == "nodeQuizParams"
    ensures ReplaceExtensions(v, ns) == v
  {
    ExtensionsKeep(v, ns);
  }

  lemma QuizParamsLacksT(v: string)
    requires v == "nodeQuizParams"
    ensures 't' !in v && 'T' !in v
  {
  }

  lemma QuizParamsRenamed(v: string, ns: NameSet)
    requires v == "nodeQuizParams" && ns == Quiz()
    ensures RenameTokens(v, ns) == "node" + ns.upperFirst + "Params"
  {
    QuizParamsLacksT(v);
    RenameKeeps(v, ns);
  }

  /** A text that already held the renamed identifier `nodeQuizParams` comes out as
      `nodeTemplateParams`, just like the original identifier does. */
  lemma RewriteNotInjective(v: string, w: string, ns: NameSet)
    requires v == "nodeQuizParams" && w == "nodeTemplateParams" && ns == Quiz()
    ensures v != w && Rewrite(v, ns) == w && Rewrite(w, ns) == w
  {
    QuizParamsExtensions(v, ns);
    QuizParamsRenamed(v, ns);
    NodeParamsRestores(ns);
    KeepsNodeParams(w, ns);
  }

  // ---------------------------------------------------------------------------
  // Protected identifiers in running text

  /** A text the rewrite maps to itself survives wherever it stands between two
      separators, the second one not followed by `te'` unless it is a line
      terminator. Its third character must be a word character, so that the text and
      what follows it cannot start `te'`. */
  lemma ProtectedSurvives(a: string, c: char, w: string, d: char, b: string, ns: NameSet)
    requires ValidNameSet(ns) && Rewrite(w, ns) == w && 3 <= |w| && IsWordChar(w[2])
    requires IsSeparator(c) && IsSeparator(d)
    requires IsLineTerminator(d) || !StartsWith(b, "te'")
    ensures Rewrite(a + [c] + w + [d] + b, ns) == Rewrite(a, ns) + [c] + w + [d] + Rewrite(b, ns)
  {
    var rest := w + [d] + b;
    NoDotSuffixAfter(w, d, b);
    RewriteSplit(a, c, rest, ns);
    RewriteSplit(w, d, b, ns);
    Associated(a, c, w, d, b);
    Joined(c, w, d, Rewrite(a + [c] + rest, ns), Rewrite(a, ns), Rewrite(rest, ns), Rewrite(b, ns));
  }

  lemma NoDotSuffixAfter(w: string, d: char, b: string)
    requires 3 <= |w| && IsWordChar(w[2])
    ensures !StartsWith(w + [d] + b, "te'")
  {
    assert (w + [d] + b)[..3][2] == w[2];
  }

  lemma Associated(a: string, c: char, w: string, d: char, b: string)
    ensures a + [c] + w + [d] + b == a + [c] + (w + [d] + b)
  {
  }

  lemma Joined(c: char, w: string, d: char, whole: string, left: string, rest: string, right: string)
    requires whole == left + [c] + rest && rest == w + [d] + right
    ensures whole == left + [c] + w + [d] + right
  {
  }

  /** The identifiers the last six replacements exist for (the first one,
      `templateTemplate`, is meant to change). */
  function ProtectedIdentifiers(): set<string> {
    {"nodeTemplateParams", "addNodeTemplateParams", "nodeTemplateFilePath",
     "getHTMLContentTemplate", "excelExportStringTemplate"}
  }

  /** With `quiz` every protected identifier is its own rewrite. */
  lemma QuizKeepsProtected(w: string, ns: NameSet)
    requires w in ProtectedIdentifiers() && ns == Quiz()
    ensures Rewrite(w, ns) == w
  {
    if w == "nodeTemplateParams" {
      KeepsNodeParams(w, ns);
    } else if w == "addNodeTemplateParams" {
      KeepsAddNodeParams(w, ns);
    } else if w == "nodeTemplateFilePath" {
      KeepsNodeFilePath(w, ns);
    } else if w == "getHTMLContentTemplate" {
      KeepsHtmlContent(w, ns);
    } else {
      KeepsExcelExport(w, ns);
    }
  }

  /** Every protected identifier has a word character at index 2. */
  lemma ProtectedThirdChar(w: string)
    requires w in ProtectedIdentifiers()
    ensures 3 <= |w| && IsWordChar(w[2])
  {
    if w == "nodeTemplateParams" {
    } else if w == "addNodeTemplateParams" {
    } else if w == "nodeTemplateFilePath" {
    } else if w == "getHTMLContentTemplate" {
    } else {
    }
  }

  /** With `quiz`, every occurrence of a protected identifier between separators
      survives the rewrite of the whole text. */
  lemma QuizProtectedSurvive(a: string, c: char, w: string, d: char, b: string, ns: NameSet)
    requires w in ProtectedIdentifiers() && ns == Quiz()
    requires IsSeparator(c) && IsSeparator(d)
    requires IsLineTerminator(d) || !StartsWith(b, "te'")
    ensures Rewrite(a + [c] + w + [d] + b, ns) == Rewrite(a, ns) + [c] + w + [d] + Rewrite(b, ns)
  {
    QuizNameSet();
    QuizKeepsProtected(w, ns);
    ProtectedThirdChar(w);
    ProtectedSurvives(a, c, w, d, b, ns);
  }

  // ---------------------------------------------------------------------------
  // A word character against an identifier

  /** A literal two of whose neighbouring characters never occur in a row changes nothing. */
  lemma KeepsByPair(s: string, t: string, r: string, k: nat)
    requires k + 1 < |t|
    requires forall i | 0 <= i && i + 1 < |s| :: !(s[i] == t[k] && s[i + 1] == t[k + 1])
    ensures ReplaceAll(s, Literal(t), r) == s
  {
    forall i | 0 <= i <= |s| ensures !MatchesPrefix(Literal(t), s[i..]) {
      if |t| <= |s| - i {
        assert s[i..][k] == s[i + k] && s[i..][k + 1] == s[i + k + 1];
        assert !(AtomMatches(Literal(t), k, s[i..][k]) && AtomMatches(Literal(t), k + 1, s[i..][k + 1]));
      }
    }
    ReplaceAllNoMatch(s, Literal(t), r);
  }

  lemma TouchingPieces(x: string, y: string)
    requires x == "template" && y == "xcelExportStringTemplate"
    ensures x + y == "templatexcelExportStringTemplate"
  {
  }

  lemma TouchingHasNoTem(y: string)
    requires y == "xcelExportStringTemplate"
    ensures forall i | 0 <= i && i + 2 < |y| :: !(y[i] == 't' && y[i + 1] == 'e' && y[i + 2] == 'm')
  {
  }

  lemma TouchingLowerForm(ns: NameSet)
    requires ns == Quiz()
    ensures ns.lowerFirst + "xcelExportStringTemplate" == "quizxcelExportStringTemplate"
  {
  }

  /** The `template` that ends in the `e` of `excelExportStringTemplate` is renamed
      first, and takes that `e` with it. */
  lemma TouchingLowerRenamed(w: string, ns: NameSet)
    requires w == "templatexcelExportStringTemplate"
    ensures ReplaceAll(w, Literal("template"), ns.lowerFirst) == ns.lowerFirst + "xcelExportStringTemplate"
  {
    TouchingPieces("template", "xcelExportStringTemplate");
    TouchingHasNoTem("xcelExportStringTemplate");
    ReplacesAtFront("template", "xcelExportStringTemplate", ns.lowerFirst);
  }

  lemma TouchingUpperPieces(x: string, y: string)
    requires x == "quizxcelExportString" && y == "Template"
    ensures x + y + "" == "quizxcelExportStringTemplate"
  {
  }

  lemma TouchingHasNoTe(x: string)
    requires x == "quizxcelExportString"
    ensures forall i | 0 <= i < |x| :: !(x[i] == 'T' && (x + ['T'])[i + 1] == 'e')
  {
  }

  lemma TouchingUpperForm(ns: NameSet)
    requires ns == Quiz()
    ensures "quizxcelExportString" + ns.upperFirst + "" == "quizxcelExportStringQuiz"
  {
  }

  lemma TouchingUpperRenamed(v: string, ns: NameSet)
    requires v == "quizxcelExportStringTemplate" && ns == Quiz()
    ensures ReplaceAll(v, Literal("Template"), ns.upperFirst) == "quizxcelExportStringQuiz"
  {
    TouchingUpperPieces("quizxcelExportString", "Template");
    TouchingHasNoTe("quizxcelExportString");
    TouchingUpperForm(ns);
    ReplacesOnce("quizxcelExportString", "Template", "", ns.upperFirst, 0);
  }

  lemma TouchingRenamed(w: string, ns: NameSet)
    requires w == "templatexcelExportStringTemplate" && ns == Quiz()
    ensures RenameTokens(w, ns) == "quizxcelExportStringQuiz"
  {
    TouchingLowerRenamed(w, ns);
    TouchingLowerForm(ns);
    TouchingUpperRenamed("quizxcelExportStringTemplate", ns);
    RenamedBySteps(w, ns, "quizxcelExportStringTemplate", "quizxcelExportStringQuiz");
  }

  lemma TouchingKeeps0(v: string, ns: NameSet)
    requires v == "quizxcelExportStringQuiz" && ns == Quiz()
    ensures ReplaceAll(v, Literal(Restorations(ns)[0].target), Restorations(ns)[0].substitute) == v
  {
    KeepsByPair(v, Restorations(ns)[0].target, Restorations(ns)[0].substitute, 3);
  }

  lemma TouchingKeeps1(v: string, ns: NameSet)
    requires v == "quizxcelExportStringQuiz" && ns == Quiz()
    ensures ReplaceAll(v, Literal(Restorations(ns)[1].target), Restorations(ns)[1].substitute) == v
  {
    KeepsByPair(v, Restorations(ns)[1].target, Restorations(ns)[1].substitute, 0);
  }

  lemma TouchingKeeps2(v: string, ns: NameSet)
    requires v == "quizxcelExportStringQuiz" && ns == Quiz()
    ensures ReplaceAll(v, Literal(Restorations(ns)[2].target), Restorations(ns)[2].substitute) == v
  {
    KeepsByPair(v, Restorations(ns)[2].target, Restorations(ns)[2].substitute, 0);
  }

  lemma TouchingKeeps3(v: string, ns: NameSet)
    requires v == "quizxcelExportStringQuiz" && ns == Quiz()
    ensures ReplaceAll(v, Literal(Restorations(ns)[3].target), Restorations(ns)[3].substitute) == v
  {
    KeepsByPair(v, Restorations(ns)[3].target, Restorations(ns)[3].substitute, 0);
  }

  lemma TouchingKeeps4(v: string, ns: NameSet)
    requires v == "quizxcelExportStringQuiz" && ns == Quiz()
    ensures ReplaceAll(v, Literal(Restorations(ns)[4].target), Restorations(ns)[4].substitute) == v
  {
    KeepsByPair(v, Restorations(ns)[4].target, Restorations(ns)[4].substitute, 0);
  }

  lemma TouchingKeeps5(v: string, ns: NameSet)
    requires v == "quizxcelExportStringQuiz" && ns == Quiz()
    ensures ReplaceAll(v, Literal(Restorations(ns)[5].target), Restorations(ns)[5].substitute) == v
  {
    KeepsByPair(v, Restorations(ns)[5].target, Restorations(ns)[5].substitute, 0);
  }

  /** No restoration finds its target in the broken identifier: `quizQuiz` fails on `zQ`,
      the others on their first two characters. */
  lemma TouchingRestored(v: string, ns: NameSet)
    requires v == "quizxcelExportStringQuiz" && ns == Quiz()
    ensures RestoreIdentifiers(v, ns) == v
  {
    TouchingKeeps0(v, ns);
    TouchingKeeps1(v, ns);
    TouchingKeeps2(v, ns);
    TouchingKeeps3(v, ns);
    TouchingKeeps4(v, ns);
    TouchingKeeps5(v, ns);
    RestorationsUnchanged(v, ns);
  }

  /** A protected identifier with a word character against it does not survive:
      `template` + `xcelExportStringTemplate` loses the `e` of `excel` to the
      renaming of `template`, and no restoration repairs it. */
  lemma RewriteTouchingWord(w: string, ns: NameSet)
    requires w == "templatexcelExportStringTemplate" && ns == Quiz()
    ensures Rewrite(w, ns) == "quizxcelExportStringQuiz"
  {
    ExtensionsKeep(w, ns);
    TouchingRenamed(w, ns);
    TouchingRestored("quizxcelExportStringQuiz", ns);
  }

  // ---------------------------------------------------------------------------
  // The file path of the template step type, as setup.js registers it

  /** A pattern whose dots stand on characters other than line terminators
      matches its own text, which is replaced as a whole. */
  lemma OwnTextReplaced(p: Pattern, r: string)
    requires 0 < |p.text|
    requires forall j | j in p.dots && j < |p.text| :: !IsLineTerminator(p.text[j])
    ensures ReplaceAll(p.text, p, r) == r
  {
    assert MatchesPrefix(p, p.text);
    assert p.text[|p.text|..] == [];
  }

  lemma NoXInPathHead()
    ensures 'x' !in PathHead
  {
    var h1 := "nodeTemplateFilePath:'node/";
    var h2 := "template/templateTemplate";
    assert 'x' !in h1 && 'x' !in h2;
    assert PathHead == h1 + h2;
  }

  /** Line 182 fires on the path with the old extension. */
  lemma PathFirstExtension(ns: NameSet)
    ensures ReplaceAll(PathPattern().text, PathPattern(), PathHead + "." + ns.ext + "'") == PathHead + "." + ns.ext + "'"
  {
    var p := PathPattern();
    assert p.text[52] == p.text[52..][0] == '.';
    OwnTextReplaced(p, PathHead + "." + ns.ext + "'");
  }

  /** Line 183 then leaves the new path alone. */
  lemma PathSecondExtension(s: string, ns: NameSet)
    requires ns == Quiz() && s == PathHead + "." + ns.ext + "'"
    ensures ReplaceAll(s, Literal("nodeExtension:'te'"), "nodeExtension:'" + ns.ext + "'") == s
  {
    NoXInPathHead();
    assert 'x' !in s;
    KeepsByChar(s, "nodeExtension:'te'", "nodeExtension:'" + ns.ext + "'", 5);
  }

  lemma PathExtensions(w: string, ns: NameSet)
    requires w == PathHead + ".te'" && ns == Quiz()
    ensures ReplaceExtensions(w, ns) == PathHead + "." + ns.ext + "'"
  {
    assert w == PathPattern().text;
    PathFirstExtension(ns);
    PathSecondExtension(PathHead + "." + ns.ext + "'", ns);
  }

  /** The path with the new extension, in the three pieces between its slashes. */
  lemma PathPieces(ns: NameSet)
    requires ns == Quiz()
    ensures PathHead + "." + ns.ext + "'"
      == "nodeTemplateFilePath:'node" + ['/'] + ("template" + ['/'] + "templateTemplate.qz'")
  {
  }

  lemma PathHeadRenamed(a: string, ns: NameSet)
    requires a == "nodeTemplateFilePath:'node" && ns == Quiz()
    ensures RenameTokens(a, ns) == "node" + ns.upperFirst + "FilePath:'node"
  {
    var x, y := "nodeTemplateFilePath", "'node";
    PathHeadSplit(a);
    RenameTokensSplit(x, ':', y, ns);
    NodeFilePathRenamed(x, ns);
    RenameKeeps(y, ns);
    PathHeadJoin(ns.upperFirst);
  }

  lemma PathHeadSplit(a: string)
    requires a == "nodeTemplateFilePath:'node"
    ensures a == "nodeTemplateFilePath" + [':'] + "'node"
  {
  }

  lemma PathHeadJoin(u: string)
    ensures ("node" + u + "FilePath") + [':'] + "'node" == "node" + u + "FilePath:'node"
  {
  }

  lemma PathFolderRenamed(b: string, ns: NameSet)
    requires b == "template" && ns == Quiz()
    ensures RenameTokens(b, ns) == ns.lowerFirst
  {
    ReplacesWhole(b, ns.lowerFirst);
    KeepsByChar(ns.lowerFirst, "Template", ns.upperFirst, 0);
    RenamedBySteps(b, ns, ns.lowerFirst, ns.lowerFirst);
  }

  lemma PathFileLowerRenamed(c: string, ns: NameSet)
    requires c == "templateTemplate.qz'"
    ensures ReplaceAll(c, Literal("template"), ns.lowerFirst) == ns.lowerFirst + "Template.qz'"
  {
    assert c == "template" + "Template.qz'";
    ReplacesAtFront("template", "Template.qz'", ns.lowerFirst);
  }

  lemma PathFileUpperRenamed(ns: NameSet)
    requires ns == Quiz()
    ensures ReplaceAll(ns.lowerFirst + "Template.qz'", Literal("Template"), ns.upperFirst)
      == ns.lowerFirst + ns.upperFirst + ".qz'"
  {
    assert ns.lowerFirst + "Template.qz'" == ns.lowerFirst + "Template" + ".qz'";
    ReplacesOnce(ns.lowerFirst, "Template", ".qz'", ns.upperFirst, 0);
  }

  lemma PathFileRenamed(c: string, ns: NameSet)
    requires c == "templateTemplate.qz'" && ns == Quiz()
    ensures RenameTokens(c, ns) == ns.lowerFirst + ns.upperFirst + ".qz'"
  {
    PathFileLowerRenamed(c, ns);
    PathFileUpperRenamed(ns);
    RenamedBySteps(c, ns, ns.lowerFirst + "Template.qz'", ns.lowerFirst + ns.upperFirst + ".qz'");
  }

  /** Renaming works piece by piece; only the folder and the file name change. */
  lemma PathRenamed(ns: NameSet)
    requires ns == Quiz()
    ensures RenameTokens(PathHead + "." + ns.ext + "'", ns)
      == ("node" + ns.upperFirst + "FilePath:'node") + ['/'] + (ns.lowerFirst + ['/'] + (ns.lowerFirst + ns.upperFirst + ".qz'"))
  {
    var a, b, c := "nodeTemplateFilePath:'node", "template", "templateTemplate.qz'";
    PathPieces(ns);
    RenameTokensSplit(a, '/', b + ['/'] + c, ns);
    RenameTokensSplit(b, '/', c, ns);
    PathHeadRenamed(a, ns);
    PathFolderRenamed(b, ns);
    PathFileRenamed(c, ns);
  }

  lemma PathHeadLacks1(ns: NameSet)
    requires ns == Quiz()
    ensures Lacks(ns, 0, 0, "node" + ns.upperFirst + "FilePath:'node")
  {
  }

  lemma PathHeadLacks2(ns: NameSet)
    requires ns == Quiz()
    ensures Lacks(ns, 1, 10, "node" + ns.upperFirst + "FilePath:'node")
  {
  }

  lemma PathHeadLacks3(ns: NameSet)
    requires ns == Quiz()
    ensures Lacks(ns, 2, 3, "node" + ns.upperFirst + "FilePath:'node")
  {
  }

  lemma PathHeadFires(ns: NameSet)
    requires ns == Quiz()
    ensures ReplaceAll(Restorations(ns)[3].target + ":'node", Literal(Restorations(ns)[3].target),
      Restorations(ns)[3].substitute) == Restorations(ns)[3].substitute + ":'node"
  {
    ReplacesAtStart(Restorations(ns)[3].target, ":'node", Restorations(ns)[3].substitute, 4);
  }

  lemma PathHeadForm(ns: NameSet)
    requires ns == Quiz()
    ensures "node" + ns.upperFirst + "FilePath:'node" == Restorations(ns)[3].target + ":'node"
    ensures Restorations(ns)[3].substitute + ":'node" == "nodeTemplateFilePath:'node"
  {
  }

  lemma PathHeadUnrenamed(ns: NameSet)
    requires ns == Quiz()
    ensures ns.upperFirst[0] !in "nodeTemplateFilePath:'node"
  {
  }

  lemma PathHeadRestored(ns: NameSet)
    requires ns == Quiz()
    ensures RestoreIdentifiers("node" + ns.upperFirst + "FilePath:'node", ns) == "nodeTemplateFilePath:'node"
  {
    PathHeadLacks1(ns);
    PathHeadLacks2(ns);
    PathHeadLacks3(ns);
    PathHeadFires(ns);
    PathHeadForm(ns);
    PathHeadUnrenamed(ns);
    RestoredFrom("node" + ns.upperFirst + "FilePath:'node", "nodeTemplateFilePath:'node", ns, 3, [0, 10, 3]);
  }

  lemma PathFolderRestored(ns: NameSet)
    requires ns == Quiz()
    ensures RestoreIdentifiers(ns.lowerFirst, ns) == ns.lowerFirst
  {
    RestorationsKeep(ns.lowerFirst, ns, 0);
    assert Restorations(ns)[0..] == Restorations(ns);
  }

  lemma PathFileFires(ns: NameSet)
    requires ns == Quiz()
    ensures ReplaceAll(Restorations(ns)[0].target + ".qz'", Literal(Restorations(ns)[0].target),
      Restorations(ns)[0].substitute) == Restorations(ns)[0].substitute + ".qz'"
  {
    ReplacesAtStart(Restorations(ns)[0].target, ".qz'", Restorations(ns)[0].substitute, 4);
  }

  lemma PathFileForm(ns: NameSet)
    requires ns == Quiz()
    ensures ns.lowerFirst + ns.upperFirst + ".qz'" == Restorations(ns)[0].target + ".qz'"
    ensures Restorations(ns)[0].substitute + ".qz'" == "quizTemplate.qz'"
  {
  }

  lemma PathFileRestored(ns: NameSet)
    requires ns == Quiz()
    ensures RestoreIdentifiers(ns.lowerFirst + ns.upperFirst + ".qz'", ns) == "quizTemplate.qz'"
  {
    PathFileFires(ns);
    PathFileForm(ns);
    RestoredFrom(ns.lowerFirst + ns.upperFirst + ".qz'", "quizTemplate.qz'", ns, 0, []);
  }

  lemma PathRestored(ns: NameSet)
    requires ns == Quiz()
    ensures RestoreIdentifiers(("node" + ns.upperFirst + "FilePath:'node") + ['/']
      + (ns.lowerFirst + ['/'] + (ns.lowerFirst + ns.upperFirst + ".qz'")), ns)
      == "nodeTemplateFilePath:'node" + ['/'] + (ns.lowerFirst + ['/'] + "quizTemplate.qz'")
  {
    QuizNameSet();
    RestoreIdentifiersSplit("node" + ns.upperFirst + "FilePath:'node", '/',
      ns.lowerFirst + ['/'] + (ns.lowerFirst + ns.upperFirst + ".qz'"), ns);
    RestoreIdentifiersSplit(ns.lowerFirst, '/', ns.lowerFirst + ns.upperFirst + ".qz'", ns);
    PathHeadRestored(ns);
    PathFolderRestored(ns);
    PathFileRestored(ns);
  }

  lemma PathHeadPieces(x: string, y: string, z: string)
    requires x == "nodeTemplateFilePath:'node/" && y == "template/templateTemplate" && z == ".te'"
    ensures x + y + z == "nodeTemplateFilePath:'node/template/templateTemplate.te'"
  {
  }

  lemma PathText(w: string)
    requires w == "nodeTemplateFilePath:'node/template/templateTemplate.te'"
    ensures w == PathHead + ".te'"
  {
    PathHeadPieces("nodeTemplateFilePath:'node/", "template/templateTemplate", ".te'");
  }

  lemma PathResult(ns: NameSet)
    requires ns == Quiz()
    ensures "nodeTemplateFilePath:'node" + ['/'] + (ns.lowerFirst + ['/'] + "quizTemplate.qz'")
      == "nodeTemplateFilePath:'node/quiz/quizTemplate.qz'"
  {
  }

  /** The template step type's file path, as its setup script registers it,
      becomes the path of the new step type's compound file. */
  lemma RewritePath(w: string, ns: NameSet)
    requires w == "nodeTemplateFilePath:'node/template/templateTemplate.te'" && ns == Quiz()
    ensures Rewrite(w, ns) == "nodeTemplateFilePath:'node/quiz/quizTemplate.qz'"
  {
    PathText(w);
    PathExtensions(w, ns);
    PathRenamed(ns);
    PathRestored(ns);
    PathResult(ns);
  }

  // ---------------------------------------------------------------------------
  // The extension of the template step type, as setup.js registers it

  /** Line 183 sets the registered extension to the new one, for every name set. */
  lemma ExtensionLineReplaced(w: string, ns: NameSet)
    requires w == "nodeExtension:'te'"
    ensures ReplaceExtensions(w, ns) == "nodeExtension:'" + ns.ext + "'"
  {
    assert PathPattern().text[4] == 'T';
    NoMatchMissingChar(w, PathPattern(), 4);
    ReplaceAllNoMatch(w, PathPattern(), PathHead + "." + ns.ext + "'");
    ReplacesWhole(w, "nodeExtension:'" + ns.ext + "'");
  }

  lemma QuizExtensionLine(ns: NameSet)
    requires ns == Quiz()
    ensures "nodeExtension:'" + ns.ext + "'" == "nodeExtension:'qz'"
  {
  }

  /** The new extension line holds neither `m` nor `T`: the renaming keeps it. */
  lemma ExtensionLineRenamed(v: string, ns: NameSet)
    requires v == "nodeExtension:'qz'"
    ensures RenameTokens(v, ns) == v
  {
    RenameKeepsWithoutM(v, ns);
  }

  /** Nor does it hold `Q`: no restoration finds its target. */
  lemma ExtensionLineRestored(v: string, ns: NameSet)
    requires v == "nodeExtension:'qz'" && ns == Quiz()
    ensures RestoreIdentifiers(v, ns) == v
  {
    RestorationsKeep(v, ns, 0);
    assert Restorations(ns)[0..] == Restorations(ns);
  }

  /** Line 183 at work on the line of setup.js that registers the extension. */
  lemma RewriteExtension(w: string, ns: NameSet)
    requires w == "nodeExtension:'te'" && ns == Quiz()
    ensures Rewrite(w, ns) == "nodeExtension:'qz'"
  {
    ExtensionLineReplaced(w, ns);
    QuizExtensionLine(ns);
    ExtensionLineRenamed("nodeExtension:'qz'", ns);
    ExtensionLineRestored("nodeExtension:'qz'", ns);
  }
}
