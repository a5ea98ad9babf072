# StepTypeCreator, modelled in Dafny

`StepTypeCreator` is a command-line tool. It instantiates a new step type for
the WISE learning environment from the template step type packed in its own
jar. Given a name (say `quiz`) and an extension (say `qz`), it does the following:

- checks both arguments against `[a-zA-Z_0-9]*`;
- forms the lower-first (`quiz`) and upper-first (`Quiz`) variants of the name;
- asks before it overwrites an existing folder;
- copies every file under `template/` in the jar into the folder `quiz`; each
  file's name goes through a four-step rename and its content through a pipeline
  of ten `replaceAll` calls;
- registers the new step type in `setupNodes.js` when that file is present.

The project models that engine. The file system is a value:

- the folder is a map from file names to contents;
- the registry is an optional text;
- the jar is a sequence of entries, each a name and a text.

The console answer is an input.

Files:

- `java_string.dfy`: the `String` and `java.util.regex` operations the tool uses.
  A pattern is its text plus the positions of its unescaped dots. `replaceAll` and
  `replaceFirst` are leftmost, non-overlapping scans. `indexOf`, `lastIndexOf`,
  `contains` and `startsWith` are also here.
- `names.dfy`: argument validation and the two casing variants.
- `file_names.dfy`: the destination file name of a template entry.
- `content.dfy`: the content pipeline, and the fact that it works independently
  on each side of a separator character.
- `content_examples.dfy`: the pipeline on the identifiers it must protect, on
  `templateTemplate`, and on the file path registered by the template's
  `setup.js`.
- `manifest.dfy`: the splice into `setupNodes.js` and the duplicate warning.
- `engine.dfy`: the copy loop (a method) and the whole run (a method).

Behaviour worth knowing:

- Line 251's comment speaks of the last `]`, but line 252 finds the first. Here
  the code and its comment disagree, and the model follows the code.
- The file name rule skips the upper-case rename whenever the name contains
  `templateTemplate`. So `templateTemplate.te` becomes `quizTemplate.qz`.
- The pipeline has ten replacements: lines 182, 183, 186, 189, 197, 200, 203, 206,
  209 and 212.
- An empty name passes the regular expression, and then `substring(0, 1)` throws
  at line 72. The model reports this as the `NameCrash` outcome rather than
  requiring a non-empty name.
- A registry without `]` makes `substring(0, -1)` throw at line 253, after the
  files were written. The model reports this as `RegistryCrash` (or `None` from
  `PatchManifest`).
- When the folder exists and the answer is `yes`, its old files stay unless a
  template file overwrites them.

## Model

| member | source | states |
|---|---|---|
| Names.MatchesWordStarIff | src/StepTypeCreator.java:56-60 | `matches()` of `[a-zA-Z_0-9]*` holds exactly when every character is in the class, the empty string included |
| Names.Validate | src/StepTypeCreator.java:56-67 | accepted iff both arguments are words; an invalid name is reported whatever the extension is; an invalid extension only for a valid name |
| Names.RejectedExamples | src/StepTypeCreator.java:62-67 | `abc-def` is refused as a name, `t!` as an extension, and with both bad the name is reported |
| Names.LowerFirst | src/StepTypeCreator.java:72 | same length as the name, equal from index 1 on, the first character is the ASCII lower case of the name's first and never an upper-case letter, a word stays a word |
| Names.UpperFirst | src/StepTypeCreator.java:75 | the same with the ASCII upper case |
| Names.ToLowerAscii | src/StepTypeCreator.java:72 | ASCII upper-case letters move down by 32 to the matching lower-case letter; every other character is kept |
| Names.ToUpperAscii | src/StepTypeCreator.java:75 | ASCII lower-case letters move up by 32 to the matching upper-case letter; every other character is kept |
| Names.MakeNameSet | src/StepTypeCreator.java:71-75 | the extension as given with the two casing variants of the name; Names.MakeNameSetValid states what accepted arguments make of them |
| Names.CasingVariantsAgree | src/StepTypeCreator.java:72-75 | re-casing either variant gives the other variant or itself; the two variants are equal iff the first character is not a letter |
| Names.MakeNameSetValid | src/StepTypeCreator.java:56-75 | accepted non-empty arguments give word variants of equal length that agree after index 0 |
| Names.QuizNameSet | src/StepTypeCreator.java:71-75 | `quiz`/`qz` is accepted and gives `quiz` and `Quiz` |
| JavaString.FirstMatch | src/StepTypeCreator.java:150 | the index of the leftmost match, with no match before it; `None` iff the pattern matches nowhere |
| JavaString.LiteralMatchesIff | src/StepTypeCreator.java:150 | a literal pattern matches at the front exactly when the text starts with it |
| JavaString.ReplaceAllAtFirst | src/StepTypeCreator.java:142 | `replaceAll` copies the text up to the first match, emits the replacement and resumes after the match |
| JavaString.ReplaceAllNoMatch | src/StepTypeCreator.java:142 | without a match `replaceAll` returns the text unchanged |
| JavaString.ReplaceAllSplit | src/StepTypeCreator.java:182-212 | `replaceAll` works independently on the two sides of a character that no match covers |
| JavaString.ReplaceAll | src/StepTypeCreator.java:142 | `replaceAll` as a leftmost, non-overlapping scan; stated by JavaString.ReplaceAllAtFirst, JavaString.ReplaceAllNoMatch and JavaString.ReplaceAllSplit |
| JavaString.ReplaceFirst | src/StepTypeCreator.java:150 | `replaceFirst` replaces the match JavaString.FirstMatch finds and keeps the text around it, or returns the text when there is none; stated by FileNames.ReplaceFirstAbsent and FileNames.ReplaceFirstAtFront |
| JavaString.IndexOf | src/StepTypeCreator.java:252 | `indexOf` is JavaString.FirstMatch of the literal, -1 without a match; stated by JavaString.IndexOfChar |
| JavaString.Contains | src/StepTypeCreator.java:152 | `contains` is `indexOf >= 0`; stated by JavaString.ContainsIff |
| JavaString.StartsWith | src/StepTypeCreator.java:133 | the text is at least as long as the prefix and begins with it; JavaString.LiteralMatchesIff ties it to a literal match |
| JavaString.LastIndexOfChar | src/StepTypeCreator.java:139 | -1 iff the character is absent, otherwise an index holding it with none after it |
| JavaString.IndexOfChar | src/StepTypeCreator.java:252 | -1 iff the character is absent, otherwise an index holding it with none before it |
| JavaString.ContainsIff | src/StepTypeCreator.java:152 | `contains` holds iff the needle occurs at some index |
| FileNames.BaseName | src/StepTypeCreator.java:139 | the result has no `/`, is a suffix of the path, and is preceded by a `/` when shorter than the path |
| FileNames.WithExtension | src/StepTypeCreator.java:142 | every `.te` becomes `.` plus the new extension; stated by FileNames.CompoundWithExtension |
| FileNames.FileName | src/StepTypeCreator.java:139-160 | base name, then extension, then the first `template`, then the first `Template` unless `templateTemplate` was present; stated by the FileNames lemmas below |
| FileNames.FileNameOfLastSegment | src/StepTypeCreator.java:139-160 | only the last path segment matters, so sub-folders flatten |
| FileNames.FileNameUnchanged | src/StepTypeCreator.java:139-160 | a name with no `.te`, `template` or `Template` is kept |
| FileNames.FileNameLowerPrefix | src/StepTypeCreator.java:150 | `template<rest>` becomes `<lower><rest>` when no `Template` then remains |
| FileNames.FileNameUpperPrefix | src/StepTypeCreator.java:159 | `Template<rest>` becomes `<Upper><rest>` when the name has no `template` |
| FileNames.FileNameCompound | src/StepTypeCreator.java:141-160 | `templateTemplate.te` becomes `<lower>Template.<ext>` for every name set: the upper-case rename is skipped |
| FileNames.QuizHtmlFileName | src/StepTypeCreator.java:144-150 | `template.html` becomes `quiz.html` |
| FileNames.QuizNodeFileName | src/StepTypeCreator.java:153-159 | `TemplateNode.js` becomes `QuizNode.js` |
| FileNames.QuizCompoundFileName | src/StepTypeCreator.java:141-152 | `templateTemplate.te` becomes `quizTemplate.qz` |
| FileNames.QuizSetupFileName | src/StepTypeCreator.java:139-160 | `setup.js` keeps its name |
| Content.RestorationTargetsAreWords | src/StepTypeCreator.java:196-212 | for accepted names each of the six restored targets is a non-empty word |
| Content.ReplaceExtensions | src/StepTypeCreator.java:182-183 | the path pattern with its dot, then `nodeExtension:'te'`; stated by ContentExamples.ExtensionsKeep, ContentExamples.ExtensionLineReplaced and ContentExamples.PathExtensions |
| Content.RenameTokens | src/StepTypeCreator.java:186-189 | every `template`, then every `Template`; stated by ContentExamples.RenameKeeps and Content.RenameTokensSplit |
| Content.RestoreIdentifiers | src/StepTypeCreator.java:196-212 | the six restorations in order; stated by ContentExamples.RestoredFrom and Content.RestoreIdentifiersSplit |
| Content.Rewrite | src/StepTypeCreator.java:182-212 | the ten replacements in the source's order; stated by Content.RewriteSplit, Content.RewriteLines and the ContentExamples lemmas |
| Content.RewriteSplit | src/StepTypeCreator.java:182-212 | the whole pipeline treats the text on each side of a separator independently, the separator kept; at the dot a separator must be a line terminator or not followed by `te'` |
| Content.RewriteLines | src/StepTypeCreator.java:182-212 | the pipeline works line by line |
| ContentExamples.ExtensionsKeep | src/StepTypeCreator.java:182-183 | a text without `:` is untouched by the two extension replacements |
| ContentExamples.OwnTextReplaced | src/StepTypeCreator.java:182 | a pattern whose dots hold no line terminator matches its own text, which is replaced whole |
| ContentExamples.RestoredWhole | src/StepTypeCreator.java:196-212 | a restoration's target is turned into its substitute by the six restorations when each earlier target has a character it lacks |
| ContentExamples.KeepsNodeParams | src/StepTypeCreator.java:199-200 | with `quiz`, `nodeTemplateParams` comes out as itself |
| ContentExamples.KeepsAddNodeParams | src/StepTypeCreator.java:202-203 | with `quiz`, `addNodeTemplateParams` comes out as itself |
| ContentExamples.KeepsNodeFilePath | src/StepTypeCreator.java:205-206 | with `quiz`, `nodeTemplateFilePath` comes out as itself |
| ContentExamples.KeepsHtmlContent | src/StepTypeCreator.java:208-209 | with `quiz`, `getHTMLContentTemplate` comes out as itself |
| ContentExamples.KeepsExcelExport | src/StepTypeCreator.java:211-212 | with `quiz`, `excelExportStringTemplate` comes out as itself |
| ContentExamples.QuizKeepsProtected | src/StepTypeCreator.java:191-212 | with `quiz`, each of the five protected identifiers comes out as itself |
| ContentExamples.RewriteCompound | src/StepTypeCreator.java:196-197 | with `quiz`, `templateTemplate` becomes `quizTemplate` |
| ContentExamples.RewriteNotInjective | src/StepTypeCreator.java:199-200 | `nodeQuizParams` and `nodeTemplateParams` both come out as `nodeTemplateParams`: the rewrite loses information |
| ContentExamples.ProtectedSurvives | src/StepTypeCreator.java:191-212 | a word the rewrite keeps survives between two separators while the text around it is rewritten independently |
| ContentExamples.QuizProtectedSurvive | src/StepTypeCreator.java:191-212 | with `quiz`, every protected identifier between separators survives the rewrite of the whole text |
| ContentExamples.RewriteTouchingWord | src/StepTypeCreator.java:186-212 | with `quiz`, `templatexcelExportStringTemplate` becomes `quizxcelExportStringQuiz`: a word character against a protected identifier lets the renaming break it |
| ContentExamples.RewritePath | src/template/setup.js:149-151 | with `quiz`/`qz`, `nodeTemplateFilePath:'node/template/templateTemplate.te'` becomes `nodeTemplateFilePath:'node/quiz/quizTemplate.qz'` |
| ContentExamples.ExtensionLineReplaced | src/StepTypeCreator.java:183 | for every name set, `nodeExtension:'te'` becomes `nodeExtension:'` plus the new extension plus `'` |
| ContentExamples.RewriteExtension | src/template/setup.js:161 | with `quiz`/`qz`, the whole pipeline turns `nodeExtension:'te'` into `nodeExtension:'qz'` |
| Manifest.BracketIndex | src/StepTypeCreator.java:252 | -1 iff there is no `]`, otherwise the index of the first `]` |
| Manifest.BraceIndex | src/StepTypeCreator.java:253-256 | -1 iff no `}` precedes the index, otherwise the last `}` before it |
| Manifest.Entry | src/StepTypeCreator.java:268-269 | the registration text around the upper-first and lower-first names; stated by Manifest.EntryHasNoBracket and Manifest.PatchedContainsName |
| Manifest.Splice | src/StepTypeCreator.java:268-270 | the length grows by the entry's length; the text before the index, the entry and the rest of the text stand in that order |
| Manifest.PatchManifest | src/StepTypeCreator.java:249-270 | fails iff the text has no `]`; otherwise the entry is spliced in after the last `}` before the first `]` (at the front without one), and the flag is whether the original text contains the upper-first name |
| Manifest.EntryHasNoBracket | src/StepTypeCreator.java:268-269 | for an accepted name the entry contains no `]` |
| Manifest.SpliceMovesFirst | src/StepTypeCreator.java:252-270 | inserting a text without `c` at or before the first `c` moves the first `c` by the inserted length |
| Manifest.PatchBracketMoves | src/StepTypeCreator.java:252-270 | the new entry sits before the first `]` of the result, the old one moved by the entry's length |
| Manifest.PatchedContainsName | src/StepTypeCreator.java:268-269 | the patched registry contains the upper-first name |
| Manifest.PatchTwice | src/StepTypeCreator.java:249-290 | patching a patched registry raises the duplicate flag and still changes the text: the patch is not idempotent |
| Engine.IsDirectory | src/StepTypeCreator.java:133 | `isDirectory` holds for a name ending in `/` |
| Engine.IsTemplateFile | src/StepTypeCreator.java:133 | not a directory and under `template/`; stated by Engine.KeptIff and Engine.KeptOne |
| Engine.Kept | src/StepTypeCreator.java:127-133 | the filtered entries, never more than the archive has; stated by Engine.KeptIff and Engine.KeptAppend |
| Engine.WriteAll | src/StepTypeCreator.java:163-221 | the files written one after the other into the folder; stated by Engine.WriteAllKeys, Engine.WriteAllLast and Engine.WriteAllElsewhere |
| Engine.KeptIff | src/StepTypeCreator.java:127-133 | an entry is copied iff it is in the archive, is not a directory and lies under `template/` |
| Engine.KeptAppend | src/StepTypeCreator.java:127-133 | the selection keeps archive order and distributes over concatenation |
| Engine.KeptOne | src/StepTypeCreator.java:133 | a single entry is kept exactly when it is a template file |
| Engine.CreatedNames | src/StepTypeCreator.java:224 | one reported name per copied file, in order, each the renamed entry name |
| Engine.WriteAllKeys | src/StepTypeCreator.java:163-221 | the folder ends up with its old files plus one file per distinct new name |
| Engine.WriteAllLast | src/StepTypeCreator.java:163-221 | a name holds the rewritten content of the last entry written to it |
| Engine.WriteAllElsewhere | src/StepTypeCreator.java:163-221 | a name no entry writes keeps what the folder held, and is present iff it was |
| Engine.FlattenedLastWins | src/StepTypeCreator.java:139-163 | two files with one base name in different sub-folders land in one file, and the later one wins |
| Engine.CopyTemplates | src/StepTypeCreator.java:127-226 | the loop leaves the folder as the writes of the kept entries, in archive order, and the reported names as their new names |
| Engine.GoesAhead | src/StepTypeCreator.java:80-103 | the copy goes ahead when the folder is new or the answer is exactly `yes` (a missing answer refuses); used by Engine.Run |
| Engine.Run | src/StepTypeCreator.java:42-295 | the outcome of each check; nothing changes unless the run proceeds; if it does, the folder and the registry are as the copy and the patch make them, with the duplicate flag |

## Left out

- Reading the jar through `CodeSource` and `ZipInputStream` (lines 112-127). The archive is an input sequence of entries whose name ends with `/` for a directory. A `null` code source, which skips the copy, is not modelled.
- Decoding file bytes to text (lines 166-179). It decodes the whole 1024-byte buffer with the platform charset, so it is I/O. Contents are strings.
- `mkdir`, `FileWriter`, `FileReader`, the `setupNodes.js` existence check, and the read loops (lines 107, 215-221, 230-246, 272-282). The folder is a map and the registry an optional text.
- The console prompt (lines 87-94). The answer is an input, and is read only when the folder exists.
- All printing, including the path built with `File.separator` (line 224) and the messages of lines 45-46, 64, 67, 108-109, 124, 285, 289, 292 and 294. The reported names and the duplicate flag are part of the outcome.
- `IOException` handling (lines 296-297). No I/O fails in the model.
- The general regular expression engine. Every pattern used is a literal, except the unescaped `.` of line 182, which is modelled as one any-character position.
- Locale-dependent case mapping. Accepted names contain only ASCII letters, digits and `_`, so the casing functions map ASCII letters only, as a non-Turkic default locale does.
- Engine.Kept: its own contract bounds only the length; what it selects is stated by Engine.KeptIff and Engine.KeptAppend.
- ContentExamples.ProtectedSurvives: it needs a separator on each side of the identifier, because a word character against it can break it: in `templatexcelExportStringTemplate` the first `template` takes the `e` of `excel`, and the result `quizxcelExportStringQuiz` (ContentExamples.RewriteTouchingWord) holds no restoration target. It also needs, at the line-182 dot, a line terminator or no `te'` after the separator, and is stated only for words the rewrite keeps whose third character is a word character.
