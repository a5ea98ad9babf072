/**
 * The driver of StepTypeCreator.main (lines 43-133, 163, 229-231, 287-294):
 * check the arguments, decide whether to go on when the step type's folder
 * already exists, copy every template file of the archive into the folder with
 * its name and content rewritten, and register the new step type in
 * `setupNodes.js` when that file is present.
 *
 * The file system is a value: the folder is a map from file names to contents
 * (absent when the folder does not exist) and the registry an optional text.
 */
module Engine {
  import opened Wrappers
  import opened JavaString
  import opened Names
  import opened FileNames
  import opened Content
  import opened Manifest

  /** One entry of the jar, as `ZipInputStream.getNextEntry` delivers it, with the
      text its data decodes to. */
  datatype ZipEntry = ZipEntry(name: string, content: string)

  /** `ZipEntry.isDirectory`: the entry's name ends with `/`. */
  predicate IsDirectory(e: ZipEntry) {
    0 < |e.name| && e.name[|e.name| - 1] == '/'
  }

  /** Line 133: the entries that are copied. */
  predicate IsTemplateFile(e: ZipEntry) {
    !IsDirectory(e) && StartsWith(e.name, "template/")
  }

  // ---------------------------------------------------------------------------
  // What the copy loop computes

  /** The template files among `entries`, in archive order. */
  function Kept(entries: seq<ZipEntry>): (fs: seq<ZipEntry>)
    ensures |fs| <= |entries|
    decreases |entries|
  {
    if entries == [] then []
    else
      var last := entries[|entries| - 1];
      Kept(entries[..|entries| - 1]) + (if IsTemplateFile(last) then [last] else [])
  }

  /** How an entry's name and content are rewritten for one name set: the loop
      below works for any pair of rewrites, and the run passes these two. */
  function Renamer(ns: NameSet): string -> string {
    path => FileName(path, ns)
  }

  function Rewriter(ns: NameSet): string -> string {
    text => Rewrite(text, ns)
  }

  /** The files created, in the order line 229 reports them. */
  function CreatedNames(fs: seq<ZipEntry>, rename: string -> string): (names: seq<string>)
    ensures |names| == |fs|
    ensures forall i | 0 <= i < |fs| :: names[i] == rename(fs[i].name)
    decreases |fs|
  {
    if fs == [] then [] else CreatedNames(fs[..|fs| - 1], rename) + [rename(fs[|fs| - 1].name)]
  }

  /** The folder after writing the files of `fs` one after the other into it. */
  function WriteAll(folder: map<string, string>, fs: seq<ZipEntry>, rename: string -> string,
    rewrite: string -> string): map<string, string>
    decreases |fs|
  {
    if fs == [] then folder
    else
      var last := fs[|fs| - 1];
      WriteAll(folder, fs[..|fs| - 1], rename, rewrite)[rename(last.name) := rewrite(last.content)]
  }

  // ---------------------------------------------------------------------------
  // Properties of the selection

  /** Selecting distributes over concatenation: the kept entries of a longer archive
      are those of its parts, in the same order. */
  lemma {:induction false} KeptAppend(a: seq<ZipEntry>, b: seq<ZipEntry>)
    ensures Kept(a + b) == Kept(a) + Kept(b)
    decreases |b|
  {
    if b == [] {
      assert a + b == a;
    } else {
      var b' := b[..|b| - 1];
      assert (a + b)[..|a + b| - 1] == a + b';
      KeptAppend(a, b');
    }
  }

  /** A single entry is kept exactly when it is a template file. */
  lemma KeptOne(e: ZipEntry)
    ensures Kept([e]) == (if IsTemplateFile(e) then [e] else [])
  {
    assert [e][..0] == [];
  }

  /** An entry is kept iff it is in the archive and is a template file. */
  lemma {:induction false} KeptIff(entries: seq<ZipEntry>, e: ZipEntry)
    ensures e in Kept(entries) <==> e in entries && IsTemplateFile(e)
    decreases |entries|
  {
    if entries != [] {
      var init := entries[..|entries| - 1];
      KeptIff(init, e);
      assert entries == init + [entries[|entries| - 1]];
    }
  }

  // ---------------------------------------------------------------------------
  // Properties of the writes

  /** The folder ends up with its old files and one file per distinct target name. */
  lemma {:induction false} WriteAllKeys(folder: map<string, string>, fs: seq<ZipEntry>, rename: string -> string,
    rewrite: string -> string)
    ensures WriteAll(folder, fs, rename, rewrite).Keys == folder.Keys + (set f | f in fs :: rename(f.name))
    decreases |fs|
  {
    if fs != [] {
      var init := fs[..|fs| - 1];
      WriteAllKeys(folder, init, rename, rewrite);
      assert fs == init + [fs[|fs| - 1]];
      assert (set f | f in fs :: rename(f.name)) == (set f | f in init :: rename(f.name)) + {rename(fs[|fs| - 1].name)};
    }
  }

  /** The last write to a name wins: its file holds the rewrite of the last entry
      with that target name, whatever earlier entries or old files held. */
  lemma {:induction false} WriteAllLast(folder: map<string, string>, fs: seq<ZipEntry>, rename: string -> string, rewrite: string -> string, i: nat)
    requires i < |fs|
    requires forall j | i < j < |fs| :: rename(fs[j].name) != rename(fs[i].name)
    ensures rename(fs[i].name) in WriteAll(folder, fs, rename, rewrite)
    ensures WriteAll(folder, fs, rename, rewrite)[rename(fs[i].name)] == rewrite(fs[i].content)
    decreases |fs|
  {
    if i < |fs| - 1 {
      var init := fs[..|fs| - 1];
      assert init[i] == fs[i];
      forall j | i < j < |init| ensures rename(init[j].name) != rename(init[i].name) {
        assert init[j] == fs[j];
      }
      WriteAllLast(folder, init, rename, rewrite, i);
    }
  }

  /** A name no entry writes keeps what the folder held. */
  lemma {:induction false} WriteAllElsewhere(folder: map<string, string>, fs: seq<ZipEntry>, rename: string -> string, rewrite: string -> string, n: string)
    requires forall f | f in fs :: rename(f.name) != n
    ensures n in WriteAll(folder, fs, rename, rewrite) <==> n in folder
    ensures n in folder ==> WriteAll(folder, fs, rename, rewrite)[n] == folder[n]
    decreases |fs|
  {
    if fs != [] {
      var init := fs[..|fs| - 1];
      assert fs[|fs| - 1] in fs;
      forall f | f in init ensures rename(f.name) != n {
        assert f in fs;
      }
      WriteAllElsewhere(folder, init, rename, rewrite, n);
    }
  }

  /** Sub-folders of the template folder are flattened: two files with the same
      base name in different sub-folders go to the same file, and the one later
      in the archive wins. */
  lemma FlattenedLastWins(folder: map<string, string>, d1: string, d2: string, base: string,
    c1: string, c2: string, ns: NameSet)
    requires '/' !in base
    ensures var fs := [ZipEntry("template/" + d1 + "/" + base, c1), ZipEntry("template/" + d2 + "/" + base, c2)];
      var written := WriteAll(folder, fs, Renamer(ns), Rewriter(ns));
      FileName(base, ns) in written && written[FileName(base, ns)] == Rewrite(c2, ns)
  {
    var fs := [ZipEntry("template/" + d1 + "/" + base, c1), ZipEntry("template/" + d2 + "/" + base, c2)];
    FileNameOfLastSegment("template/" + d1, base, ns);
    FileNameOfLastSegment("template/" + d2, base, ns);
    WriteAllLast(folder, fs, Renamer(ns), Rewriter(ns), 1);
  }

  // ---------------------------------------------------------------------------
  // The copy loop

  /** One more entry read from the archive. */
  lemma KeptNext(entries: seq<ZipEntry>, i: nat)
    requires i < |entries|
    ensures Kept(entries[..i + 1]) == Kept(entries[..i]) + (if IsTemplateFile(entries[i]) then [entries[i]] else [])
  {
    assert entries[..i + 1][..i] == entries[..i];
  }

  /** One more file written. */
  lemma WrittenNext(folder: map<string, string>, fs: seq<ZipEntry>, f: ZipEntry,
    rename: string -> string, rewrite: string -> string)
    ensures WriteAll(folder, fs + [f], rename, rewrite) == WriteAll(folder, fs, rename, rewrite)[rename(f.name) := rewrite(f.content)]
    ensures CreatedNames(fs + [f], rename) == CreatedNames(fs, rename) + [rename(f.name)]
  {
    assert (fs + [f])[..|fs|] == fs;
  }

  /** One more entry of the archive handled: a template file is written and
      reported, any other entry changes nothing. */
  lemma CopiedNext(folder: map<string, string>, entries: seq<ZipEntry>, i: nat,
    rename: string -> string, rewrite: string -> string)
    requires i < |entries|
    ensures var e, kept := entries[i], Kept(entries[..i]);
      && WriteAll(folder, Kept(entries[..i + 1]), rename, rewrite)
        == (if IsTemplateFile(e) then WriteAll(folder, kept, rename, rewrite)[rename(e.name) := rewrite(e.content)]
            else WriteAll(folder, kept, rename, rewrite))
      && CreatedNames(Kept(entries[..i + 1]), rename)
        == (if IsTemplateFile(e) then CreatedNames(kept, rename) + [rename(e.name)] else CreatedNames(kept, rename))
  {
    var e, kept := entries[i], Kept(entries[..i]);
    KeptNext(entries, i);
    if IsTemplateFile(e) {
      WrittenNext(folder, kept, e, rename, rewrite);
    } else {
      assert kept + [] == kept;
    }
  }

  /** Lines 127-231: read the archive entry by entry; each template file is written
      into the folder under its new name with its rewritten content, replacing a
      file of that name, and the name is reported. */
  method CopyTemplates(entries: seq<ZipEntry>, rename: string -> string, rewrite: string -> string,
    folder: map<string, string>)
    returns (files: map<string, string>, created: seq<string>)
    ensures files == WriteAll(folder, Kept(entries), rename, rewrite)
    ensures created == CreatedNames(Kept(entries), rename)
  {
    files, created := folder, [];
    var i := 0;
    while i < |entries|
      invariant i <= |entries|
      invariant files == WriteAll(folder, Kept(entries[..i]), rename, rewrite)
      invariant created == CreatedNames(Kept(entries[..i]), rename)
    {
      var e := entries[i];
      CopiedNext(folder, entries, i, rename, rewrite);
      if IsTemplateFile(e) {
        var newName := rename(e.name);
        var fileContents := rewrite(e.content);
        files := files[newName := fileContents];
        created := created + [newName];
      }
      i := i + 1;
    }
    assert entries[..i] == entries;
  }

  // ---------------------------------------------------------------------------
  // The whole run

  /** What the run reports; `created` lists the created files in order, `duplicate`
      is the warning of line 288. */
  datatype Status =
    | Usage                        // fewer than two arguments (lines 43-46)
    | BadName                      // line 62
    | BadExtension                 // line 65
    | NameCrash                    // an empty name: `substring(0, 1)` throws at line 72
    | Aborted                      // the folder exists and the answer is not `yes`
    | Completed(created: seq<string>, duplicate: bool)
    | RegistryCrash(created: seq<string>)  // the registry has no `]`: line 253 throws

  /** The folder of the new step type (absent if it does not exist) and the registry
      `setupNodes.js` (absent if it does not exist). */
  datatype World = World(folder: Option<map<string, string>>, registry: Option<string>)

  /** Lines 80-104: a new folder is always created; an existing one only after the
      answer `yes` (a `null` answer, at the end of input, means no). */
  predicate GoesAhead(folderExists: bool, answer: Option<string>) {
    !folderExists || answer == Some("yes")
  }

  /** The run reached the copy loop. */
  predicate Proceeded(s: Status) {
    s.Completed? || s.RegistryCrash?
  }

  /** StepTypeCreator.main, with the console answer and the archive as inputs. The
      answer is only read when the folder exists. */
  method Run(args: seq<string>, world: World, answer: Option<string>, entries: seq<ZipEntry>)
    returns (status: Status, after: World)
    ensures status.Usage? <==> |args| < 2
    ensures 2 <= |args| ==> (status.BadName? <==> !IsWord(args[0]))
    ensures 2 <= |args| ==> (status.BadExtension? <==> IsWord(args[0]) && !IsWord(args[1]))
    ensures 2 <= |args| ==> (status.NameCrash? <==> args[0] == [] && IsWord(args[1]))
    ensures 2 <= |args| ==> (status.Aborted? <==>
      IsWord(args[0]) && IsWord(args[1]) && args[0] != [] && !GoesAhead(world.folder.Some?, answer))
    ensures Proceeded(status) <==>
      2 <= |args| && IsWord(args[0]) && IsWord(args[1]) && args[0] != [] && GoesAhead(world.folder.Some?, answer)
    ensures !Proceeded(status) ==> after == world
    ensures Proceeded(status) ==>
      var ns := MakeNameSet(args[0], args[1]);
      var old_files := if world.folder.Some? then world.folder.value else map[];
      && after.folder == Some(WriteAll(old_files, Kept(entries), Renamer(ns), Rewriter(ns)))
      && status.created == CreatedNames(Kept(entries), Renamer(ns))
      && (world.registry.None? ==> after.registry.None? && status == Completed(status.created, false))
      && (world.registry.Some? && ']' in world.registry.value ==>
            && status == Completed(status.created, Contains(world.registry.value, ns.upperFirst))
            && after.registry == Some(PatchManifest(world.registry.value, ns).value.text))
      && (world.registry.Some? && ']' !in world.registry.value ==>
            status.RegistryCrash? && after.registry == world.registry)
  {
    after := world;
    if |args| < 2 {
      return Usage, after;
    }
    var name, ext := args[0], args[1];
    var v := Validate(name, ext);
    if v == InvalidName {
      return BadName, after;
    } else if v == InvalidExtension {
      return BadExtension, after;
    }
    if name == [] {
      return NameCrash, after;
    }
    var ns := MakeNameSet(name, ext);
    if !GoesAhead(world.folder.Some?, answer) {
      return Aborted, after;
    }
    var existing := if world.folder.Some? then world.folder.value else map[];
    var files, created := CopyTemplates(entries, Renamer(ns), Rewriter(ns), existing);
    after := after.(folder := Some(files));
    match world.registry
    case None =>
      status := Completed(created, false);
    case Some(text) =>
      var patch := PatchManifest(text, ns);
      if patch.None? {
        status := RegistryCrash(created);
      } else {
        after := after.(registry := Some(patch.value.text));
        status := Completed(created, patch.value.duplicate);
      }
  }
}
