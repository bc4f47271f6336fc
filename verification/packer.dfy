/** `pack_repository`: walk the repository, skip ignored directories and
    extensions, and write one labelled block per readable file into a single
    text document. */
module Packer {
  import opened Wrappers
  import opened Text
  import opened FsTree
  import opened Walk
  import opened IgnoreRules

  /** One packed file: where it sits below the root and its text. */
  datatype Record = Record(dir: seq<string>, name: string, content: string)

  datatype PackError = RepositoryNotFound(repoPath: string)

  /** What a successful call leaves behind: the returned output path, the full
      text of the output file, and one warning per file that could not be read
      (given as its path relative to the root). */
  datatype Packed = Packed(outputFile: string, text: string, warnings: seq<string>)

  /** The file's path relative to the root, as `os.path.relpath` spells it on
      POSIX: the directory names and the file name joined by `/`. */
  function RelPath(dir: seq<string>, name: string): string
  {
    Join(dir + [name], '/')
  }

  /** When no component holds a `/`, splitting a relative path at `/` gives
      back the directory names followed by the file name. */
  lemma RelPathSplits(dir: seq<string>, name: string)
    requires forall k :: 0 <= k < |dir| ==> '/' !in dir[k]
    requires '/' !in name
    ensures Split(RelPath(dir, name), '/') == dir + [name]
  {
    var p := dir + [name];
    forall k | 0 <= k < |p|
      ensures '/' !in p[k]
    {
      if k < |dir| {
        assert p[k] == dir[k];
      }
    }
    SplitJoin(p, '/');
  }

  /** The block written for one file: a line of its own naming the file, then
      its content, then one closing newline. */
  function Block(r: Record): string
  {
    "\n--- FILE: " + RelPath(r.dir, r.name) + " ---\n" + r.content + "\n"
  }

  /** A block opens with the file marker on a fresh line and ends with the
      file's content followed by exactly one newline. */
  lemma BlockLayout(r: Record)
    ensures |Block(r)| >= 11 && Block(r)[..11] == "\n--- FILE: "
    ensures |Block(r)| > |r.content|
    ensures Block(r)[|Block(r)| - |r.content| - 1..|Block(r)| - 1] == r.content
    ensures Block(r)[|Block(r)| - 1] == '\n'
  {
    var b := Block(r);
    var head := "\n--- FILE: " + RelPath(r.dir, r.name) + " ---\n";
    assert b == head + r.content + "\n";
    assert b[|b| - |r.content| - 1..|b| - 1] == r.content;
  }

  /** The output document: the blocks one after another, nothing else. */
  function Render(rs: seq<Record>): string
  {
    if |rs| == 0 then "" else Block(rs[0]) + Render(rs[1..])
  }

  /** The document is empty exactly when there is nothing to pack. */
  lemma RenderEmpty(rs: seq<Record>)
    ensures Render(rs) == "" <==> |rs| == 0
  {
    if |rs| > 0 {
      BlockLayout(rs[0]);
    }
  }

  /** The entries for which `keep` holds, in their original order. */
  function Filter(es: seq<Entry>, keep: Entry -> bool): (r: seq<Entry>)
    ensures |r| <= |es|
    ensures forall k :: 0 <= k < |r| ==> keep(r[k]) && r[k] in es
  {
    if |es| == 0 then []
    else (if keep(es[0]) then [es[0]] else []) + Filter(es[1..], keep)
  }

  /** A walked file that gets a block: readable and not excluded by extension. */
  function Packable(exts: seq<string>): Entry -> bool
  {
    (e: Entry) => e.content.Some? && !Excluded(e.name, exts)
  }

  /** A walked file that draws a warning: not excluded, but unreadable. The
      extension test comes first in the source, so an excluded file is never
      opened and never warned about. */
  function Unreadable(exts: seq<string>): Entry -> bool
  {
    (e: Entry) => e.content.None? && !Excluded(e.name, exts)
  }

  function Records(es: seq<Entry>, exts: seq<string>): seq<Record>
  {
    var kept := Filter(es, Packable(exts));
    seq(|kept|, k requires 0 <= k < |kept| => Record(kept[k].dir, kept[k].name, kept[k].content.value))
  }

  function Warnings(es: seq<Entry>, exts: seq<string>): seq<string>
  {
    var bad := Filter(es, Unreadable(exts));
    seq(|bad|, k requires 0 <= k < |bad| => RelPath(bad[k].dir, bad[k].name))
  }

  /** The records `pack_repository` writes for the tree rooted at `root`. */
  function PackedRecords(root: Node, ignoreExtensions: Option<seq<string>>, ignoreDirs: Option<seq<string>>): seq<Record>
  {
    Records(Visit(root, OrEmpty(ignoreDirs)), OrEmpty(ignoreExtensions))
  }

  function PackedWarnings(root: Node, ignoreExtensions: Option<seq<string>>, ignoreDirs: Option<seq<string>>): seq<string>
  {
    Warnings(Visit(root, OrEmpty(ignoreDirs)), OrEmpty(ignoreExtensions))
  }

  /** `pack_repository(repo_path, output_file, ignore_extensions, ignore_dirs)`.
      `root` is what the file system holds at `repoPath`: `None` when nothing
      exists there. A missing root fails before the output file is opened;
      otherwise the output file is truncated and then receives exactly the
      rendered records, and the output path is returned. */
  function Pack(repoPath: string, root: Option<Node>, outputFile: string,
                ignoreExtensions: Option<seq<string>>, ignoreDirs: Option<seq<string>>): (r: Result<Packed, PackError>)
    ensures r.Failure? <==> root.None?
    ensures r.Failure? ==> r.error == RepositoryNotFound(repoPath)
    ensures r.Success? ==> r.value.outputFile == outputFile
    ensures r.Success? && root.value.File? ==> r.value.text == "" && r.value.warnings == []
  {
    match root
    case None => Failure(RepositoryNotFound(repoPath))
    case Some(n) =>
      Success(Packed(outputFile, Render(PackedRecords(n, ignoreExtensions, ignoreDirs)),
                     PackedWarnings(n, ignoreExtensions, ignoreDirs)))
  }

  // ---------------------------------------------------------------------------
  // The write loop

  lemma {:induction false} FilterAppend(a: seq<Entry>, b: seq<Entry>, keep: Entry -> bool)
    ensures Filter(a + b, keep) == Filter(a, keep) + Filter(b, keep)
  {
    if |a| > 0 {
      FilterAppend(a[1..], b, keep);
      assert (a + b)[1..] == a[1..] + b;
    } else {
      assert a + b == b;
    }
  }

  lemma {:induction false} RenderAppend(a: seq<Record>, b: seq<Record>)
    ensures Render(a + b) == Render(a) + Render(b)
  {
    if |a| > 0 {
      RenderAppend(a[1..], b);
      assert (a + b)[1..] == a[1..] + b;
    } else {
      assert a + b == b;
    }
  }

  lemma RecordsAppendOne(es: seq<Entry>, e: Entry, exts: seq<string>)
    ensures Records(es + [e], exts) ==
      Records(es, exts) + (if Packable(exts)(e) then [Record(e.dir, e.name, e.content.value)] else [])
  {
    FilterAppend(es, [e], Packable(exts));
    assert Filter([e], Packable(exts)) == if Packable(exts)(e) then [e] else [];
  }

  lemma WarningsAppendOne(es: seq<Entry>, e: Entry, exts: seq<string>)
    ensures Warnings(es + [e], exts) ==
      Warnings(es, exts) + (if Unreadable(exts)(e) then [RelPath(e.dir, e.name)] else [])
  {
    FilterAppend(es, [e], Unreadable(exts));
    assert Filter([e], Unreadable(exts)) == if Unreadable(exts)(e) then [e] else [];
  }

  /** An excluded file changes neither the document nor the warnings. */
  lemma SkipStep(es: seq<Entry>, e: Entry, exts: seq<string>)
    requires Excluded(e.name, exts)
    ensures Records(es + [e], exts) == Records(es, exts)
    ensures Warnings(es + [e], exts) == Warnings(es, exts)
  {
    RecordsAppendOne(es, e, exts);
    WarningsAppendOne(es, e, exts);
  }

  /** Writing the header, the content and the closing newline one after
      another appends exactly the file's block. */
  lemma ThreeWrites(text: string, r: Record)
    ensures text + ("\n--- FILE: " + RelPath(r.dir, r.name) + " ---\n") + r.content + "\n" == text + Block(r)
  {
  }

  /** A readable file extends the document by its block. */
  lemma ReadStep(es: seq<Entry>, e: Entry, exts: seq<string>, text: string, content: string)
    requires !Excluded(e.name, exts) && e.content == Some(content)
    requires text == Render(Records(es, exts))
    ensures text + Block(Record(e.dir, e.name, content)) == Render(Records(es + [e], exts))
    ensures Warnings(es + [e], exts) == Warnings(es, exts)
  {
    var r := Record(e.dir, e.name, content);
    RecordsAppendOne(es, e, exts);
    WarningsAppendOne(es, e, exts);
    RenderAppend(Records(es, exts), [r]);
    assert Render([r]) == Block(r) + Render([]);
  }

  /** An unreadable file adds one warning and nothing to the document. */
  lemma WarnStep(es: seq<Entry>, e: Entry, exts: seq<string>)
    requires !Excluded(e.name, exts) && e.content.None?
    ensures Records(es + [e], exts) == Records(es, exts)
    ensures Warnings(es + [e], exts) == Warnings(es, exts) + [RelPath(e.dir, e.name)]
  {
    RecordsAppendOne(es, e, exts);
    WarningsAppendOne(es, e, exts);
  }

  /** The loop body of `pack_repository`, run over the files of the walk in
      order: skip excluded names, write header, content and newline for a
      readable file, warn about an unreadable one. What it writes is exactly
      the rendering of the packable records, and it warns exactly about the
      unreadable files. */
  method WriteFiles(entries: seq<Entry>, exts: seq<string>) returns (text: string, warnings: seq<string>)
    ensures text == Render(Records(entries, exts))
    ensures warnings == Warnings(entries, exts)
  {
    text := "";
    warnings := [];
    var i := 0;
    while i < |entries|
      invariant 0 <= i <= |entries|
      invariant text == Render(Records(entries[..i], exts))
      invariant warnings == Warnings(entries[..i], exts)
    {
      var e := entries[i];
      assert entries[..i + 1] == entries[..i] + [e];
      if Excluded(e.name, exts) {
        SkipStep(entries[..i], e, exts);
      } else {
        match e.content {
          case Some(content) =>
            ReadStep(entries[..i], e, exts, text, content);
            ThreeWrites(text, Record(e.dir, e.name, content));
            text := text + ("\n--- FILE: " + RelPath(e.dir, e.name) + " ---\n");
            text := text + content;
            text := text + "\n";
          case None =>
            WarnStep(entries[..i], e, exts);
            warnings := warnings + [RelPath(e.dir, e.name)];
        }
      }
      i := i + 1;
    }
    assert entries[..|entries|] == entries;
  }

  // ---------------------------------------------------------------------------
  // Which files are packed

  lemma {:induction false} FilterMember(es: seq<Entry>, keep: Entry -> bool, e: Entry)
    ensures e in Filter(es, keep) <==> e in es && keep(e)
  {
    if |es| > 0 {
      FilterMember(es[1..], keep, e);
      if e in es && e != es[0] {
        var k :| 0 <= k < |es| && es[k] == e;
        assert es[1..][k - 1] == e;
      }
    }
  }

  lemma RecordsMember(es: seq<Entry>, exts: seq<string>, r: Record)
    ensures r in Records(es, exts) <==> Entry(r.dir, r.name, Some(r.content)) in es && !Excluded(r.name, exts)
  {
    var kept := Filter(es, Packable(exts));
    var e := Entry(r.dir, r.name, Some(r.content));
    FilterMember(es, Packable(exts), e);
    if r in Records(es, exts) {
      var k :| 0 <= k < |kept| && Records(es, exts)[k] == r;
      assert kept[k] == e;
    }
    if e in kept {
      var k :| 0 <= k < |kept| && kept[k] == e;
      assert Records(es, exts)[k] == r;
    }
  }

  lemma WarningsMember(es: seq<Entry>, exts: seq<string>, w: string)
    ensures w in Warnings(es, exts) <==>
      exists e :: e in es && e.content.None? && !Excluded(e.name, exts) && w == RelPath(e.dir, e.name)
  {
    var bad := Filter(es, Unreadable(exts));
    if w in Warnings(es, exts) {
      var k :| 0 <= k < |bad| && Warnings(es, exts)[k] == w;
      assert bad[k] in es && Unreadable(exts)(bad[k]);
    }
    if exists e :: e in es && e.content.None? && !Excluded(e.name, exts) && w == RelPath(e.dir, e.name) {
      var e :| e in es && e.content.None? && !Excluded(e.name, exts) && w == RelPath(e.dir, e.name);
      FilterMember(es, Unreadable(exts), e);
      var k :| 0 <= k < |bad| && bad[k] == e;
      assert Warnings(es, exts)[k] == w;
    }
  }

  /** A file gets a block exactly when it lies below the root outside every
      ignored directory, is readable, and its name ends with no ignored
      extension. Whether other files are readable plays no part. */
  lemma PackedExactly(root: Node, ignoreExtensions: Option<seq<string>>, ignoreDirs: Option<seq<string>>, r: Record)
    ensures r in PackedRecords(root, ignoreExtensions, ignoreDirs) <==>
      && FileBelow(root, r.dir, r.name, Some(r.content), OrEmpty(ignoreDirs))
      && !Excluded(r.name, OrEmpty(ignoreExtensions))
  {
    RecordsMember(Visit(root, OrEmpty(ignoreDirs)), OrEmpty(ignoreExtensions), r);
    VisitMember(root, OrEmpty(ignoreDirs), Entry(r.dir, r.name, Some(r.content)));
  }

  /** An unreadable file draws a warning exactly when it would otherwise have
      been packed, and every warning names such a file. */
  lemma WarnedExactly(root: Node, ignoreExtensions: Option<seq<string>>, ignoreDirs: Option<seq<string>>, w: string)
    ensures w in PackedWarnings(root, ignoreExtensions, ignoreDirs) <==>
      exists dir, name :: && FileBelow(root, dir, name, None, OrEmpty(ignoreDirs))
                          && !Excluded(name, OrEmpty(ignoreExtensions))
                          && w == RelPath(dir, name)
  {
    var dirs := OrEmpty(ignoreDirs);
    var exts := OrEmpty(ignoreExtensions);
    var es := Visit(root, dirs);
    WarningsMember(es, exts, w);
    if w in PackedWarnings(root, ignoreExtensions, ignoreDirs) {
      var e :| e in es && e.content.None? && !Excluded(e.name, exts) && w == RelPath(e.dir, e.name);
      VisitMember(root, dirs, e);
      assert e == Entry(e.dir, e.name, None);
    }
    if exists dir, name :: && FileBelow(root, dir, name, None, dirs) && !Excluded(name, exts) && w == RelPath(dir, name) {
      var dir, name :| && FileBelow(root, dir, name, None, dirs) && !Excluded(name, exts) && w == RelPath(dir, name);
      VisitMember(root, dirs, Entry(dir, name, None));
    }
  }

  /** No packed file has a name ending with an ignored extension. */
  lemma ExcludedNeverPacked(root: Node, ignoreExtensions: Option<seq<string>>, ignoreDirs: Option<seq<string>>)
    ensures forall r :: r in PackedRecords(root, ignoreExtensions, ignoreDirs) ==> !Excluded(r.name, OrEmpty(ignoreExtensions))
  {
    forall r | r in PackedRecords(root, ignoreExtensions, ignoreDirs)
      ensures !Excluded(r.name, OrEmpty(ignoreExtensions))
    {
      PackedExactly(root, ignoreExtensions, ignoreDirs, r);
    }
  }

  /** Pruning at any depth: no packed file lies beneath a directory whose name
      is in the ignore list. */
  lemma IgnoredDirsNeverEntered(root: Node, ignoreExtensions: Option<seq<string>>, ignoreDirs: Option<seq<string>>)
    ensures forall r, k :: r in PackedRecords(root, ignoreExtensions, ignoreDirs) && 0 <= k < |r.dir| ==>
      r.dir[k] !in OrEmpty(ignoreDirs)
  {
    var dirs := OrEmpty(ignoreDirs);
    forall r | r in PackedRecords(root, ignoreExtensions, ignoreDirs)
      ensures forall k :: 0 <= k < |r.dir| ==> r.dir[k] !in dirs
    {
      RecordsMember(Visit(root, dirs), OrEmpty(ignoreExtensions), r);
      NothingBelowIgnoredDir(root, dirs, Entry(r.dir, r.name, Some(r.content)));
    }
  }

  /** The root itself is never pruned: a readable file directly in it is packed
      unless its extension is ignored, even when the root's own name is in the
      directory ignore list. */
  lemma RootNeverPruned(name: string, children: seq<Node>, ignoreExtensions: Option<seq<string>>,
                        ignoreDirs: Option<seq<string>>, fileName: string, content: string)
    requires File(fileName, Some(content)) in children
    requires !Excluded(fileName, OrEmpty(ignoreExtensions))
    ensures Record([], fileName, content) in PackedRecords(Dir(name, children), ignoreExtensions, ignoreDirs)
  {
    PackedExactly(Dir(name, children), ignoreExtensions, ignoreDirs, Record([], fileName, content));
  }

  /** With no ignore lists, or empty ones, every readable file in the tree is
      packed. */
  lemma NoFiltersPackEverything(root: Node, ignoreExtensions: Option<seq<string>>, ignoreDirs: Option<seq<string>>, r: Record)
    requires ignoreExtensions == None || ignoreExtensions == Some([])
    requires ignoreDirs == None || ignoreDirs == Some([])
    ensures r in PackedRecords(root, ignoreExtensions, ignoreDirs) <==> FileBelow(root, r.dir, r.name, Some(r.content), [])
  {
    PackedExactly(root, ignoreExtensions, ignoreDirs, r);
  }

  lemma {:induction false} FilterNone(es: seq<Entry>, keep: Entry -> bool)
    requires forall e :: e in es ==> !keep(e)
    ensures Filter(es, keep) == []
  {
    if |es| > 0 {
      assert es[0] in es;
      FilterNone(es[1..], keep);
    }
  }

  /** Submitting the extension field empty parses to `[""]`, which matches every
      name: the output file is written empty and no file is even read. */
  lemma EmptyExtensionFieldPacksNothing(repoPath: string, root: Node, outputFile: string, ignoreDirs: Option<seq<string>>)
    ensures Pack(repoPath, Some(root), outputFile, Some(ParseList("")), ignoreDirs) == Success(Packed(outputFile, "", []))
  {
    ParseEmptyText();
    var es := Visit(root, OrEmpty(ignoreDirs));
    forall e | e in es
      ensures !Packable([""])(e) && !Unreadable([""])(e)
    {
      EmptyEntryExcludesEverything(e.name, [""]);
    }
    FilterNone(es, Packable([""]));
    FilterNone(es, Unreadable([""]));
    assert OrEmpty(Some(ParseList(""))) == [""];
    assert Records(es, [""]) == [];
    assert Warnings(es, [""]) == [];
    assert Render([]) == "";
  }

  // ---------------------------------------------------------------------------
  // Order and uniqueness

  lemma {:induction false} FilterTopDown(es: seq<Entry>, keep: Entry -> bool)
    requires TopDown(es)
    ensures TopDown(Filter(es, keep))
  {
    if |es| > 0 {
      var head := if keep(es[0]) then [es[0]] else [];
      var tail := Filter(es[1..], keep);
      FilterTopDown(es[1..], keep);
      forall x, y | x in head && y in tail
        ensures !(y.dir < x.dir)
      {
        FilterMember(es[1..], keep, y);
        var k :| 0 <= k < |es[1..]| && es[1..][k] == y;
        assert es[k + 1] == y;
      }
      TopDownConcat(head, tail);
    }
  }

  lemma {:induction false} FilterDistinct(es: seq<Entry>, keep: Entry -> bool)
    requires Distinct(es)
    ensures Distinct(Filter(es, keep))
  {
    if |es| > 0 {
      var head := if keep(es[0]) then [es[0]] else [];
      var tail := Filter(es[1..], keep);
      FilterDistinct(es[1..], keep);
      forall x, y | x in head && y in tail
        ensures !SameFile(x, y)
      {
        FilterMember(es[1..], keep, y);
        var k :| 0 <= k < |es[1..]| && es[1..][k] == y;
        assert es[k + 1] == y;
      }
      DistinctConcat(head, tail);
    }
  }

  /** Blocks follow the top-down walk: no block comes after a block from a
      subdirectory of its own directory. In particular the root's own files come
      first. */
  lemma PackedTopDown(root: Node, ignoreExtensions: Option<seq<string>>, ignoreDirs: Option<seq<string>>)
    requires WellFormed(root)
    ensures var rs := PackedRecords(root, ignoreExtensions, ignoreDirs);
      forall i, j :: 0 <= i < j < |rs| ==> !(rs[j].dir < rs[i].dir)
  {
    var es := Visit(root, OrEmpty(ignoreDirs));
    VisitTopDown(root, OrEmpty(ignoreDirs));
    FilterTopDown(es, Packable(OrEmpty(ignoreExtensions)));
  }

  /** Distinct component sequences give distinct relative paths. */
  lemma RelPathInjective(dir1: seq<string>, name1: string, dir2: seq<string>, name2: string)
    requires forall k :: 0 <= k < |dir1| ==> '/' !in dir1[k]
    requires forall k :: 0 <= k < |dir2| ==> '/' !in dir2[k]
    requires '/' !in name1 && '/' !in name2
    requires RelPath(dir1, name1) == RelPath(dir2, name2)
    ensures dir1 == dir2 && name1 == name2
  {
    var p1 := dir1 + [name1];
    var p2 := dir2 + [name2];
    RelPathSplits(dir1, name1);
    RelPathSplits(dir2, name2);
    assert p1 == p2;
    assert dir1 == p1[..|p1| - 1] && dir2 == p2[..|p2| - 1];
  }

  /** In a real tree every packed file has its own header: no relative path is
      written twice. */
  lemma PackedOnce(root: Node, ignoreExtensions: Option<seq<string>>, ignoreDirs: Option<seq<string>>)
    requires WellFormed(root)
    ensures var rs := PackedRecords(root, ignoreExtensions, ignoreDirs);
      forall i, j :: 0 <= i < j < |rs| ==> RelPath(rs[i].dir, rs[i].name) != RelPath(rs[j].dir, rs[j].name)
  {
    var dirs := OrEmpty(ignoreDirs);
    var exts := OrEmpty(ignoreExtensions);
    var es := Visit(root, dirs);
    var kept := Filter(es, Packable(exts));
    var rs := PackedRecords(root, ignoreExtensions, ignoreDirs);
    VisitDistinct(root, dirs);
    FilterDistinct(es, Packable(exts));
    forall i, j | 0 <= i < j < |rs|
      ensures RelPath(rs[i].dir, rs[i].name) != RelPath(rs[j].dir, rs[j].name)
    {
      assert !SameFile(kept[i], kept[j]);
      VisitMember(root, dirs, kept[i]);
      VisitMember(root, dirs, kept[j]);
      FileBelowComponents(root, kept[i].dir, kept[i].name, kept[i].content, dirs);
      FileBelowComponents(root, kept[j].dir, kept[j].name, kept[j].content, dirs);
      if RelPath(rs[i].dir, rs[i].name) == RelPath(rs[j].dir, rs[j].name) {
        RelPathInjective(rs[i].dir, rs[i].name, rs[j].dir, rs[j].name);
      }
    }
  }

  /** In a real tree each unreadable file draws exactly one warning: no path
      is warned about twice. */
  lemma WarnedOnce(root: Node, ignoreExtensions: Option<seq<string>>, ignoreDirs: Option<seq<string>>)
    requires WellFormed(root)
    ensures var ws := PackedWarnings(root, ignoreExtensions, ignoreDirs);
      forall i, j :: 0 <= i < j < |ws| ==> ws[i] != ws[j]
  {
    var dirs := OrEmpty(ignoreDirs);
    var exts := OrEmpty(ignoreExtensions);
    var es := Visit(root, dirs);
    var bad := Filter(es, Unreadable(exts));
    var ws := PackedWarnings(root, ignoreExtensions, ignoreDirs);
    VisitDistinct(root, dirs);
    FilterDistinct(es, Unreadable(exts));
    forall i, j | 0 <= i < j < |ws|
      ensures ws[i] != ws[j]
    {
      assert !SameFile(bad[i], bad[j]);
      VisitMember(root, dirs, bad[i]);
      VisitMember(root, dirs, bad[j]);
      FileBelowComponents(root, bad[i].dir, bad[i].name, bad[i].content, dirs);
      FileBelowComponents(root, bad[j].dir, bad[j].name, bad[j].content, dirs);
      if ws[i] == ws[j] {
        RelPathInjective(bad[i].dir, bad[i].name, bad[j].dir, bad[j].name);
      }
    }
  }

  // ---------------------------------------------------------------------------
  // Listed order within a directory

  lemma {:induction false} FilterBefore(es: seq<Entry>, keep: Entry -> bool, x: Entry, y: Entry)
    requires Before(es, x, y) && keep(x) && keep(y)
    ensures Before(Filter(es, keep), x, y)
  {
    var p, q :| 0 <= p < q < |es| && es[p] == x && es[q] == y;
    var rest := es[1..];
    var head := if keep(es[0]) then [es[0]] else [];
    assert Filter(es, keep) == head + Filter(rest, keep);
    assert rest[q - 1] == y;
    if p == 0 {
      FilterMember(rest, keep, y);
      BeforeHead(x, Filter(rest, keep), y);
    } else {
      assert rest[p - 1] == x;
      FilterBefore(rest, keep, x, y);
      BeforeRight(head, Filter(rest, keep), x, y);
    }
  }

  lemma RecordsBefore(es: seq<Entry>, exts: seq<string>, x: Entry, y: Entry)
    requires Before(es, x, y) && Packable(exts)(x) && Packable(exts)(y)
    ensures Before(Records(es, exts), Record(x.dir, x.name, x.content.value), Record(y.dir, y.name, y.content.value))
  {
    FilterBefore(es, Packable(exts), x, y);
    var kept := Filter(es, Packable(exts));
    var p, q :| 0 <= p < q < |kept| && kept[p] == x && kept[q] == y;
    assert Records(es, exts)[p] == Record(x.dir, x.name, x.content.value);
    assert Records(es, exts)[q] == Record(y.dir, y.name, y.content.value);
  }

  /** In any directory the walk enters, two packed files get their blocks in
      the order the directory lists them, at every depth. */
  lemma PackedListedOrder(root: Node, ignoreExtensions: Option<seq<string>>, ignoreDirs: Option<seq<string>>,
                          dir: seq<string>, d: Node, i: int, j: int)
    requires DirAt(root, dir, d, OrEmpty(ignoreDirs))
    requires d.Dir? && 0 <= i < j < |d.children|
    requires d.children[i].File? && d.children[i].content.Some? && !Excluded(d.children[i].name, OrEmpty(ignoreExtensions))
    requires d.children[j].File? && d.children[j].content.Some? && !Excluded(d.children[j].name, OrEmpty(ignoreExtensions))
    ensures Before(PackedRecords(root, ignoreExtensions, ignoreDirs),
                   Record(dir, d.children[i].name, d.children[i].content.value),
                   Record(dir, d.children[j].name, d.children[j].content.value))
  {
    var x := Entry(dir, d.children[i].name, d.children[i].content);
    var y := Entry(dir, d.children[j].name, d.children[j].content);
    VisitListedOrder(root, OrEmpty(ignoreDirs), dir, d, i, j);
    RecordsBefore(Visit(root, OrEmpty(ignoreDirs)), OrEmpty(ignoreExtensions), x, y);
  }
}
