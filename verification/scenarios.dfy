/** Concrete runs of the model: the form's default field values, and a small
    example repository holding `a.txt`, an unreadable `b.png` and
    `.git/config`. Each step sits in its own lemma so that no proof has to
    evaluate a long literal at once. */
module Scenarios {
  import opened Wrappers
  import opened Text
  import opened FsTree
  import opened Walk
  import opened IgnoreRules
  import opened Packer

  lemma ExtensionPieces()
    ensures DisplayPieces([".exe", ".png", ".jpg", ".pdf", ".zip", ".tar"])
         == [".exe", " .png", " .jpg", " .pdf", " .zip", " .tar"]
  {
    var w := [".exe", ".png", ".jpg", ".pdf", ".zip", ".tar"];
    var p := DisplayPieces(w);
    assert p[1] == [' '] + w[1] == " .png";
    assert p[2] == [' '] + w[2] == " .jpg";
    assert p[3] == [' '] + w[3] == " .pdf";
    assert p[4] == [' '] + w[4] == " .zip";
    assert p[5] == [' '] + w[5] == " .tar";
  }

  lemma ExtensionJoin()
    ensures Join([".exe", " .png", " .jpg", " .pdf", " .zip", " .tar"], ',')
         == ".exe" + [','] + (" .png" + [','] + (" .jpg" + [','] + (" .pdf" + [','] + (" .zip" + [','] + " .tar"))))
  {
    JoinCons(" .zip", [" .tar"], ',');
    JoinCons(" .pdf", [" .zip", " .tar"], ',');
    JoinCons(" .jpg", [" .pdf", " .zip", " .tar"], ',');
    JoinCons(" .png", [" .jpg", " .pdf", " .zip", " .tar"], ',');
    JoinCons(".exe", [" .png", " .jpg", " .pdf", " .zip", " .tar"], ',');
  }

  lemma ExtensionText()
    ensures ".exe" + [','] + (" .png" + [','] + (" .jpg" + [','] + (" .pdf" + [','] + (" .zip" + [','] + " .tar"))))
         == ".exe, .png, .jpg, .pdf, .zip, .tar"
  {
  }

  lemma ExtensionDisplay()
    ensures Display([".exe", ".png", ".jpg", ".pdf", ".zip", ".tar"]) == ".exe, .png, .jpg, .pdf, .zip, .tar"
  {
    ExtensionPieces();
    ExtensionJoin();
    ExtensionText();
  }

  lemma ExtensionWords()
    ensures forall k :: 0 <= k < 6 ==> IsListWord([".exe", ".png", ".jpg", ".pdf", ".zip", ".tar"][k])
  {
    var w := [".exe", ".png", ".jpg", ".pdf", ".zip", ".tar"];
    assert IsListWord(w[0]) && IsListWord(w[1]) && IsListWord(w[2]);
    assert IsListWord(w[3]) && IsListWord(w[4]) && IsListWord(w[5]);
  }

  /** The default extension field parses to six extensions. */
  lemma DefaultExtensions()
    ensures ParseList(".exe, .png, .jpg, .pdf, .zip, .tar") == [".exe", ".png", ".jpg", ".pdf", ".zip", ".tar"]
  {
    ExtensionWords();
    ExtensionDisplay();
    ParseDisplay([".exe", ".png", ".jpg", ".pdf", ".zip", ".tar"]);
  }

  lemma DirectoryPieces()
    ensures DisplayPieces([".git", "node_modules", "__pycache__"]) == [".git", " node_modules", " __pycache__"]
  {
    var w := [".git", "node_modules", "__pycache__"];
    var p := DisplayPieces(w);
    assert p[1] == [' '] + w[1] == " node_modules";
    assert p[2] == [' '] + w[2] == " __pycache__";
  }

  lemma DirectoryJoin()
    ensures Join([".git", " node_modules", " __pycache__"], ',') == ".git" + [','] + (" node_modules" + [','] + " __pycache__")
  {
    JoinCons(" node_modules", [" __pycache__"], ',');
    JoinCons(".git", [" node_modules", " __pycache__"], ',');
  }

  lemma DirectoryText()
    ensures ".git" + [','] + (" node_modules" + [','] + " __pycache__") == ".git, node_modules, __pycache__"
  {
  }

  lemma DirectoryDisplay()
    ensures Display([".git", "node_modules", "__pycache__"]) == ".git, node_modules, __pycache__"
  {
    DirectoryPieces();
    DirectoryJoin();
    DirectoryText();
  }

  /** The default directory field parses to three directory names. */
  lemma DefaultDirectories()
    ensures ParseList(".git, node_modules, __pycache__") == [".git", "node_modules", "__pycache__"]
  {
    var w := [".git", "node_modules", "__pycache__"];
    assert IsListWord(w[0]) && IsListWord(w[1]) && IsListWord(w[2]);
    DirectoryDisplay();
    ParseDisplay(w);
  }

  /** A small example repository: `a.txt` holding "hello", an unreadable `b.png`,
      and `.git/config`. */
  function Example(): Node
  {
    Dir("repo", [File("a.txt", Some("hello")), File("b.png", None), Dir(".git", [File("config", Some("[core]"))])])
  }

  lemma ExampleWalk()
    ensures Visit(Example(), [".git"]) == [Entry([], "a.txt", Some("hello")), Entry([], "b.png", None)]
  {
    var children := Example().children;
    var a := Entry([], "a.txt", Some("hello"));
    var b := Entry([], "b.png", None);
    assert OwnFiles(children[2..]) == [];
    assert OwnFiles(children[1..]) == [b];
    assert OwnFiles(children) == [a, b];
    assert VisitSubdirs(children[2..], [".git"]) == [];
    assert VisitSubdirs(children[1..], [".git"]) == [];
    assert VisitSubdirs(children, [".git"]) == [];
  }

  /** `a.txt` does not end with `.png`. */
  lemma TextFileKept()
    ensures !Excluded("a.txt", [".png"])
  {
    assert "a.txt"[1..] != ".png" by { assert "a.txt"[1..][1] != ".png"[1]; }
  }

  /** `b.png` ends with `.png`. */
  lemma ImageFileSkipped()
    ensures Excluded("b.png", [".png"])
  {
    assert EndsWith("b.png", [".png"][0]);
  }

  lemma ExampleSelection()
    ensures Filter([Entry([], "a.txt", Some("hello")), Entry([], "b.png", None)], Packable([".png"]))
         == [Entry([], "a.txt", Some("hello"))]
    ensures Filter([Entry([], "a.txt", Some("hello")), Entry([], "b.png", None)], Unreadable([".png"])) == []
  {
    var es := [Entry([], "a.txt", Some("hello")), Entry([], "b.png", None)];
    TextFileKept();
    ImageFileSkipped();
    assert Filter(es[1..], Packable([".png"])) == [];
    assert Filter(es[1..], Unreadable([".png"])) == [];
  }

  lemma ExampleRecordsOfWalk()
    ensures Records([Entry([], "a.txt", Some("hello")), Entry([], "b.png", None)], [".png"]) == [Record([], "a.txt", "hello")]
    ensures Warnings([Entry([], "a.txt", Some("hello")), Entry([], "b.png", None)], [".png"]) == []
  {
    ExampleSelection();
  }

  lemma ExampleRecords()
    ensures PackedRecords(Example(), Some([".png"]), Some([".git"])) == [Record([], "a.txt", "hello")]
    ensures PackedWarnings(Example(), Some([".png"]), Some([".git"])) == []
  {
    ExampleWalk();
    ExampleRecordsOfWalk();
    assert OrEmpty(Some([".png"])) == [".png"] && OrEmpty(Some([".git"])) == [".git"];
  }

  lemma ExamplePath()
    ensures RelPath([], "a.txt") == "a.txt"
  {
    assert [] + ["a.txt"] == ["a.txt"];
  }

  lemma ExampleBlock()
    ensures Block(Record([], "a.txt", "hello")) == "\n--- FILE: a.txt ---\nhello\n"
  {
    ExamplePath();
  }

  lemma ExampleText()
    ensures Render([Record([], "a.txt", "hello")]) == "\n--- FILE: a.txt ---\nhello\n"
  {
    var r := Record([], "a.txt", "hello");
    ExampleBlock();
    assert Render([r]) == Block(r) + Render([]);
  }

  /** With `.png` and `.git` ignored only `a.txt` is packed, and nothing is
      warned about because `b.png` is never opened. */
  lemma ExamplePack()
    ensures Pack("repo", Some(Example()), "packed_repo.txt", Some([".png"]), Some([".git"]))
         == Success(Packed("packed_repo.txt", "\n--- FILE: a.txt ---\nhello\n", []))
  {
    ExampleRecords();
    ExampleText();
  }
}
