/** The two ignore lists: how the form's comma-separated text becomes a list,
    and how each list is matched against a file or directory name. */
module IgnoreRules {
  import opened Wrappers
  import opened Text

  /** `[piece.strip() for piece in text.split(",")]`: one entry per
      comma-separated segment, each with its surrounding whitespace removed. */
  function ParseList(text: string): (r: seq<string>)
    ensures |r| == |Split(text, ',')|
    ensures forall k :: 0 <= k < |r| ==> IsStripOf(r[k], Split(text, ',')[k])
  {
    var pieces := Split(text, ',');
    seq(|pieces|, k requires 0 <= k < |pieces| => Strip(pieces[k]))
  }

  /** A parsed list has one entry per comma plus one, none containing a comma,
      and each entry is already stripped. */
  lemma ParseListShape(text: string)
    ensures |ParseList(text)| == Count(text, ',') + 1
    ensures forall k :: 0 <= k < |ParseList(text)| ==>
      ',' !in ParseList(text)[k] && Strip(ParseList(text)[k]) == ParseList(text)[k]
  {
    SplitLength(text, ',');
    SplitPiecesHaveNoSeparator(text, ',');
    var r := ParseList(text);
    var pieces := Split(text, ',');
    forall k | 0 <= k < |r|
      ensures ',' !in r[k] && Strip(r[k]) == r[k]
    {
      var i :| SliceWithin(r[k], pieces[k], i);
      assert r[k] == pieces[k][i..i + |r[k]|];
      StripIdempotent(pieces[k]);
    }
  }

  /** An empty text field does not give an empty list: it gives one empty entry. */
  lemma ParseEmptyText()
    ensures ParseList("") == [""]
  {
    assert Split("", ',') == [""];
    StripUnique("", "") by { assert SliceWithin("", "", 0); }
  }

  /** A list entry as a user types it: free of commas and without whitespace
      at either end (it may be empty). */
  predicate IsListWord(w: string)
  {
    ',' !in w && (w == [] || (!IsSpace(w[0]) && !IsSpace(w[|w| - 1])))
  }

  /** How the form shows a list, e.g. `.git, node_modules, __pycache__`: the
      entries separated by a comma and a blank. */
  function Display(words: seq<string>): string
  {
    Join(DisplayPieces(words), ',')
  }

  /** The comma-separated segments of `Display(words)`: the first entry, then
      each further entry preceded by its blank. */
  function DisplayPieces(words: seq<string>): seq<string>
  {
    seq(|words|, k requires 0 <= k < |words| => if k == 0 then words[k] else [' '] + words[k])
  }

  /** Parsing inverts displaying: a list written in the form's own style
      parses back to exactly its entries. */
  lemma ParseDisplay(words: seq<string>)
    requires |words| >= 1
    requires forall k :: 0 <= k < |words| ==> IsListWord(words[k])
    ensures ParseList(Display(words)) == words
  {
    var pieces := DisplayPieces(words);
    forall k | 0 <= k < |pieces|
      ensures ',' !in pieces[k]
    {
      if k > 0 {
        assert pieces[k] == [' '] + words[k];
      }
    }
    SplitJoin(pieces, ',');
    forall k | 0 <= k < |words|
      ensures Strip(pieces[k]) == words[k]
    {
      if k == 0 {
        StripBare(words[k]);
      } else {
        StripLeadingBlank(words[k]);
      }
    }
  }

  /** `ignore_list or []`: a missing list counts as empty. The result is empty
      exactly when the list is missing or empty, as Python's truth test of a
      list says; a non-empty list is used as given. */
  function OrEmpty(list: Option<seq<string>>): (r: seq<string>)
    ensures r == [] <==> list == None || list == Some([])
    ensures list.Some? && list.value != [] ==> r == list.value
  {
    match list
    case None => []
    case Some(l) => l
  }

  /** `any(name.endswith(ext) for ext in exts)`. */
  predicate Excluded(name: string, exts: seq<string>)
  {
    exists k :: 0 <= k < |exts| && EndsWith(name, exts[k])
  }

  /** A name is excluded exactly when it is some stem followed by one of the
      listed extensions. */
  lemma ExcludedExactly(name: string, exts: seq<string>)
    ensures Excluded(name, exts) <==> exists stem: string, k :: 0 <= k < |exts| && stem + exts[k] == name
  {
    if Excluded(name, exts) {
      var k :| 0 <= k < |exts| && EndsWith(name, exts[k]);
      var stem := name[..|name| - |exts[k]|];
      assert stem + exts[k] == name;
    }
    if exists stem: string, k :: 0 <= k < |exts| && stem + exts[k] == name {
      var stem: string, k :| 0 <= k < |exts| && stem + exts[k] == name;
      assert name[|name| - |exts[k]|..] == exts[k];
    }
  }

  /** Python's `endswith("")` holds for every name, so a list holding the empty
      string, such as the one parsed from an empty field, excludes every file. */
  lemma EmptyEntryExcludesEverything(name: string, exts: seq<string>)
    requires "" in exts
    ensures Excluded(name, exts)
  {
    var k :| 0 <= k < |exts| && exts[k] == "";
    assert name[|name| - 0..] == "";
    assert EndsWith(name, exts[k]);
  }
}
