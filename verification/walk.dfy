/** The top-down directory walk with pruning: which files the packer reaches,
    with their paths relative to the root, in the order `os.walk` yields them. */
module Walk {
  import opened Wrappers
  import opened FsTree

  /** A file the walk reaches: the directory names from the root down to it,
      its own name, and its content (`None` when unreadable). */
  datatype Entry = Entry(dir: seq<string>, name: string, content: Option<string>)

  /** Files reached from directory `n`, paths relative to `n`. Top-down, a
      directory yields its own files first, in listed order, then descends into
      each subdirectory whose name is not in `ignoreDirs`, in listed order.
      `n` itself is never pruned; a file where a directory is expected yields
      nothing, as `os.walk` does when the listing fails. */
  function Visit(n: Node, ignoreDirs: seq<string>): seq<Entry>
  {
    match n
    case File(_, _) => []
    case Dir(_, children) => OwnFiles(children) + VisitSubdirs(children, ignoreDirs)
  }

  /** The `files` list of one walk step: the non-directory children, in order. */
  function OwnFiles(children: seq<Node>): seq<Entry>
  {
    if |children| == 0 then []
    else
      var c := children[0];
      (if c.File? then [Entry([], c.name, c.content)] else []) + OwnFiles(children[1..])
  }

  /** The walk below the directory children that survive pruning, in order. */
  function VisitSubdirs(children: seq<Node>, ignoreDirs: seq<string>): seq<Entry>
  {
    if |children| == 0 then []
    else
      var c := children[0];
      (if c.Dir? && c.name !in ignoreDirs then Under(c.name, Visit(c, ignoreDirs)) else [])
      + VisitSubdirs(children[1..], ignoreDirs)
  }

  /** Re-roots entries found inside subdirectory `name` one level up. */
  function Under(name: string, es: seq<Entry>): seq<Entry>
  {
    seq(|es|, k requires 0 <= k < |es| => Entry([name] + es[k].dir, es[k].name, es[k].content))
  }

  // ---------------------------------------------------------------------------
  // Which files are reached

  lemma {:induction false} OwnFilesMember(children: seq<Node>, e: Entry)
    ensures e in OwnFiles(children) <==>
      e.dir == [] && exists i :: 0 <= i < |children| && children[i] == File(e.name, e.content)
  {
    if |children| > 0 {
      OwnFilesMember(children[1..], e);
      if e.dir == [] && (exists i :: 0 <= i < |children| && children[i] == File(e.name, e.content)) {
        var i :| 0 <= i < |children| && children[i] == File(e.name, e.content);
        if i > 0 {
          assert children[1..][i - 1] == children[i];
        }
      }
    }
  }

  lemma UnderMember(name: string, es: seq<Entry>, e: Entry)
    ensures e in Under(name, es) <==>
      |e.dir| >= 1 && e.dir[0] == name && Entry(e.dir[1..], e.name, e.content) in es
  {
    if |e.dir| >= 1 && e.dir[0] == name && Entry(e.dir[1..], e.name, e.content) in es {
      var k :| 0 <= k < |es| && es[k] == Entry(e.dir[1..], e.name, e.content);
      assert [name] + e.dir[1..] == e.dir;
      assert Under(name, es)[k] == e;
    }
  }

  /** The walk reaches exactly the files `FileBelow` describes: every file
      below `n` whose directory path avoids the ignored names. */
  lemma {:induction false} VisitMember(n: Node, ignoreDirs: seq<string>, e: Entry)
    ensures e in Visit(n, ignoreDirs) <==> FileBelow(n, e.dir, e.name, e.content, ignoreDirs)
  {
    match n
    case File(_, _) =>
    case Dir(_, children) =>
      OwnFilesMember(children, e);
      VisitSubdirsMember(children, ignoreDirs, e);
  }

  lemma {:induction false} VisitSubdirsMember(children: seq<Node>, ignoreDirs: seq<string>, e: Entry)
    ensures e in VisitSubdirs(children, ignoreDirs) <==>
      && |e.dir| >= 1
      && e.dir[0] !in ignoreDirs
      && exists i :: 0 <= i < |children| && children[i].Dir? && children[i].name == e.dir[0]
                     && FileBelow(children[i], e.dir[1..], e.name, e.content, ignoreDirs)
  {
    if |children| > 0 {
      var c := children[0];
      var inner := Entry(if |e.dir| >= 1 then e.dir[1..] else [], e.name, e.content);
      VisitSubdirsMember(children[1..], ignoreDirs, e);
      if c.Dir? && c.name !in ignoreDirs {
        UnderMember(c.name, Visit(c, ignoreDirs), e);
        if |e.dir| >= 1 {
          VisitMember(c, ignoreDirs, inner);
        }
      }
      if && |e.dir| >= 1 && e.dir[0] !in ignoreDirs
         && exists i :: 0 <= i < |children| && children[i].Dir? && children[i].name == e.dir[0]
                        && FileBelow(children[i], e.dir[1..], e.name, e.content, ignoreDirs)
      {
        var i :| 0 <= i < |children| && children[i].Dir? && children[i].name == e.dir[0]
                 && FileBelow(children[i], e.dir[1..], e.name, e.content, ignoreDirs);
        if i > 0 {
          assert children[1..][i - 1] == children[i];
        } else {
          VisitMember(c, ignoreDirs, inner);
        }
      }
    }
  }

  /** Pruning at any depth: no reached file lies beneath a directory whose name
      is in `ignoreDirs`. */
  lemma {:induction false} NothingBelowIgnoredDir(n: Node, ignoreDirs: seq<string>, e: Entry)
    requires e in Visit(n, ignoreDirs)
    ensures forall k :: 0 <= k < |e.dir| ==> e.dir[k] !in ignoreDirs
  {
    VisitMember(n, ignoreDirs, e);
    FileBelowAvoids(n, e.dir, e.name, e.content, ignoreDirs);
  }

  lemma {:induction false} FileBelowAvoids(n: Node, dir: seq<string>, name: string, content: Option<string>, ignoreDirs: seq<string>)
    requires FileBelow(n, dir, name, content, ignoreDirs)
    ensures forall k :: 0 <= k < |dir| ==> dir[k] !in ignoreDirs
  {
    if |dir| > 0 {
      var i :| 0 <= i < |n.children| && n.children[i].Dir? && n.children[i].name == dir[0]
               && FileBelow(n.children[i], dir[1..], name, content, ignoreDirs);
      FileBelowAvoids(n.children[i], dir[1..], name, content, ignoreDirs);
      forall k | 1 <= k < |dir|
        ensures dir[k] !in ignoreDirs
      {
        assert dir[k] == dir[1..][k - 1];
      }
    }
  }

  // ---------------------------------------------------------------------------
  // Order: top-down

  /** No entry lies in a directory strictly above an entry listed before it:
      the files of a directory come before anything from its subdirectories. */
  predicate TopDown(es: seq<Entry>)
  {
    forall i, j :: 0 <= i < j < |es| ==> !(es[j].dir < es[i].dir)
  }

  lemma TopDownConcat(a: seq<Entry>, b: seq<Entry>)
    requires TopDown(a) && TopDown(b)
    requires forall x, y :: x in a && y in b ==> !(y.dir < x.dir)
    ensures TopDown(a + b)
  {
    var ab := a + b;
    forall i, j | 0 <= i < j < |ab|
      ensures !(ab[j].dir < ab[i].dir)
    {
      if j < |a| {
        assert ab[i] == a[i] && ab[j] == a[j];
      } else if i >= |a| {
        assert ab[i] == b[i - |a|] && ab[j] == b[j - |a|];
      } else {
        assert ab[i] in a && ab[j] in b;
      }
    }
  }

  lemma PrefixCons(name: string, a: seq<string>, b: seq<string>)
    ensures ([name] + a < [name] + b) <==> a < b
  {
    if [name] + a < [name] + b {
      assert a == ([name] + a)[1..] == ([name] + b)[1..|a| + 1] == b[..|a|];
    }
    if a < b {
      assert [name] + a == ([name] + b)[..|a| + 1];
    }
  }

  lemma TopDownUnder(name: string, es: seq<Entry>)
    requires TopDown(es)
    ensures TopDown(Under(name, es))
  {
    var u := Under(name, es);
    forall i, j | 0 <= i < j < |u|
      ensures !(u[j].dir < u[i].dir)
    {
      assert !(es[j].dir < es[i].dir);
      PrefixCons(name, es[j].dir, es[i].dir);
    }
  }

  lemma OwnFilesAtTop(children: seq<Node>)
    ensures forall e :: e in OwnFiles(children) ==> e.dir == []
  {
    forall e | e in OwnFiles(children)
      ensures e.dir == []
    {
      OwnFilesMember(children, e);
    }
  }

  /** An entry from a later sibling directory never lies strictly above an
      entry from the first one: their paths start with different names. */
  lemma HeadNotAboveTail(children: seq<Node>, ignoreDirs: seq<string>, x: Entry, y: Entry)
    requires |children| > 0 && SiblingNamesDistinct(children) && children[0].Dir?
    requires x in Under(children[0].name, Visit(children[0], ignoreDirs))
    requires y in VisitSubdirs(children[1..], ignoreDirs)
    ensures !(y.dir < x.dir)
  {
    var rest := children[1..];
    UnderMember(children[0].name, Visit(children[0], ignoreDirs), x);
    VisitSubdirsMember(rest, ignoreDirs, y);
    var i :| 0 <= i < |rest| && rest[i].Dir? && rest[i].name == y.dir[0]
             && FileBelow(rest[i], y.dir[1..], y.name, y.content, ignoreDirs);
    assert rest[i] == children[i + 1];
    assert y.dir[0] != x.dir[0];
  }

  /** In a well-formed tree the walk is top-down at every depth. */
  lemma {:induction false} VisitTopDown(n: Node, ignoreDirs: seq<string>)
    requires WellFormed(n)
    ensures TopDown(Visit(n, ignoreDirs))
  {
    match n
    case File(_, _) =>
    case Dir(_, children) =>
      var own := OwnFiles(children);
      var subs := VisitSubdirs(children, ignoreDirs);
      OwnFilesAtTop(children);
      VisitSubdirsTopDown(children, ignoreDirs);
      forall y | y in subs
        ensures |y.dir| >= 1
      {
        VisitSubdirsMember(children, ignoreDirs, y);
      }
      TopDownConcat(own, subs);
  }

  lemma {:induction false} VisitSubdirsTopDown(children: seq<Node>, ignoreDirs: seq<string>)
    requires SiblingNamesDistinct(children)
    requires forall i :: 0 <= i < |children| ==> WellFormed(children[i])
    ensures TopDown(VisitSubdirs(children, ignoreDirs))
  {
    if |children| > 0 {
      var c := children[0];
      var rest := children[1..];
      var head := if c.Dir? && c.name !in ignoreDirs then Under(c.name, Visit(c, ignoreDirs)) else [];
      var tail := VisitSubdirs(rest, ignoreDirs);
      VisitSubdirsTopDown(rest, ignoreDirs);
      if c.Dir? && c.name !in ignoreDirs {
        VisitTopDown(c, ignoreDirs);
        TopDownUnder(c.name, Visit(c, ignoreDirs));
      }
      forall x, y | x in head && y in tail
        ensures !(y.dir < x.dir)
      {
        HeadNotAboveTail(children, ignoreDirs, x, y);
      }
      TopDownConcat(head, tail);
    }
  }

  // ---------------------------------------------------------------------------
  // Each file is reached once

  predicate SameFile(x: Entry, y: Entry)
  {
    x.dir == y.dir && x.name == y.name
  }

  /** No file is reached twice. */
  predicate Distinct(es: seq<Entry>)
  {
    forall i, j :: 0 <= i < j < |es| ==> !SameFile(es[i], es[j])
  }

  lemma DistinctConcat(a: seq<Entry>, b: seq<Entry>)
    requires Distinct(a) && Distinct(b)
    requires forall x, y :: x in a && y in b ==> !SameFile(x, y)
    ensures Distinct(a + b)
  {
    var ab := a + b;
    forall i, j | 0 <= i < j < |ab|
      ensures !SameFile(ab[i], ab[j])
    {
      if j < |a| {
        assert ab[i] == a[i] && ab[j] == a[j];
      } else if i >= |a| {
        assert ab[i] == b[i - |a|] && ab[j] == b[j - |a|];
      } else {
        assert ab[i] in a && ab[j] in b;
      }
    }
  }

  lemma DistinctUnder(name: string, es: seq<Entry>)
    requires Distinct(es)
    ensures Distinct(Under(name, es))
  {
    var u := Under(name, es);
    forall i, j | 0 <= i < j < |u|
      ensures !SameFile(u[i], u[j])
    {
      assert !SameFile(es[i], es[j]);
      assert es[i].dir == u[i].dir[1..] && es[j].dir == u[j].dir[1..];
    }
  }

  lemma {:induction false} OwnFilesDistinct(children: seq<Node>)
    requires SiblingNamesDistinct(children)
    ensures Distinct(OwnFiles(children))
  {
    if |children| > 0 {
      var c := children[0];
      var rest := children[1..];
      var head := if c.File? then [Entry([], c.name, c.content)] else [];
      OwnFilesDistinct(rest);
      forall x, y | x in head && y in OwnFiles(rest)
        ensures !SameFile(x, y)
      {
        OwnFilesMember(rest, y);
        var i :| 0 <= i < |rest| && rest[i] == File(y.name, y.content);
        assert rest[i] == children[i + 1];
      }
      DistinctConcat(head, OwnFiles(rest));
    }
  }

  /** In a well-formed tree the walk reaches each file exactly once. */
  lemma {:induction false} VisitDistinct(n: Node, ignoreDirs: seq<string>)
    requires WellFormed(n)
    ensures Distinct(Visit(n, ignoreDirs))
  {
    match n
    case File(_, _) =>
    case Dir(_, children) =>
      var own := OwnFiles(children);
      var subs := VisitSubdirs(children, ignoreDirs);
      OwnFilesDistinct(children);
      OwnFilesAtTop(children);
      VisitSubdirsDistinct(children, ignoreDirs);
      forall x, y | x in own && y in subs
        ensures !SameFile(x, y)
      {
        VisitSubdirsMember(children, ignoreDirs, y);
      }
      DistinctConcat(own, subs);
  }

  lemma {:induction false} VisitSubdirsDistinct(children: seq<Node>, ignoreDirs: seq<string>)
    requires SiblingNamesDistinct(children)
    requires forall i :: 0 <= i < |children| ==> WellFormed(children[i])
    ensures Distinct(VisitSubdirs(children, ignoreDirs))
  {
    if |children| > 0 {
      var c := children[0];
      var rest := children[1..];
      var head := if c.Dir? && c.name !in ignoreDirs then Under(c.name, Visit(c, ignoreDirs)) else [];
      var tail := VisitSubdirs(rest, ignoreDirs);
      VisitSubdirsDistinct(rest, ignoreDirs);
      if c.Dir? && c.name !in ignoreDirs {
        VisitDistinct(c, ignoreDirs);
        DistinctUnder(c.name, Visit(c, ignoreDirs));
      }
      forall x, y | x in head && y in tail
        ensures !SameFile(x, y)
      {
        UnderMember(c.name, Visit(c, ignoreDirs), x);
        VisitSubdirsMember(rest, ignoreDirs, y);
        var i :| 0 <= i < |rest| && rest[i].Dir? && rest[i].name == y.dir[0]
                 && FileBelow(rest[i], y.dir[1..], y.name, y.content, ignoreDirs);
        assert rest[i] == children[i + 1];
      }
      DistinctConcat(head, tail);
    }
  }

  // ---------------------------------------------------------------------------
  // A directory's own files keep their listed order

  /** `x` occurs in `es` at an earlier position than `y`. */
  ghost predicate Before<T>(es: seq<T>, x: T, y: T)
  {
    exists p, q :: 0 <= p < q < |es| && es[p] == x && es[q] == y
  }

  lemma BeforeLeft<T>(a: seq<T>, b: seq<T>, x: T, y: T)
    requires Before(a, x, y)
    ensures Before(a + b, x, y)
  {
    var p, q :| 0 <= p < q < |a| && a[p] == x && a[q] == y;
    assert (a + b)[p] == x && (a + b)[q] == y;
  }

  lemma BeforeRight<T>(a: seq<T>, b: seq<T>, x: T, y: T)
    requires Before(b, x, y)
    ensures Before(a + b, x, y)
  {
    var p, q :| 0 <= p < q < |b| && b[p] == x && b[q] == y;
    assert (a + b)[|a| + p] == x && (a + b)[|a| + q] == y;
  }

  lemma BeforeHead<T>(x: T, es: seq<T>, y: T)
    requires y in es
    ensures Before([x] + es, x, y)
  {
    var q :| 0 <= q < |es| && es[q] == y;
    assert ([x] + es)[0] == x && ([x] + es)[q + 1] == y;
  }

  /** The first listed file comes before any later listed file. */
  lemma OwnFilesFirstBefore(children: seq<Node>, j: int)
    requires 0 < j < |children|
    requires children[0].File? && children[j].File?
    ensures Before(OwnFiles(children), Entry([], children[0].name, children[0].content),
                                       Entry([], children[j].name, children[j].content))
  {
    var rest := children[1..];
    var e0 := Entry([], children[0].name, children[0].content);
    var ej := Entry([], children[j].name, children[j].content);
    assert OwnFiles(children) == [e0] + OwnFiles(rest);
    assert rest[j - 1] == children[j];
    OwnFilesMember(rest, ej);
    BeforeHead(e0, OwnFiles(rest), ej);
  }

  /** Two files listed in one directory are reached in the order they are listed. */
  lemma {:induction false} OwnFilesListedOrder(children: seq<Node>, i: int, j: int)
    requires 0 <= i < j < |children|
    requires children[i].File? && children[j].File?
    ensures Before(OwnFiles(children), Entry([], children[i].name, children[i].content),
                                       Entry([], children[j].name, children[j].content))
  {
    if i == 0 {
      OwnFilesFirstBefore(children, j);
    } else {
      var c := children[0];
      var rest := children[1..];
      var head := if c.File? then [Entry([], c.name, c.content)] else [];
      assert OwnFiles(children) == head + OwnFiles(rest);
      assert rest[i - 1] == children[i] && rest[j - 1] == children[j];
      OwnFilesListedOrder(rest, i - 1, j - 1);
      BeforeRight(head, OwnFiles(rest), Entry([], children[i].name, children[i].content),
                                        Entry([], children[j].name, children[j].content));
    }
  }

  lemma BeforeUnder(name: string, es: seq<Entry>, x: Entry, y: Entry)
    requires Before(es, x, y)
    ensures Before(Under(name, es), Entry([name] + x.dir, x.name, x.content),
                                    Entry([name] + y.dir, y.name, y.content))
  {
    var p, q :| 0 <= p < q < |es| && es[p] == x && es[q] == y;
    assert Under(name, es)[p] == Entry([name] + x.dir, x.name, x.content);
    assert Under(name, es)[q] == Entry([name] + y.dir, y.name, y.content);
  }

  /** The walk below one unpruned subdirectory appears, order intact, in the
      walk below all of them. */
  lemma {:induction false} VisitSubdirsBefore(children: seq<Node>, ignoreDirs: seq<string>, k: int, x: Entry, y: Entry)
    requires 0 <= k < |children| && children[k].Dir? && children[k].name !in ignoreDirs
    requires Before(Under(children[k].name, Visit(children[k], ignoreDirs)), x, y)
    ensures Before(VisitSubdirs(children, ignoreDirs), x, y)
  {
    var c := children[0];
    var rest := children[1..];
    var head := if c.Dir? && c.name !in ignoreDirs then Under(c.name, Visit(c, ignoreDirs)) else [];
    assert VisitSubdirs(children, ignoreDirs) == head + VisitSubdirs(rest, ignoreDirs);
    if k == 0 {
      BeforeLeft(head, VisitSubdirs(rest, ignoreDirs), x, y);
    } else {
      assert rest[k - 1] == children[k];
      VisitSubdirsBefore(rest, ignoreDirs, k - 1, x, y);
      BeforeRight(head, VisitSubdirs(rest, ignoreDirs), x, y);
    }
  }

  /** Listed order at any depth: in a directory `d` that the walk enters at
      path `dir`, two files listed `i`-th and `j`-th are reached in that order. */
  lemma {:induction false} VisitListedOrder(n: Node, ignoreDirs: seq<string>, dir: seq<string>, d: Node, i: int, j: int)
    requires DirAt(n, dir, d, ignoreDirs)
    requires d.Dir? && 0 <= i < j < |d.children|
    requires d.children[i].File? && d.children[j].File?
    ensures Before(Visit(n, ignoreDirs), Entry(dir, d.children[i].name, d.children[i].content),
                                         Entry(dir, d.children[j].name, d.children[j].content))
  {
    var children := n.children;
    var x := Entry(dir, d.children[i].name, d.children[i].content);
    var y := Entry(dir, d.children[j].name, d.children[j].content);
    if |dir| == 0 {
      OwnFilesListedOrder(children, i, j);
      BeforeLeft(OwnFiles(children), VisitSubdirs(children, ignoreDirs), x, y);
    } else {
      var k :| 0 <= k < |children| && children[k].Dir? && children[k].name == dir[0]
               && DirAt(children[k], dir[1..], d, ignoreDirs);
      var c := children[k];
      VisitListedOrder(c, ignoreDirs, dir[1..], d, i, j);
      BeforeUnder(c.name, Visit(c, ignoreDirs), Entry(dir[1..], x.name, x.content), Entry(dir[1..], y.name, y.content));
      assert [c.name] + dir[1..] == dir;
      VisitSubdirsBefore(children, ignoreDirs, k, x, y);
      BeforeRight(OwnFiles(children), VisitSubdirs(children, ignoreDirs), x, y);
    }
  }
}
