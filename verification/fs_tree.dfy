/** An in-memory stand-in for the directory tree under the repository root. */
module FsTree {
  import opened Wrappers

  /** A directory entry. A file's content is `None` when opening or decoding it
      as UTF-8 text fails; a directory lists its children in the order the
      operating system reports them. */
  datatype Node =
    | File(name: string, content: Option<string>)
    | Dir(name: string, children: seq<Node>)

  /** Sibling names differ, as they do on any real file system. */
  predicate SiblingNamesDistinct(children: seq<Node>)
  {
    forall i, j :: 0 <= i < j < |children| ==> children[i].name != children[j].name
  }

  /** A name is a single path component: non-empty and free of `/`. */
  predicate IsComponent(name: string)
  {
    name != "" && '/' !in name
  }

  /** The shape every real directory tree has: every name below the root is a
      path component and no directory holds two entries of the same name. */
  predicate WellFormed(n: Node)
  {
    match n
    case File(_, _) => true
    case Dir(_, children) =>
      && SiblingNamesDistinct(children)
      && (forall i :: 0 <= i < |children| ==> IsComponent(children[i].name))
      && (forall i :: 0 <= i < |children| ==> WellFormed(children[i]))
  }

  /** Reference description of which files the packer visits: directory `n`
      holds, at the directory path `dir` below it, a file `name` with
      `content`, and no directory on the way down is named in `ignoreDirs`.
      `n` itself is never checked against `ignoreDirs`. */
  predicate FileBelow(n: Node, dir: seq<string>, name: string, content: Option<string>, ignoreDirs: seq<string>)
  {
    match n
    case File(_, _) => false
    case Dir(_, children) =>
      if |dir| == 0 then
        exists i :: 0 <= i < |children| && children[i] == File(name, content)
      else
        && dir[0] !in ignoreDirs
        && exists i :: 0 <= i < |children| && children[i].Dir? && children[i].name == dir[0]
                       && FileBelow(children[i], dir[1..], name, content, ignoreDirs)
  }

  /** Directory `d` sits at directory path `dir` below `n`, and no directory on
      the way down is named in `ignoreDirs`, so the walk enters it. `n` itself
      sits at the empty path. */
  predicate DirAt(n: Node, dir: seq<string>, d: Node, ignoreDirs: seq<string>)
  {
    match n
    case File(_, _) => false
    case Dir(_, children) =>
      if |dir| == 0 then d == n
      else
        && dir[0] !in ignoreDirs
        && exists i :: 0 <= i < |children| && children[i].Dir? && children[i].name == dir[0]
                       && DirAt(children[i], dir[1..], d, ignoreDirs)
  }

  /** In a well-formed tree every segment of a file's path is a path component. */
  lemma {:induction false} FileBelowComponents(n: Node, dir: seq<string>, name: string, content: Option<string>, ignoreDirs: seq<string>)
    requires WellFormed(n)
    requires FileBelow(n, dir, name, content, ignoreDirs)
    ensures IsComponent(name)
    ensures forall k :: 0 <= k < |dir| ==> IsComponent(dir[k])
  {
    var children := n.children;
    if |dir| == 0 {
      var i :| 0 <= i < |children| && children[i] == File(name, content);
      assert IsComponent(children[i].name);
    } else {
      var i :| 0 <= i < |children| && children[i].Dir? && children[i].name == dir[0]
               && FileBelow(children[i], dir[1..], name, content, ignoreDirs);
      FileBelowComponents(children[i], dir[1..], name, content, ignoreDirs);
      forall k | 0 <= k < |dir|
        ensures IsComponent(dir[k])
      {
        if k == 0 {
          assert IsComponent(children[i].name);
        } else {
          assert dir[k] == dir[1..][k - 1];
        }
      }
    }
  }
}
