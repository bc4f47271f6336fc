/** String helpers with the semantics of the Python `str` methods the packer
    relies on: `endswith`, `split(sep)`, `strip()`, and the inverse of
    `split`, `sep.join`. */
module Text {

  /** Python's `str.isspace` for a single character: the characters `strip()`
      with no argument removes. */
  predicate IsSpace(c: char)
  {
    var n := c as int;
    || (0x09 <= n <= 0x0D)
    || (0x1C <= n <= 0x20)
    || n == 0x85 || n == 0xA0 || n == 0x1680
    || (0x2000 <= n <= 0x200A)
    || n == 0x2028 || n == 0x2029 || n == 0x202F || n == 0x205F || n == 0x3000
  }

  predicate AllSpace(s: string)
  {
    forall k :: 0 <= k < |s| ==> IsSpace(s[k])
  }

  /** Python's `s.endswith(suffix)`. */
  predicate EndsWith(s: string, suffix: string)
  {
    |suffix| <= |s| && s[|s| - |suffix|..] == suffix
  }

  /** Number of occurrences of `c` in `s`. */
  function Count(s: string, c: char): nat
  {
    if |s| == 0 then 0 else (if s[0] == c then 1 else 0) + Count(s[1..], c)
  }

  /** Python's `s.split(sep)` for a one-character separator: the pieces between
      separators, keeping empty ones; there is always at least one piece. */
  function Split(s: string, sep: char): (r: seq<string>)
    ensures |r| >= 1
  {
    if |s| == 0 then [""]
    else
      var rest := Split(s[1..], sep);
      if s[0] == sep then [""] + rest else [[s[0]] + rest[0]] + rest[1..]
  }

  /** Python's `sep.join(xs)`. */
  function Join(xs: seq<string>, sep: char): string
  {
    if |xs| == 0 then ""
    else if |xs| == 1 then xs[0]
    else xs[0] + [sep] + Join(xs[1..], sep)
  }

  /** Joining one more piece in front adds it and a separator. */
  lemma JoinCons(x: string, xs: seq<string>, sep: char)
    requires |xs| >= 1
    ensures Join([x] + xs, sep) == x + [sep] + Join(xs, sep)
  {
    assert ([x] + xs)[1..] == xs;
  }

  /** Every piece of a split is free of the separator. */
  lemma {:induction false} SplitPiecesHaveNoSeparator(s: string, sep: char)
    ensures forall k :: 0 <= k < |Split(s, sep)| ==> sep !in Split(s, sep)[k]
  {
    if |s| > 0 {
      SplitPiecesHaveNoSeparator(s[1..], sep);
    }
  }

  /** A split yields one piece more than there are separators. */
  lemma {:induction false} SplitLength(s: string, sep: char)
    ensures |Split(s, sep)| == Count(s, sep) + 1
  {
    if |s| > 0 {
      SplitLength(s[1..], sep);
    }
  }

  /** Joining the pieces of a split restores the original string. */
  lemma {:induction false} JoinSplit(s: string, sep: char)
    ensures Join(Split(s, sep), sep) == s
  {
    if |s| > 0 {
      var rest := Split(s[1..], sep);
      JoinSplit(s[1..], sep);
      if s[0] == sep {
        assert Split(s, sep) == [""] + rest;
      } else {
        var r := Split(s, sep);
        assert r == [[s[0]] + rest[0]] + rest[1..];
        if |rest| == 1 {
          assert Join(r, sep) == [s[0]] + rest[0];
        } else {
          assert r[1..] == rest[1..];
          assert Join(rest, sep) == rest[0] + [sep] + Join(rest[1..], sep);
          assert Join(r, sep) == [s[0]] + rest[0] + [sep] + Join(rest[1..], sep);
        }
      }
    }
  }

  /** Splitting a join of separator-free pieces gives the pieces back. */
  lemma {:induction false} SplitJoin(xs: seq<string>, sep: char)
    requires |xs| >= 1
    requires forall k :: 0 <= k < |xs| ==> sep !in xs[k]
    ensures Split(Join(xs, sep), sep) == xs
  {
    if |xs| == 1 {
      SplitOfSeparatorFree(xs[0], sep, []);
      assert xs[0] + [] == xs[0];
    } else {
      SplitJoin(xs[1..], sep);
      var tail := Join(xs[1..], sep);
      SplitOfSeparatorFree(xs[0], sep, [sep] + tail);
      assert Split([sep] + tail, sep) == [""] + Split(tail, sep) by {
        assert ([sep] + tail)[1..] == tail;
      }
      assert xs[0] + [sep] + tail == xs[0] + ([sep] + tail);
      assert ([""] + xs[1..])[1..] == xs[1..];
      assert xs[0] + "" == xs[0];
      assert [xs[0]] + xs[1..] == xs;
    }
  }

  /** A separator-free prefix glues onto the first piece of what follows. */
  lemma {:induction false} SplitOfSeparatorFree(a: string, sep: char, b: string)
    requires sep !in a
    ensures var r := Split(b, sep); Split(a + b, sep) == [a + r[0]] + r[1..]
  {
    if |a| > 0 {
      SplitOfSeparatorFree(a[1..], sep, b);
      assert (a + b)[1..] == a[1..] + b;
      assert [a[0]] + (a[1..] + Split(b, sep)[0]) == a + Split(b, sep)[0];
    } else {
      var r := Split(b, sep);
      assert a + b == b;
      assert a + r[0] == r[0];
      assert [r[0]] + r[1..] == r;
    }
  }

  /** Drops leading whitespace. */
  function LStrip(s: string): (r: string)
    ensures |r| <= |s| && r == s[|s| - |r|..]
    ensures AllSpace(s[..|s| - |r|])
    ensures r == [] || !IsSpace(r[0])
  {
    if |s| > 0 && IsSpace(s[0]) then
      var r := LStrip(s[1..]);
      assert s[..|s| - |r|] == [s[0]] + s[1..][..|s| - 1 - |r|];
      r
    else s
  }

  /** Drops trailing whitespace. */
  function RStrip(s: string): (r: string)
    ensures |r| <= |s| && r == s[..|r|]
    ensures AllSpace(s[|r|..])
    ensures r == [] || !IsSpace(r[|r| - 1])
  {
    if |s| > 0 && IsSpace(s[|s| - 1]) then
      var r := RStrip(s[..|s| - 1]);
      assert s[|r|..] == s[..|s| - 1][|r|..] + [s[|s| - 1]];
      r
    else s
  }

  /** `t` is the slice of `s` starting at `i`, with only whitespace around it. */
  ghost predicate SliceWithin(t: string, s: string, i: int)
  {
    0 <= i <= |s| - |t| && t == s[i..i + |t|] && AllSpace(s[..i]) && AllSpace(s[i + |t|..])
  }

  /** `t` is what remains of `s` once its surrounding whitespace is cut off:
      a contiguous slice with only whitespace outside it and none at its ends. */
  ghost predicate IsStripOf(t: string, s: string)
  {
    && (exists i :: SliceWithin(t, s, i))
    && (t == [] || (!IsSpace(t[0]) && !IsSpace(t[|t| - 1])))
  }

  /** Python's `s.strip()`. */
  function Strip(s: string): (r: string)
    ensures IsStripOf(r, s)
  {
    var l := LStrip(s);
    var r := RStrip(l);
    StripSlice(s, l, r);
    r
  }

  /** Cutting leading whitespace, then trailing whitespace, leaves a
      whitespace-bounded slice. */
  lemma StripSlice(s: string, l: string, r: string)
    requires |l| <= |s| && l == s[|s| - |l|..] && AllSpace(s[..|s| - |l|]) && (l == [] || !IsSpace(l[0]))
    requires |r| <= |l| && r == l[..|r|] && AllSpace(l[|r|..]) && (r == [] || !IsSpace(r[|r| - 1]))
    ensures IsStripOf(r, s)
  {
    var i := |s| - |l|;
    assert r == s[i..i + |r|];
    assert s[i + |r|..] == l[|r|..];
    assert SliceWithin(r, s, i);
    if r != [] {
      assert r[0] == l[0];
    }
  }

  lemma SpaceBefore(s: string, i: int, k: int)
    requires 0 <= k < i <= |s| && AllSpace(s[..i])
    ensures IsSpace(s[k])
  {
    assert s[..i][k] == s[k];
  }

  lemma SpaceFrom(s: string, e: int, k: int)
    requires 0 <= e <= k < |s| && AllSpace(s[e..])
    ensures IsSpace(s[k])
  {
    assert s[e..][k - e] == s[k];
  }

  /** Two whitespace-bounded slices with non-whitespace ends start at the same place. */
  lemma SameStart(s: string, t: string, i: int, r: string, j: int)
    requires SliceWithin(t, s, i) && SliceWithin(r, s, j)
    requires t != [] && !IsSpace(t[0]) && r != [] && !IsSpace(r[0])
    ensures i == j
  {
    if i < j {
      assert t[0] == s[i];
      SpaceBefore(s, j, i);
    } else if j < i {
      assert r[0] == s[j];
      SpaceBefore(s, i, j);
    }
  }

  /** A slice with a non-whitespace first character rules out an empty strip. */
  lemma NotAllSpace(s: string, t: string, i: int, r: string, j: int)
    requires SliceWithin(t, s, i) && SliceWithin(r, s, j)
    requires t != [] && !IsSpace(t[0])
    ensures r != []
  {
    if r == [] {
      assert t[0] == s[i];
      if i < j { SpaceBefore(s, j, i); } else { SpaceFrom(s, j, i); }
    }
  }

  /** There is only one way to strip a string: `IsStripOf` pins `Strip` down. */
  lemma StripUnique(s: string, t: string)
    requires IsStripOf(t, s)
    ensures t == Strip(s)
  {
    var r := Strip(s);
    var i :| SliceWithin(t, s, i);
    var j :| SliceWithin(r, s, j);
    if t == [] && r != [] {
      NotAllSpace(s, r, j, t, i);
    } else if t != [] && r == [] {
      NotAllSpace(s, t, i, r, j);
    } else if t != [] && r != [] {
      SameStart(s, t, i, r, j);
      var e := i + |t|;
      var f := j + |r|;
      if e < f {
        SpaceFrom(s, e, f - 1);
      } else if f < e {
        SpaceFrom(s, f, e - 1);
      }
    }
  }

  /** Stripping twice is the same as stripping once. */
  lemma StripIdempotent(s: string)
    ensures Strip(Strip(s)) == Strip(s)
  {
    var t := Strip(s);
    assert t[..0] == [] && t[0 + |t|..] == [];
    assert SliceWithin(t, t, 0);
    StripUnique(t, t);
  }

  /** A string with no whitespace at either end strips to itself. */
  lemma StripBare(w: string)
    requires w == [] || (!IsSpace(w[0]) && !IsSpace(w[|w| - 1]))
    ensures Strip(w) == w
  {
    assert w[0..0 + |w|] == w;
    assert w[..0] == [] && w[0 + |w|..] == [];
    assert SliceWithin(w, w, 0);
    StripUnique(w, w);
  }

  /** One leading blank is cut off. */
  lemma StripLeadingBlank(w: string)
    requires w == [] || (!IsSpace(w[0]) && !IsSpace(w[|w| - 1]))
    ensures Strip([' '] + w) == w
  {
    var s := [' '] + w;
    assert s[1..1 + |w|] == w;
    assert s[..1] == [' '] && s[1 + |w|..] == [];
    assert SliceWithin(w, s, 1);
    StripUnique(s, w);
  }
}
