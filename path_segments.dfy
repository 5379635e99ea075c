// Splitting a path into its file names and rendering file names back into a path.

module PathSegments {
  import opened PhpStrings

  /** A file name as the splitter keeps it: not empty and free of the separator. */
  predicate IsSegment(s: string)
  {
    s != "" && '/' !in s
  }

  predicate AllSegments(segs: seq<string>)
  {
    forall i :: 0 <= i < |segs| ==> IsSegment(segs[i])
  }

  /** The pieces that survive the filter dropping empty strings, in order: every one it keeps is a
      non-empty piece, and every non-empty piece is kept. */
  function NonEmpty(pieces: seq<string>): (r: seq<string>)
    ensures |r| <= |pieces|
    ensures forall i :: 0 <= i < |r| ==> r[i] != "" && r[i] in pieces
  {
    if pieces == [] then []
    else (if pieces[0] == "" then [] else [pieces[0]]) + NonEmpty(pieces[1..])
  }

  /** Every non-empty piece is kept. */
  lemma {:induction false} NonEmptyKeepsAll(pieces: seq<string>)
    ensures forall i :: 0 <= i < |pieces| && pieces[i] != "" ==> pieces[i] in NonEmpty(pieces)
  {
    if pieces != [] {
      NonEmptyKeepsAll(pieces[1..]);
      forall i | 1 <= i < |pieces| && pieces[i] != ""
        ensures pieces[i] in NonEmpty(pieces)
      {
        assert pieces[i] == pieces[1..][i - 1];
      }
    }
  }

  /** A single piece is kept exactly when it is non-empty. With `NonEmptyConcat` this fixes the
      filter's result piece by piece, order included. */
  lemma NonEmptySingleton(p: string)
    ensures NonEmpty([p]) == if p == "" then [] else [p]
  {
    assert [p][1..] == [];
  }

  /** The filter works piece by piece: it distributes over concatenation. */
  lemma {:induction false} NonEmptyConcat(a: seq<string>, b: seq<string>)
    ensures NonEmpty(a + b) == NonEmpty(a) + NonEmpty(b)
  {
    if a != [] {
      assert (a + b)[1..] == a[1..] + b;
      NonEmptyConcat(a[1..], b);
    } else {
      assert a + b == b;
    }
  }

  /** The file names of a path: the pieces between slashes that are not empty. */
  function SplitPath(path: string): (segs: seq<string>)
    ensures AllSegments(segs)
  {
    var pieces := Explode('/', path);
    var segs := NonEmpty(pieces);
    assert forall i :: 0 <= i < |segs| ==> segs[i] in pieces;
    segs
  }

  /** A string without the separator explodes to itself alone. */
  lemma {:induction false} ExplodeWithout(d: char, s: string)
    requires d !in s
    ensures Explode(d, s) == [s]
  {
    if s != [] {
      ExplodeWithout(d, s[1..]);
      assert [s[0]] + s[1..] == s;
    }
  }

  /** A character absent from the input is absent from every piece. */
  lemma {:induction false} ExplodeAvoids(d: char, s: string, c: char)
    requires c !in s
    ensures forall i :: 0 <= i < |Explode(d, s)| ==> c !in Explode(d, s)[i]
  {
    if s != [] {
      assert c !in s[1..] by {
        assert forall k :: 0 <= k < |s[1..]| ==> s[1..][k] == s[k + 1];
      }
      ExplodeAvoids(d, s[1..], c);
    }
  }

  lemma SplitPathAvoids(path: string, c: char)
    requires c !in path
    ensures forall i :: 0 <= i < |SplitPath(path)| ==> c !in SplitPath(path)[i]
  {
    ExplodeAvoids('/', path, c);
  }

  /** Splitting distributes over a separator. */
  lemma SplitPathConcat(x: string, y: string)
    ensures SplitPath(x + "/" + y) == SplitPath(x) + SplitPath(y)
  {
    assert x + "/" + y == x + ['/'] + y;
    ExplodeConcat('/', x, y);
    NonEmptyConcat(Explode('/', x), Explode('/', y));
  }

  lemma SplitPathOfSegment(x: string)
    requires IsSegment(x)
    ensures SplitPath(x) == [x]
  {
    ExplodeWithout('/', x);
  }

  lemma SplitPathOfEmpty()
    ensures SplitPath("") == []
  {
    assert Explode('/', "") == [""];
  }

  /** Each file name followed by a slash. */
  function SegmentsText(segs: seq<string>): (r: string)
    ensures r == "" <==> segs == []
    ensures r == "" || r[|r| - 1] == '/'
  {
    if segs == [] then "" else segs[0] + "/" + SegmentsText(segs[1..])
  }

  /** The well-formed path of a list of file names: a slash, then each name followed by a slash. */
  function PathOf(segs: seq<string>): (p: string)
    ensures |p| >= 1 && p[0] == '/' && p[|p| - 1] == '/'
    ensures |p| == 1 <==> segs == []
  {
    "/" + SegmentsText(segs)
  }

  lemma {:induction false} SegmentsTextConcat(a: seq<string>, b: seq<string>)
    ensures SegmentsText(a + b) == SegmentsText(a) + SegmentsText(b)
  {
    if a != [] {
      assert (a + b)[1..] == a[1..] + b;
      SegmentsTextConcat(a[1..], b);
    } else {
      assert a + b == b;
    }
  }

  lemma PathOfConcat(a: seq<string>, b: seq<string>)
    ensures PathOf(a + b) == PathOf(a) + SegmentsText(b)
  {
    SegmentsTextConcat(a, b);
  }

  /** Appending a file name to the list appends it and a slash to the path. */
  lemma PathOfSnoc(segs: seq<string>, x: string)
    ensures PathOf(segs + [x]) == PathOf(segs) + x + "/"
  {
    PathOfConcat(segs, [x]);
    assert SegmentsText([x]) == x + "/" + SegmentsText([]);
  }

  /** A longer list of names renders to a longer path that extends the shorter one. */
  lemma PathOfPrefix(a: seq<string>, b: seq<string>)
    requires a <= b
    ensures PathOf(a) <= PathOf(b)
    ensures a < b ==> PathOf(a) < PathOf(b)
  {
    assert b == a + b[|a|..];
    PathOfConcat(a, b[|a|..]);
  }

  lemma {:induction false} SplitPathOfText(segs: seq<string>)
    requires AllSegments(segs)
    ensures SplitPath(SegmentsText(segs)) == segs
  {
    if segs == [] {
      SplitPathOfEmpty();
    } else {
      SplitPathOfText(segs[1..]);
      SplitPathConcat(segs[0], SegmentsText(segs[1..]));
      SplitPathOfSegment(segs[0]);
    }
  }

  /** Rendering then splitting gives the names back. */
  lemma SplitPathOf(segs: seq<string>)
    requires AllSegments(segs)
    ensures SplitPath(PathOf(segs)) == segs
  {
    assert PathOf(segs) == "" + "/" + SegmentsText(segs);
    SplitPathConcat("", SegmentsText(segs));
    SplitPathOfEmpty();
    SplitPathOfText(segs);
  }

  /** Splitting distributes over a concatenation whose left part ends with a slash. */
  lemma SplitPathAfterSlash(x: string, y: string)
    requires |x| >= 1 && x[|x| - 1] == '/'
    ensures SplitPath(x + y) == SplitPath(x) + SplitPath(y)
  {
    var x' := x[..|x| - 1];
    SlashSplit(x, x', y);
    calc {
      SplitPath(x + y);
      SplitPath(x' + "/" + y);
      { SplitPathConcat(x', y); }
      SplitPath(x') + SplitPath(y);
      { SplitPathConcat(x', ""); SplitPathOfEmpty(); assert SplitPath(x') + [] == SplitPath(x'); }
      SplitPath(x) + SplitPath(y);
    }
  }

  lemma SlashSplit(x: string, x': string, y: string)
    requires |x| >= 1 && x[|x| - 1] == '/' && x' == x[..|x| - 1]
    ensures x == x' + "/" + "" && x + y == x' + "/" + y
  {
    assert x == x' + "/";
  }

  /** A path is well formed when it is a slash followed by names each closed by a slash. */
  predicate WellFormed(p: string)
  {
    p == PathOf(SplitPath(p))
  }

  lemma PathOfWellFormed(segs: seq<string>)
    requires AllSegments(segs)
    ensures WellFormed(PathOf(segs))
  {
    SplitPathOf(segs);
  }
}
