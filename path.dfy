// The path utilities: collapsing '.', '..', '//' and backslashes, ancestor enumeration, parent,
// relative paths, and per-name map and reduce.

module Path {
  import opened Wrappers
  import opened PhpStrings
  import opened PathSegments

  // ---------------------------------------------------------------------------------------------
  // dirname, as PHP computes it on a Unix host

  /** Drops every trailing slash. */
  function StripSlashes(s: string): (r: string)
    ensures r <= s
    ensures r == "" || r[|r| - 1] != '/'
    ensures forall i :: |r| <= i < |s| ==> s[i] == '/'
    decreases |s|
  {
    if s != "" && s[|s| - 1] == '/' then StripSlashes(s[..|s| - 1]) else s
  }

  /** Drops the trailing run of characters other than a slash. */
  function StripName(s: string): (r: string)
    ensures r <= s
    ensures r == "" || r[|r| - 1] == '/'
    ensures forall i :: |r| <= i < |s| ==> s[i] != '/'
    decreases |s|
  {
    if s != "" && s[|s| - 1] != '/' then StripName(s[..|s| - 1]) else s
  }

  /** PHP's `dirname` with the separator '/': trailing slashes go, then the last name, then the
      slashes before it; "/" when only slashes remain and "." when no slash was found. */
  function Dirname(path: string): string
  {
    if path == "" then ""
    else
      var body := StripSlashes(path);
      if body == "" then "/"
      else
        var dir := StripName(body);
        if dir == "" then "."
        else
          var parent := StripSlashes(dir);
          if parent == "" then "/" else parent
  }

  /** The parent directory as `collapse` and `parent` derive it: `dirname`, a slash appended when
      the result has a second byte, then the first byte overwritten with a slash (which turns an
      empty string into "/"). Strings are sequences of characters here, so a byte is a character
      for ASCII names. */
  function ParentDir(path: string): (r: string)
    ensures |r| >= 1 && r[0] == '/'
  {
    var dir := Dirname(path);
    var slashed := if |dir| >= 2 then dir + "/" else dir;
    if slashed == "" then "/" else "/" + slashed[1..]
  }

  /** The list of names without its last one; empty stays empty. */
  function Pop(stack: seq<string>): (r: seq<string>)
    ensures r <= stack
    ensures stack != [] ==> stack == r + [stack[|stack| - 1]]
  {
    if stack == [] then [] else stack[..|stack| - 1]
  }

  lemma StripSlashesOnce(q: string, x: string)
    requires IsSegment(x)
    ensures StripSlashes(q + x + "/") == q + x
  {
    var s := q + x + "/";
    assert s[..|s| - 1] == q + x;
    assert (q + x)[|q + x| - 1] == x[|x| - 1];
  }

  lemma {:induction false} StripNameAfter(q: string, x: string)
    requires q == "" || q[|q| - 1] == '/'
    requires '/' !in x
    ensures StripName(q + x) == q
    decreases |x|
  {
    if x == "" {
      assert q + x == q;
    } else {
      var s := q + x;
      assert s[|s| - 1] == x[|x| - 1];
      assert s[..|s| - 1] == q + x[..|x| - 1];
      StripNameAfter(q, x[..|x| - 1]);
    }
  }

  /** `dirname` of a name under `q`, where `q` ends with a slash: `q` without its trailing slashes. */
  lemma DirnameOfLastName(q: string, x: string)
    requires |q| >= 1 && q[|q| - 1] == '/' && IsSegment(x)
    ensures Dirname(q + x + "/") == if StripSlashes(q) == "" then "/" else StripSlashes(q)
  {
    StripSlashesOnce(q, x);
    StripNameAfter(q, x);
  }

  lemma ParentDirOfTopName(x: string)
    requires IsSegment(x)
    ensures ParentDir(PathOf([x])) == "/"
  {
    PathOfSnoc([], x);
    assert [] + [x] == [x];
    DirnameOfLastName("/", x);
    assert StripSlashes("/") == "";
  }

  lemma ParentDirOfDeeperName(q: string, y: string, x: string)
    requires |q| >= 1 && q[0] == '/' && IsSegment(y) && IsSegment(x)
    ensures ParentDir(q + y + "/" + x + "/") == q + y + "/"
  {
    var slashed := q + y + "/";
    DirnameOfLastName(slashed, x);
    StripSlashesOnce(q, y);
    assert "/" + slashed[1..] == slashed;
  }

  /** On a relative path the slash written at offset 0 overwrites the first byte (a character for
      ASCII names) of the first name: the parent directory of `x/y/` is `/` followed by `x` without
      its first character. */
  lemma ParentDirOfRelative(x: string, y: string)
    requires IsSegment(x) && |x| >= 2 && IsSegment(y)
    ensures ParentDir(x + "/" + y + "/") == "/" + x[1..] + "/"
  {
    DirnameOfRelative(x, y);
    ParentDirOfLongDirname(x + "/" + y + "/", x);
  }

  lemma DirnameOfRelative(x: string, y: string)
    requires IsSegment(x) && IsSegment(y)
    ensures Dirname(x + "/" + y + "/") == x
  {
    var q := x + "/";
    StripSlashesOnce("", x);
    assert "" + x + "/" == q && "" + x == x;
    DirnameOfLastName(q, y);
  }

  lemma ParentDirOfLongDirname(path: string, dir: string)
    requires Dirname(path) == dir && |dir| >= 2
    ensures ParentDir(path) == "/" + dir[1..] + "/"
  {
    assert (dir + "/")[1..] == dir[1..] + "/";
  }

  /** On a well-formed path the parent directory drops the last name, and "/" is its own parent. */
  lemma ParentDirOfPath(segs: seq<string>)
    requires AllSegments(segs)
    ensures ParentDir(PathOf(segs)) == PathOf(Pop(segs))
  {
    if segs == [] {
      assert PathOf(segs) == "/";
      assert StripSlashes("/") == "";
    } else if |segs| == 1 {
      assert segs == [segs[0]];
      ParentDirOfTopName(segs[0]);
    } else {
      var init := Pop(segs);
      var x := segs[|segs| - 1];
      var up := Pop(init);
      var y := init[|init| - 1];
      PathOfSnoc(init, x);
      PathOfSnoc(up, y);
      ParentDirOfDeeperName(PathOf(up), y, x);
    }
  }

  // ---------------------------------------------------------------------------------------------
  // reduce and collapse

  /** array_reduce: the callback applied to the running value and each name in turn. */
  function FoldLeft<A>(f: (A, string) -> A, initial: A, names: seq<string>): A
  {
    if names == [] then initial else FoldLeft(f, f(initial, names[0]), names[1..])
  }

  lemma {:induction false} FoldLeftConcat<A>(f: (A, string) -> A, initial: A, xs: seq<string>, ys: seq<string>)
    ensures FoldLeft(f, initial, xs + ys) == FoldLeft(f, FoldLeft(f, initial, xs), ys)
  {
    if xs != [] {
      assert (xs + ys)[1..] == xs[1..] + ys;
      FoldLeftConcat(f, f(initial, xs[0]), xs[1..], ys);
    } else {
      assert xs + ys == ys;
    }
  }

  /** `reduce`: the callback folded over the names of the path. */
  function Reduce<A>(path: string, f: (A, string) -> A, initial: A): A
  {
    FoldLeft(f, initial, SplitPath(path))
  }

  /** Reducing over a concatenation at a slash reduces the left part, then the right part. */
  lemma ReduceConcat<A>(x: string, y: string, f: (A, string) -> A, initial: A)
    ensures Reduce(x + "/" + y, f, initial) == Reduce(y, f, Reduce(x, f, initial))
  {
    SplitPathConcat(x, y);
    FoldLeftConcat(f, initial, SplitPath(x), SplitPath(y));
  }

  /** The reducer that renders each name followed by a slash. */
  function AppendName(rendered: string, name: string): string
  {
    rendered + name + "/"
  }

  lemma {:induction false} FoldAppendName(stack: seq<string>, names: seq<string>)
    ensures FoldLeft(AppendName, PathOf(stack), names) == PathOf(stack + names)
    decreases |names|
  {
    if names == [] {
      assert stack + names == stack;
    } else {
      PathOfSnoc(stack, names[0]);
      FoldAppendName(stack + [names[0]], names[1..]);
      assert stack + [names[0]] + names[1..] == stack + names;
    }
  }

  /** Reducing with the name-rendering reducer from "/" rebuilds the well-formed form of the path. */
  lemma ReduceRebuildsPath(path: string)
    ensures Reduce(path, AppendName, "/") == PathOf(SplitPath(path))
  {
    assert PathOf([]) == "/";
    FoldAppendName([], SplitPath(path));
    assert [] + SplitPath(path) == SplitPath(path);
  }

  /** The reducer inside `collapse`: ".." moves to the parent directory, "." changes nothing and
      any other name is appended with a slash. */
  function CollapseEntry(result: string, entry: string): string
  {
    if entry == ".." then ParentDir(result)
    else if entry == "." then result
    else result + entry + "/"
  }

  /** Every backslash replaced by a slash. */
  function Unbackslash(path: string): (r: string)
    ensures |r| == |path| && '\\' !in r
    ensures forall i :: 0 <= i < |path| ==> r[i] == (if path[i] == '\\' then '/' else path[i])
  {
    seq(|path|, i requires 0 <= i < |path| => if path[i] == '\\' then '/' else path[i])
  }

  lemma UnbackslashWithout(path: string)
    requires '\\' !in path
    ensures Unbackslash(path) == path
  {
  }

  /** A path that starts with neither a slash nor a backslash is taken relative to `cwd`. */
  function Resolve(path: string, cwd: string): string
  {
    if path != "" && (path[0] == '/' || path[0] == '\\') then path else cwd + "/" + path
  }

  /** What `collapse` computes (and caches) for a resolved path. */
  function CollapseAbsolute(path: string): string
  {
    Reduce(Unbackslash(path), CollapseEntry, "/")
  }

  /** `collapse(path, cwd)` without its cache: `cwd` itself for an empty path. */
  function CollapsePath(path: string, cwd: string): string
  {
    if path == "" then cwd else CollapseAbsolute(Resolve(path, cwd))
  }

  /** A reference for collapse on lists of names: ".." pops a name (nothing at the top), "." is
      skipped and any other name is pushed. */
  function StackStep(stack: seq<string>, entry: string): seq<string>
  {
    if entry == ".." then Pop(stack) else if entry == "." then stack else stack + [entry]
  }

  function CollapseStack(stack: seq<string>, entries: seq<string>): seq<string>
  {
    FoldLeft(StackStep, stack, entries)
  }

  lemma CollapseEntryStep(stack: seq<string>, entry: string)
    requires AllSegments(stack) && IsSegment(entry)
    ensures CollapseEntry(PathOf(stack), entry) == PathOf(StackStep(stack, entry))
    ensures AllSegments(StackStep(stack, entry))
  {
    if entry == ".." {
      ParentDirOfPath(stack);
    } else if entry != "." {
      PathOfSnoc(stack, entry);
    }
  }

  /** The string reducer of `collapse` agrees, step by step, with the list reference. */
  lemma {:induction false} CollapseSimulates(stack: seq<string>, entries: seq<string>)
    requires AllSegments(stack) && AllSegments(entries)
    ensures FoldLeft(CollapseEntry, PathOf(stack), entries) == PathOf(CollapseStack(stack, entries))
    decreases |entries|
  {
    if entries != [] {
      CollapseEntryStep(stack, entries[0]);
      CollapseSimulates(StackStep(stack, entries[0]), entries[1..]);
    }
  }

  /** Names as `collapse` leaves them: no ".", no ".." and no backslash. */
  predicate Clean(segs: seq<string>)
  {
    AllSegments(segs) && forall i :: 0 <= i < |segs| ==> segs[i] != "." && segs[i] != ".." && '\\' !in segs[i]
  }

  /** A collapsed path: well formed and made of clean names. */
  predicate Normal(path: string)
  {
    WellFormed(path) && Clean(SplitPath(path))
  }

  predicate IsAbsolute(path: string)
  {
    |path| > 0 && path[0] == '/'
  }

  lemma {:induction false} CollapseStackClean(stack: seq<string>, entries: seq<string>)
    requires Clean(stack) && AllSegments(entries)
    requires forall i :: 0 <= i < |entries| ==> '\\' !in entries[i]
    ensures Clean(CollapseStack(stack, entries))
    decreases |entries|
  {
    if entries != [] {
      var next := StackStep(stack, entries[0]);
      assert Clean(next) by {
        if entries[0] == ".." && stack != [] {
          assert forall i :: 0 <= i < |next| ==> next[i] == stack[i];
        }
      }
      CollapseStackClean(next, entries[1..]);
    }
  }

  lemma {:induction false} CollapseStackOfClean(stack: seq<string>, entries: seq<string>)
    requires Clean(entries)
    ensures CollapseStack(stack, entries) == stack + entries
    decreases |entries|
  {
    if entries == [] {
      assert stack + entries == stack;
    } else {
      CollapseStackOfClean(stack + [entries[0]], entries[1..]);
      assert stack + [entries[0]] + entries[1..] == stack + entries;
    }
  }

  /** `k` ".." names in a row. */
  function DotDots(k: nat): seq<string>
  {
    if k == 0 then [] else DotDots(k - 1) + [".."]
  }

  lemma {:induction false} CollapseStackDots(stack: seq<string>, k: nat)
    requires k <= |stack|
    ensures CollapseStack(stack, DotDots(k)) == stack[..|stack| - k]
  {
    if k == 0 {
      assert stack[..|stack|] == stack;
    } else {
      CollapseStackDots(stack, k - 1);
      FoldLeftConcat(StackStep, stack, DotDots(k - 1), [".."]);
      var up := stack[..|stack| - (k - 1)];
      assert FoldLeft(StackStep, up, [".."]) == Pop(up);
      assert Pop(up) == stack[..|stack| - k];
    }
  }

  /** `k` copies of "../": no backslash, a leading dot and a trailing slash. */
  lemma {:induction false} RepeatDotDotsText(k: nat)
    ensures '\\' !in Repeat("../", k)
    ensures k > 0 ==> |Repeat("../", k)| > 0 && Repeat("../", k)[0] == '.'
    ensures k > 0 ==> Repeat("../", k)[|Repeat("../", k)| - 1] == '/'
  {
    if k > 0 {
      RepeatDotDotsText(k - 1);
      assert Repeat("../", k) == Repeat("../", k - 1) + "../";
    }
  }

  lemma SplitPathDotDot()
    ensures SplitPath("../") == [".."]
  {
    assert "../" == ".." + "/" + "";
    SplitPathConcat("..", "");
    SplitPathOfSegment("..");
    SplitPathOfEmpty();
  }

  /** Appending "../" after a slash (or to nothing) appends one ".." name. */
  lemma SplitPathAppendDotDot(before: string)
    requires before == "" || before[|before| - 1] == '/'
    ensures SplitPath(before + "../") == SplitPath(before) + [".."]
  {
    SplitPathDotDot();
    if before == "" {
      assert before + "../" == "../";
      SplitPathOfEmpty();
    } else {
      SplitPathAfterSlash(before, "../");
    }
  }

  /** `k` copies of "../" split into `k` ".." names. */
  lemma {:induction false} RepeatDotDots(k: nat)
    ensures SplitPath(Repeat("../", k)) == DotDots(k)
  {
    if k == 0 {
      SplitPathOfEmpty();
    } else {
      RepeatDotDots(k - 1);
      RepeatDotDotsText(k - 1);
      SplitPathAppendDotDot(Repeat("../", k - 1));
    }
  }

  lemma {:induction false} PathOfAvoids(segs: seq<string>, c: char)
    requires c != '/'
    requires forall i :: 0 <= i < |segs| ==> c !in segs[i]
    ensures c !in PathOf(segs)
    decreases |segs|
  {
    if segs != [] {
      PathOfAvoids(segs[1..], c);
      assert PathOf(segs) == "/" + segs[0] + "/" + SegmentsText(segs[1..]);
    }
  }

  /** The rendered form of clean names is a collapsed path. */
  lemma CleanIsNormal(segs: seq<string>)
    requires Clean(segs)
    ensures Normal(PathOf(segs))
    ensures '\\' !in PathOf(segs)
  {
    SplitPathOf(segs);
    PathOfAvoids(segs, '\\');
  }

  /** `collapse` of a resolved path equals the rendered list reference, which is clean. */
  lemma CollapseAbsoluteIsStack(path: string)
    ensures CollapseAbsolute(path) == PathOf(CollapseStack([], SplitPath(Unbackslash(path))))
    ensures Clean(CollapseStack([], SplitPath(Unbackslash(path))))
  {
    var names := SplitPath(Unbackslash(path));
    assert PathOf([]) == "/";
    CollapseSimulates([], names);
    SplitPathAvoids(Unbackslash(path), '\\');
    CollapseStackClean([], names);
  }

  /** The output of `collapse` on a non-empty path is absolute, slash-terminated and collapsed: no
      empty, "." or ".." name and no backslash. */
  lemma CollapseIsNormal(path: string, cwd: string)
    requires path != ""
    ensures var r := CollapsePath(path, cwd);
            Normal(r) && IsAbsolute(r) && r[|r| - 1] == '/' && '\\' !in r
  {
    var resolved := Resolve(path, cwd);
    CollapseAbsoluteIsStack(resolved);
    CleanIsNormal(CollapseStack([], SplitPath(Unbackslash(resolved))));
  }

  /** A collapsed path is left as it is. */
  lemma CollapseKeepsNormal(path: string, cwd: string)
    requires Normal(path)
    ensures CollapsePath(path, cwd) == path
  {
    var segs := SplitPath(path);
    CleanIsNormal(segs);
    UnbackslashWithout(path);
    CollapseAbsoluteIsStack(path);
    CollapseStackOfClean([], segs);
    assert [] + segs == segs;
  }

  /** `collapse` is idempotent: collapsing its output again, from any directory, changes nothing. */
  lemma CollapseIdempotent(path: string, cwd: string, cwd2: string)
    requires path != "" || Normal(cwd)
    ensures CollapsePath(CollapsePath(path, cwd), cwd2) == CollapsePath(path, cwd)
  {
    if path != "" {
      CollapseIsNormal(path, cwd);
    }
    CollapseKeepsNormal(CollapsePath(path, cwd), cwd2);
  }

  /** Appending a slash and a name appends the name. */
  lemma SplitPathSnoc(x: string, name: string)
    requires IsSegment(name)
    ensures SplitPath(x + "/" + name) == SplitPath(x) + [name]
  {
    SplitPathConcat(x, name);
    SplitPathOfSegment(name);
  }

  /** A trailing slash adds no name. */
  lemma SplitPathTrailingSlash(x: string)
    ensures SplitPath(x + "/") == SplitPath(x)
  {
    assert x + "/" + "" == x + "/";
    SplitPathConcat(x, "");
    SplitPathOfEmpty();
  }

  /** Backslashes are replaced piecewise. */
  lemma UnbackslashConcat(x: string, y: string)
    ensures Unbackslash(x + y) == Unbackslash(x) + Unbackslash(y)
  {
  }

  /** ".." against a collapsed directory goes up one name and stays at "/" at the top; the
      documented `collapse('../', '/foo/bar/')` giving '/foo/' is the case of two names. */
  lemma CollapseUpOne(segs: seq<string>)
    requires Clean(segs)
    ensures CollapsePath("../", PathOf(segs)) == PathOf(Pop(segs))
  {
    var resolved := PathOf(segs) + "/" + "../";
    assert Resolve("../", PathOf(segs)) == resolved;
    CleanIsNormal(segs);
    UnbackslashWithout(resolved);
    SplitPathConcat(PathOf(segs), "../");
    SplitPathOf(segs);
    SplitPathDotDot();
    CollapseAbsoluteIsStack(resolved);
    FoldLeftConcat(StackStep, [], segs, [".."]);
    CollapseStackOfClean([], segs);
    assert [] + segs == segs;
    assert FoldLeft(StackStep, segs, [".."]) == Pop(segs);
  }

  lemma SplitPathBackslashShape(a: string, b: string, c: string)
    requires IsSegment(a) && IsSegment(b) && IsSegment(c)
    ensures SplitPath("/" + a + "/" + "." + "/" + b + "/" + c + "/" + ".." + "/") == [a, ".", b, c, ".."]
  {
    var p1 := "/" + a;
    var p2 := p1 + "/" + ".";
    var p3 := p2 + "/" + b;
    var p4 := p3 + "/" + c;
    var p5 := p4 + "/" + "..";
    SplitPathOfEmpty();
    assert "" + "/" + a == p1;
    SplitPathSnoc("", a);
    assert SplitPath(p1) == [a];
    SplitPathSnoc(p1, ".");
    assert SplitPath(p2) == [a, "."];
    SplitPathSnoc(p2, b);
    assert SplitPath(p3) == [a, ".", b];
    SplitPathSnoc(p3, c);
    assert SplitPath(p4) == [a, ".", b, c];
    SplitPathSnoc(p4, "..");
    assert SplitPath(p5) == [a, ".", b, c, ".."];
    SplitPathTrailingSlash(p5);
  }

  lemma UnbackslashShape(a: string, b: string, c: string)
    requires '\\' !in a && '\\' !in b && '\\' !in c
    ensures Unbackslash("\\" + a + "\\" + "." + "\\" + b + "/" + c + "/" + ".." + "/")
            == "/" + a + "/" + "." + "/" + b + "/" + c + "/" + ".." + "/"
  {
    assert Unbackslash("\\") == "/" && Unbackslash(".") == "." && Unbackslash("/") == "/";
    assert Unbackslash("..") == "..";
    UnbackslashWithout(a);
    UnbackslashWithout(b);
    UnbackslashWithout(c);
    UnbackslashConcat("\\", a);
    UnbackslashConcat("\\" + a, "\\");
    UnbackslashConcat("\\" + a + "\\", ".");
    UnbackslashConcat("\\" + a + "\\" + ".", "\\");
    UnbackslashConcat("\\" + a + "\\" + "." + "\\", b);
    UnbackslashConcat("\\" + a + "\\" + "." + "\\" + b, "/");
    UnbackslashConcat("\\" + a + "\\" + "." + "\\" + b + "/", c);
    UnbackslashConcat("\\" + a + "\\" + "." + "\\" + b + "/" + c, "/");
    UnbackslashConcat("\\" + a + "\\" + "." + "\\" + b + "/" + c + "/", "..");
    UnbackslashConcat("\\" + a + "\\" + "." + "\\" + b + "/" + c + "/" + "..", "/");
  }

  lemma CollapseStackShape(a: string, b: string, c: string)
    requires Clean([a, b, c])
    ensures CollapseStack([], [a, ".", b, c, ".."]) == [a, b]
  {
    assert [a, b, c][0] == a && [a, b, c][1] == b && [a, b, c][2] == c;
    assert a != "." && a != ".." && b != "." && b != ".." && c != "." && c != "..";
    var names := [a, ".", b, c, ".."];
    assert StackStep([], a) == [a];
    assert StackStep([a], b) == [a, b];
    assert StackStep([a, b], c) == [a, b, c];
    assert StackStep([a, b, c], "..") == [a, b];
    assert names[1..] == [".", b, c, ".."] && names[2..] == [b, c, ".."];
    assert names[3..] == [c, ".."] && names[4..] == [".."] && names[5..] == [];
    assert CollapseStack([], names) == CollapseStack([a], names[1..]);
    assert CollapseStack([a], names[1..]) == CollapseStack([a], names[2..]);
    assert CollapseStack([a], names[2..]) == CollapseStack([a, b], names[3..]);
    assert CollapseStack([a, b], names[3..]) == CollapseStack([a, b, c], names[4..]);
    assert CollapseStack([a, b, c], names[4..]) == CollapseStack([a, b], names[5..]);
  }

  /** Backslashes count as slashes, "." is dropped and ".." undoes the name before it; the
      documented `collapse('\\foo\\.\\bar/doh/../')` giving '/foo/bar/' is the case of three
      names. */
  lemma CollapseBackslashes(a: string, b: string, c: string, cwd: string)
    requires Clean([a, b, c])
    ensures CollapsePath("\\" + a + "\\" + "." + "\\" + b + "/" + c + "/" + ".." + "/", cwd)
            == PathOf([a, b])
  {
    assert [a, b, c][0] == a && [a, b, c][1] == b && [a, b, c][2] == c;
    var path := "\\" + a + "\\" + "." + "\\" + b + "/" + c + "/" + ".." + "/";
    assert Resolve(path, cwd) == path;
    UnbackslashShape(a, b, c);
    SplitPathBackslashShape(a, b, c);
    CollapseAbsoluteIsStack(path);
    CollapseStackShape(a, b, c);
  }

  /** The static `$collapseCache` of `collapse`, keyed by the resolved path. */
  class CollapseCache {
    var entries: map<string, string>

    /** Every cached value is what collapsing its key computes. */
    ghost predicate Valid()
      reads this
    {
      forall key :: key in entries ==> entries[key] == CollapseAbsolute(key)
    }

    constructor ()
      ensures Valid() && entries == map[]
    {
      entries := map[];
    }

    /** `collapse(path, cwd)`: a cache hit returns the stored value, a miss computes it and stores
        it under the resolved path; an empty path returns `cwd` and leaves the cache alone. */
    method Collapse(path: string, cwd: string) returns (collapsed: string)
      requires Valid()
      modifies this
      ensures Valid()
      ensures collapsed == CollapsePath(path, cwd)
      ensures path == "" ==> entries == old(entries)
      ensures path != "" ==> entries == old(entries)[Resolve(path, cwd) := collapsed]
    {
      if path == "" {
        return cwd;
      }
      var key := Resolve(path, cwd);
      if key in entries {
        collapsed := entries[key];
        return;
      }
      collapsed := Reduce(Unbackslash(key), CollapseEntry, "/");
      entries := entries[key := collapsed];
    }
  }

  // ---------------------------------------------------------------------------------------------
  // prefix tests

  /** `isChild`: `parent` occurs at offset 0 of `path`. */
  predicate IsChild(path: string, parent: string)
  {
    StrPos(path, parent) == Some(0)
  }

  /** `isChild` is the string-prefix relation for a non-empty `parent`; an empty `parent` is never
      found. */
  lemma IsChildIsPrefix(path: string, parent: string)
    ensures IsChild(path, parent) <==> parent != "" && parent <= path
  {
    StrPosZeroIsPrefix(path, parent);
  }

  // ---------------------------------------------------------------------------------------------
  // parents, parent and walk

  /** The ancestors `parents` lists for a path with names `segs`: `root` first, then each prefix
      path that extends a non-empty `root` strictly, shortest first. */
  function Ancestors(segs: seq<string>, root: string): (ps: seq<string>)
    ensures |ps| >= 1 && ps[0] == root
  {
    if segs == [] then [root]
    else
      var above := Ancestors(segs[..|segs| - 1], root);
      var p := PathOf(segs);
      if root != "" && root < p then above + [p] else above
  }

  /** With an empty `root` nothing is found below it: `parents` lists the empty root alone. */
  lemma {:induction false} AncestorsOfEmptyRoot(segs: seq<string>)
    ensures Ancestors(segs, "") == [""]
  {
    if segs != [] {
      AncestorsOfEmptyRoot(segs[..|segs| - 1]);
    }
  }

  /** Extending the names by one adds the new prefix path when it lies strictly below a non-empty
      `root`. */
  lemma AncestorsSnoc(segs: seq<string>, x: string, root: string)
    ensures Ancestors(segs + [x], root)
            == if root != "" && root < PathOf(segs + [x]) then Ancestors(segs, root) + [PathOf(segs + [x])]
               else Ancestors(segs, root)
  {
    assert (segs + [x])[..|segs|] == segs;
  }

  /** One more name of the path: its prefix path gains the name and a slash. */
  lemma AncestorsStep(segs: seq<string>, i: nat, root: string)
    requires i < |segs|
    ensures PathOf(segs[..i + 1]) == PathOf(segs[..i]) + segs[i] + "/"
    ensures Ancestors(segs[..i + 1], root)
            == if root != "" && root < PathOf(segs[..i + 1]) then Ancestors(segs[..i], root) + [PathOf(segs[..i + 1])]
               else Ancestors(segs[..i], root)
  {
    assert segs[..i + 1] == segs[..i] + [segs[i]];
    PathOfSnoc(segs[..i], segs[i]);
    AncestorsSnoc(segs[..i], segs[i], root);
  }

  /** `parents(path, root)`: the running prefix path is extended name by name, and each one that
      starts with `root` and differs from it is appended. */
  method Parents(path: string, root: string) returns (parents: seq<string>)
    ensures parents == Ancestors(SplitPath(path), root)
  {
    var segs := SplitPath(path);
    var prevPath := "/";
    parents := [root];
    for i := 0 to |segs|
      invariant prevPath == PathOf(segs[..i])
      invariant parents == Ancestors(segs[..i], root)
    {
      AncestorsStep(segs, i, root);
      prevPath := prevPath + segs[i] + "/";
      IsChildIsPrefix(prevPath, root);
      if IsChild(prevPath, root) && prevPath != root {
        parents := parents + [prevPath];
      }
    }
    assert segs[..|segs|] == segs;
  }

  lemma PrefixTransitive(a: string, b: string, c: string)
    requires a <= b && b <= c
    ensures a <= c && (a < b || b < c ==> a < c)
  {
  }

  /** Every entry after the first extends `root` strictly and ends with a slash. */
  predicate BelowRoot(ps: seq<string>, root: string)
  {
    forall j :: 1 <= j < |ps| ==> root < ps[j] && ps[j][|ps[j]| - 1] == '/'
  }

  lemma BelowRootSnoc(ps: seq<string>, root: string, p: string)
    requires BelowRoot(ps, root) && ps != [] && root < p && p[|p| - 1] == '/'
    ensures BelowRoot(ps + [p], root)
  {
    var qs := ps + [p];
    forall j | 1 <= j < |qs|
      ensures root < qs[j] && qs[j][|qs[j]| - 1] == '/'
    {
      if j < |ps| {
        assert qs[j] == ps[j];
      }
    }
  }

  lemma {:induction false} AncestorsBelowRoot(segs: seq<string>, root: string)
    ensures BelowRoot(Ancestors(segs, root), root)
  {
    if segs != [] {
      var init := segs[..|segs| - 1];
      var above := Ancestors(init, root);
      var p := PathOf(segs);
      AncestorsBelowRoot(init, root);
      if root != "" && root < p {
        BelowRootSnoc(above, root, p);
        assert Ancestors(segs, root) == above + [p];
      } else {
        assert Ancestors(segs, root) == above;
      }
    }
  }

  /** Dropping the last name gives a strictly shorter prefix path. */
  lemma PathOfDropLast(segs: seq<string>)
    requires segs != []
    ensures PathOf(segs[..|segs| - 1]) < PathOf(segs)
  {
    var init := segs[..|segs| - 1];
    assert segs == init + [segs[|segs| - 1]];
    PathOfSnoc(init, segs[|segs| - 1]);
  }

  /** The last entry, unless it is the only one, is a prefix of `p`. */
  predicate LastBelow(ps: seq<string>, p: string)
  {
    ps != [] && (|ps| == 1 || ps[|ps| - 1] <= p)
  }

  lemma LastBelowSnoc(above: seq<string>, root: string, q: string, p: string)
    requires LastBelow(above, q) && q <= p
    ensures LastBelow(if root != "" && root < p then above + [p] else above, p)
  {
    if !(root != "" && root < p) && |above| > 1 {
      PrefixTransitive(above[|above| - 1], q, p);
    }
  }

  /** The last entry, when it is not `root` itself, is a prefix of the path. */
  lemma {:induction false} AncestorsLastBelowPath(segs: seq<string>, root: string)
    ensures LastBelow(Ancestors(segs, root), PathOf(segs))
  {
    if segs != [] {
      var init := segs[..|segs| - 1];
      AncestorsLastBelowPath(init, root);
      PathOfDropLast(segs);
      LastBelowSnoc(Ancestors(init, root), root, PathOf(init), PathOf(segs));
    }
  }

  /** Each entry is a strict prefix of the next. */
  predicate Increasing(ps: seq<string>)
  {
    forall j :: 0 <= j < |ps| - 1 ==> ps[j] < ps[j + 1]
  }

  lemma IncreasingSnoc(ps: seq<string>, p: string)
    requires Increasing(ps) && ps != [] && ps[|ps| - 1] < p
    ensures Increasing(ps + [p])
  {
    var qs := ps + [p];
    forall j | 0 <= j < |qs| - 1
      ensures qs[j] < qs[j + 1]
    {
      if j < |ps| - 1 {
        assert qs[j] == ps[j] && qs[j + 1] == ps[j + 1];
      }
    }
  }

  lemma {:induction false} AncestorsIncreasing(segs: seq<string>, root: string)
    ensures Increasing(Ancestors(segs, root))
  {
    if segs != [] {
      var init := segs[..|segs| - 1];
      var above := Ancestors(init, root);
      var p := PathOf(segs);
      AncestorsIncreasing(init, root);
      if root != "" && root < p {
        PathOfDropLast(segs);
        AncestorsLastBelowPath(init, root);
        if |above| > 1 {
          PrefixTransitive(above[|above| - 1], PathOf(init), p);
        }
        IncreasingSnoc(above, p);
        assert Ancestors(segs, root) == above + [p];
      } else {
        assert Ancestors(segs, root) == above;
      }
    }
  }

  /** The shape of `parents`: `root` first; every later entry extends `root` strictly and ends
      with a slash; each entry is a strict prefix of the next; the last one is a prefix of the
      path itself. */
  lemma AncestorsShape(segs: seq<string>, root: string)
    ensures var ps := Ancestors(segs, root);
            && ps[0] == root
            && (forall j :: 1 <= j < |ps| ==> root < ps[j] && ps[j][|ps[j]| - 1] == '/')
            && (forall j :: 0 <= j < |ps| - 1 ==> ps[j] < ps[j + 1])
            && (|ps| == 1 || ps[|ps| - 1] <= PathOf(segs))
  {
    AncestorsBelowRoot(segs, root);
    assert BelowRoot(Ancestors(segs, root), root);
    AncestorsIncreasing(segs, root);
    assert Increasing(Ancestors(segs, root));
    AncestorsLastBelowPath(segs, root);
    assert LastBelow(Ancestors(segs, root), PathOf(segs));
  }

  /** Below the top directory every prefix path is an ancestor: entry `j` renders the first `j`
      names. */
  lemma {:induction false} AncestorsFromTop(segs: seq<string>)
    ensures var ps := Ancestors(segs, "/");
            |ps| == |segs| + 1 && forall j :: 0 <= j <= |segs| ==> ps[j] == PathOf(segs[..j])
  {
    if segs != [] {
      var init := segs[..|segs| - 1];
      AncestorsFromTop(init);
      var p := PathOf(segs);
      assert "/" < p;
      var ps := Ancestors(segs, "/");
      forall j | 0 <= j <= |segs|
        ensures ps[j] == PathOf(segs[..j])
      {
        if j < |segs| {
          assert init[..j] == segs[..j];
        } else {
          assert segs[..j] == segs;
        }
      }
    } else {
      assert PathOf(segs[..0]) == "/";
    }
  }

  /** The list ends with the path itself when the path lies at or below `root`. */
  lemma {:induction false} AncestorsEndAtPath(segs: seq<string>, root: string)
    requires root != "" && root <= PathOf(segs)
    ensures var ps := Ancestors(segs, root); ps[|ps| - 1] == PathOf(segs)
  {
    var p := PathOf(segs);
    if segs == [] {
      assert root == "/";
    } else if p == root {
      var init := segs[..|segs| - 1];
      AncestorsShape(init, root);
      PathOfPrefix(init, segs);
      assert init < segs;
      var above := Ancestors(init, root);
      if |above| > 1 {
        PrefixTransitive(root, above[|above| - 1], PathOf(init));
        assert false;
      }
    }
  }

  /** The documented `parents('/foo/bar/doh/', '/foo/')`, for any three names: the root, then the
      two deeper prefix paths. */
  lemma ParentsOfThreeNames(a: string, b: string, c: string)
    requires AllSegments([a, b, c])
    ensures Ancestors(SplitPath(PathOf([a, b, c])), PathOf([a]))
            == [PathOf([a]), PathOf([a, b]), PathOf([a, b, c])]
  {
    SplitPathOf([a, b, c]);
    assert [a, b, c][..2] == [a, b] && [a, b][..1] == [a] && [a][..0] == [];
    PathOfPrefix([a], [a, b]);
    PathOfPrefix([a], [a, b, c]);
    assert [a] < [a, b] && [a] < [a, b, c];
    var root := PathOf([a]);
    assert Ancestors([a], root) == [root];
    assert Ancestors([a, b], root) == [root, PathOf([a, b])];
    assert Ancestors([a, b, c], root) == [root, PathOf([a, b]), PathOf([a, b, c])];
  }

  /** `parent(path, root)`: nothing for the root itself, otherwise the parent directory unless it
      falls outside `root`. */
  function Parent(path: string, root: string): Option<string>
  {
    if path == root then None
    else
      var parent := ParentDir(path);
      if IsChild(parent, root) then Some(parent) else None
  }

  /** On a well-formed path, `parent` drops the last name (and appending that name back gives the
      path), and answers nothing exactly at `root`, for an empty `root`, or when the parent lies
      outside `root`. */
  lemma ParentOfPath(segs: seq<string>, root: string)
    requires AllSegments(segs)
    ensures var p := PathOf(segs);
            var up := PathOf(Pop(segs));
            Parent(p, root) == (if p == root || root == "" || !(root <= up) then None else Some(up))
    ensures segs != [] ==> PathOf(Pop(segs)) + segs[|segs| - 1] + "/" == PathOf(segs)
  {
    ParentDirOfPath(segs);
    IsChildIsPrefix(PathOf(Pop(segs)), root);
    if segs != [] {
      PathOfSnoc(Pop(segs), segs[|segs| - 1]);
    }
  }

  function Reverse<T>(xs: seq<T>): (r: seq<T>)
    ensures |r| == |xs| && forall i :: 0 <= i < |xs| ==> r[i] == xs[|xs| - 1 - i]
  {
    if xs == [] then [] else Reverse(xs[1..]) + [xs[0]]
  }

  /** The order in which `walk` visits: the ancestors, reversed unless starting at the root. */
  function WalkOrder(path: string, startAtRoot: bool, root: string): seq<string>
  {
    var ps := Ancestors(SplitPath(path), root);
    if startAtRoot then ps else Reverse(ps)
  }

  /** The `foreach` of `walk`: the callback is applied to each entry in turn; the first result
      that is not null is returned and ends the loop, and null is returned when every call gave
      null. */
  method FirstResult<T>(items: seq<string>, callback: string -> Option<T>) returns (result: Option<T>)
    ensures result.None? <==> forall i :: 0 <= i < |items| ==> callback(items[i]).None?
    ensures result.Some? ==> exists i :: 0 <= i < |items| && callback(items[i]) == result
                                         && forall j :: 0 <= j < i ==> callback(items[j]).None?
  {
    var i := 0;
    while i < |items|
      invariant 0 <= i <= |items|
      invariant forall j :: 0 <= j < i ==> callback(items[j]).None?
    {
      result := callback(items[i]);
      if result.Some? {
        assert callback(items[i]) == result;
        return;
      }
      i := i + 1;
    }
    return None;
  }

  /** `walk`: the callback is applied to each ancestor in turn, from `root` down or from the path
      up; the first result that is not null is returned and ends the walk, and null is returned
      when every call gave null. */
  method Walk<T>(path: string, callback: string -> Option<T>, startAtRoot: bool, root: string)
      returns (result: Option<T>)
    ensures var order := WalkOrder(path, startAtRoot, root);
            && (result.None? <==> forall i :: 0 <= i < |order| ==> callback(order[i]).None?)
            && (result.Some? ==> exists i :: 0 <= i < |order| && callback(order[i]) == result
                                            && forall j :: 0 <= j < i ==> callback(order[j]).None?)
  {
    var parents := Parents(path, root);
    if !startAtRoot {
      parents := Reverse(parents);
    }
    assert parents == WalkOrder(path, startAtRoot, root);
    result := FirstResult(parents, callback);
  }

  // ---------------------------------------------------------------------------------------------
  // getRelativePath

  /** The index of the first entry that is a non-empty prefix of `target`, or the length when
      none is. */
  function FirstPrefixIndex(target: string, parents: seq<string>): (k: nat)
    ensures k <= |parents|
    ensures forall j :: 0 <= j < k ==> !(parents[j] != "" && parents[j] <= target)
    ensures k < |parents| ==> parents[k] != "" && parents[k] <= target
  {
    if parents == [] then 0
    else if parents[0] != "" && parents[0] <= target then 0
    else 1 + FirstPrefixIndex(target, parents[1..])
  }

  /** PHP's `substr(s, start)` for a non-negative start, as `getRelativePath` uses it: empty past
      the end. PHP 7 answers `false` there, which the following `.=` turns into the empty string, so
      the two agree at this call site; the case does not arise there anyway, since the common
      parent is a prefix of the target. */
  function Substr(s: string, start: nat): string
  {
    if start <= |s| then s[start..] else ""
  }

  /** The relative path from `source` to `target`: one "../" for every ancestor of `source`,
      deepest first, that is not a prefix of `target`, then what follows the first one that is. */
  function RelativePath(target: string, source: string): string
  {
    var parents := Reverse(Ancestors(SplitPath(source), "/"));
    var k := FirstPrefixIndex(target, parents);
    Repeat("../", k) + Substr(target, if k < |parents| then |parents[k]| else 0)
  }

  /** The walk `getRelativePath` makes over the ancestors, deepest first: its callback appends
      "../" for each one `target` is not a child of, and the walk stops at the first one it is. */
  method ClimbToCommonParent(target: string, parents: seq<string>) returns (ups: string, k: nat)
    ensures k == FirstPrefixIndex(target, parents)
    ensures ups == Repeat("../", k)
  {
    ups := "";
    k := 0;
    while k < |parents| && !IsChild(target, parents[k])
      invariant 0 <= k <= |parents|
      invariant ups == Repeat("../", k)
      invariant forall j :: 0 <= j < k ==> !(parents[j] != "" && parents[j] <= target)
    {
      IsChildIsPrefix(target, parents[k]);
      ups := ups + "../";
      k := k + 1;
    }
    if k < |parents| {
      IsChildIsPrefix(target, parents[k]);
    }
  }

  /** `getRelativePath(target, source)`: the "../" steps up from `source` to the deepest ancestor
      that is a prefix of `target`, then the rest of `target`. */
  method GetRelativePath(target: string, source: string) returns (relativePath: string)
    ensures relativePath == RelativePath(target, source)
  {
    var parents := Parents(source, "/");
    parents := Reverse(parents);
    var ups, k := ClimbToCommonParent(target, parents);
    var commonLength := if k < |parents| then |parents[k]| else 0;
    relativePath := ups + Substr(target, commonLength);
  }

  /** Entry `i` of the ancestors of `segs` below the top directory, deepest first, renders all but
      the last `i` names. */
  lemma ReversedAncestorsAt(segs: seq<string>, i: nat)
    requires i <= |segs|
    ensures var parents := Reverse(Ancestors(segs, "/"));
            |parents| == |segs| + 1 && parents[i] == PathOf(segs[..|segs| - i])
  {
    AncestorsFromTop(segs);
  }

  /** The first ancestor of `source`, deepest first, that is a prefix of an absolute `target`
      exists: at worst it is the top directory, which renders no names. */
  lemma CommonAncestor(target: string, s: seq<string>) returns (k: nat)
    requires IsAbsolute(target)
    ensures k == FirstPrefixIndex(target, Reverse(Ancestors(s, "/")))
    ensures |Reverse(Ancestors(s, "/"))| == |s| + 1
    ensures k <= |s| && Reverse(Ancestors(s, "/"))[k] == PathOf(s[..|s| - k])
    ensures PathOf(s[..|s| - k]) <= target
  {
    var parents := Reverse(Ancestors(s, "/"));
    k := FirstPrefixIndex(target, parents);
    ReversedAncestorsAt(s, |s|);
    assert s[..|s| - |s|] == [];
    assert parents[|s|] == "/";
    assert "/" <= target by {
      assert target[..1] == "/";
    }
    ReversedAncestorsAt(s, k);
  }

  /** The relative path once the common ancestor is known: `k` steps up, then what follows it. */
  lemma RelativePathAt(target: string, source: string, k: nat)
    requires var parents := Reverse(Ancestors(SplitPath(source), "/"));
             k == FirstPrefixIndex(target, parents) && k < |parents| && parents[k] <= target
    ensures var parents := Reverse(Ancestors(SplitPath(source), "/"));
            RelativePath(target, source) == Repeat("../", k) + target[|parents[k]|..]
  {
  }

  /** For an absolute `target`, the relative path climbs `k` names from `source` to the deepest
      ancestor that is a prefix of `target`, then spells out the rest of `target`. */
  lemma RelativePathParts(target: string, source: string) returns (k: nat, rest: string)
    requires IsAbsolute(target)
    ensures k <= |SplitPath(source)|
    ensures RelativePath(target, source) == Repeat("../", k) + rest
    ensures target == PathOf(SplitPath(source)[..|SplitPath(source)| - k]) + rest
  {
    var s := SplitPath(source);
    k := CommonAncestor(target, s);
    var common := PathOf(s[..|s| - k]);
    RelativePathAt(target, source, k);
    rest := target[|common|..];
    PrefixSplit(common, target);
  }

  lemma AppendCancel(a: string, x: string, y: string)
    requires a + x == a + y
    ensures x == y
  {
    assert forall i :: 0 <= i < |x| ==> x[i] == (a + x)[|a| + i];
  }

  lemma SuffixAvoids(a: string, x: string, ch: char)
    requires ch !in a + x
    ensures ch !in x
  {
    assert forall i :: 0 <= i < |x| ==> x[i] == (a + x)[|a| + i];
  }

  lemma CleanSuffix(c: seq<string>, r: seq<string>)
    requires Clean(c + r)
    ensures Clean(r)
  {
    assert forall i :: 0 <= i < |r| ==> r[i] == (c + r)[|c| + i];
  }

  /** Splitting a path after one of its prefix paths. */
  lemma SplitAfterPrefix(c: seq<string>, rest: string, target: string)
    requires AllSegments(c) && target == PathOf(c) + rest
    ensures SplitPath(target) == c + SplitPath(rest)
  {
    SplitPathAfterSlash(PathOf(c), rest);
    SplitPathOf(c);
  }

  /** What follows a prefix path of a collapsed path is clean, backslash-free text of its names. */
  lemma RestAfterPrefix(c: seq<string>, rest: string, target: string)
    requires Normal(target) && AllSegments(c) && target == PathOf(c) + rest
    ensures SplitPath(target) == c + SplitPath(rest)
    ensures Clean(SplitPath(rest))
    ensures rest == SegmentsText(SplitPath(rest))
    ensures '\\' !in rest
  {
    var r := SplitPath(rest);
    SplitAfterPrefix(c, rest, target);
    CleanSuffix(c, r);
    PathOfConcat(c, r);
    AppendCancel(PathOf(c), rest, SegmentsText(r));
    CleanIsNormal(c + r);
    SuffixAvoids(PathOf(c), rest, '\\');
  }

  /** Going up `k` names from a clean list and then down the clean names `r`. */
  lemma CollapseUpThenDown(s: seq<string>, k: nat, r: seq<string>)
    requires Clean(s) && Clean(r) && k <= |s|
    ensures CollapseStack([], s + DotDots(k) + r) == s[..|s| - k] + r
  {
    FoldLeftConcat(StackStep, [], s + DotDots(k), r);
    FoldLeftConcat(StackStep, [], s, DotDots(k));
    CollapseStackOfClean([], s);
    assert [] + s == s;
    CollapseStackDots(s, k);
    CollapseStackOfClean(s[..|s| - k], r);
  }

  lemma RelativeStartsRelative(k: nat, rest: string)
    requires Clean(SplitPath(rest)) && rest == SegmentsText(SplitPath(rest))
    requires Repeat("../", k) + rest != ""
    ensures var rel := Repeat("../", k) + rest; rel[0] != '/' && rel[0] != '\\'
  {
    RepeatDotDotsText(k);
    var r := SplitPath(rest);
    if k == 0 {
      assert Repeat("../", k) + rest == rest;
      assert r != [];
      assert rest == r[0] + "/" + SegmentsText(r[1..]);
      assert rest[0] == r[0][0];
    }
  }

  /** The names of `k` steps up followed by `rest`. */
  lemma SplitRelative(k: nat, rest: string)
    ensures SplitPath(Repeat("../", k) + rest) == DotDots(k) + SplitPath(rest)
  {
    RepeatDotDots(k);
    if k > 0 {
      RepeatDotDotsText(k);
      SplitPathAfterSlash(Repeat("../", k), rest);
    } else {
      assert Repeat("../", k) + rest == rest;
      assert DotDots(k) + SplitPath(rest) == SplitPath(rest);
    }
  }

  /** The relative path resolved against a collapsed `source`: no backslash, and its names are
      those of `source`, `k` times "..", then those of `rest`. */
  lemma ResolveRelative(source: string, k: nat, rest: string)
    requires Normal(source)
    requires Clean(SplitPath(rest)) && rest == SegmentsText(SplitPath(rest)) && '\\' !in rest
    requires Repeat("../", k) + rest != ""
    ensures var resolved := Resolve(Repeat("../", k) + rest, source);
            && resolved == source + "/" + (Repeat("../", k) + rest)
            && '\\' !in resolved
            && SplitPath(resolved) == SplitPath(source) + DotDots(k) + SplitPath(rest)
  {
    var rel := Repeat("../", k) + rest;
    RelativeStartsRelative(k, rest);
    RepeatDotDotsText(k);
    CleanIsNormal(SplitPath(source));
    SplitPathConcat(source, rel);
    SplitRelative(k, rest);
  }

  /** Collapsing `k` steps up and then the names of `rest` against a collapsed `source`. */
  lemma CollapseRelative(source: string, k: nat, rest: string)
    requires Normal(source) && k <= |SplitPath(source)|
    requires Clean(SplitPath(rest)) && rest == SegmentsText(SplitPath(rest)) && '\\' !in rest
    requires Repeat("../", k) + rest != ""
    ensures CollapsePath(Repeat("../", k) + rest, source)
            == PathOf(SplitPath(source)[..|SplitPath(source)| - k] + SplitPath(rest))
  {
    var s := SplitPath(source);
    var r := SplitPath(rest);
    var rel := Repeat("../", k) + rest;
    ResolveRelative(source, k, rest);
    var resolved := Resolve(rel, source);
    UnbackslashWithout(resolved);
    CollapseAbsoluteIsStack(resolved);
    CollapseUpThenDown(s, k, r);
  }

  /** Relative paths round-trip: collapsing the relative path from `source` to `target` against
      `source` gives back `target`, for collapsed paths. */
  lemma RelativePathRoundTrip(target: string, source: string)
    requires Normal(target) && Normal(source)
    ensures CollapsePath(RelativePath(target, source), source) == target
  {
    var k, rest := RelativePathParts(target, source);
    var s := SplitPath(source);
    RestAfterPrefix(s[..|s| - k], rest, target);
    CollapseParts(source, target, k, rest);
  }

  /** Collapsing `k` steps up and then `rest` against a collapsed `source` gives the path that
      renders the names of `source` but the last `k`, followed by `rest`. */
  lemma CollapseParts(source: string, target: string, k: nat, rest: string)
    requires Normal(source) && k <= |SplitPath(source)|
    requires Clean(SplitPath(rest)) && rest == SegmentsText(SplitPath(rest)) && '\\' !in rest
    requires target == PathOf(SplitPath(source)[..|SplitPath(source)| - k]) + rest
    ensures CollapsePath(Repeat("../", k) + rest, source) == target
  {
    if k == 0 && rest == "" {
      CollapseNothing(source, target);
    } else {
      CollapseThroughParents(source, target, k, rest);
    }
  }

  lemma CollapseThroughParents(source: string, target: string, k: nat, rest: string)
    requires Normal(source) && k <= |SplitPath(source)|
    requires Clean(SplitPath(rest)) && rest == SegmentsText(SplitPath(rest)) && '\\' !in rest
    requires target == PathOf(SplitPath(source)[..|SplitPath(source)| - k]) + rest
    requires k > 0 || rest != ""
    ensures CollapsePath(Repeat("../", k) + rest, source) == target
  {
    var s := SplitPath(source);
    RepeatDotDotsText(k);
    assert |Repeat("../", k) + rest| > 0;
    CollapseRelative(source, k, rest);
    PathOfConcat(s[..|s| - k], SplitPath(rest));
  }

  lemma CollapseNothing(source: string, target: string)
    requires Normal(source)
    requires target == PathOf(SplitPath(source)[..|SplitPath(source)| - 0]) + ""
    ensures CollapsePath(Repeat("../", 0) + "", source) == target
  {
    var s := SplitPath(source);
    assert s[..|s| - 0] == s;
    assert Repeat("../", 0) + "" == "";
    assert target == PathOf(s);
  }

  // ---------------------------------------------------------------------------------------------
  // map

  /** Each name passed through the callback, in order. */
  function Apply(callback: string -> string, names: seq<string>): (r: seq<string>)
    ensures |r| == |names| && forall i :: 0 <= i < |names| ==> r[i] == callback(names[i])
  {
    seq(|names|, i requires 0 <= i < |names| => callback(names[i]))
  }

  /** `map(path, callback)`: "/" for a path without names, else "/" + the callback results joined
      by "/" + "/". */
  function Map(path: string, callback: string -> string): string
  {
    var names := SplitPath(path);
    if |names| > 0 then "/" + Implode("/", Apply(callback, names)) + "/" else "/"
  }

  lemma {:induction false} ImplodeAsText(names: seq<string>)
    requires |names| >= 1
    ensures Implode("/", names) + "/" == SegmentsText(names)
  {
    if |names| == 1 {
      assert SegmentsText(names) == names[0] + "/" + SegmentsText([]);
    } else {
      ImplodeAsText(names[1..]);
    }
  }

  /** `map` renders the callback results as a path: one name per name of the input, in order. */
  lemma MapRendersNames(path: string, callback: string -> string)
    ensures Map(path, callback) == PathOf(Apply(callback, SplitPath(path)))
  {
    var mapped := Apply(callback, SplitPath(path));
    if |mapped| > 0 {
      ImplodeAsText(mapped);
    }
  }

  /** When the callback yields names, splitting the mapped path gives the callback results. */
  lemma MapSplits(path: string, callback: string -> string)
    requires forall i :: 0 <= i < |SplitPath(path)| ==> IsSegment(callback(SplitPath(path)[i]))
    ensures SplitPath(Map(path, callback)) == Apply(callback, SplitPath(path))
  {
    MapRendersNames(path, callback);
    SplitPathOf(Apply(callback, SplitPath(path)));
  }

  /** Mapping the identity gives the well-formed form of the path, so it leaves exactly the
      well-formed paths unchanged. */
  lemma MapIdentity(path: string)
    ensures Map(path, name => name) == PathOf(SplitPath(path))
    ensures Map(path, name => name) == path <==> WellFormed(path)
  {
    MapRendersNames(path, name => name);
    assert Apply(name => name, SplitPath(path)) == SplitPath(path);
  }

  /** Mapping twice is mapping once with the composed callback, when the first yields names. */
  lemma MapCompose(path: string, f: string -> string, g: string -> string)
    requires forall i :: 0 <= i < |SplitPath(path)| ==> IsSegment(f(SplitPath(path)[i]))
    ensures Map(Map(path, f), g) == Map(path, name => g(f(name)))
  {
    MapSplits(path, f);
    MapRendersNames(Map(path, f), g);
    MapRendersNames(path, name => g(f(name)));
    assert Apply(g, Apply(f, SplitPath(path))) == Apply(name => g(f(name)), SplitPath(path));
  }
}
