/** The PHP string built-ins that the grants resolver and the path utilities rely on, restated over
    `string`. PHP strings are byte strings; this model works on characters and does not distinguish. */
module PhpStrings {
  import opened Wrappers

  /** The search inside `strpos($haystack, $needle, $offset)`: the first offset at or after `from`
      where `needle` occurs, or `None` for PHP's `false`. */
  function StrPosFrom(haystack: string, needle: string, from: nat): (r: Option<nat>)
    requires from <= |haystack|
    ensures r.Some? ==> from <= r.value <= |haystack| && needle <= haystack[r.value..]
    ensures r.Some? ==> forall j :: from <= j < r.value ==> !(needle <= haystack[j..])
    ensures r.None? ==> forall j :: from <= j <= |haystack| ==> !(needle <= haystack[j..])
    decreases |haystack| - from
  {
    if needle <= haystack[from..] then Some(from)
    else if from == |haystack| then None
    else StrPosFrom(haystack, needle, from + 1)
  }

  /** `strpos($haystack, $needle)` as PHP 7 computes it: an empty needle is never found (PHP 7
      answers `false` with a warning), any other needle is searched from the start. */
  function StrPos(haystack: string, needle: string): (r: Option<nat>)
    ensures r.Some? <==> needle != "" && exists at :: 0 <= at <= |haystack| && needle <= haystack[at..]
    ensures r.Some? ==> r.value <= |haystack| && needle <= haystack[r.value..] && forall j :: 0 <= j < r.value ==> !(needle <= haystack[j..])
  {
    if needle == "" then None else StrPosFrom(haystack, needle, 0)
  }

  /** `strpos($haystack, $needle) !== false` */
  predicate Contains(haystack: string, needle: string)
  {
    StrPos(haystack, needle).Some?
  }

  /** A needle that starts at some offset of the haystack is found. */
  lemma ContainsAt(haystack: string, needle: string, at: nat)
    requires needle != "" && at <= |haystack| && needle <= haystack[at..]
    ensures Contains(haystack, needle)
  {
  }

  /** A prefix followed by what comes after it is the whole string. */
  lemma PrefixSplit(prefix: string, s: string)
    requires prefix <= s
    ensures s == prefix + s[|prefix|..]
  {
  }

  /** `Contains` is exactly "occurs at some offset". */
  lemma ContainsWitness(haystack: string, needle: string) returns (at: nat)
    requires Contains(haystack, needle)
    ensures needle != "" && at <= |haystack| && needle <= haystack[at..]
  {
    at := StrPos(haystack, needle).value;
  }

  /** A haystack that contains a needle is some text, the needle, then more text. */
  lemma ContainsSplit(haystack: string, needle: string) returns (before: string, after: string)
    requires Contains(haystack, needle)
    ensures haystack == before + needle + after
  {
    var at := ContainsWitness(haystack, needle);
    before := haystack[..at];
    after := haystack[at + |needle|..];
    assert haystack[at..] == needle + after;
    assert haystack == before + haystack[at..];
  }

  /** A non-empty needle between two texts is found. */
  lemma ContainsMiddle(before: string, needle: string, after: string)
    requires needle != ""
    ensures Contains(before + needle + after, needle)
  {
    var h := before + needle + after;
    assert h[|before|..] == needle + after;
    ContainsAt(h, needle, |before|);
  }

  /** Whatever contains `prefix + needle` contains `needle`. */
  lemma {:induction false} ContainsSuffix(haystack: string, prefix: string, needle: string)
    requires Contains(haystack, prefix + needle) && needle != ""
    ensures Contains(haystack, needle)
  {
    var at := ContainsWitness(haystack, prefix + needle);
    var s := haystack[at..];
    assert (prefix + needle)[|prefix|..] == needle;
    assert haystack[at + |prefix|..] == s[|prefix|..];
    ContainsAt(haystack, needle, at + |prefix|);
  }

  /** `strpos($path, $prefix) === 0` holds exactly when `prefix` is a non-empty prefix of `path`. */
  lemma StrPosZeroIsPrefix(s: string, prefix: string)
    ensures StrPos(s, prefix) == Some(0) <==> prefix != "" && prefix <= s
  {
    assert s[0..] == s;
  }

  /** The characters PHP's `trim` strips by default: space, tab, newline, carriage return, NUL and
      vertical tab. */
  predicate IsTrimmable(c: char)
  {
    c == ' ' || c == '\t' || c == '\n' || c == '\r' || c == '\0' || c == '\U{0B}'
  }

  function TrimStart(s: string): (r: string)
    ensures |r| <= |s| && r == s[|s| - |r|..]
    ensures forall i :: 0 <= i < |s| - |r| ==> IsTrimmable(s[i])
    ensures r == [] || !IsTrimmable(r[0])
  {
    if s != [] && IsTrimmable(s[0]) then
      var r := TrimStart(s[1..]);
      assert s[1..][|s| - 1 - |r|..] == s[|s| - |r|..];
      r
    else s
  }

  function TrimEnd(s: string): (r: string)
    ensures |r| <= |s| && r == s[..|r|]
    ensures forall i :: |r| <= i < |s| ==> IsTrimmable(s[i])
    ensures r == [] || !IsTrimmable(r[|r| - 1])
  {
    if s != [] && IsTrimmable(s[|s| - 1]) then
      var r := TrimEnd(s[..|s| - 1]);
      assert s[..|s| - 1][..|r|] == s[..|r|];
      r
    else s
  }

  /** `trim($s)`: the longest slice of `s` that neither starts nor ends with a trimmable character.
      It starts after the leading trimmable run; only trimmable characters are cut on either side. */
  function Trim(s: string): (r: string)
    ensures |r| <= |s|
    ensures r == [] || (!IsTrimmable(r[0]) && !IsTrimmable(r[|r| - 1]))
    ensures CutFrom(s, |s| - |TrimStart(s)|, r)
  {
    var t := TrimStart(s);
    var r := TrimEnd(t);
    CutBothEnds(s, t, r);
    r
  }

  /** `r` is the slice of `s` starting at `start`, and every character of `s` outside that slice
      is trimmable. */
  predicate CutFrom(s: string, start: int, r: string)
  {
    && 0 <= start && start + |r| <= |s| && r == s[start..start + |r|]
    && (forall k :: 0 <= k < start ==> IsTrimmable(s[k]))
    && (forall k :: start + |r| <= k < |s| ==> IsTrimmable(s[k]))
  }

  /** Cutting a trimmable run from the front and then one from the back keeps one slice of `s`,
      with only trimmable characters on either side of it. */
  lemma CutBothEnds(s: string, t: string, r: string)
    requires |t| <= |s| && t == s[|s| - |t|..]
    requires forall i :: 0 <= i < |s| - |t| ==> IsTrimmable(s[i])
    requires |r| <= |t| && r == t[..|r|]
    requires forall i :: |r| <= i < |t| ==> IsTrimmable(t[i])
    ensures CutFrom(s, |s| - |t|, r)
  {
    var start := |s| - |t|;
    forall k | start + |r| <= k < |s|
      ensures IsTrimmable(s[k])
    {
      assert s[k] == t[k - start];
    }
  }

  /** A string that neither starts nor ends with a trimmable character is its own trim. */
  lemma TrimKeepsTrimmed(s: string)
    requires s == [] || (!IsTrimmable(s[0]) && !IsTrimmable(s[|s| - 1]))
    ensures Trim(s) == s
  {
  }

  /** `trim` is idempotent. */
  lemma TrimIdempotent(s: string)
    ensures Trim(Trim(s)) == Trim(s)
  {
    TrimKeepsTrimmed(Trim(s));
  }

  /** `implode($glue, $pieces)` (`join`): the pieces with `glue` between neighbours. */
  function Implode(glue: string, pieces: seq<string>): string
  {
    if pieces == [] then []
    else if |pieces| == 1 then pieces[0]
    else pieces[0] + glue + Implode(glue, pieces[1..])
  }

  /** `explode($delimiter, $s)` for a one-character delimiter: the pieces between delimiters, always
      at least one, none containing the delimiter, and imploding them gives back `s`. */
  function Explode(delimiter: char, s: string): (pieces: seq<string>)
    ensures |pieces| >= 1
    ensures forall i :: 0 <= i < |pieces| ==> delimiter !in pieces[i]
  {
    if s == [] then [[]]
    else
      var rest := Explode(delimiter, s[1..]);
      if s[0] == delimiter then [[]] + rest
      else
        var pieces := [[s[0]] + rest[0]] + rest[1..];
        assert pieces[1..] == rest[1..];
        pieces
  }

  /** Joining the pieces with the delimiter gives the input back. */
  lemma {:induction false} ImplodeExplode(delimiter: char, s: string)
    ensures Implode([delimiter], Explode(delimiter, s)) == s
  {
    if s != [] {
      var rest := Explode(delimiter, s[1..]);
      ImplodeExplode(delimiter, s[1..]);
      if s[0] != delimiter && |rest| > 1 {
        var pieces := [[s[0]] + rest[0]] + rest[1..];
        assert pieces[1..] == rest[1..];
      }
    }
  }

  /** `explode` distributes over a delimiter: the pieces of `a + d + b` are those of `a` then those
      of `b`. */
  lemma {:induction false} ExplodeConcat(delimiter: char, a: string, b: string)
    ensures Explode(delimiter, a + [delimiter] + b) == Explode(delimiter, a) + Explode(delimiter, b)
  {
    if a == [] {
      assert ([delimiter] + b)[1..] == b;
    } else {
      assert (a + [delimiter] + b)[1..] == a[1..] + [delimiter] + b;
      ExplodeConcat(delimiter, a[1..], b);
    }
  }

  /** `str_repeat($s, $n)` */
  function Repeat(s: string, n: nat): string
  {
    if n == 0 then [] else Repeat(s, n - 1) + s
  }
}
