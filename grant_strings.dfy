/** The string level of the grants resolver (src/arc/grants/GrantsTree.php): the marker rewrite that
    `fetchGrants` applies to the accumulated grant string, and the token-bounded test of `check`.

    A grant string is a space-separated list of tokens, stored padded with one space on each side:
    `name` is a plain grant, `=name` an exact grant and `>name` a propagating grant. */
module GrantStrings {
  import opened PhpStrings

  /** `preg_replace` with the pattern `\=[^ ]*` and an empty replacement: every `=` is deleted together with the run of non-space
      characters that follows it. `dropping` says that a match is under way. */
  function DropExact(s: string, dropping: bool): (r: string)
    ensures '=' !in r
    ensures forall c :: c in r ==> c in s
    ensures |r| <= |s|
  {
    if s == [] then []
    else if s[0] == '=' || (dropping && s[0] != ' ') then DropExact(s[1..], true)
    else [s[0]] + DropExact(s[1..], false)
  }

  /** `preg_replace` with the pattern `\>([^ ]*)` and the replacement `$1`: the `>` that opens each match is deleted and the
      captured run of non-space characters is kept verbatim, so `>>a` becomes `>a`. `inMatch` says
      that a match is under way. Only `>` characters are ever removed. */
  function UnwrapPropagating(s: string, inMatch: bool): (r: string)
    ensures forall c :: c != '>' ==> (c in r <==> c in s)
    ensures |r| <= |s|
  {
    if s == [] then []
    else if inMatch then [s[0]] + UnwrapPropagating(s[1..], s[0] != ' ')
    else if s[0] == '>' then UnwrapPropagating(s[1..], true)
    else [s[0]] + UnwrapPropagating(s[1..], false)
  }

  /** The two replacements of `fetchGrants`, applied in order: no `=` survives. */
  function Rewrite(grants: string): (r: string)
    ensures '=' !in r
  {
    UnwrapPropagating(DropExact(grants, false), false)
  }

  // TailAroundSpace, TailAroundMarker, MarkerThenRest, ConsTail and ConsAroundSpace below, and
  // ExactTokenShape and TwoSpacesShape further down, are sequence-algebra steps spelled out for the
  // verifier; they state nothing about grants.

  /** Dropping the first character of a concatenation around a space. */
  lemma TailAroundSpace(a: string, b: string)
    requires a != []
    ensures (a + " " + b)[0] == a[0] && (a + " " + b)[1..] == a[1..] + " " + b
  {
  }

  /** The same around a marker character. */
  lemma TailAroundMarker(a: string, marker: string, b: string)
    requires a != [] && |marker| == 1
    ensures (a + marker + b)[0] == a[0] && (a + marker + b)[1..] == a[1..] + marker + b
  {
  }

  lemma MarkerThenRest(marker: string, b: string)
    requires |marker| == 1
    ensures (marker + b)[0] == marker[0] && (marker + b)[1..] == b
  {
  }

  lemma ConsTail(p: string, q: string)
    requires p != []
    ensures [p[0]] + (p[1..] + q) == p + q
  {
  }

  lemma ConsAroundSpace(c: char, x: string, y: string)
    ensures [c] + (x + " " + y) == [c] + x + " " + y
  {
  }

  /** The deletion of exact grants works token by token: it distributes over a space, and a match
      never runs past one. */
  lemma {:induction false} DropExactSplit(a: string, b: string, dropping: bool)
    ensures DropExact(a + " " + b, dropping) == DropExact(a, dropping) + " " + DropExact(b, false)
  {
    if a == [] {
      assert a + " " + b == " " + b;
      DropExactLeadingSpace(b, dropping);
    } else {
      TailAroundSpace(a, b);
      DropExactSplit(a[1..], b, a[0] == '=' || (dropping && a[0] != ' '));
    }
  }

  /** A token without `=` is left alone. */
  lemma {:induction false} DropExactKeepsToken(t: string)
    requires ' ' !in t && '=' !in t
    ensures DropExact(t, false) == t
  {
    if t != [] {
      DropExactKeepsToken(t[1..]);
    }
  }

  /** Once a match is under way, the rest of the token goes. */
  lemma {:induction false} DropExactDropsRest(t: string)
    requires ' ' !in t
    ensures DropExact(t, true) == []
  {
    if t != [] {
      DropExactDropsRest(t[1..]);
    }
  }

  /** A token is cut at its first `=`: `p=q` becomes `p`. */
  lemma {:induction false} DropExactCutsToken(p: string, q: string)
    requires ' ' !in p && ' ' !in q && '=' !in p
    ensures DropExact(p + "=" + q, false) == p
  {
    if p == [] {
      assert p + "=" + q == "=" + q;
      MarkerThenRest("=", q);
      DropExactDropsRest(q);
    } else {
      TailAroundMarker(p, "=", q);
      DropExactCutsToken(p[1..], q);
      assert [p[0]] + p[1..] == p;
    }
  }

  /** The activation of propagating grants works token by token as well. */
  lemma {:induction false} UnwrapSplit(a: string, b: string, inMatch: bool)
    ensures UnwrapPropagating(a + " " + b, inMatch)
         == UnwrapPropagating(a, inMatch) + " " + UnwrapPropagating(b, false)
  {
    if a == [] {
      assert a + " " + b == " " + b;
      UnwrapLeadingSpace(b, inMatch);
    } else {
      TailAroundSpace(a, b);
      var next := if inMatch then a[0] != ' ' else a[0] == '>';
      UnwrapSplit(a[1..], b, next);
      ConsAroundSpace(a[0], UnwrapPropagating(a[1..], next), UnwrapPropagating(b, false));
    }
  }

  /** Inside a match the token is kept verbatim. */
  lemma {:induction false} UnwrapKeepsMatch(t: string)
    requires ' ' !in t
    ensures UnwrapPropagating(t, true) == t
  {
    if t != [] {
      UnwrapKeepsMatch(t[1..]);
    }
  }

  /** A token without `>` is left alone. */
  lemma {:induction false} UnwrapKeepsToken(t: string)
    requires ' ' !in t && '>' !in t
    ensures UnwrapPropagating(t, false) == t
  {
    if t != [] {
      UnwrapKeepsToken(t[1..]);
    }
  }

  /** The first `>` of a token is deleted and the rest of it is kept: `p>q` becomes `pq`. */
  lemma {:induction false} UnwrapDropsFirstMarker(p: string, q: string)
    requires ' ' !in p && ' ' !in q && '>' !in p
    ensures UnwrapPropagating(p + ">" + q, false) == p + q
  {
    if p == [] {
      assert p + ">" + q == ">" + q;
      MarkerThenRest(">", q);
      UnwrapKeepsMatch(q);
    } else {
      TailAroundMarker(p, ">", q);
      UnwrapDropsFirstMarker(p[1..], q);
      ConsTail(p, q);
    }
  }

  /** A plain name: no space and no marker. */
  predicate IsPlainName(name: string)
  {
    ' ' !in name && '=' !in name && '>' !in name
  }

  /** A leading space is kept by the deletion of exact grants and ends any match. */
  lemma DropExactLeadingSpace(x: string, dropping: bool)
    ensures DropExact(" " + x, dropping) == " " + DropExact(x, false)
  {
    assert (" " + x)[1..] == x;
  }

  /** A leading space is kept by the activation of propagating grants and ends any match. */
  lemma UnwrapLeadingSpace(x: string, inMatch: bool)
    ensures UnwrapPropagating(" " + x, inMatch) == " " + UnwrapPropagating(x, false)
  {
    assert (" " + x)[1..] == x;
  }

  lemma DropExactPadded(t: string)
    ensures DropExact(" " + t + " ", false) == " " + DropExact(t, false) + " "
  {
    assert " " + t + " " == " " + (t + " " + "");
    DropExactLeadingSpace(t + " " + "", false);
    DropExactSplit(t, "", false);
  }

  lemma UnwrapPadded(t: string)
    ensures UnwrapPropagating(" " + t + " ", false) == " " + UnwrapPropagating(t, false) + " "
  {
    assert " " + t + " " == " " + (t + " " + "");
    UnwrapLeadingSpace(t + " " + "", false);
    UnwrapSplit(t, "", false);
  }

  /** The rewrite of a single padded token is the rewrite of the token, still padded. */
  lemma RewritePadded(t: string)
    ensures Rewrite(" " + t + " ") == " " + UnwrapPropagating(DropExact(t, false), false) + " "
  {
    DropExactPadded(t);
    UnwrapPadded(DropExact(t, false));
  }

  lemma ExactTokenShape(name: string)
    ensures " =" + name + " " == " " + ("=" + name) + " "
  {
  }

  lemma TwoSpacesShape()
    ensures "  " == " " + "" + " "
  {
  }

  /** A padded `=name` token is deleted, leaving its two spaces. */
  lemma RewriteExactToken(name: string)
    requires IsPlainName(name)
    ensures Rewrite(" =" + name + " ") == "  "
  {
    assert " =" + name + " " == " " + ("" + "=" + name) + " ";
    RewritePadded("" + "=" + name);
    DropExactCutsToken("", name);
    UnwrapKeepsToken("");
  }

  /** A padded `>name` token becomes `name`. */
  lemma RewritePropagatingToken(name: string)
    requires IsPlainName(name)
    ensures Rewrite(" >" + name + " ") == " " + name + " "
  {
    assert " >" + name + " " == " " + ("" + ">" + name) + " ";
    RewritePadded("" + ">" + name);
    DropExactKeepsToken("" + ">" + name);
    UnwrapDropsFirstMarker("", name);
  }

  /** A padded plain token is kept. */
  lemma RewritePlainToken(name: string)
    requires IsPlainName(name)
    ensures Rewrite(" " + name + " ") == " " + name + " "
  {
    RewritePadded(name);
    DropExactKeepsToken(name);
    UnwrapKeepsToken(name);
  }

  /** What `check` confirms: the grant as a whole token, bare or exact-marked. */
  predicate Confirms(grants: string, grant: string)
  {
    Contains(grants, " " + grant + " ") || Contains(grants, " =" + grant + " ")
  }

  /** The early exit of `check` on `grant + ' '` never changes its answer: both confirming patterns
      end with that needle. */
  lemma EarlyExitSound(grants: string, grant: string)
    ensures Confirms(grants, grant) ==> Contains(grants, grant + " ")
  {
    if Contains(grants, " " + grant + " ") {
      assert " " + grant + " " == " " + (grant + " ");
      ContainsSuffix(grants, " ", grant + " ");
    } else if Contains(grants, " =" + grant + " ") {
      assert " =" + grant + " " == " =" + (grant + " ");
      ContainsSuffix(grants, " =", grant + " ");
    }
  }

  /** Deny by default: the empty grant string confirms nothing. */
  lemma EmptyConfirmsNothing(grant: string)
    ensures !Confirms("", grant)
  {
  }

  /** A padded needle found in a padded token is the token: the two spaces pin it down. */
  lemma {:induction false} PaddedOccurrence(t: string, n: string, at: nat)
    requires ' ' !in t && ' ' !in n
    requires at <= |" " + t + " "| && " " + n + " " <= (" " + t + " ")[at..]
    ensures at == 0 && n == t
  {
    var s := " " + t + " ";
    var w := " " + n + " ";
    assert forall i :: 0 < i < |s| - 1 ==> s[i] != ' ' by {
      forall i | 0 < i < |s| - 1
        ensures s[i] != ' '
      {
        assert s[i] == t[i - 1];
      }
    }
    assert s[at] == ' ';
    assert at == 0;
    assert s[|w| - 1] == ' ';
    assert |n| == |t|;
    forall i | 0 <= i < |n|
      ensures n[i] == t[i]
    {
      assert w[i + 1] == s[i + 1];
    }
  }

  /** A padded token contains no padded token but itself. */
  lemma PaddedContains(t: string, n: string)
    requires ' ' !in t && ' ' !in n
    requires Contains(" " + t + " ", " " + n + " ")
    ensures n == t
  {
    var at := ContainsWitness(" " + t + " ", " " + n + " ");
    PaddedOccurrence(t, n, at);
  }

  /** A padded token confirms itself, and an exact-marked token confirms its name. */
  lemma SingleTokenConfirmsIf(t: string, grant: string)
    requires t == grant || t == "=" + grant
    ensures Confirms(" " + t + " ", grant)
  {
    var s := " " + t + " ";
    assert s[0..] == s;
    if t == grant {
      ContainsAt(s, " " + grant + " ", 0);
    } else {
      assert " =" + grant + " " == s;
      ContainsAt(s, " =" + grant + " ", 0);
    }
  }

  /** A padded token confirms nothing but its own name, or the name behind its exact marker. */
  lemma SingleTokenConfirmsOnlyIf(t: string, grant: string)
    requires ' ' !in t && ' ' !in grant
    requires Confirms(" " + t + " ", grant)
    ensures t == grant || t == "=" + grant
  {
    if Contains(" " + t + " ", " " + grant + " ") {
      PaddedContains(t, grant);
    } else {
      ExactTokenShape(grant);
      PaddedContains(t, "=" + grant);
    }
  }

  /** On a single padded token `check`'s test is exact. */
  lemma SingleTokenConfirms(t: string, grant: string)
    requires ' ' !in t && ' ' !in grant
    ensures Confirms(" " + t + " ", grant) <==> t == grant || t == "=" + grant
  {
    if t == grant || t == "=" + grant {
      SingleTokenConfirmsIf(t, grant);
    } else if Confirms(" " + t + " ", grant) {
      SingleTokenConfirmsOnlyIf(t, grant);
    }
  }

  /** A token that merely starts with a grant does not confirm it: ` readonly ` does not grant
      `read`. */
  lemma PrefixTokenDenies(name: string, more: string)
    requires IsPlainName(name) && name != "" && ' ' !in more && more != ""
    ensures !Confirms(" " + name + more + " ", name)
  {
    var t := name + more;
    assert " " + name + more + " " == " " + t + " ";
    assert t != name by {
      assert |t| > |name|;
    }
    assert t != "=" + name by {
      assert t[0] == name[0] && name[0] != '=';
    }
    SingleTokenConfirms(t, name);
  }

  /** A lone `>name` token does not grant `name`. */
  lemma PropagatingTokenDenies(name: string)
    requires ' ' !in name
    ensures !Confirms(" >" + name + " ", name)
  {
    var t := ">" + name;
    assert " >" + name + " " == " " + t + " ";
    assert t != name by {
      assert |t| == |name| + 1;
    }
    assert t[0] != ("=" + name)[0];
    SingleTokenConfirms(t, name);
  }
}
