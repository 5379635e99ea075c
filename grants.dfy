/** The hierarchical grant resolver of src/arc/grants/GrantsTree.php.

    Each tree node holds a map from `user.<id>` and `group.<id>` keys to padded grant strings. A
    resolver is bound to one node and one identity; it writes entries at that node and composes the
    effective grant string through the backend's `dive`, which hands it a seed (a result of the
    seed callback, which reads a node's `user.<id>` entry, or null) and then calls the step callback
    on a sequence of nodes. The backend itself is not part of this model: its `dive` is represented
    by what it hands over. */
module Grants {
  import opened Wrappers
  import opened PhpStrings
  import opened GrantStrings

  /** A node's `nodeValue`: grant strings keyed `user.<id>` and `group.<id>`. */
  type NodeValue = map<string, string>

  function UserKey(user: string): string
  {
    "user." + user
  }

  function GroupKey(group: string): string
  {
    "group." + group
  }

  /** A user entry and a group entry never share a key. */
  lemma KeysDisjoint(user: string, group: string)
    ensures UserKey(user) != GroupKey(group)
  {
    assert UserKey(user)[0] != GroupKey(group)[0];
  }

  /** PHP truthiness of a user id. `null` and `false` are modelled as the empty id: they give the
      same key `user.` and are falsy as well. */
  predicate Truthy(user: string)
  {
    user != "" && user != "0"
  }

  /** The stored form of a grant string: trimmed, with one space on each side. */
  function Padded(grants: string): string
  {
    " " + Trim(grants) + " "
  }

  /** The write of `setUserGrants` and `setGroupGrants`: a given grant string is stored padded under
      `key`, an absent one removes `key`, and every other key keeps its entry. */
  function StoreEntry(value: NodeValue, key: string, grants: Option<string>): (r: NodeValue)
    ensures key in r <==> grants.Some?
    ensures grants.Some? ==> r[key] == Padded(grants.value)
    ensures forall k :: k != key ==> (k in r <==> k in value)
    ensures forall k :: k != key && k in value ==> r[k] == value[k]
  {
    match grants
    case Some(g) => value[key := Padded(g)]
    case None => value - {key}
  }

  /** The seed callback of `fetchGrants`: the node's entry for the user, or null. */
  function SeedGrants(node: NodeValue, user: string): Option<string>
  {
    if UserKey(user) in node then Some(node[UserKey(user)]) else None
  }

  /** What `setUserGrants` writes is what the seed callback reads back at that node: the padded
      string, or nothing once cleared. */
  lemma SeedReadsUserEntry(value: NodeValue, user: string, grants: Option<string>)
    ensures SeedGrants(StoreEntry(value, UserKey(user), grants), user)
         == if grants.Some? then Some(Padded(grants.value)) else None
  {
  }

  /** `setGroupGrants` never changes what the seed callback reads. */
  lemma GroupWriteKeepsSeed(value: NodeValue, user: string, group: string, grants: Option<string>)
    ensures SeedGrants(StoreEntry(value, GroupKey(group), grants), user) == SeedGrants(value, user)
  {
    KeysDisjoint(user, group);
  }

  /** The distinct keys of a sequence, in order of first occurrence. */
  function Distinct(keys: seq<string>): (r: seq<string>)
    ensures forall k :: k in r <==> k in keys
    ensures forall i, j :: 0 <= i < j < |r| ==> r[i] != r[j]
  {
    if keys == [] then []
    else
      var d := Distinct(keys[..|keys| - 1]);
      var k := keys[|keys| - 1];
      if k in d then d else d + [k]
  }

  /** A sequence without repetitions has as many elements as its set. */
  lemma {:induction false} DistinctCardinality(s: seq<string>)
    requires forall i, j :: 0 <= i < j < |s| ==> s[i] != s[j]
    ensures |set k | k in s| == |s|
  {
    if s != [] {
      var init := s[..|s| - 1];
      DistinctCardinality(init);
      assert (set k | k in s) == (set k | k in init) + {s[|s| - 1]};
      assert s[|s| - 1] !in init;
    }
  }

  /** `array_fill_keys($keys, $value)`: one entry per distinct key, in order of first occurrence,
      each holding `value`. */
  function FillKeys(keys: seq<string>, value: string): (r: seq<(string, string)>)
    ensures |r| == |set k | k in keys|
    ensures forall i :: 0 <= i < |r| ==> r[i].0 in keys && r[i].1 == value
    ensures forall i, j :: 0 <= i < j < |r| ==> r[i].0 != r[j].0
  {
    var d := Distinct(keys);
    DistinctCardinality(d);
    assert (set k | k in d) == (set k | k in keys);
    seq(|d|, i requires 0 <= i < |d| => (d[i], value))
  }

  /** The local buffer the step callback builds from `entries`: its `foreach` runs over the values of
      the filled array, so the key it looks up is `group.` followed by the value. */
  function LocalGrants(node: NodeValue, entries: seq<(string, string)>): string
  {
    if entries == [] then ""
    else
      var key := GroupKey(entries[|entries| - 1].1);
      LocalGrants(node, entries[..|entries| - 1]) + (if key in node then node[key] else "")
  }

  /** The key the step callback actually reads: `group.1`, the fill value, whatever the groups are
      called. */
  function FilledGroupKey(): string
  {
    GroupKey("1")
  }

  /** With every entry holding the same value, the buffer is that value's entry once per entry. */
  lemma {:induction false} LocalGrantsOfValue(node: NodeValue, entries: seq<(string, string)>, value: string)
    requires forall i :: 0 <= i < |entries| ==> entries[i].1 == value
    ensures LocalGrants(node, entries)
         == if GroupKey(value) in node then Repeat(node[GroupKey(value)], |entries|) else ""
  {
    if entries != [] {
      LocalGrantsOfValue(node, entries[..|entries| - 1], value);
    }
  }

  /** The local buffer of a node holds the node's `group.1` entry once per distinct group of the
      identity, and nothing else: no `group.<name>` entry of an actual group is ever read, and with
      no groups the buffer is empty. */
  lemma LocalGrantsReadGroupOne(node: NodeValue, groups: seq<string>)
    ensures LocalGrants(node, FillKeys(groups, "1"))
         == if FilledGroupKey() in node then Repeat(node[FilledGroupKey()], |set g | g in groups|) else ""
  {
    LocalGrantsOfValue(node, FillKeys(groups, "1"), "1");
  }

  /** One application of the step callback's update: the accumulator, rewritten or not, followed by
      the local buffer. */
  function StepResult(grants: string, rewrite: bool, local: string): string
  {
    (if rewrite then Rewrite(grants) else grants) + local
  }

  /** The result of the remaining steps of the fold from the accumulator `grants` over `path`, while
      the by-reference flag of the step callback still has the truthiness `userFlag`. */
  function FoldFrom(grants: string, userFlag: bool, groups: seq<string>, path: seq<NodeValue>): string
    decreases |path|
  {
    if path == [] then grants
    else
      var local := LocalGrants(path[0], FillKeys(groups, "1"));
      FoldFrom(StepResult(grants, !userFlag, local), false, groups, path[1..])
  }

  /** A null seed is cast to the empty string. */
  function SeedText(seed: Option<string>): string
  {
    match seed
    case Some(s) => s
    case None => ""
  }

  /** The effective grant string `fetchGrants` returns for the identity, given the seed and the
      nodes the backend's `dive` hands to the step callback, in order. */
  function Effective(user: string, groups: seq<string>, seed: Option<string>, path: seq<NodeValue>): string
  {
    FoldFrom(SeedText(seed), Truthy(user), groups, path)
  }

  /** The fold seen from its last step. */
  lemma {:induction false} FoldFromSnoc(grants: string, userFlag: bool, groups: seq<string>,
                                        path: seq<NodeValue>, node: NodeValue)
    ensures FoldFrom(grants, userFlag, groups, path + [node])
         == StepResult(FoldFrom(grants, userFlag, groups, path), |path| > 0 || !userFlag,
                       LocalGrants(node, FillKeys(groups, "1")))
    decreases |path|
  {
    if path != [] {
      assert (path + [node])[1..] == path[1..] + [node];
      var local := LocalGrants(path[0], FillKeys(groups, "1"));
      FoldFromSnoc(StepResult(grants, !userFlag, local), false, groups, path[1..], node);
    }
  }

  /** Every step but the first, and the first too when the user id is falsy, rewrites the whole
      accumulator, group text appended earlier included, before appending the node's buffer. */
  lemma EffectiveLastStep(user: string, groups: seq<string>, seed: Option<string>,
                          path: seq<NodeValue>, node: NodeValue)
    ensures Effective(user, groups, seed, path + [node])
         == StepResult(Effective(user, groups, seed, path), |path| > 0 || !Truthy(user),
                       LocalGrants(node, FillKeys(groups, "1")))
  {
    FoldFromSnoc(SeedText(seed), Truthy(user), groups, path, node);
  }

  /** On the first step with a truthy user id the seed is kept as it is and the node's buffer is
      appended. */
  lemma FirstStepKeepsSeed(user: string, groups: seq<string>, seed: Option<string>, node: NodeValue)
    requires Truthy(user)
    ensures Effective(user, groups, seed, [node]) == SeedText(seed) + LocalGrants(node, FillKeys(groups, "1"))
  {
    assert [] + [node] == [node];
    EffectiveLastStep(user, groups, seed, [], node);
  }

  /** Once a rewrite has run, an `=` in the effective string can only come from the last node's
      buffer: every character before it is free of `=`. */
  lemma ExactOnlyFromLastNode(user: string, groups: seq<string>, seed: Option<string>,
                              path: seq<NodeValue>, node: NodeValue)
    requires |path| > 0 || !Truthy(user)
    ensures var e := Effective(user, groups, seed, path + [node]);
            var local := LocalGrants(node, FillKeys(groups, "1"));
            |local| <= |e| && e[|e| - |local|..] == local && '=' !in e[..|e| - |local|]
  {
    EffectiveLastStep(user, groups, seed, path, node);
  }

  /** The accumulator after `n` rewrites. */
  function Rewrites(grants: string, n: nat): string
  {
    if n == 0 then grants else Rewrite(Rewrites(grants, n - 1))
  }

  /** How many of `steps` steps rewrite the accumulator: all of them, except the first when the user
      id is truthy. */
  function RewriteCount(user: string, steps: nat): nat
  {
    if steps == 0 then 0 else if Truthy(user) then steps - 1 else steps
  }

  /** A step over a node without a `group.1` entry adds nothing: it rewrites the accumulator or,
      on the first step of a truthy user id, keeps it. */
  lemma EmptyStep(user: string, groups: seq<string>, seed: Option<string>, path: seq<NodeValue>, node: NodeValue)
    requires FilledGroupKey() !in node
    ensures Effective(user, groups, seed, path + [node])
         == if |path| > 0 || !Truthy(user) then Rewrite(Effective(user, groups, seed, path))
            else Effective(user, groups, seed, path)
  {
    LocalGrantsReadGroupOne(node, groups);
    EffectiveLastStep(user, groups, seed, path, node);
    var e := Effective(user, groups, seed, path);
    assert e + "" == e;
    assert Rewrite(e) + "" == Rewrite(e);
  }

  /** One more step adds one rewrite, except the first step of a truthy user id. */
  lemma RewritesStep(grants: string, user: string, steps: nat)
    ensures Rewrites(grants, RewriteCount(user, steps + 1))
         == if steps > 0 || !Truthy(user) then Rewrite(Rewrites(grants, RewriteCount(user, steps)))
            else Rewrites(grants, RewriteCount(user, steps))
  {
    if steps > 0 || !Truthy(user) {
      assert RewriteCount(user, steps + 1) == RewriteCount(user, steps) + 1;
    }
  }

  /** Where no node on the path holds a `group.1` entry, the effective string is the seed rewritten
      once per step, the first step excepted when the user id is truthy. */
  lemma {:induction false} SeedOnlyFold(user: string, groups: seq<string>, seed: Option<string>, path: seq<NodeValue>)
    requires forall i :: 0 <= i < |path| ==> FilledGroupKey() !in path[i]
    ensures Effective(user, groups, seed, path) == Rewrites(SeedText(seed), RewriteCount(user, |path|))
  {
    if path != [] {
      var init := path[..|path| - 1];
      var node := path[|path| - 1];
      assert forall i :: 0 <= i < |init| ==> init[i] == path[i];
      SeedOnlyFold(user, groups, seed, init);
      calc {
        Effective(user, groups, seed, path);
        { assert path == init + [node]; }
        Effective(user, groups, seed, init + [node]);
        { SeedOnlyStep(user, groups, seed, init, node); }
        Rewrites(SeedText(seed), RewriteCount(user, |init| + 1));
      }
    }
  }

  lemma SeedOnlyStep(user: string, groups: seq<string>, seed: Option<string>, init: seq<NodeValue>, node: NodeValue)
    requires Effective(user, groups, seed, init) == Rewrites(SeedText(seed), RewriteCount(user, |init|))
    requires FilledGroupKey() !in node
    ensures Effective(user, groups, seed, init + [node]) == Rewrites(SeedText(seed), RewriteCount(user, |init| + 1))
  {
    EmptyStep(user, groups, seed, init, node);
    RewritesStep(SeedText(seed), user, |init|);
  }

  /** Rewriting the empty string gives the empty string, however often. */
  lemma {:induction false} RewritesOfEmpty(n: nat)
    ensures Rewrites("", n) == ""
  {
    if n > 0 {
      RewritesOfEmpty(n - 1);
      assert Rewrite("") == "";
    }
  }

  /** Deny by default: with no seed and no `group.1` entry on the path, the effective string is
      empty and no grant is confirmed. */
  lemma NoDataDenies(user: string, groups: seq<string>, path: seq<NodeValue>, grant: string)
    requires forall i :: 0 <= i < |path| ==> FilledGroupKey() !in path[i]
    ensures Effective(user, groups, None, path) == ""
    ensures !Confirms(Effective(user, groups, None, path), grant)
  {
    SeedOnlyFold(user, groups, None, path);
    RewritesOfEmpty(RewriteCount(user, |path|));
    EmptyConfirmsNothing(grant);
  }

  /** The deletion of exact grants keeps a padded plain token wherever it stands and works on
      either side of it separately. */
  lemma DropExactKeepsPlain(x: string, name: string, y: string)
    requires IsPlainName(name)
    ensures DropExact(x + " " + name + " " + y, false) == DropExact(x, false) + " " + name + " " + DropExact(y, false)
  {
    assert x + " " + name + " " + y == x + " " + (name + " " + y);
    DropExactSplit(x, name + " " + y, false);
    DropExactSplit(name, y, false);
    DropExactKeepsToken(name);
  }

  /** The activation of propagating grants keeps a padded plain token wherever it stands as well. */
  lemma UnwrapKeepsPlain(x: string, name: string, y: string)
    requires IsPlainName(name)
    ensures UnwrapPropagating(x + " " + name + " " + y, false)
         == UnwrapPropagating(x, false) + " " + name + " " + UnwrapPropagating(y, false)
  {
    assert x + " " + name + " " + y == x + " " + (name + " " + y);
    UnwrapSplit(x, name + " " + y, false);
    UnwrapSplit(name, y, false);
    UnwrapKeepsToken(name);
  }

  /** A rewrite keeps a padded plain token in place and rewrites the text on either side of it. */
  lemma RewriteKeepsPlain(x: string, name: string, y: string)
    requires IsPlainName(name)
    ensures Rewrite(x + " " + name + " " + y) == Rewrite(x) + " " + name + " " + Rewrite(y)
  {
    DropExactKeepsPlain(x, name, y);
    UnwrapKeepsPlain(DropExact(x, false), name, DropExact(y, false));
  }

  /** One step keeps every padded plain token of the accumulator. */
  lemma PlainTokenStep(name: string, grants: string, rewrite: bool, local: string)
    requires IsPlainName(name) && Contains(grants, " " + name + " ")
    ensures Contains(StepResult(grants, rewrite, local), " " + name + " ")
  {
    var token := " " + name + " ";
    var x, y := ContainsSplit(grants, token);
    TokenRegrouped(x, name, y, "");
    if rewrite {
      RewriteKeepsPlain(x, name, y);
      TokenRegrouped(Rewrite(x), name, Rewrite(y), local);
      ContainsMiddle(Rewrite(x), token, Rewrite(y) + local);
    } else {
      TokenRegrouped(x, name, y, local);
      ContainsMiddle(x, token, y + local);
    }
  }

  lemma TokenRegrouped(x: string, name: string, y: string, z: string)
    ensures x + (" " + name + " ") + y == x + " " + name + " " + y
    ensures x + " " + name + " " + y + z == x + (" " + name + " ") + (y + z)
  {
  }

  /** Plain-grant inheritance: a padded plain token of the accumulator survives every later step. */
  lemma {:induction false} PlainTokenSurvives(name: string, grants: string, userFlag: bool,
                                             groups: seq<string>, path: seq<NodeValue>)
    requires IsPlainName(name) && Contains(grants, " " + name + " ")
    ensures Contains(FoldFrom(grants, userFlag, groups, path), " " + name + " ")
    decreases |path|
  {
    if path != [] {
      var local := LocalGrants(path[0], FillKeys(groups, "1"));
      PlainTokenStep(name, grants, !userFlag, local);
      PlainTokenSurvives(name, StepResult(grants, !userFlag, local), false, groups, path[1..]);
    }
  }

  /** A plain user grant anywhere in the seed is granted wherever the fold goes. */
  lemma PlainGrantInherited(name: string, user: string, groups: seq<string>, seed: string, path: seq<NodeValue>)
    requires IsPlainName(name) && Contains(seed, " " + name + " ")
    ensures Confirms(Effective(user, groups, Some(seed), path), name)
  {
    PlainTokenSurvives(name, seed, Truthy(user), groups, path);
  }

  /** An exact user grant in the seed is granted after the first step, which keeps the seed of a
      truthy user id, and gone after the second, when neither node holds a `group.1` entry. */
  lemma ExactGrantScope(name: string, user: string, groups: seq<string>, a: NodeValue, b: NodeValue)
    requires IsPlainName(name) && name != "" && Truthy(user)
    requires FilledGroupKey() !in a && FilledGroupKey() !in b
    ensures Confirms(Effective(user, groups, Some(" =" + name + " "), [a]), name)
    ensures !Confirms(Effective(user, groups, Some(" =" + name + " "), [a, b]), name)
  {
    var t := " =" + name + " ";
    var seed := Some(t);
    SeedOnlyFold(user, groups, seed, [a]);
    SeedOnlyFold(user, groups, seed, [a, b]);
    assert RewriteCount(user, |[a]|) == 0;
    assert RewriteCount(user, |[a, b]|) == 1;
    assert Rewrites(t, 1) == Rewrite(t);
    RewriteExactToken(name);
    assert Effective(user, groups, seed, [a, b]) == "  ";
    assert " =" + name + " " == " " + ("=" + name) + " ";
    SingleTokenConfirms("=" + name, name);
    assert "  " == " " + "" + " ";
    SingleTokenConfirms("", name);
  }

  /** A propagating user grant in the seed is not granted after the first step and is granted after
      the second, when neither node holds a `group.1` entry. */
  lemma PropagatingGrantActivates(name: string, user: string, groups: seq<string>, a: NodeValue, b: NodeValue)
    requires IsPlainName(name) && Truthy(user)
    requires FilledGroupKey() !in a && FilledGroupKey() !in b
    ensures !Confirms(Effective(user, groups, Some(" >" + name + " "), [a]), name)
    ensures Confirms(Effective(user, groups, Some(" >" + name + " "), [a, b]), name)
  {
    var t := " >" + name + " ";
    var seed := Some(t);
    SeedOnlyFold(user, groups, seed, [a]);
    SeedOnlyFold(user, groups, seed, [a, b]);
    assert RewriteCount(user, |[a]|) == 0;
    assert RewriteCount(user, |[a, b]|) == 1;
    assert Rewrites(t, 1) == Rewrite(t);
    PropagatingTokenDenies(name);
    RewritePropagatingToken(name);
    SingleTokenConfirms(name, name);
  }

  /** The first step of a path whose first node holds `group.1` and whose groups list has one
      distinct name: the effective string is that node's entry, rewritten or not. */
  lemma GroupFirstStep(user: string, groups: seq<string>, a: NodeValue, t: string)
    requires |set g | g in groups| == 1
    requires a == map[FilledGroupKey() := t]
    ensures Effective(user, groups, None, [a]) == t
  {
    LocalGrantsReadGroupOne(a, groups);
    assert Repeat(t, 1) == "" + t == t;
    assert [a] == [] + [a];
    EffectiveLastStep(user, groups, None, [], a);
    assert Effective(user, groups, None, []) == "";
    assert Rewrite("") == "";
  }

  /** The second step of the one-group example below: the exact group grant of the first node is
      deleted, and two spaces are left. */
  lemma GroupExactBelow(name: string, user: string, groups: seq<string>, a: NodeValue, b: NodeValue)
    requires IsPlainName(name) && |set g | g in groups| == 1
    requires a == map[FilledGroupKey() := " =" + name + " "] && FilledGroupKey() !in b
    ensures Effective(user, groups, None, [a, b]) == " " + "" + " "
  {
    GroupFirstStep(user, groups, a, " =" + name + " ");
    assert [a, b] == [a] + [b];
    EmptyStep(user, groups, None, [a], b);
    RewriteExactToken(name);
    TwoSpacesShape();
  }

  /** An exact grant in the first node's group entry is granted after the first step and is
      rewritten away by the second like any other text of the accumulator. */
  lemma GroupExactStrippedBelow(name: string, user: string, groups: seq<string>, a: NodeValue, b: NodeValue)
    requires IsPlainName(name) && name != "" && |set g | g in groups| == 1
    requires a == map[FilledGroupKey() := " =" + name + " "] && FilledGroupKey() !in b
    ensures Confirms(Effective(user, groups, None, [a]), name)
    ensures !Confirms(Effective(user, groups, None, [a, b]), name)
  {
    GroupFirstStep(user, groups, a, " =" + name + " ");
    ExactTokenShape(name);
    GroupExactBelow(name, user, groups, a, b);
    SingleTokenConfirms("=" + name, name);
    SingleTokenConfirms("", name);
  }

  /** The `foreach` of the step callback: for each entry of the filled array, the node's entry under
      `group.` followed by the entry's value is appended when present. */
  method LocalBuffer(node: NodeValue, filled: seq<(string, string)>) returns (localGrants: string)
    ensures localGrants == LocalGrants(node, filled)
  {
    localGrants := "";
    for i := 0 to |filled|
      invariant localGrants == LocalGrants(node, filled[..i])
    {
      var group := filled[i].1;
      if GroupKey(group) in node {
        localGrants := localGrants + node[GroupKey(group)];
      }
      assert filled[..i + 1][..i] == filled[..i];
    }
    assert filled[..|filled|] == filled;
  }

  /** A tree position of the backend; only its `nodeValue` map is modelled. */
  class TreeNode {
    var nodeValue: NodeValue

    constructor (nodeValue: NodeValue)
      ensures this.nodeValue == nodeValue
    {
      this.nodeValue := nodeValue;
    }
  }

  /** A resolver bound to one tree position and one identity. Its fields are only ever set by the
      constructor, so navigating never changes a resolver. */
  class GrantsTree {
    const tree: TreeNode
    const user: string
    const groups: seq<string>

    constructor (tree: TreeNode, user: string, groups: seq<string>)
      ensures this.tree == tree && this.user == user && this.groups == groups
    {
      this.tree := tree;
      this.user := user;
      this.groups := groups;
    }

    /** `cd($path)`: `position` is what the backend's `cd` returns for the path. The new resolver
        keeps the user and drops the groups. */
    method Cd(position: TreeNode) returns (r: GrantsTree)
      ensures fresh(r) && r.tree == position && r.user == user && r.groups == []
    {
      r := new GrantsTree(position, user, []);
    }

    /** `switchUser($user, $groups)`: a new resolver on the same tree position. */
    method SwitchUser(newUser: string, newGroups: seq<string>) returns (r: GrantsTree)
      ensures fresh(r) && r.tree == tree && r.user == newUser && r.groups == newGroups
    {
      r := new GrantsTree(tree, newUser, newGroups);
    }

    /** `setUserGrants($grants)`: stores or removes the user's entry at the bound node; nothing else
        changes. */
    method SetUserGrants(grants: Option<string>)
      modifies tree`nodeValue
      ensures tree.nodeValue == StoreEntry(old(tree.nodeValue), UserKey(user), grants)
    {
      if grants.Some? {
        tree.nodeValue := tree.nodeValue[UserKey(user) := " " + Trim(grants.value) + " "];
      } else {
        tree.nodeValue := tree.nodeValue - {UserKey(user)};
      }
    }

    /** `setGroupGrants($group, $grants)`: stores or removes the group's entry at the bound node;
        nothing else changes. */
    method SetGroupGrants(group: string, grants: Option<string>)
      modifies tree`nodeValue
      ensures tree.nodeValue == StoreEntry(old(tree.nodeValue), GroupKey(group), grants)
    {
      if grants.Some? {
        tree.nodeValue := tree.nodeValue[GroupKey(group) := " " + Trim(grants.value) + " "];
      } else {
        tree.nodeValue := tree.nodeValue - {GroupKey(group)};
      }
    }

    /** The step callback of `fetchGrants` on one node. `userFlag` is the truthiness of the
        by-reference `$user`, which the callback sets to `false`. */
    method Step(node: NodeValue, grants: string, userFlag: bool) returns (next: string, flagAfter: bool)
      ensures next == StepResult(grants, !userFlag, LocalGrants(node, FillKeys(groups, "1")))
      ensures !flagAfter
    {
      var localGrants := LocalBuffer(node, FillKeys(groups, "1"));
      next := grants;
      if !userFlag {
        next := Rewrite(next);
      }
      flagAfter := false;
      next := next + localGrants;
    }

    /** `fetchGrants`: the fold of the step callback over `path`, starting from the seed; the loop
        stands for the backend's `dive`. */
    method FetchGrants(seed: Option<string>, path: seq<NodeValue>) returns (grants: string)
      ensures grants == Effective(user, groups, seed, path)
    {
      var userFlag := Truthy(user);
      grants := SeedText(seed);
      assert path[0..] == path;
      for i := 0 to |path|
        invariant FoldFrom(grants, userFlag, groups, path[i..]) == Effective(user, groups, seed, path)
      {
        assert path[i..][1..] == path[i + 1..];
        grants, userFlag := Step(path[i], grants, userFlag);
      }
    }

    /** `check($grant)`: the grant is confirmed as a whole token, bare or exact-marked, in the
        effective grant string; the early exit never changes the answer. */
    method Check(grant: string, seed: Option<string>, path: seq<NodeValue>) returns (granted: bool)
      ensures granted <==> Confirms(Effective(user, groups, seed, path), grant)
    {
      var grants := FetchGrants(seed, path);
      EarlyExitSound(grants, grant);
      if !Contains(grants, grant + " ") {
        return false;
      }
      granted := Contains(grants, " " + grant + " ") || Contains(grants, " =" + grant + " ");
    }
  }

  /** Example: node `/a/` holds `=read` for `alice`, node `/a/b/` holds nothing. With the
      seed read from `/a/` and the step callback run on `/a/`, the grant is confirmed; with one more
      step on `/a/b/` it is not, because the exact grant is rewritten away at the second step. */
  lemma AliceReadsOnlyAtA()
    ensures var a := StoreEntry(map[], UserKey("alice"), Some("=read"));
            var b: NodeValue := map[];
            && Confirms(Effective("alice", [], SeedGrants(a, "alice"), [a]), "read")
            && !Confirms(Effective("alice", [], SeedGrants(a, "alice"), [a, b]), "read")
  {
    var a := StoreEntry(map[], UserKey("alice"), Some("=read"));
    AliceNode();
    ExactGrantScope("read", "alice", [], a, map[]);
  }

  /** The node `/a/` of the worked example: the seed callback reads alice's padded exact grant there,
      and the node has no `group.1` entry. */
  lemma AliceNode()
    ensures var a := StoreEntry(map[], UserKey("alice"), Some("=read"));
            SeedGrants(a, "alice") == Some(" =" + "read" + " ") && FilledGroupKey() !in a
  {
    var a := StoreEntry(map[], UserKey("alice"), Some("=read"));
    PaddedToken("=read");
    assert " " + "=read" + " " == " =" + "read" + " ";
    assert a.Keys == {UserKey("alice")};
    assert UserKey("alice") != FilledGroupKey();
  }

  /** A token that neither starts nor ends with whitespace is stored with one space on each side. */
  lemma PaddedToken(t: string)
    requires t != [] && !IsTrimmable(t[0]) && !IsTrimmable(t[|t| - 1])
    ensures Padded(t) == " " + t + " "
  {
    TrimKeepsTrimmed(t);
  }
}
