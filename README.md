# arc grants and path utilities, modelled in Dafny

This project models two parts of the Ariadne Component Library (`arc`).

## The grant resolver: `arc\grants\GrantsTree`

Each tree node holds a map from keys `user.<id>` and `group.<id>` to a space-padded grant string,
such as `" read =write >admin "`.

The resolver does three things:
- It writes entries at the node it is bound to (`setUserGrants`, `setGroupGrants`).
- It composes an effective grant string by folding over the nodes the tree backend visits (`fetchGrants`).
- It answers `check(g)` with a token-bounded substring test.

Modules:
- `GrantStrings` gives the two `preg_replace` patterns of the fold as recursive functions:
  - `DropExact` deletes each `=` and the non-space run after it.
  - `UnwrapPropagating` drops the leading `>` of each run and keeps the rest verbatim, so `>>a` becomes `>a`.
  - `Confirms` is the test `check` makes.
- `Grants` holds:
  - the node (`TreeNode`, whose `nodeValue` map is updated in place);
  - the resolver (`GrantsTree`, with `Cd`, `SwitchUser`, `SetUserGrants`, `SetGroupGrants`, `Step`, `FetchGrants`, `Check`);
  - the specification of the fold (`Effective`);
  - the lemmas about what a grant means at a node and below it.

The tree backend is not shown, so it is abstracted:
- Its `dive` becomes two inputs: the seed (a result of the seed callback, which reads a node's `user.<id>` entry, or nothing) and the ordered sequence of node maps handed to the step callback.
- The node that `cd` returns from the backend becomes a parameter.

## The path utilities: `arc\path`

The path utilities cover:
- splitting into file names (`getSplitPath`);
- `collapse`, with its static cache;
- `parents`, `parent` and `walk`;
- `isChild` and `isAbsolute`;
- `getRelativePath`;
- `map` and `reduce`.

Modules:
- `PathSegments` has the splitter and rendering:
  - `SplitPath` is `explode` followed by the filter that drops empty names.
  - `PathOf(names)` is `/` followed by each name and a slash.
  - A path is well formed when it is the rendering of its own names.
- `Path` has the operations:
  - `dirname` follows PHP's algorithm for a Unix host, on any string.
  - The reducer inside `collapse` is `CollapseEntry`. It is proved to agree step by step with a reference on lists of names (`StackStep`: `..` pops, `.` is skipped, any other name is pushed).
  - The cache is the class `CollapseCache`. Its invariant is that every entry equals the uncached collapse of its key.
  - The imperative parts are methods with loops, each proved against a function: the `$prevpath` accumulation of `parents`, the `foreach` of `walk`, and the `../` accumulation of `getRelativePath`.

`PhpStrings` models the PHP built-ins the code relies on:
- `strpos`, as PHP 7 computes it: an empty needle is never found;
- `trim`;
- `explode` and `implode`;
- `str_repeat`.

## Behaviour that follows the code

The code behaves as follows on these points, which callers may not expect:
- **The marker rewrite is not one-time.**
  - The flag is the by-reference `$user`, which is cleared after the first step.
  - So every step after the first rewrites the whole accumulator, including group text appended at earlier nodes.
  - The first step rewrites as well when the user id is falsy (`""` or `"0"`; PHP's `null` and `false` are modelled as `""`).
  - Group entries carrying `=` or `>` are therefore rewritten too: see `GroupExactStrippedBelow`.
- **Group lookups read `group.1`.**
  - `array_fill_keys($groups, 1)` is iterated by value, so each distinct group contributes the node's `group.1` entry.
  - An identity in two groups does not get the union of the two groups' `group.<id>` entries; the local buffer repeats `group.1` once per distinct group (`LocalGrantsReadGroupOne`).
- **Empty grants are stored.**
  - `setUserGrants("")` and `setGroupGrants(g, "")` store `"  "`.
  - Only an absent (`null`) grant removes the key.
- **`cd` drops the groups.** It passes only the user to the new resolver.
- **The slash written at offset 0 overwrites a byte.**
  - `parent` and the `..` case of `collapse` write `/` over the first byte (a character for ASCII names) of what `dirname` returns.
  - On a relative path that is the first byte of the first name: `parent('foo/bar/')` is `/oo/` (`ParentDirOfRelative`).
- **An empty root finds nothing.**
  - PHP 7's `strpos` never finds an empty needle, so the test `strpos(x, '') === 0` is false for every `x`.
  - So `isChild(p, '')` is false (`IsChildIsPrefix`).
  - So `parents(p, '')` is `['']` (`AncestorsOfEmptyRoot`) and `parent(p, '')` is null (`ParentOfPath`).

## Model

| member | source | states |
|---|---|---|
| PhpStrings.StrPosFrom | src/arc/grants/GrantsTree.php:62-66 | `strpos` from an offset: the answer is the first position at or after it where the needle occurs, and nothing exactly when it occurs nowhere there |
| PhpStrings.ContainsSuffix | src/arc/grants/GrantsTree.php:62-66 | a string that contains `prefix + needle` contains `needle` |
| PhpStrings.StrPos | src/arc/grants/GrantsTree.php:62-66 | `strpos`: a needle is found exactly when it is non-empty and occurs, and then at its first occurrence |
| PhpStrings.Contains | src/arc/grants/GrantsTree.php:62-66 | the `!== false` test on `strpos`; `ContainsSplit`, `ContainsMiddle` and `ContainsSuffix` state its properties |
| PhpStrings.ContainsSplit | src/arc/grants/GrantsTree.php:65-66 | a string that contains a needle is some text, the needle, then more text |
| PhpStrings.ContainsMiddle | src/arc/grants/GrantsTree.php:65-66 | a non-empty needle between any two texts is found |
| PhpStrings.StrPosZeroIsPrefix | src/arc/path.php:168-170 | `strpos(s, p) === 0` holds exactly when `p` is a non-empty prefix of `s` |
| PhpStrings.Trim | src/arc/grants/GrantsTree.php:45 | `trim` gives the slice of the input that starts after its leading whitespace; everything cut on either side is whitespace, and none is left at either end |
| PhpStrings.TrimIdempotent | src/arc/grants/GrantsTree.php:45 | trimming a trimmed string changes nothing |
| PhpStrings.Explode | src/arc/path.php:177 | `explode` yields at least one piece, and no piece holds the delimiter |
| PhpStrings.ImplodeExplode | src/arc/path.php:177 | joining the pieces of `explode` with the delimiter gives the input back |
| PhpStrings.ExplodeConcat | src/arc/path.php:177 | exploding `a + d + b` gives the pieces of `a` followed by those of `b` |
| PhpStrings.Implode | src/arc/path.php:198 | `join` with the glue between neighbours; `ImplodeExplode` and `ImplodeAsText` state its properties |
| PhpStrings.Repeat | src/arc/path.php:159 | the `../` accumulation of `getRelativePath`, `n` copies; `ClimbToCommonParent` and `RelativePathParts` use it |
| PathSegments.NonEmpty | src/arc/path.php:177-179 | the filter keeps only non-empty pieces, each taken from the input |
| PathSegments.NonEmptyKeepsAll | src/arc/path.php:177-179 | every non-empty piece survives the filter |
| PathSegments.NonEmptySingleton | src/arc/path.php:177-179 | one piece is kept exactly when it is non-empty; with `NonEmptyConcat` this fixes the result piece by piece, in order |
| PathSegments.NonEmptyConcat | src/arc/path.php:177-179 | the filter distributes over concatenation |
| PathSegments.SplitPath | src/arc/path.php:176-180 | every file name `getSplitPath` returns is non-empty and free of `/` |
| PathSegments.SplitPathConcat | src/arc/path.php:176-180 | the names of `x + "/" + y` are those of `x` followed by those of `y` |
| PathSegments.SplitPathOf | src/arc/path.php:176-180 | splitting the rendering of a list of names gives the names back |
| PathSegments.SplitPathAfterSlash | src/arc/path.php:176-180 | after a left part ending in `/`, splitting distributes over concatenation |
| PathSegments.PathOfWellFormed | src/arc/path.php:176-180 | every rendering of names is a well-formed path |
| PathSegments.PathOfPrefix | src/arc/path.php:37 | a longer list of names renders to a path that strictly extends the shorter one's |
| GrantStrings.DropExact | src/arc/grants/GrantsTree.php:87-88 | the pattern `\=[^ ]*` replaced by nothing leaves no `=` and adds no character |
| GrantStrings.UnwrapPropagating | src/arc/grants/GrantsTree.php:87-88 | the pattern `\>([^ ]*)` replaced by its capture keeps every character other than `>` and never lengthens |
| GrantStrings.Rewrite | src/arc/grants/GrantsTree.php:86-90 | after the two replacements, in order, no `=` is left |
| GrantStrings.DropExactSplit | src/arc/grants/GrantsTree.php:87 | a space ends a deleted run: the first replacement works token by token |
| GrantStrings.DropExactCutsToken | src/arc/grants/GrantsTree.php:87 | a token `p=q` keeps only `p` |
| GrantStrings.UnwrapSplit | src/arc/grants/GrantsTree.php:87-88 | a space ends a captured run: the second replacement works token by token |
| GrantStrings.UnwrapKeepsMatch | src/arc/grants/GrantsTree.php:87-88 | a captured run is kept verbatim, further `>` included, so `>>a` becomes `>a` |
| GrantStrings.UnwrapDropsFirstMarker | src/arc/grants/GrantsTree.php:87-88 | a token `p>q` becomes `pq`: only the first `>` is dropped |
| GrantStrings.RewritePadded | src/arc/grants/GrantsTree.php:86-90 | rewriting a padded token rewrites the token and keeps the padding |
| GrantStrings.RewriteExactToken | src/arc/grants/GrantsTree.php:86-90 | an exact grant ` =name ` is deleted, leaving two spaces |
| GrantStrings.RewritePropagatingToken | src/arc/grants/GrantsTree.php:86-90 | a propagating grant ` >name ` becomes the plain grant ` name ` |
| GrantStrings.RewritePlainToken | src/arc/grants/GrantsTree.php:86-90 | a plain grant ` name ` is left alone |
| GrantStrings.Confirms | src/arc/grants/GrantsTree.php:65-66 | the final test of `check`: ` g ` or ` =g ` occurs; `SingleTokenConfirms` and `EarlyExitSound` state its properties |
| GrantStrings.EarlyExitSound | src/arc/grants/GrantsTree.php:62-66 | the early exit on `g + " "` never changes the answer: both confirming patterns contain it |
| GrantStrings.EmptyConfirmsNothing | src/arc/grants/GrantsTree.php:62-66 | an empty effective string grants nothing |
| GrantStrings.PaddedContains | src/arc/grants/GrantsTree.php:65-66 | a padded single token contains a padded name only when the name is the token |
| GrantStrings.SingleTokenConfirms | src/arc/grants/GrantsTree.php:65-66 | a single-token grant string confirms `g` if and only if the token is `g` or `=g` |
| GrantStrings.PrefixTokenDenies | src/arc/grants/GrantsTree.php:65-66 | a token that merely starts with `g` (as `readonly` starts with `read`) does not grant `g` |
| GrantStrings.PropagatingTokenDenies | src/arc/grants/GrantsTree.php:65-66 | a lone `>g` token does not grant `g` |
| Grants.KeysDisjoint | src/arc/grants/GrantsTree.php:45-55 | a user key and a group key never coincide, so writes under one never touch the other |
| Grants.Truthy | src/arc/grants/GrantsTree.php:85 | the truthiness behind `!$user`: false for `""` and `"0"` (and for `null`/`false`, modelled as `""`); `FirstStepKeepsSeed` and `RewriteCount` use it |
| Grants.Padded | src/arc/grants/GrantsTree.php:45-53 | the stored form `' ' . trim($grants) . ' '`; `PaddedToken` and `StoreEntry` state its properties |
| Grants.StoreEntry | src/arc/grants/GrantsTree.php:43-57 | storing a grant sets exactly that key to `" " + trim(g) + " "`, storing nothing removes exactly that key, and every other key keeps its value |
| Grants.PaddedToken | src/arc/grants/GrantsTree.php:45 | a token without whitespace at its ends is stored with exactly one space on each side |
| Grants.SeedGrants | src/arc/grants/GrantsTree.php:73-77 | the seed callback: the node's `user.<id>` entry or nothing; `SeedReadsUserEntry` and `GroupWriteKeepsSeed` state its properties |
| Grants.SeedReadsUserEntry | src/arc/grants/GrantsTree.php:73-77 | after a user write, the seed callback returns the stored padded string, or nothing after a removal |
| Grants.GroupWriteKeepsSeed | src/arc/grants/GrantsTree.php:53-55 | a group write never changes what the seed callback reads |
| Grants.Distinct | src/arc/grants/GrantsTree.php:71 | the distinct groups hold the same members as the group list, without repetition |
| Grants.DistinctCardinality | src/arc/grants/GrantsTree.php:71 | a list without repetition has as many members as entries |
| Grants.FillKeys | src/arc/grants/GrantsTree.php:71 | `array_fill_keys` has one entry per distinct group, each with the fill value |
| Grants.LocalGrants | src/arc/grants/GrantsTree.php:79-84 | the local buffer of the step callback; `LocalGrantsReadGroupOne` states what it holds and `LocalBuffer` computes it |
| Grants.LocalGrantsOfValue | src/arc/grants/GrantsTree.php:80-83 | when every entry's value is `v`, the buffer repeats the node's `group.v` entry once per entry, or is empty when it is missing |
| Grants.LocalGrantsReadGroupOne | src/arc/grants/GrantsTree.php:79-84 | the local buffer is the node's `group.1` entry repeated once per distinct group, or empty (also with no groups) |
| Grants.LocalBuffer | src/arc/grants/GrantsTree.php:79-84 | the `foreach` builds exactly the specified local buffer |
| Grants.StepResult | src/arc/grants/GrantsTree.php:85-93 | the step's update: the accumulator, rewritten or not, then the local buffer; `GrantsTree.Step` computes it and `PlainTokenStep` and `EmptyStep` state its properties |
| Grants.SeedText | src/arc/grants/GrantsTree.php:72-96 | a null seed becomes the empty string, as `preg_replace` and `.=` treat it; `NoDataDenies` uses it |
| Grants.FoldFrom | src/arc/grants/GrantsTree.php:78-95 | the remaining steps of the fold from an accumulator; `FoldFromSnoc` and `PlainTokenSurvives` state its properties |
| Grants.Effective | src/arc/grants/GrantsTree.php:72-96 | the string `fetchGrants` returns; `FetchGrants` computes it and the lemmas below state what it grants |
| Grants.FoldFromSnoc | src/arc/grants/GrantsTree.php:78-95 | one more node is one more step: rewrite unless it is the first step under a truthy user, then append that node's buffer |
| Grants.EffectiveLastStep | src/arc/grants/GrantsTree.php:72-96 | the effective string at a node is the step applied to the effective string of the path above it |
| Grants.FirstStepKeepsSeed | src/arc/grants/GrantsTree.php:85-93 | on the first step with a truthy user the seed is not rewritten; the node's buffer is appended |
| Grants.ExactOnlyFromLastNode | src/arc/grants/GrantsTree.php:85-93 | on a later step, or the first under a falsy user, the effective string ends with the node's buffer and has no `=` before it |
| Grants.EmptyStep | src/arc/grants/GrantsTree.php:85-93 | a node without `group.1` only rewrites the accumulator, except on the first step under a truthy user, when it changes nothing |
| Grants.RewritesStep | src/arc/grants/GrantsTree.php:85-92 | the number of rewrites grows by one per step, except the first under a truthy user |
| Grants.SeedOnlyFold | src/arc/grants/GrantsTree.php:72-96 | without group data the effective string is the seed rewritten once per step, except the first under a truthy user |
| Grants.NoDataDenies | src/arc/grants/GrantsTree.php:72 | with no user entry and no group data the effective string is empty and every grant is denied |
| Grants.DropExactKeepsPlain | src/arc/grants/GrantsTree.php:87 | deleting exact grants keeps a padded plain token wherever it stands and works on each side of it separately |
| Grants.UnwrapKeepsPlain | src/arc/grants/GrantsTree.php:87-88 | activating propagating grants keeps a padded plain token wherever it stands and works on each side of it separately |
| Grants.RewriteKeepsPlain | src/arc/grants/GrantsTree.php:86-90 | the rewrite keeps a padded plain token in place and rewrites the text on either side |
| Grants.PlainTokenStep | src/arc/grants/GrantsTree.php:85-93 | a step, rewriting or not, keeps every padded plain token of the accumulator |
| Grants.PlainTokenSurvives | src/arc/grants/GrantsTree.php:78-95 | a padded plain token of the accumulator is still there after any number of steps |
| Grants.PlainGrantInherited | src/arc/grants/GrantsTree.php:59-96 | a plain user grant anywhere in the seed is granted after any number of steps, for any user, groups and nodes |
| Grants.ExactGrantScope | src/arc/grants/GrantsTree.php:85-92 | for a truthy user, an exact grant `=g` in the seed is granted after the first step and gone after the second |
| Grants.PropagatingGrantActivates | src/arc/grants/GrantsTree.php:85-92 | for a truthy user, a propagating grant `>g` in the seed is not granted after the first step and is granted after the second |
| Grants.GroupFirstStep | src/arc/grants/GrantsTree.php:79-93 | with no user entry and one distinct group, the first node's effective string is its `group.1` entry |
| Grants.GroupExactBelow | src/arc/grants/GrantsTree.php:78-95 | the second step deletes an exact grant that came from the first node's `group.1` entry, leaving two spaces |
| Grants.GroupExactStrippedBelow | src/arc/grants/GrantsTree.php:78-95 | an exact grant in the first node's `group.1` entry is granted after the first step and gone after the second: group text is rewritten too |
| Grants.GrantsTree.constructor | src/arc/grants/GrantsTree.php:25-29 | the new resolver holds the given node, user and groups |
| Grants.GrantsTree.Cd | src/arc/grants/GrantsTree.php:31-33 | `cd` gives a new resolver on the backend's node with the same user and no groups, and leaves the receiver alone |
| Grants.GrantsTree.SwitchUser | src/arc/grants/GrantsTree.php:39-41 | `switchUser` gives a new resolver on the same node with the new user and groups |
| Grants.GrantsTree.SetUserGrants | src/arc/grants/GrantsTree.php:43-49 | the node's map changes under `user.<user>` only, as `StoreEntry` says; nothing else is modified |
| Grants.GrantsTree.SetGroupGrants | src/arc/grants/GrantsTree.php:51-57 | the node's map changes under `group.<group>` only, as `StoreEntry` says; nothing else is modified |
| Grants.GrantsTree.Step | src/arc/grants/GrantsTree.php:78-95 | the step callback computes the specified step and always clears the flag |
| Grants.GrantsTree.FetchGrants | src/arc/grants/GrantsTree.php:69-98 | the fold over the visited nodes computes the specified effective string |
| Grants.GrantsTree.Check | src/arc/grants/GrantsTree.php:59-67 | `check(g)` is true exactly when the effective string contains ` g ` or ` =g ` |
| Grants.AliceReadsOnlyAtA | src/arc/grants/GrantsTree.php:59-98 | a user grant `=read` for alice at `/a/` is granted after the step on `/a/` and not after one more step on an empty `/a/b/` |
| Path.StripSlashes | src/arc/path.php:76 | `dirname`'s first phase cuts only slashes and leaves a prefix that does not end in `/` |
| Path.StripName | src/arc/path.php:76 | `dirname`'s second phase cuts only characters other than `/` and leaves a prefix that is empty or ends in `/` |
| Path.Dirname | src/arc/path.php:76 | PHP's `dirname` on a Unix host; `DirnameOfLastName` and `DirnameOfRelative` state its results |
| Path.DirnameOfLastName | src/arc/path.php:76 | `dirname` of a path ending in a name and a slash is what precedes the name, without trailing slashes, or `/` |
| Path.ParentDir | src/arc/path.php:76-80 | the `..` case always yields a string starting with `/` |
| Path.ParentDirOfTopName | src/arc/path.php:144-148 | the parent directory of a one-name path is `/` |
| Path.ParentDirOfDeeperName | src/arc/path.php:144-148 | the parent directory of a deeper path drops its last name and keeps the slash |
| Path.DirnameOfRelative | src/arc/path.php:144 | `dirname('x/y/')` is `x` |
| Path.ParentDirOfRelative | src/arc/path.php:144-148 | on a relative path the slash written at offset 0 replaces the first byte (a character for ASCII names) of the first name |
| Path.ParentDirOfPath | src/arc/path.php:144-148 | on a well-formed path the parent directory drops the last name, and is `/` at the top |
| Path.Pop | src/arc/path.php:76-80 | dropping the last name leaves a prefix that the name extends back to the list |
| Path.Reduce | src/arc/path.php:218-220 | `array_reduce` over the names of `getSplitPath`; `ReduceConcat` and `ReduceRebuildsPath` state its properties |
| Path.FoldLeftConcat | src/arc/path.php:218-220 | `array_reduce` over a concatenation continues from the first part's result |
| Path.ReduceConcat | src/arc/path.php:218-220 | reducing `x + "/" + y` reduces `x` and then `y` |
| Path.ReduceRebuildsPath | src/arc/path.php:218-220 | reducing with "append name and slash" from `/` renders the path's names |
| Path.Unbackslash | src/arc/path.php:70 | every backslash becomes a slash and nothing else changes |
| Path.CollapseEntry | src/arc/path.php:73-89 | the reducer of `collapse`; `CollapseEntryStep` states what it does on a well-formed path |
| Path.Resolve | src/arc/path.php:64-66 | a path starting with neither `/` nor `\` is put under the working directory; `RelativeStartsRelative` and `CollapseRelative` use it |
| Path.CollapseAbsolute | src/arc/path.php:70-91 | the uncached collapse of a resolved path; `CollapseAbsoluteIsStack` states its result |
| Path.CollapsePath | src/arc/path.php:59-95 | `collapse` without its cache; `CollapseIsNormal`, `CollapseIdempotent` and `CollapseCache.Collapse` state its properties |
| Path.CollapseEntryStep | src/arc/path.php:73-89 | one step of the reducer on a rendered path renders the reference step: `..` pops, `.` is skipped, a name is pushed |
| Path.CollapseSimulates | src/arc/path.php:71-91 | the whole reduction renders the reference collapse on names |
| Path.CollapseStackClean | src/arc/path.php:71-91 | the reference collapse leaves no `.`, `..` or backslash in its names |
| Path.CollapseStackOfClean | src/arc/path.php:84-86 | names without `.` or `..` are all pushed |
| Path.CollapseStackDots | src/arc/path.php:75-81 | `k` `..` entries drop the last `k` names |
| Path.CollapseAbsoluteIsStack | src/arc/path.php:70-91 | collapsing an absolute path renders the reference collapse of its names, which is clean |
| Path.CollapseIsNormal | src/arc/path.php:59-95 | the result of a non-empty collapse is absolute (`isAbsolute` holds), ends in `/`, and has no empty, `.` or `..` name and no backslash |
| Path.CollapseKeepsNormal | src/arc/path.php:59-95 | collapse leaves a collapsed path unchanged, whatever the working directory |
| Path.CollapseIdempotent | src/arc/path.php:57-95 | collapsing a collapse gives the same result again, under any second working directory |
| Path.CollapseUpOne | src/arc/path.php:51 | `collapse('../', cwd)` of a collapsed `cwd` drops its last name (`/foo/bar/` to `/foo/`) |
| Path.CollapseBackslashes | src/arc/path.php:52 | `\a\.\b/c/../` collapses to `/a/b/` for any names `a`, `b`, `c` |
| Path.CollapseCache.constructor | src/arc/path.php:19 | the cache starts empty, so its invariant holds |
| Path.CollapseCache.Collapse | src/arc/path.php:59-95 | the cached collapse returns what recomputation would, records the result under the resolved path, and keeps every entry equal to the collapse of its key |
| Path.IsChild | src/arc/path.php:168-170 | `isChild`; `IsChildIsPrefix` states what it decides |
| Path.IsChildIsPrefix | src/arc/path.php:168-170 | `isChild` holds exactly when the parent is a non-empty prefix of the path |
| Path.IsAbsolute | src/arc/path.php:172-174 | `isAbsolute`: the path starts with `/`; `CollapseIsNormal` and `RelativePathParts` use it |
| Path.Ancestors | src/arc/path.php:33-44 | the list of parents starts with the root |
| Path.AncestorsOfEmptyRoot | src/arc/path.php:37-39 | with an empty root the list of parents is the empty root alone |
| Path.Parents | src/arc/path.php:33-44 | the reduction with `$prevpath` builds exactly the specified list of parents |
| Path.AncestorsShape | src/arc/path.php:33-44 | the parents start with the root; every later one extends the root strictly and ends in `/`; each is a proper prefix of the next; the last is a prefix of the path |
| Path.AncestorsFromTop | src/arc/path.php:33-44 | below `/`, the parents are the renderings of every prefix of the names, one per name plus the root |
| Path.AncestorsEndAtPath | src/arc/path.php:33-44 | when the root is a prefix of the path, the last parent is the path itself |
| Path.ParentsOfThreeNames | src/arc/path.php:26 | `parents('/a/b/c/', '/a/')` is `['/a/', '/a/b/', '/a/b/c/']` for any names |
| Path.Parent | src/arc/path.php:140-153 | `parent`; `ParentOfPath` states its result |
| Path.ParentOfPath | src/arc/path.php:140-153 | `parent` is nothing at the root, for an empty root, and when the parent directory is outside the root; otherwise it drops the last name |
| Path.Reverse | src/arc/path.php:245 | `array_reverse` puts entry `i` at position `n - 1 - i` |
| Path.FirstResult | src/arc/path.php:247-252 | the loop returns the first non-null callback result, or null exactly when every call gives null |
| Path.Walk | src/arc/path.php:242-253 | `walk` calls the callback on the parents, reversed unless starting at the root, and returns the first non-null result or null |
| Path.FirstPrefixIndex | src/arc/path.php:157-163 | the index of the first ancestor that is a non-empty prefix of the target: none before it is one |
| Path.ClimbToCommonParent | src/arc/path.php:157-163 | the walk's callback adds one `../` for each ancestor the target is not a child of, and stops at the first it is a child of |
| Path.RelativePath | src/arc/path.php:155-166 | what `getRelativePath` returns; `RelativePathParts` and `RelativePathRoundTrip` state its properties |
| Path.Substr | src/arc/path.php:164 | `substr($targetPath, strlen($commonParent))`, empty past the end; `RelativePathAt` states the result when the common parent is a prefix |
| Path.GetRelativePath | src/arc/path.php:155-166 | `getRelativePath` computes the specified relative path |
| Path.RelativePathParts | src/arc/path.php:155-166 | the relative path is `k` copies of `../` then the rest of the target after the deepest shared ancestor |
| Path.RelativeStartsRelative | src/arc/path.php:64-65 | a non-empty relative path starts with neither `/` nor `\`, so `collapse` resolves it against the source |
| Path.CollapseRelative | src/arc/path.php:59-95 | collapsing `k` `../` and a rest against a collapsed source climbs `k` names and appends the rest's names |
| Path.RelativePathRoundTrip | src/arc/path.php:155-170 | for collapsed target and source, `collapse(getRelativePath(t, s), s) == t` |
| Path.Apply | src/arc/path.php:197 | `array_map` applies the callback to each name, in order |
| Path.ImplodeAsText | src/arc/path.php:198 | joining names with `/` and closing with `/` renders them |
| Path.Map | src/arc/path.php:194-202 | `map`; `MapRendersNames`, `MapSplits`, `MapIdentity` and `MapCompose` state its properties |
| Path.MapRendersNames | src/arc/path.php:194-202 | `map` renders the callback results of the names, and gives `/` for no names |
| Path.MapSplits | src/arc/path.php:194-202 | when every callback result is a file name, splitting the result of `map` gives those results |
| Path.MapIdentity | src/arc/path.php:194-202 | `map` with the identity normalises a path to its rendering, and leaves it unchanged exactly when it is well formed |
| Path.MapCompose | src/arc/path.php:194-202 | two maps compose into one map with the composed callback |

## Left out

- `ls()` (src/arc/grants/GrantsTree.php:35-37) is an empty stub, and the `Pluggable` base class of `path` is not part of this model.
- The tree backend (`cd`, `dive`, `nodeValue` storage, persistence and sharing between resolvers) is not part of this model. The backend's node is a parameter of `Cd`; `dive` is its seed plus the ordered nodes given to the step callback. No traversal order beyond that is assumed.
- `path::clean` is not modelled. Its callback form is `map`, which is modelled. Its default branch calls PHP's `filter_var` sanitiser, which is foreign code.
- src/arc/xml.php is not part of this model. It wraps DOMDocument and libxml and has no self-contained logic.
- The Windows `dirname` quirk, which the code patches by writing `/` at offset 0, is not modelled: `dirname` follows the Unix algorithm. The write itself is modelled as the overwrite it is, so on a relative path it replaces the first byte (a character for ASCII names) (`ParentDirOfRelative`).
- Strings are modelled as sequences of characters, not bytes. Two places differ for names that start with a multibyte character: the offset-0 write in `parent` and in the `..` case of `collapse` (src/arc/path.php:76-80, 144-148) replaces one byte in PHP and leaves a broken character, where `ParentDir` replaces the whole character; and the `isset($result[1])` test counts bytes where `ParentDir` counts characters. Well-formed absolute paths are not affected.
- The model follows PHP 7.1 to 7.4. `map` calls `join($result, '/')` in the legacy argument order, which PHP 8 rejects with a TypeError. `strpos` with an empty needle answers false; PHP 8 answers 0, which would make every path a child of `''`. A write at offset 0 of an empty string gives `/`, as it does from PHP 7.1 on.
- The claim that the cache makes `collapse` ten times faster is not modelled; only the cache's consistency is.
- Path.Parent: compares the path with the root by string equality, not PHP's loose `==`, which also equates distinct numeric strings.
- Path.IsAbsolute: on the empty string it is false. PHP warns when reading `$path[0]` of an empty string and then also compares false.
- Path.RelativePathRoundTrip: proved for collapsed (normal) target and source paths only. Paths with empty, `.` or `..` names, or with backslashes, are excluded.
- Path.Walk: the callback is a pure function from a parent to an optional result. The by-reference capture in `getRelativePath`'s callback is modelled by `ClimbToCommonParent`.
- Grants.ExactGrantScope: stated for two nodes without a `group.1` entry, and for a non-empty grant name. For the empty name, `check('')` is answered by any two adjacent spaces. It speaks of the first and the second step; reading them as the seed's node and its child assumes that `dive` runs the step callback on the seed's node too, which the backend decides.
- Grants.PropagatingGrantActivates: stated for two nodes without a `group.1` entry. Its first and second steps are the seed's node and its child only when `dive` runs the step callback on the seed's node too.
- Grants.GroupExactStrippedBelow: stated for one distinct group, a second node without a `group.1` entry, and a non-empty grant name.
- Grants.AliceReadsOnlyAtA: takes the seed from `/a/` and runs the first step on `/a/`, as a `dive` does that calls the step callback on the seed's node too.
- GrantStrings.PrefixTokenDenies: stated for a single token made of the name and more characters without spaces, and for a non-empty name.
- Concurrent use of a shared tree by several resolvers is not modelled.
