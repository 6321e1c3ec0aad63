# Organisation-tree fuzzy search, modelled in Dafny

This project models the in-memory core of an organisation-tree service. A user types a keyword. The service finds the departments whose names contain it and the staff whose uid or display name contains it, either directly or through the pinyin of a Chinese name. It then rebuilds the department tree that leads from the root department down to those hits. A blank keyword answers the full tree, which a scheduled refresh rebuilds.

The core has three parts, one Dafny module each. A fourth module holds the Java string helpers they use.

- `FuzzyIndex` (FuzzySearchTree.java) is the substring trie, as a class.
  - Its field `data` maps each node's path from the root to the word set stored at that node.
  - The constructor, `insert`, `search` and `convertToPinyin` are methods with loops.
  - They are proved against an abstract index, `Hits`: the corpus words that a key is a non-empty substring of, in lower-cased text or lower-cased pinyin.
  - The constructor establishes the invariant `Indexed()`: each node holds exactly `Hits` of its path, and the nodes are the root plus the keys that find something. `Search` returns `Hits` of the lower-cased query.
  - Completeness, soundness and the blank/empty cases are lemmas about `Hits`.
  - Lower-casing and the pinyin library are parameters (`Locale`): a `char -> char` and a `char -> seq<string>`.
- `DeptTree` (`constructPath`, `insertUserIntoDeptTree` and `putUserInDepts` of DepartServiceImpl.java, repeated in OrgTreeServiceImpl.java) rebuilds the department tree.
  - The memo map from department code to tree node is the state of the class `TreeBuild`.
  - A node records its children by code, because nodes are only ever reached through the memo.
  - `Construct` is `constructPath` on values. Its termination measure is `|depts.Keys - memo.Keys|`, so it terminates on cyclic parent chains.
  - `None` stands for the `NullPointerException` the source throws when a parent code is `NO_DEPT` and `NO_DEPT` is in the department map.
  - Lemmas state the attachment rules and the invariant `Sane`: nodes only for departments, each built from its own record, children that are known and distinct codes, and every node other than the root's record listed among its parent's children whenever that parent is a department (`Linked`).
  - Further lemmas say which users end up placed.
  - The tree is also minimal: `constructPath` creates only the entries on the parent chain of its code (`Up` follows parent links), so a search answer holds only the targets, the matched users' departments and their parents, with exactly the targets' staff and the matched users.
- `DeptLinks` holds the two recursive walks `getBmChildren` and `getParentNumList`.
  - Neither keeps a visited set, so each takes a ghost ranking as its precondition and termination measure. The ranking covers only the codes the walk reaches from its starting code; codes it never reaches need no rank.
  - `Expand` and `ParentNums` are their specifications.
- `OrgSearch` holds the orchestration: `isContainChinese`, `getTargetDepartments`, `getTargetUsers`, `fuzzySearchTree` and the tree-building part of `updateFuzzySearchTree`.
  - The class `OrgTreeService` covers both services. Its `variant` is `Gated` for DepartServiceImpl, which looks up departments only when `isContainChinese` accepts the keyword, and `Ungated` for OrgTreeServiceImpl, which looks them up for every keyword.
  - The three lazily built search trees are nullable fields.
- `Strings` holds `StringUtils.isBlank` (over `Character.isWhitespace`), per-character `toLowerCase`, and `String.split(",")` with its rule that trailing empty pieces are dropped.

The database and cache reads become parameters:
- the live departments, `liveDepts`;
- the department map from the cache, `env.depts`;
- the staff table, `users`, where `active` marks the status the queries select.

The three constants `ROOT_DEPARTMENT_NUM`, `NO_DEPT` and that status are not visible in the source files, so they are symbolic (`env.root`, `env.noDept`, `User.active`).

## Model

| member | source | states |
|---|---|---|
| FuzzyIndex.FuzzySearchTree.constructor | FuzzySearchTree.java:34-54 | the trie indexes exactly its corpus: each node's word set is what the node's path finds, and the nodes are the root plus the keys that find some word; the trie stays prefix-closed |
| FuzzyIndex.FuzzySearchTree.IndexWord | FuzzySearchTree.java:35-52 | one corpus word adds itself exactly under the keys that index it: every substring of its text and, with pinyin, of its pinyin; a blank word changes nothing |
| FuzzyIndex.FuzzySearchTree.InsertSubstrings | FuzzySearchTree.java:38-42 | the nested loops add the word exactly under the non-empty substrings of the lower-cased text, and create exactly those nodes |
| FuzzyIndex.FuzzySearchTree.Insert | FuzzySearchTree.java:62-72 | the trie becomes `Inserted`: the nodes on the key's path exist, the end node's set gains the word, and no other set changes |
| FuzzyIndex.FuzzySearchTree.Search | FuzzySearchTree.java:80-92 | the result is exactly the set of corpus words the lower-cased query finds, including the empty answer when a character has no child; the trie is not modified |
| FuzzyIndex.FuzzySearchTree.ConvertToPinyin | FuzzySearchTree.java:100-122 | the builder loop yields `Pinyin`: each character's first reading if it is Han and has one, nothing if it is Han without one, the character itself otherwise |
| FuzzyIndex.Inserted | FuzzySearchTree.java:62-72 | the nodes become the old ones plus the key's prefixes, the key's set gains the word, and every other path's set is unchanged |
| FuzzyIndex.InsertTwice | FuzzySearchTree.java:62-72 | inserting the same key and word twice leaves the trie as inserting them once |
| FuzzyIndex.SubstringFindsWord | FuzzySearchTree.java:36-42 | completeness: every non-empty substring of a non-blank corpus word finds that word |
| FuzzyIndex.PinyinSubstringFindsWord | FuzzySearchTree.java:43-50 | with pinyin enabled, every non-empty substring of a word's pinyin finds the original word |
| FuzzyIndex.FoundWordContainsKey | FuzzySearchTree.java:36-50 | soundness: a found word is a non-blank corpus word whose lower-cased text, or lower-cased pinyin when enabled, contains the key at some position, and the key is non-empty |
| FuzzyIndex.BlankNeverFound | FuzzySearchTree.java:36 | a blank corpus entry is never found |
| FuzzyIndex.EmptyKeyFindsNothing | FuzzySearchTree.java:39 | the empty key finds nothing, so the root's set is empty and searching "" returns nothing |
| FuzzyIndex.PrefixFindsMore | FuzzySearchTree.java:84-89 | a word found by a key is found by every non-empty prefix of it, so the walk may stop as soon as a prefix has no node |
| FuzzyIndex.HitsSnoc | FuzzySearchTree.java:35 | one more corpus word adds exactly itself, under exactly the keys that index it |
| FuzzyIndex.PinyinAppend | FuzzySearchTree.java:106-120 | the pinyin of a concatenation is the concatenation of the pinyins |
| FuzzyIndex.PinyinKeepsOtherText | FuzzySearchTree.java:114-116 | text with no Han character is copied unchanged and in order |
| FuzzyIndex.PinyinSkipsUnreadable | FuzzySearchTree.java:110-113 | a Han character with no reading contributes nothing, wherever it stands |
| Strings.Lower | FuzzySearchTree.java:63 | lower-casing keeps the length and maps each character |
| Strings.Split | DepartServiceImpl.java:164-165 | without a comma the result is the whole text; with one it is the comma-separated pieces up to the last non-empty one, and every dropped trailing piece is empty; no piece holds a comma |
| Strings.JoinPieces | DepartServiceImpl.java:165 | the comma-separated pieces joined with commas give back the text |
| DeptTree.Construct | DepartServiceImpl.java:357-394 | throws only when `NO_DEPT` is a department; memo keys only grow and stay within the department map; the code ends in the memo exactly when it was there or is a department other than `NO_DEPT`; the measure drops on each recursive call |
| DeptTree.TreeBuild.ConstructPath | DepartServiceImpl.java:357-394 | the in-place pass succeeds exactly when `Construct` does and leaves the memo that `Construct` computes |
| DeptTree.ConstructNoOp | DepartServiceImpl.java:361-371 | the code equal to `NO_DEPT`, already in the memo, or absent from the department map leaves the memo unchanged |
| DeptTree.ConstructKeepsOld | DepartServiceImpl.java:364 | an entry already in the memo keeps its department and users |
| DeptTree.ConstructBuildsFromRecords | DepartServiceImpl.java:367-374 | each new entry is a department, built from its own record, with no users |
| DeptTree.ConstructOnlyChain | DepartServiceImpl.java:357-394 | `constructPath` builds nothing but its code and that code's parents: every entry it creates is reached from the code by following parent links, since the recursion only ever goes to the record's parent |
| DeptTree.ConstructStep | DepartServiceImpl.java:357-394 | one `constructPath` call: old entries are kept with their users; new ones are departments with no users on the code's parent chain; `NO_DEPT` is never built; the code itself gets a node unless it is `NO_DEPT` or no department |
| DeptTree.ConstructSkipsNoDept | DepartServiceImpl.java:361-363 | no node is ever built for `NO_DEPT` |
| DeptTree.ConstructAttaches | DepartServiceImpl.java:375-392 | children lists only grow at their end; each child added is a node created in this pass under its own parent, never the root; each new node with a parent department is put under it; no code appears twice among the children |
| DeptTree.RootNeverAttached | DepartServiceImpl.java:375-378 | when the map is keyed by each record's own code, the root is never appended under a parent |
| DeptTree.OrphanStaysParentless | DepartServiceImpl.java:380-392 | a new node whose parent is not in the department map is nobody's child |
| DeptTree.ConstructSane | OrgTreeServiceImpl.java:238-275 | `constructPath` keeps the tree sane: nodes only for departments other than `NO_DEPT`, each from its own record, children known and distinct, and every node whose parent is a department listed under its parent's node |
| DeptTree.UnlinkedIsNotSane | DepartServiceImpl.java:380-391 | a memo in which a target has a node but is missing from its parent's children is not sane |
| DeptTree.ConstructKeeps | OrgTreeServiceImpl.java:238-275 | after `constructPath(code)` the code is in the memo or can never be; built codes stay built and placed users stay placed |
| DeptTree.TreeBuild.InsertUserIntoDeptTree | DepartServiceImpl.java:453-465 | the consumer succeeds exactly when `InsertUser` does and leaves its memo |
| DeptTree.InsertUserDrops | OrgTreeServiceImpl.java:334-346 | the user is attached exactly when, after `constructPath`, a node exists for their department; otherwise the user is dropped |
| DeptTree.InsertUserStep | DepartServiceImpl.java:453-465 | one user insertion: new entries lie on the parent chain of the user's department, and each node's users become its old users (none if new) followed by this user when it is theirs |
| DeptTree.InsertUserPlaces | DepartServiceImpl.java:453-465 | inserting a user keeps the tree sane, places that user, and undoes no earlier node or placement |
| DeptTree.UsersOf | DepartServiceImpl.java:232-241 | exactly the users of the given department |
| DeptTree.UsersInDepts | DepartServiceImpl.java:223-230 | exactly the users with the selected status whose department is one of the targets |
| DeptTree.PutUsersAppends | DepartServiceImpl.java:232-242 | `putUserInDepts` creates no node and changes no department or children list; each node's users grow by that department's given users, in order |
| DeptTree.PutUsersPlaces | OrgTreeServiceImpl.java:99-120 | `putUserInDepts` keeps the tree sane, undoes nothing, and places every given user whose department has a node |
| DeptTree.TreeBuild.PutUserInDepts | DepartServiceImpl.java:221-243 | the in-place loop leaves the memo that `PutUsers` computes from the staff query |
| DeptTree.ConstructAllPlaces | DepartServiceImpl.java:213-216 | a pass of `constructPath` over a list of codes throws only when `NO_DEPT` is a department, keeps the tree sane, builds every code given, and undoes nothing |
| DeptTree.InsertUsersPlaces | DepartServiceImpl.java:202-207 | a pass of user insertions throws only when `NO_DEPT` is a department, keeps the tree sane, places every user given, and undoes nothing |
| DeptTree.ConstructAllOnlyChains | DepartServiceImpl.java:213-216 | a pass of `constructPath` calls creates only user-less entries on the parent chains of its codes, keeps the old entries and their users, and never builds `NO_DEPT` |
| DeptTree.InsertUsersAppends | DepartServiceImpl.java:202-207 | a pass of user insertions creates only entries on the parent chains of its users' departments, and each node ends with its old users, or none if new, followed by exactly that department's users of the pass in order |
| DeptTree.TreeBuild.constructor | DepartServiceImpl.java:190 | a tree build starts from an empty memo |
| DeptTree.TreeBuild.From | DepartServiceImpl.java:192-196 | the user phase goes on from exactly the memo the department phase left |
| DeptLinks.Listed | DepartServiceImpl.java:163-170 | the codes a child list adds: its `split(",")` pieces when it has a comma, otherwise the whole list as one code |
| DeptLinks.Expand | DepartServiceImpl.java:156-175 | the department itself is always added, and every other code added is listed in some department's child list |
| DeptLinks.ExpandAll | DepartServiceImpl.java:166-168 | every code the loop over the pieces adds is listed in some child list |
| DeptLinks.GetBmChildren | DepartServiceImpl.java:156-175 | the set only grows, and grows by exactly `Expand` of the department |
| DeptLinks.ExpandFollowsPieces | DepartServiceImpl.java:164-168 | a comma-separated list adds every piece and everything each piece expands to |
| DeptLinks.SingleChildNotExpanded | DepartServiceImpl.java:169-171 | a child list with no comma adds that child and the department only, even when the child has children of its own |
| DeptLinks.LeafAddsItself | DepartServiceImpl.java:158-174 | a code that is not a department, or has an empty child list, adds only itself |
| DeptLinks.ExpandAllCovers | DepartServiceImpl.java:166-168 | the loop over the pieces adds at least what each piece expands to |
| DeptLinks.ParentNums | DepartServiceImpl.java:117-126 | everything the walk adds is the code of some record |
| DeptLinks.GetParentNumList | DepartServiceImpl.java:117-126 | the set only grows, and grows by exactly `ParentNums` of the code |
| DeptLinks.ParentNumsHasCode | DepartServiceImpl.java:119-120 | the code itself is added exactly when some record has it |
| DeptLinks.ParentNumsSkips | DepartServiceImpl.java:118-119 | records before the first one with the code add nothing |
| DeptLinks.ParentNumsClosed | DepartServiceImpl.java:121-122 | the result is closed under the walk: for each code it holds, it holds all the walk from that code adds |
| DeptLinks.ParentNumsHasParents | DepartServiceImpl.java:117-126 | the ancestor chain is complete: the followed parent of a code in the result is in the result, when some record has it |
| DeptLinks.StopIgnoresLaterRecords | DepartServiceImpl.java:120 | a record after the one that ends the loop needs no rank: with the code first listed parentless and then as its own parent, the walk yields just that code |
| OrgSearch.ContainsChinese | DepartServiceImpl.java:417-423 | true exactly when some character is in U+4E00-U+9FA5, is one of the fourteen full-width marks, or is a literal `\|` |
| OrgSearch.AsciiIsNotChinese | DepartServiceImpl.java:305 | a keyword of plain ASCII without `\|` is not looked up as a department name |
| OrgSearch.PipeIsChinese | DepartServiceImpl.java:420 | a `\|` anywhere makes the keyword pass |
| OrgSearch.Active | DepartServiceImpl.java:278-281 | exactly the staff with the selected status |
| OrgSearch.MatchUsers | OrgTreeServiceImpl.java:137-146 | exactly the active staff whose uid is a uid hit or whose display name is a name hit |
| OrgSearch.NameMatched | DepartServiceImpl.java:313-319 | exactly the live departments whose name is a hit |
| OrgSearch.ChildCodesHas | DepartServiceImpl.java:321-330 | a code is collected exactly when `getBmChildren` adds it for some matched department |
| OrgSearch.UnreachedCycleIgnored | DepartServiceImpl.java:321-330 | two departments whose child lists name each other ask for no ranking when the search matches only a leaf, which collects just itself |
| OrgSearch.CollectChildren | OrgTreeServiceImpl.java:204-213 | the loop collects exactly `ChildCodes` of the matched departments |
| OrgSearch.Merge | DepartServiceImpl.java:332-339 | no duplicates, and a department is in the result exactly when it is matched or is the record of a collected code |
| OrgSearch.MergeIsTargetSet | OrgTreeServiceImpl.java:194-219 | the merged list holds exactly the target set of the matched departments |
| OrgSearch.Outcome | DepartServiceImpl.java:199 | a built memo answers its root node or a fresh node, never the unbuilt full tree |
| OrgSearch.BuildDeptPhase | DepartServiceImpl.java:209-219 | the in-place department phase on a fresh memo gives `DeptPhase`: the path of each target, then the targets' staff; `None` when a path throws |
| OrgSearch.BuildUserPhase | DepartServiceImpl.java:202-207 | inserting the matched users into the memo the department phase left gives the answer `SearchTree` describes: the root node, a fresh node, or the exception |
| OrgSearch.BuildFullTree | OrgTreeServiceImpl.java:311-317 | the in-place full build gives `FullTree`: `constructPath` on every live department first, then every active user inserted |
| OrgSearch.SearchTreeSound | OrgTreeServiceImpl.java:62-78 | a search throws only when `NO_DEPT` is a department; a rooted answer is a sane tree that holds the root, a node for every target that can have one, and every matched user under their department when it can have a node; sanity includes that each node whose parent is a department hangs among that parent's children, so the targets are reached through `children` links |
| OrgSearch.TargetHangsUnderRoot | DepartServiceImpl.java:184-200 | searching for one department whose parent is the root answers the root with that department as its only child |
| OrgSearch.DeptPhaseChains | DepartServiceImpl.java:209-219 | the department phase builds only nodes on the parent chains of the targets, never `NO_DEPT` |
| OrgSearch.SearchTreeOnlyChains | DepartServiceImpl.java:184-200 | the answer is minimal: every node of a rooted answer lies on the parent chain of a target or of a matched user's department, and a search with no target and no matched user answers a fresh node |
| OrgSearch.SearchTreeStaff | DepartServiceImpl.java:192-196 | each node of a rooted answer holds exactly the targets' staff of its department followed by the matched users of its department, in order |
| OrgSearch.FullTreeSound | DepartServiceImpl.java:426-436 | the full tree throws only when `NO_DEPT` is a department; when rooted, it is sane, so each node whose parent is a department hangs among that parent's children, and it holds every live department that can have a node and every active user under their department |
| OrgSearch.OrgTreeService.constructor | DepartServiceImpl.java:58-64 | the service starts with no full tree and no search trees |
| OrgSearch.OrgTreeService.GenerateDeptNameTree | DepartServiceImpl.java:348-355 | the department-name tree is rebuilt without pinyin from the live departments' names; nothing else changes |
| OrgSearch.OrgTreeService.GenerateUserTrees | DepartServiceImpl.java:276-296 | the uid tree (no pinyin) and the display-name tree (pinyin) are rebuilt from the active staff; nothing else changes |
| OrgSearch.OrgTreeService.TargetUsers | DepartServiceImpl.java:245-274 | blank keyword: all active staff; otherwise the user trees are built if either is missing, and the result is empty when both searches are, else the active staff matching a uid hit or a name hit |
| OrgSearch.MatchDepartments | DepartServiceImpl.java:310-341 | an empty search gives no departments; otherwise exactly the distinct target set of the name-matched live departments |
| OrgSearch.OrgTreeService.TargetDepartments | DepartServiceImpl.java:298-345 | blank keyword: the live departments; Gated with a keyword `isContainChinese` rejects: none; otherwise the name tree is built from the live departments if missing, and the result is empty when the search is, else exactly the distinct target set; only the name-matched departments of a looked-up keyword need a ranking |
| OrgSearch.OrgTreeService.FuzzySearch | DepartServiceImpl.java:184-200 | blank keyword: the stored full tree, nothing changed; otherwise the department targets for the keyword, and then either the exception of their department phase, with the user trees untouched, or the tree `SearchTree` builds from them and the user targets; missing search trees are built from the live departments and active staff, existing ones are kept, and the full tree is untouched |
| OrgSearch.OrgTreeService.KeywordSearch | DepartServiceImpl.java:189-199 | for a non-blank keyword: the department targets, then the exception of their department phase with the user trees untouched, or `SearchTree` of the targets and the user targets; search trees built only where missing, the full tree untouched |
| OrgSearch.OrgTreeService.UpdateFuzzySearchTree | DepartServiceImpl.java:426-451 | for any department data, cyclic child lists included: succeeds exactly when the full build does not throw; on failure nothing changes; on success the full tree is `FullTree` of the live departments and active staff, and all three search trees are rebuilt from the current data |

## Left out

- Database and cache access become parameters. This covers `selectByExample` for departments and staff, `getDeptMapFromCache`, `getDeptPersonVOs`, `getDeptTree` and the Redis writes. The map is assumed to be what the cache holds at the moment of the call.
- Concurrency is not modelled. Every `parallelStream` runs sequentially in list order. The races on the shared fields `fullTree`, `uidTree`, `nameTree` and `deptNameTree` between a search and the scheduled refresh are out of scope. So is the schedule itself.
- The order of the staff lists is the order of the `users` parameter. The order the database returns is not modelled.
- Logging, timing and the JSON dump of the memo are not modelled.
- `FuzzyIndex.FuzzySearchTree.Search` returns a set. The source copies the node's `HashSet` into a list whose order is unspecified.
- `OrgSearch.Merge` picks the collected codes in an arbitrary order. The source draws them from a `HashSet` through a parallel stream, so that order is not fixed either.
- `Strings.Lower` maps one character to one character. The JDK's `toLowerCase` is locale-dependent and can change a string's length, for example on U+0130. That case is not modelled.
- The pinyin library is a parameter. Its `BadHanyuPinyinOutputFormatCombination` exception is not modelled. With the fixed lower-case, tone-free format it cannot occur.
- Java `null` strings are represented by the empty string. This applies to a missing parent code, a missing child list and the `null` keyword of the refresh.
- `BeanUtil.isNotEmpty` on a department record is taken as "the record is present".
- `findHighlightWord` and the highlight it sets on OrgTreeServiceImpl's matched departments are not modelled. `FuzzySearchTree.findMatchingSubstrings` is not part of this model.
- `distinct()` is taken as equality of department records. In OrgTreeServiceImpl the matched departments carry a highlight, while their copies reached as children do not. Under the equality of the unseen `DeptPersonVO`, such a department may appear twice there; the model keeps it once.
- `new DeptPersonVO(deptMap.get(v))` for a collected code missing from the map (OrgTreeServiceImpl.java:216) is modelled as dropping that code, like DepartServiceImpl's `filter(Objects::nonNull)`. `DeptPersonVO` is not part of this model.
- `getDeptParents` (DepartServiceImpl.java:106-114) is left out. It only wraps `getParentNumList`, which is modelled, in a database read and an empty-list exception. The other service methods are database glue.
- `DeptLinks.GetBmChildren` and `DeptLinks.GetParentNumList` require a ranking of the codes they reach from their starting code. The source has no cycle guard and overflows the stack when a reached child or parent list is cyclic; that behaviour is not modelled. `OrgSearch.OrgTreeService.TargetDepartments` and `FuzzySearch` need the ranking only for the departments a looked-up keyword matches.
- `DeptTree.TreeBuild.ConstructPath` leaves the memo unspecified after a failure. The source's partly built memo is discarded there anyway, because the exception ends the search or refresh.
- `DeptTree.RootNeverAttached` requires the department map to be keyed by each record's own code, as `getDeptMapFromCache` builds it. The root test reads the record's own code. Without that requirement, a record stored under the root's key but carrying another code is attached under its parent. A record whose code is the root is never attached, whatever its key.
- The values of `ROOT_DEPARTMENT_NUM`, `NO_DEPT` and the selected staff status are symbolic, because their definitions are not part of the source files.
- `DepartTreeNode`, `UserVo` and their JSON form are not part of this model. `addChildren` and `addUser` are taken as appending, and a user node is the staff record itself.
