/**
 * The search orchestration of DepartServiceImpl.java and
 * OrgTreeServiceImpl.java: `fuzzySearchTree`, `getTargetDepartments`,
 * `getTargetUsers`, `isContainChinese` and the tree-building part of
 * `updateFuzzySearchTree`.
 *
 * The two services differ in one place only: DepartServiceImpl looks up
 * departments only for a keyword that `isContainChinese` accepts
 * (`Variant.Gated`), OrgTreeServiceImpl for every keyword
 * (`Variant.Ungated`). The database and cache reads become parameters: the
 * live departments (`liveDepts`), the department map (`env.depts`) and the
 * staff table (`users`, whose `active` flag is the status the queries select).
 */
module OrgSearch {
  import opened Strings
  import opened FuzzyIndex
  import opened DeptTree
  import opened DeptLinks

  // ---------------------------------------------------------------------
  // isContainChinese.

  /** One character of the class `isContainChinese` looks for: the range
      U+4E00-U+9FA5, fourteen full-width punctuation marks, and `|`, which is
      literal inside a character class. */
  predicate ChineseMark(c: char) {
    || IsHan(c)
    || c == '\U{FF01}' || c == '\U{FF0C}' || c == '\U{3002}' || c == '\U{FF08}'
    || c == '\U{FF09}' || c == '\U{300A}' || c == '\U{300B}' || c == '\U{201C}'
    || c == '\U{201D}' || c == '\U{FF1F}' || c == '\U{FF1A}' || c == '\U{FF1B}'
    || c == '\U{3010}' || c == '\U{3011}'
    || c == '|'
  }

  /** `isContainChinese`: `find()` succeeds somewhere in `s`. */
  function ContainsChinese(s: string): (b: bool)
    ensures b <==> exists i | 0 <= i < |s| :: ChineseMark(s[i])
  {
    if s == [] then false
    else ChineseMark(s[|s| - 1]) || ContainsChinese(s[..|s| - 1])
  }

  /** A keyword of plain ASCII without `|` is not looked up as a department
      name by DepartServiceImpl, while a `|` alone is enough. */
  lemma AsciiIsNotChinese(s: string)
    requires forall i | 0 <= i < |s| :: s[i] < '\U{80}' && s[i] != '|'
    ensures !ContainsChinese(s)
  {
  }

  lemma PipeIsChinese(s: string, i: nat)
    requires i < |s| && s[i] == '|'
    ensures ContainsChinese(s)
  {
  }

  // ---------------------------------------------------------------------
  // The selections, on values.

  datatype Variant = Gated | Ungated

  /** What `fuzzySearchTree` returns: the root node of a memo (`Rooted`,
      whose memo holds the root code), a fresh empty node (`Fresh`), the
      exception `constructPath` throws (`Crashed`), or, for the stored full
      tree, the `null` it holds before the first refresh (`NotBuilt`). */
  datatype Answer = Rooted(memo: Memo) | Fresh | Crashed | NotBuilt

  /** The staff with the selected status, in table order. */
  function Active(users: seq<User>): (r: seq<User>)
    ensures forall u :: u in r <==> u in users && u.active
  {
    if users == [] then []
    else Active(users[..|users| - 1]) + (if users[|users| - 1].active then [users[|users| - 1]] else [])
  }

  /** The user query with its `OR` of two `IN` criteria. */
  function MatchUsers(users: seq<User>, uidHits: set<string>, nameHits: set<string>): (r: seq<User>)
    ensures forall u :: u in r <==> u in users && u.active && (u.uid in uidHits || u.displayName in nameHits)
  {
    if users == [] then []
    else
      var u := users[|users| - 1];
      MatchUsers(users[..|users| - 1], uidHits, nameHits)
        + (if u.active && (u.uid in uidHits || u.displayName in nameHits) then [u] else [])
  }

  /** The department query on names: live departments whose name is a hit. */
  function NameMatched(ds: seq<Depart>, hits: set<string>): (r: seq<Depart>)
    ensures forall d :: d in r <==> d in ds && d.name in hits
  {
    if ds == [] then []
    else
      var d := ds[|ds| - 1];
      NameMatched(ds[..|ds| - 1], hits) + (if d.name in hits then [d] else [])
  }

  function Uids(us: seq<User>): seq<string> {
    seq(|us|, i requires 0 <= i < |us| => us[i].uid)
  }

  function DisplayNames(us: seq<User>): seq<string> {
    seq(|us|, i requires 0 <= i < |us| => us[i].displayName)
  }

  function Names(ds: seq<Depart>): seq<string> {
    seq(|ds|, i requires 0 <= i < |ds| => ds[i].name)
  }

  function Codes(ds: seq<Depart>): seq<string> {
    seq(|ds|, i requires 0 <= i < |ds| => ds[i].code)
  }

  /** `getBmChildren` terminates on each department of `ds`: the ranking
      covers those of their codes that are departments, and everything the
      child lists lead to from there. */
  ghost predicate RankedFrom(depts: map<string, Depart>, rank: map<string, nat>, ds: seq<Depart>) {
    Ranked(depts, rank) && forall n | 0 <= n < |ds| && ds[n].code in depts :: ds[n].code in rank
  }

  lemma RankedPrefix(depts: map<string, Depart>, rank: map<string, nat>, ds: seq<Depart>, k: nat)
    requires RankedFrom(depts, rank, ds) && k <= |ds|
    ensures RankedFrom(depts, rank, ds[..k])
  {
    forall n | 0 <= n < k && ds[..k][n].code in depts ensures ds[..k][n].code in rank {
      assert ds[..k][n] == ds[n];
    }
  }

  /** The union of what `getBmChildren` adds for each department of `ds`. */
  function ChildCodes(depts: map<string, Depart>, rank: map<string, nat>, ds: seq<Depart>): set<string>
    requires RankedFrom(depts, rank, ds)
    decreases |ds|
  {
    if ds == [] then {}
    else
      RankedPrefix(depts, rank, ds, |ds| - 1);
      ChildCodes(depts, rank, ds[..|ds| - 1]) + Expand(depts, rank, ds[|ds| - 1].code)
  }

  /** A code is collected exactly when `getBmChildren` adds it for one of
      the departments. */
  lemma {:induction false} ChildCodesHas(depts: map<string, Depart>, rank: map<string, nat>, ds: seq<Depart>, c: string)
    requires RankedFrom(depts, rank, ds)
    ensures c in ChildCodes(depts, rank, ds) <==> exists n | 0 <= n < |ds| :: c in Expand(depts, rank, ds[n].code)
    decreases |ds|
  {
    if ds != [] {
      var k := |ds| - 1;
      var init := ds[..k];
      RankedPrefix(depts, rank, ds, k);
      ChildCodesHas(depts, rank, init, c);
      if exists n | 0 <= n < |ds| :: c in Expand(depts, rank, ds[n].code) {
        var n :| 0 <= n < |ds| && c in Expand(depts, rank, ds[n].code);
        if n < k {
          assert init[n] == ds[n];
        }
      }
      if exists n | 0 <= n < k :: c in Expand(depts, rank, init[n].code) {
        var n :| 0 <= n < k && c in Expand(depts, rank, init[n].code);
        assert init[n] == ds[n];
      }
    }
  }

  /** The department targets of a keyword whose name hits are `matched`:
      the matched departments and the record of every code their child
      lists lead to, where the map has one. */
  ghost function TargetSet(depts: map<string, Depart>, rank: map<string, nat>, matched: seq<Depart>): set<Depart>
    requires RankedFrom(depts, rank, matched)
  {
    (set d | d in matched) + (set c | c in ChildCodes(depts, rank, matched) && c in depts :: depts[c])
  }

  /** No department occurs twice (`distinct()`). */
  ghost predicate Distinct(r: seq<Depart>) {
    forall i, j | 0 <= i < j < |r| :: r[i] != r[j]
  }

  // ---------------------------------------------------------------------
  // Building the answer tree, on values.

  function Outcome(env: Env, o: Option<Memo>): (a: Answer)
    ensures a != NotBuilt
  {
    match o
    case None => Crashed
    case Some(m) => if env.root in m then Rooted(m) else Fresh
  }

  /** `buildTreeWithTargetDept` on a fresh memo: the path of every target,
      then the staff of the targets; `None` when a path throws. */
  function DeptPhase(env: Env, targets: seq<Depart>, users: seq<User>): Option<Memo> {
    if targets == [] then Some(map[])
    else match ConstructAll(env, map[], Codes(targets))
      case None => None
      case Some(m) => Some(PutUsers(m, UsersInDepts(users, targets)))
  }

  /** `buildTreeWithTargetDept` followed by `buildTreeWithTargetUser`, and
      the root lookup of `fuzzySearchTree`. */
  function SearchTree(env: Env, targets: seq<Depart>, users: seq<User>, found: seq<User>): Answer {
    var seeded := DeptPhase(env, targets, users);
    Outcome(env, if seeded.None? then None else InsertUsers(env, seeded.value, found))
  }

  /** The full tree of `updateFuzzySearchTree`: `constructPath` on every
      live department, then every user of `active` inserted. */
  function FullTree(env: Env, liveDepts: seq<Depart>, active: seq<User>): Answer {
    match ConstructAll(env, map[], Codes(liveDepts))
    case None => Crashed
    case Some(m) => Outcome(env, InsertUsers(env, m, active))
  }

  /** What a search answer guarantees: it throws only when `NO_DEPT` is a
      department, and a rooted answer is a sane tree that holds the root,
      a node for every target that can have one, and every matched user
      under their department whenever that department can have a node. */
  lemma SearchTreeSound(env: Env, targets: seq<Depart>, users: seq<User>, found: seq<User>, t: Depart, v: User)
    ensures SearchTree(env, targets, users, found).Crashed? ==> env.noDept in env.depts
    ensures SearchTree(env, targets, users, found).Rooted? ==>
      var m := SearchTree(env, targets, users, found).memo;
      && env.root in m && Sane(env, m)
      && (t in targets ==> Built(env, m, t.code))
      && (v in found || v in UsersInDepts(users, targets) ==> Placed(env, m, v))
  {
    var codes := Codes(targets);
    if t in targets {
      var n :| 0 <= n < |targets| && targets[n] == t;
      assert codes[n] == t.code;
    }
    if targets == [] {
      InsertUsersPlaces(env, map[], found, t.code, v);
    } else {
      ConstructAllPlaces(env, map[], codes, t.code, v);
      var o := ConstructAll(env, map[], codes);
      if o.Some? {
        var put := UsersInDepts(users, targets);
        if v in put {
          var s :| s in targets && s.code == v.dept;
          var n :| 0 <= n < |targets| && targets[n] == s;
          assert codes[n] == v.dept;
          ConstructAllPlaces(env, map[], codes, v.dept, v);
        }
        PutUsersPlaces(env, o.value, put, t.code, v);
        InsertUsersPlaces(env, PutUsers(o.value, put), found, t.code, v);
      }
    }
  }

  /** The department phase builds only nodes on the parent chains of the
      targets, and never `NO_DEPT`. */
  lemma DeptPhaseChains(env: Env, targets: seq<Depart>, users: seq<User>)
    requires DeptPhase(env, targets, users).Some?
    ensures var s := DeptPhase(env, targets, users).value;
      && env.noDept !in s
      && forall k | k in s :: exists t | t in targets :: OnChain(env.depts, t.code, k)
  {
    if targets != [] {
      var codes := Codes(targets);
      var o := ConstructAll(env, map[], codes).value;
      var s := PutUsers(o, UsersInDepts(users, targets));
      ConstructAllOnlyChains(env, map[], codes);
      PutUsersAppends(o, UsersInDepts(users, targets), env.noDept);
      forall k | k in s
        ensures exists t | t in targets :: OnChain(env.depts, t.code, k)
      {
        PutUsersAppends(o, UsersInDepts(users, targets), k);
        var i :| 0 <= i < |codes| && OnChain(env.depts, codes[i], k);
        assert targets[i] in targets && codes[i] == targets[i].code;
      }
    }
  }

  /** The answer holds nothing it need not: every node of a rooted answer
      lies on the parent chain of a target or of a matched user's
      department, and a search that matches nothing answers a fresh node. */
  lemma SearchTreeOnlyChains(env: Env, targets: seq<Depart>, users: seq<User>, found: seq<User>)
    ensures targets == [] && found == [] ==> SearchTree(env, targets, users, found) == Fresh
    ensures SearchTree(env, targets, users, found).Rooted? ==>
      var m := SearchTree(env, targets, users, found).memo;
      forall k | k in m ::
        || (exists t | t in targets :: OnChain(env.depts, t.code, k))
        || (exists u | u in found :: OnChain(env.depts, u.dept, k))
  {
    var seeded := DeptPhase(env, targets, users);
    if seeded.Some? && InsertUsers(env, seeded.value, found).Some? {
      var s := seeded.value;
      DeptPhaseChains(env, targets, users);
      var m := InsertUsers(env, s, found).value;
      forall k | k in m
        ensures || (exists t | t in targets :: OnChain(env.depts, t.code, k))
                || (exists u | u in found :: OnChain(env.depts, u.dept, k))
      {
        InsertUsersAppends(env, s, found, k);
        if k !in s {
          var i :| 0 <= i < |found| && OnChain(env.depts, found[i].dept, k);
          assert found[i] in found;
        }
      }
    }
  }

  /** The staff of a rooted answer are exactly the staff of the targets,
      then the matched users, each under their own department and in the
      order they were given. */
  lemma SearchTreeStaff(env: Env, targets: seq<Depart>, users: seq<User>, found: seq<User>)
    ensures SearchTree(env, targets, users, found).Rooted? ==>
      var m := SearchTree(env, targets, users, found).memo;
      forall k | k in m :: m[k].users == UsersOf(UsersInDepts(users, targets), k) + UsersOf(found, k)
  {
    var seeded := DeptPhase(env, targets, users);
    if seeded.Some? && InsertUsers(env, seeded.value, found).Some? {
      var codes := Codes(targets);
      var put := UsersInDepts(users, targets);
      var s := seeded.value;
      if targets == [] {
        forall k | k in InsertUsers(env, s, found).value
          ensures InsertUsers(env, s, found).value[k].users == UsersOf(put, k) + UsersOf(found, k)
        {
          InsertUsersAppends(env, s, found, k);
          UsersOfNone(put, k);
        }
      } else {
        var o := ConstructAll(env, map[], codes).value;
        ConstructAllOnlyChains(env, map[], codes);
        forall k
          ensures k in s <==> k in o
          ensures k in o ==> s[k].users == UsersOf(put, k)
        {
          PutUsersAppends(o, put, k);
        }
        var m := InsertUsers(env, s, found).value;
        forall k | k in m
          ensures m[k].users == UsersOf(put, k) + UsersOf(found, k)
        {
          InsertUsersAppends(env, s, found, k);
          if k !in s {
            NoStaffOffTargets(env, targets, users, k);
          }
        }
      }
    }
  }

  /** A department the first pass did not build holds none of the
      targets' staff. */
  lemma NoStaffOffTargets(env: Env, targets: seq<Depart>, users: seq<User>, k: string)
    requires ConstructAll(env, map[], Codes(targets)).Some?
    requires k in env.depts && k != env.noDept && k !in ConstructAll(env, map[], Codes(targets)).value
    ensures UsersOf(UsersInDepts(users, targets), k) == []
  {
    var codes := Codes(targets);
    var put := UsersInDepts(users, targets);
    forall u | u in put
      ensures u.dept != k
    {
      var t :| t in targets && t.code == u.dept;
      var j :| 0 <= j < |targets| && targets[j] == t;
      assert codes[j] == u.dept;
      ConstructAllPlaces(env, map[], codes, u.dept, u);
    }
    UsersOfNone(put, k);
  }

  /** A search whose one target sits below the root answers the root with
      the target among its children. */
  lemma TargetHangsUnderRoot()
    ensures var r := Depart("R", "r", "", "");
      var t := Depart("T", "t", "R", "");
      var env := Env(map["R" := r, "T" := t], "R", "N");
      SearchTree(env, [t], [], []) == Rooted(map["R" := Node(r, ["T"], []), "T" := Node(t, [], [])])
  {
    var r := Depart("R", "r", "", "");
    var t := Depart("T", "t", "R", "");
    var env := Env(map["R" := r, "T" := t], "R", "N");
    var m1 := map["T" := Node(t, [], [])];
    assert Construct(env, m1, "R") == Some(m1["R" := Node(r, [], [])]);
    var empty: Memo := map[];
    assert empty["T" := Node(t, [], [])] == m1;
    var m2 := m1["R" := Node(r, [], [])];
    assert m2["R"].children + ["T"] == ["T"];
    assert Attach(m2, "R", "T") == m2["R" := Node(r, ["T"], [])];
    assert Attach(m2, "R", "T") == map["R" := Node(r, ["T"], []), "T" := Node(t, [], [])];
    assert env.depts["T"] == t && env.depts["T"].parent == "R" && "R" !in m1;
    assert Construct(env, empty, "T") == Some(Attach(Construct(env, m1, "R").value, "R", "T"));
    assert Construct(env, empty, "T") == Some(map["R" := Node(r, ["T"], []), "T" := Node(t, [], [])]);
    assert Codes([t]) == ["T"];
  }

  /** The full tree holds a node for every live department that can have
      one and every active user under their department whenever that
      department can have a node. */
  lemma FullTreeSound(env: Env, liveDepts: seq<Depart>, active: seq<User>, t: Depart, v: User)
    ensures FullTree(env, liveDepts, active).Crashed? ==> env.noDept in env.depts
    ensures FullTree(env, liveDepts, active).Rooted? ==>
      var m := FullTree(env, liveDepts, active).memo;
      && env.root in m && Sane(env, m)
      && (t in liveDepts ==> Built(env, m, t.code))
      && (v in active ==> Placed(env, m, v))
  {
    var codes := Codes(liveDepts);
    if t in liveDepts {
      var n :| 0 <= n < |liveDepts| && liveDepts[n] == t;
      assert codes[n] == t.code;
    }
    ConstructAllPlaces(env, map[], codes, t.code, v);
    var o := ConstructAll(env, map[], codes);
    if o.Some? {
      InsertUsersPlaces(env, o.value, active, t.code, v);
    }
  }

  /** `buildTreeWithTargetDept` of `fuzzySearchTree`, on a fresh memo. */
  method BuildDeptPhase(env: Env, targets: seq<Depart>, users: seq<User>) returns (seeded: Option<Memo>)
    ensures seeded == DeptPhase(env, targets, users)
  {
    var tb := new TreeBuild(env);
    var codes := Codes(targets);
    if |targets| > 0 {
      for n := 0 to |targets|
        invariant tb.env == env
        invariant ConstructAll(env, map[], codes) == ConstructAll(env, tb.memo, codes[n..])
      {
        assert codes[n..][1..] == codes[n + 1..];
        var ok := tb.ConstructPath(targets[n].code);
        if !ok {
          return None;
        }
      }
      tb.PutUserInDepts(targets, users);
    }
    seeded := Some(tb.memo);
  }

  /** `buildTreeWithTargetUser` on the memo the department phase left, and
      the root lookup of `fuzzySearchTree`. */
  method BuildUserPhase(env: Env, seeded: Memo, found: seq<User>) returns (answer: Answer)
    ensures answer == Outcome(env, InsertUsers(env, seeded, found))
  {
    var tb := new TreeBuild.From(env, seeded);
    for n := 0 to |found|
      invariant tb.env == env
      invariant InsertUsers(env, seeded, found) == InsertUsers(env, tb.memo, found[n..])
    {
      assert found[n..][1..] == found[n + 1..];
      var ok := tb.InsertUserIntoDeptTree(found[n]);
      if !ok {
        return Crashed;
      }
    }
    answer := if env.root in tb.memo then Rooted(tb.memo) else Fresh;
  }

  /** The tree building of `updateFuzzySearchTree` on a fresh memo. */
  method BuildFullTree(env: Env, liveDepts: seq<Depart>, active: seq<User>) returns (answer: Answer)
    ensures answer == FullTree(env, liveDepts, active)
  {
    var tb := new TreeBuild(env);
    var codes := Codes(liveDepts);
    for n := 0 to |liveDepts|
      invariant tb.env == env
      invariant ConstructAll(env, map[], codes) == ConstructAll(env, tb.memo, codes[n..])
    {
      assert codes[n..][1..] == codes[n + 1..];
      var ok := tb.ConstructPath(liveDepts[n].code);
      if !ok {
        return Crashed;
      }
    }
    ghost var built := tb.memo;
    for n := 0 to |active|
      invariant tb.env == env
      invariant InsertUsers(env, built, active) == InsertUsers(env, tb.memo, active[n..])
    {
      assert active[n..][1..] == active[n + 1..];
      var ok := tb.InsertUserIntoDeptTree(active[n]);
      if !ok {
        return Crashed;
      }
    }
    answer := if env.root in tb.memo then Rooted(tb.memo) else Fresh;
  }

  // ---------------------------------------------------------------------
  // The service and its search trees.

  class OrgTreeService {
    const variant: Variant
    const locale: Locale
    /** `fullTree`. */
    var fullTree: Answer
    /** `deptNameTree`, `uidTree`, `nameTree`; `null` until first built. */
    var deptNameTree: FuzzySearchTree?
    var uidTree: FuzzySearchTree?
    var nameTree: FuzzySearchTree?

    /** Each search tree that exists holds the index of its word list:
        department names and uids without pinyin, display names with it. */
    ghost predicate Valid()
      reads this, deptNameTree, uidTree, nameTree
    {
      && (deptNameTree != null ==> && deptNameTree.Valid() && deptNameTree.Indexed()
                                   && deptNameTree.locale == locale && !deptNameTree.enablePinyin)
      && (uidTree != null ==> && uidTree.Valid() && uidTree.Indexed()
                              && uidTree.locale == locale && !uidTree.enablePinyin)
      && (nameTree != null ==> && nameTree.Valid() && nameTree.Indexed()
                               && nameTree.locale == locale && nameTree.enablePinyin)
    }

    constructor (variant: Variant, locale: Locale)
      ensures Valid()
      ensures this.variant == variant && this.locale == locale
      ensures fullTree == NotBuilt && deptNameTree == null && uidTree == null && nameTree == null
    {
      this.variant := variant;
      this.locale := locale;
      fullTree := NotBuilt;
      deptNameTree := null;
      uidTree := null;
      nameTree := null;
    }

    /** The keyword is looked up in the department-name tree: it is not
        blank and, in DepartServiceImpl, `isContainChinese` accepts it. */
    ghost predicate Searched(keyword: string) {
      !IsBlank(keyword) && !(variant == Gated && !ContainsChinese(keyword))
    }

    /** The names the department-name tree finds for `keyword`: that of the
        existing tree, or of the one built from `liveDepts` when none
        exists yet. */
    ghost function NameHits(keyword: string, liveDepts: seq<Depart>): set<string>
      reads this, deptNameTree
    {
      var corpus := if deptNameTree != null then deptNameTree.corpus else Names(liveDepts);
      Hits(locale, false, corpus, Lower(locale.lower, keyword))
    }

    /** `getBmChildren` terminates on the departments a looked-up keyword
        matches: only those need a ranking, and only when the keyword is
        looked up at all. */
    ghost predicate MatchedRanked(keyword: string, liveDepts: seq<Depart>, depts: map<string, Depart>,
                                  rank: map<string, nat>)
      reads this, deptNameTree
    {
      Searched(keyword) ==> RankedFrom(depts, rank, NameMatched(liveDepts, NameHits(keyword, liveDepts)))
    }

    /** The department targets `getTargetDepartments` promises for
        `keyword`, against the department-name tree as it now is. */
    ghost predicate DeptTargets(keyword: string, liveDepts: seq<Depart>, depts: map<string, Depart>,
                                rank: map<string, nat>, r: seq<Depart>)
      requires MatchedRanked(keyword, liveDepts, depts, rank)
      reads this, deptNameTree
    {
      if IsBlank(keyword) then r == liveDepts
      else if variant == Gated && !ContainsChinese(keyword) then r == []
      else
        && deptNameTree != null
        && var hits := Hits(locale, false, deptNameTree.corpus, Lower(locale.lower, keyword));
           if hits == {} then r == []
           else Distinct(r) && forall d :: d in r <==> d in TargetSet(depts, rank, NameMatched(liveDepts, hits))
    }

    /** The user targets `getTargetUsers` promises for `keyword`, against
        the uid and display-name trees as they now are. */
    ghost predicate UserTargets(keyword: string, users: seq<User>, r: seq<User>)
      reads this, uidTree, nameTree
    {
      if IsBlank(keyword) then r == Active(users)
      else
        && uidTree != null && nameTree != null
        && var q := Lower(locale.lower, keyword);
           var uidHits := Hits(locale, false, uidTree.corpus, q);
           var nameHits := Hits(locale, true, nameTree.corpus, q);
           r == if uidHits == {} && nameHits == {} then [] else MatchUsers(users, uidHits, nameHits)
    }

    /** `generateDeptNameFuzzySearchTrees`. */
    method GenerateDeptNameTree(liveDepts: seq<Depart>)
      requires Valid()
      modifies this
      ensures Valid()
      ensures deptNameTree != null && fresh(deptNameTree) && deptNameTree.corpus == Names(liveDepts)
      ensures fullTree == old(fullTree) && uidTree == old(uidTree) && nameTree == old(nameTree)
    {
      deptNameTree := new FuzzySearchTree(Names(liveDepts), false, locale);
    }

    /** `generateUserFuzzySearchTrees`: both user trees, from the staff with
        the selected status. */
    method GenerateUserTrees(users: seq<User>)
      requires Valid()
      modifies this
      ensures Valid()
      ensures uidTree != null && fresh(uidTree) && uidTree.corpus == Uids(Active(users))
      ensures nameTree != null && fresh(nameTree) && nameTree.corpus == DisplayNames(Active(users))
      ensures fullTree == old(fullTree) && deptNameTree == old(deptNameTree)
    {
      var active := Active(users);
      uidTree := new FuzzySearchTree(Uids(active), false, locale);
      nameTree := new FuzzySearchTree(DisplayNames(active), true, locale);
    }

    /** `getTargetUsers`. The user trees are built first if either is
        missing. */
    method TargetUsers(keyword: string, users: seq<User>) returns (r: seq<User>)
      requires Valid()
      modifies this
      ensures Valid() && UserTargets(keyword, users, r)
      ensures fullTree == old(fullTree) && deptNameTree == old(deptNameTree)
      ensures IsBlank(keyword) || (old(uidTree) != null && old(nameTree) != null) ==>
                uidTree == old(uidTree) && nameTree == old(nameTree)
      ensures !IsBlank(keyword) && (old(uidTree) == null || old(nameTree) == null) ==>
                && uidTree != null && uidTree.corpus == Uids(Active(users))
                && nameTree != null && nameTree.corpus == DisplayNames(Active(users))
    {
      if IsBlank(keyword) {
        return Active(users);
      }
      if uidTree == null || nameTree == null {
        GenerateUserTrees(users);
      }
      var targetUid := uidTree.Search(keyword);
      var targetName := nameTree.Search(keyword);
      if targetUid == {} && targetName == {} {
        return [];
      }
      r := MatchUsers(users, targetUid, targetName);
    }

    /** `getTargetDepartments`. The name tree is built first if missing
        (in DepartServiceImpl only once the keyword has passed
        `isContainChinese`). The codes that `getBmChildren` collects sit in
        a hash set, so the order in which their records follow the matched
        departments is not fixed. */
    method TargetDepartments(keyword: string, liveDepts: seq<Depart>, depts: map<string, Depart>,
                             ghost rank: map<string, nat>) returns (r: seq<Depart>)
      requires Valid() && MatchedRanked(keyword, liveDepts, depts, rank)
      modifies this
      ensures Valid() && MatchedRanked(keyword, liveDepts, depts, rank)
      ensures DeptTargets(keyword, liveDepts, depts, rank, r)
      ensures fullTree == old(fullTree) && uidTree == old(uidTree) && nameTree == old(nameTree)
      ensures old(deptNameTree) != null || !Searched(keyword) ==> deptNameTree == old(deptNameTree)
      ensures old(deptNameTree) == null && Searched(keyword) ==>
                deptNameTree != null && deptNameTree.corpus == Names(liveDepts)
    {
      if IsBlank(keyword) {
        return liveDepts;
      }
      if variant == Gated && !ContainsChinese(keyword) {
        return [];
      }
      if deptNameTree == null {
        GenerateDeptNameTree(liveDepts);
      }
      r := MatchDepartments(deptNameTree, keyword, liveDepts, depts, rank);
    }

    /** `getDeptMapFromCache` … `fuzzySearchTree`: a blank keyword answers
        the stored full tree. Any other keyword takes its department targets
        and builds their paths; only when that does not throw does it take
        its user targets and insert them. The ghost results name the
        targets. */
    method FuzzySearch(keyword: string, liveDepts: seq<Depart>, env: Env, users: seq<User>,
                       ghost rank: map<string, nat>)
      returns (answer: Answer, ghost targets: seq<Depart>, ghost found: seq<User>)
      requires Valid() && MatchedRanked(keyword, liveDepts, env.depts, rank)
      modifies this
      ensures Valid() && fullTree == old(fullTree)
      ensures IsBlank(keyword) ==> answer == old(fullTree)
      ensures !IsBlank(keyword) ==>
        && MatchedRanked(keyword, liveDepts, env.depts, rank)
        && DeptTargets(keyword, liveDepts, env.depts, rank, targets)
      ensures !IsBlank(keyword) && DeptPhase(env, targets, users).None? ==> answer == Crashed
      ensures !IsBlank(keyword) && DeptPhase(env, targets, users).Some? ==>
        && UserTargets(keyword, users, found)
        && answer == SearchTree(env, targets, users, found)
      ensures old(deptNameTree) != null || !Searched(keyword) ==> deptNameTree == old(deptNameTree)
      ensures old(deptNameTree) == null && Searched(keyword) ==>
                deptNameTree != null && deptNameTree.corpus == Names(liveDepts)
      ensures || IsBlank(keyword) || (old(uidTree) != null && old(nameTree) != null)
              || DeptPhase(env, targets, users).None? ==>
                uidTree == old(uidTree) && nameTree == old(nameTree)
      ensures && !IsBlank(keyword) && (old(uidTree) == null || old(nameTree) == null)
              && DeptPhase(env, targets, users).Some? ==>
                && uidTree != null && uidTree.corpus == Uids(Active(users))
                && nameTree != null && nameTree.corpus == DisplayNames(Active(users))
    {
      if IsBlank(keyword) {
        return fullTree, [], [];
      }
      answer, targets, found := KeywordSearch(keyword, liveDepts, env, users, rank);
    }

    /** The part of `fuzzySearchTree` after the blank-keyword check. */
    method KeywordSearch(keyword: string, liveDepts: seq<Depart>, env: Env, users: seq<User>,
                         ghost rank: map<string, nat>)
      returns (answer: Answer, ghost targets: seq<Depart>, ghost found: seq<User>)
      requires Valid() && !IsBlank(keyword) && MatchedRanked(keyword, liveDepts, env.depts, rank)
      modifies this
      ensures Valid() && fullTree == old(fullTree)
      ensures MatchedRanked(keyword, liveDepts, env.depts, rank)
      ensures DeptTargets(keyword, liveDepts, env.depts, rank, targets)
      ensures DeptPhase(env, targets, users).None? ==> answer == Crashed
      ensures DeptPhase(env, targets, users).Some? ==>
        && UserTargets(keyword, users, found)
        && answer == SearchTree(env, targets, users, found)
      ensures old(deptNameTree) != null || !Searched(keyword) ==> deptNameTree == old(deptNameTree)
      ensures old(deptNameTree) == null && Searched(keyword) ==>
                deptNameTree != null && deptNameTree.corpus == Names(liveDepts)
      ensures (old(uidTree) != null && old(nameTree) != null) || DeptPhase(env, targets, users).None? ==>
                uidTree == old(uidTree) && nameTree == old(nameTree)
      ensures (old(uidTree) == null || old(nameTree) == null) && DeptPhase(env, targets, users).Some? ==>
                && uidTree != null && uidTree.corpus == Uids(Active(users))
                && nameTree != null && nameTree.corpus == DisplayNames(Active(users))
    {
      var targetDepartments := TargetDepartments(keyword, liveDepts, env.depts, rank);
      targets := targetDepartments;
      var seeded := BuildDeptPhase(env, targetDepartments, users);
      if seeded.None? {
        return Crashed, targets, [];
      }
      var targetUsers := TargetUsers(keyword, users);
      found := targetUsers;
      answer := BuildUserPhase(env, seeded.value, targetUsers);
    }

    /** The tree-building part of `updateFuzzySearchTree`, then the three
        search trees rebuilt. `false` when `constructPath` throws, which
        leaves everything as it was. It never calls `getBmChildren`, so it
        needs no ranking. */
    method UpdateFuzzySearchTree(liveDepts: seq<Depart>, env: Env, users: seq<User>)
      returns (ok: bool)
      requires Valid()
      modifies this
      ensures Valid()
      ensures ok <==> FullTree(env, liveDepts, Active(users)) != Crashed
      ensures !ok ==> && fullTree == old(fullTree) && deptNameTree == old(deptNameTree)
                      && uidTree == old(uidTree) && nameTree == old(nameTree)
      ensures ok ==> && fullTree == FullTree(env, liveDepts, Active(users))
                     && deptNameTree != null && deptNameTree.corpus == Names(liveDepts)
                     && uidTree != null && uidTree.corpus == Uids(Active(users))
                     && nameTree != null && nameTree.corpus == DisplayNames(Active(users))
    {
      var targetDepartments := TargetDepartments([], liveDepts, env.depts, map[]);
      var targetUsers := TargetUsers([], users);
      var tree := BuildFullTree(env, targetDepartments, targetUsers);
      if tree == Crashed {
        return false;
      }
      fullTree := tree;
      GenerateDeptNameTree(liveDepts);
      GenerateUserTrees(users);
      ok := true;
    }
  }

  /** The lookup part of `getTargetDepartments`: search the name tree,
      take the live departments whose name is a hit, and merge in the
      records of the codes `getBmChildren` collects for them. */
  method MatchDepartments(tree: FuzzySearchTree, keyword: string, liveDepts: seq<Depart>,
                          depts: map<string, Depart>, ghost rank: map<string, nat>) returns (r: seq<Depart>)
    requires tree.Valid() && tree.Indexed()
    requires RankedFrom(depts, rank, NameMatched(liveDepts, Hits(tree.locale, tree.enablePinyin, tree.corpus, Lower(tree.locale.lower, keyword))))
    ensures var hits := Hits(tree.locale, tree.enablePinyin, tree.corpus, Lower(tree.locale.lower, keyword));
      if hits == {} then r == []
      else Distinct(r) && forall d :: d in r <==> d in TargetSet(depts, rank, NameMatched(liveDepts, hits))
  {
    var targetDeptName := tree.Search(keyword);
    if targetDeptName == {} {
      return [];
    }
    var matched := NameMatched(liveDepts, targetDeptName);
    var all := CollectChildren(matched, depts, rank);
    r := Merge(matched, all, depts);
    MergeIsTargetSet(matched, depts, rank, r);
  }

  /** A cycle of child lists that no matched department reaches asks for
      no ranking: `A` and `B` list each other, yet a search that matches
      only the leaf `D` collects just `D`. */
  lemma UnreachedCycleIgnored()
    ensures var depts := map["A" := Depart("A", "a", "", "B,C"), "B" := Depart("B", "b", "", "A,C"),
                             "D" := Depart("D", "d", "", "")];
      && RankedFrom(depts, map["D" := 0], [depts["D"]])
      && ChildCodes(depts, map["D" := 0], [depts["D"]]) == {"D"}
  {
  }

  lemma ChildCodesStep(depts: map<string, Depart>, rank: map<string, nat>, ds: seq<Depart>, n: nat)
    requires RankedFrom(depts, rank, ds)
    requires n < |ds|
    ensures ChildCodes(depts, rank, ds[..n + 1]) == ChildCodes(depts, rank, ds[..n]) + Expand(depts, rank, ds[n].code)
  {
    assert ds[..n + 1][..n] == ds[..n];
  }

  /** The `forEach` of `getTargetDepartments` that gathers what
      `getBmChildren` adds for each matched department. */
  method CollectChildren(matched: seq<Depart>, depts: map<string, Depart>, ghost rank: map<string, nat>)
    returns (all: set<string>)
    requires RankedFrom(depts, rank, matched)
    ensures all == ChildCodes(depts, rank, matched)
  {
    all := {};
    for n := 0 to |matched|
      invariant all == ChildCodes(depts, rank, matched[..n])
    {
      ChildCodesStep(depts, rank, matched, n);
      var children := GetBmChildren(matched[n].code, {}, depts, rank);
      all := all + children;
    }
    assert matched[..|matched|] == matched;
  }

  lemma MergeIsTargetSet(matched: seq<Depart>, depts: map<string, Depart>, rank: map<string, nat>, r: seq<Depart>)
    requires RankedFrom(depts, rank, matched)
    requires forall d :: d in r <==> d in matched || exists c | c in ChildCodes(depts, rank, matched) && c in depts :: depts[c] == d
    ensures forall d :: d in r <==> d in TargetSet(depts, rank, matched)
  {
  }

  /** The stream merge of `getTargetDepartments`: the matched departments,
      then the record of each collected code the map has, without
      repetitions. */
  method Merge(matched: seq<Depart>, codes: set<string>, depts: map<string, Depart>) returns (r: seq<Depart>)
    ensures Distinct(r)
    ensures forall d :: d in r <==> d in matched || exists c | c in codes && c in depts :: depts[c] == d
  {
    r := [];
    for n := 0 to |matched|
      invariant Distinct(r)
      invariant forall d :: d in r <==> d in matched[..n]
    {
      if matched[n] !in r {
        r := r + [matched[n]];
      }
    }
    assert matched[..|matched|] == matched;
    var rest := codes;
    while rest != {}
      invariant rest <= codes
      invariant Distinct(r)
      invariant forall d :: d in r <==> d in matched || exists c | c in codes - rest && c in depts :: depts[c] == d
      decreases |rest|
    {
      var c :| c in rest;
      rest := rest - {c};
      if c in depts && depts[c] !in r {
        r := r + [depts[c]];
      }
    }
  }
}
