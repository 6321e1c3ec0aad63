/**
 * Department-tree reconstruction (DepartServiceImpl.java; `constructPath`
 * and `insertUserIntoDeptTree` appear again, word for word, in
 * OrgTreeServiceImpl.java).
 *
 * The memo map of the source, department code to tree node, is the state.
 * Nodes are only ever reached through the memo, so a node's children are
 * recorded by code. `Construct` is the specification of `constructPath` on
 * values; the class `TreeBuild` carries out the same steps on a memo that
 * its methods update in place.
 */
module DeptTree {
  import opened Strings

  datatype Option<T> = None | Some(value: T)

  /** A department record (`AsDepart`): its code (bmdm), name (bmmc), parent
      code (sjbmdm) and the raw comma-separated list of child codes
      (bmChildren). */
  datatype Depart = Depart(code: string, name: string, parent: string, children: string)

  /** A staff record: uid, display name, department code, and whether its
      status is the one the queries select. */
  datatype User = User(uid: string, displayName: string, dept: string, active: bool)

  /** A `DepartTreeNode`: the department it was built from, its children by
      code in the order they were attached, and its users in order. */
  datatype Node = Node(dept: Depart, children: seq<string>, users: seq<User>)

  /** What `constructPath` reads: the department map and the two sentinel
      codes `ROOT_DEPARTMENT_NUM` and `NO_DEPT`, whose values are not part
      of this model. */
  datatype Env = Env(depts: map<string, Depart>, root: string, noDept: string)

  type Memo = map<string, Node>

  function Attach(m: Memo, parent: string, child: string): Memo
    requires parent in m
  {
    m[parent := m[parent].(children := m[parent].children + [child])]
  }

  /** That `code` enters the memo is what makes the measure drop. */
  lemma MeasureDrops(env: Env, memo: Memo, code: string, node: Node)
    requires code in env.depts && code !in memo
    ensures |env.depts.Keys - memo[code := node].Keys| < |env.depts.Keys - memo.Keys|
  {
    assert env.depts.Keys - memo[code := node].Keys == (env.depts.Keys - memo.Keys) - {code};
  }

  /** `constructPath` on values. `None` is the NullPointerException the
      source raises when a parent code is present in the department map but
      is `NO_DEPT`, so that no node is ever built for it. */
  function Construct(env: Env, memo: Memo, code: string): (r: Option<Memo>)
    decreases |env.depts.Keys - memo.Keys|
    ensures r.None? ==> env.noDept in env.depts
    ensures r.Some? ==> forall k | k in memo :: k in r.value
    ensures r.Some? ==> forall k | k in r.value :: k in memo || k in env.depts
    ensures r.Some? ==> (code in r.value <==> code in memo || (code != env.noDept && code in env.depts))
  {
    if code == env.noDept || code in memo || code !in env.depts then Some(memo)
    else
      var dept := env.depts[code];
      var m1 := memo[code := Node(dept, [], [])];
      if dept.code == env.root || dept.parent !in env.depts then Some(m1)
      else
        MeasureDrops(env, memo, code, Node(dept, [], []));
        var m2 := if dept.parent in m1 then Some(m1) else Construct(env, m1, dept.parent);
        if m2.None? || dept.parent !in m2.value then None
        else Some(Attach(m2.value, dept.parent, code))
  }

  lemma AttachKeeps(m: Memo, p: string, c: string)
    requires p in m
    ensures Attach(m, p, c).Keys == m.Keys
    ensures forall k | k in m :: Attach(m, p, c)[k].dept == m[k].dept && Attach(m, p, c)[k].users == m[k].users
  {
  }

  /** An entry already in the memo keeps its department and users. */
  lemma {:induction false} ConstructKeepsOld(env: Env, memo: Memo, code: string, k: string)
    requires Construct(env, memo, code).Some?
    requires k in memo
    ensures var r := Construct(env, memo, code).value;
      k in r && r[k].dept == memo[k].dept && r[k].users == memo[k].users
    decreases |env.depts.Keys - memo.Keys|
  {
    if code == env.noDept || code in memo || code !in env.depts {
    } else {
      var dept := env.depts[code];
      var m1 := memo[code := Node(dept, [], [])];
      if dept.code != env.root && dept.parent in env.depts {
        var parent := dept.parent;
        MeasureDrops(env, memo, code, Node(dept, [], []));
        var m2 := if parent in m1 then m1 else Construct(env, m1, parent).value;
        if parent !in m1 {
          ConstructKeepsOld(env, m1, parent, k);
        }
        AttachKeeps(m2, parent, code);
        assert Construct(env, memo, code) == Some(Attach(m2, parent, code));
      }
    }
  }

  /** `constructPath` never builds a node for `NO_DEPT`. */
  lemma {:induction false} ConstructSkipsNoDept(env: Env, memo: Memo, code: string)
    requires Construct(env, memo, code).Some?
    requires env.noDept !in memo
    ensures env.noDept !in Construct(env, memo, code).value
    decreases |env.depts.Keys - memo.Keys|
  {
    if code == env.noDept || code in memo || code !in env.depts {
    } else {
      var dept := env.depts[code];
      var m1 := memo[code := Node(dept, [], [])];
      if dept.code != env.root && dept.parent in env.depts {
        var parent := dept.parent;
        MeasureDrops(env, memo, code, Node(dept, [], []));
        var m2 := if parent in m1 then m1 else Construct(env, m1, parent).value;
        if parent !in m1 {
          ConstructSkipsNoDept(env, m1, parent);
        }
        AttachKeeps(m2, parent, code);
        assert Construct(env, memo, code) == Some(Attach(m2, parent, code));
      }
    }
  }

  /** Each entry created by `constructPath` is a node built from the
      department's record, with no users. */
  lemma {:induction false} ConstructBuildsFromRecords(env: Env, memo: Memo, code: string)
    requires Construct(env, memo, code).Some?
    ensures var r := Construct(env, memo, code).value;
      forall k | k in r && k !in memo :: k in env.depts && r[k].dept == env.depts[k] && r[k].users == []
    decreases |env.depts.Keys - memo.Keys|
  {
    if code == env.noDept || code in memo || code !in env.depts {
    } else {
      var dept := env.depts[code];
      var m1 := memo[code := Node(dept, [], [])];
      if dept.code != env.root && dept.parent in env.depts {
        var parent := dept.parent;
        MeasureDrops(env, memo, code, Node(dept, [], []));
        var m2 := if parent in m1 then m1 else Construct(env, m1, parent).value;
        if parent !in m1 {
          ConstructBuildsFromRecords(env, m1, parent);
          ConstructKeepsOld(env, m1, parent, code);
        }
        var r := Attach(m2, parent, code);
        assert Construct(env, memo, code) == Some(r);
        assert m2[code].dept == dept && m2[code].users == [];
      } else {
        assert Construct(env, memo, code) == Some(m1);
      }
    }
  }

  /** The code reached from `c` by following `n` parent links, stopping at
      a code with no record. */
  function Up(depts: map<string, Depart>, c: string, n: nat): string
    decreases n
  {
    if n == 0 || c !in depts then c else Up(depts, depts[c].parent, n - 1)
  }

  /** `k` lies on the chain of parent links from `c`. */
  ghost predicate OnChain(depts: map<string, Depart>, c: string, k: string) {
    exists n: nat :: Up(depts, c, n) == k
  }

  /** `constructPath` builds nothing but `code` and its chain of parents:
      every entry it creates is reached from `code` by parent links. */
  lemma {:induction false} ConstructOnlyChain(env: Env, memo: Memo, code: string)
    requires Construct(env, memo, code).Some?
    ensures forall k | k in Construct(env, memo, code).value && k !in memo ::
      OnChain(env.depts, code, k)
    decreases |env.depts.Keys - memo.Keys|
  {
    if code == env.noDept || code in memo || code !in env.depts {
    } else {
      var dept := env.depts[code];
      var m1 := memo[code := Node(dept, [], [])];
      var r := Construct(env, memo, code).value;
      if dept.code != env.root && dept.parent in env.depts {
        var parent := dept.parent;
        MeasureDrops(env, memo, code, Node(dept, [], []));
        var m2 := if parent in m1 then m1 else Construct(env, m1, parent).value;
        AttachKeeps(m2, parent, code);
        assert r == Attach(m2, parent, code);
        if parent !in m1 {
          ConstructOnlyChain(env, m1, parent);
        }
        forall k | k in r && k !in memo
          ensures OnChain(env.depts, code, k)
        {
          if k == code {
            assert Up(env.depts, code, 0) == k;
          } else {
            assert k in m2 && k !in m1;
            var n: nat :| Up(env.depts, parent, n) == k;
            assert Up(env.depts, code, n + 1) == k;
          }
        }
      } else {
        assert r == m1;
        forall k | k in r && k !in memo
          ensures OnChain(env.depts, code, k)
        {
          assert Up(env.depts, code, 0) == k;
        }
      }
    }
  }

  /** One `constructPath` call, summed up: old entries keep their users,
      new entries have none, are departments and lie on the parent chain
      of `code`, and `NO_DEPT` is never built. */
  lemma ConstructStep(env: Env, memo: Memo, code: string, k: string)
    requires Construct(env, memo, code).Some?
    ensures var m := Construct(env, memo, code).value;
      && (k in memo ==> k in m && m[k].users == memo[k].users)
      && (k in m && k !in memo ==> k in env.depts && m[k].users == [] && OnChain(env.depts, code, k))
      && (env.noDept !in memo ==> env.noDept !in m)
      && (code in m || code == env.noDept || code !in env.depts)
  {
    ConstructOnlyChain(env, memo, code);
    ConstructBuildsFromRecords(env, memo, code);
    if env.noDept !in memo {
      ConstructSkipsNoDept(env, memo, code);
    }
    if k in memo {
      ConstructKeepsOld(env, memo, code, k);
    }
  }

  /** The three cases in which `constructPath` leaves the memo as it is. */
  lemma ConstructNoOp(env: Env, memo: Memo, code: string)
    requires code == env.noDept || code in memo || code !in env.depts
    ensures Construct(env, memo, code) == Some(memo)
  {
  }

  /** Every child code names a node of the memo. */
  ghost predicate ChildrenKnown(m: Memo) {
    forall p, i | p in m && 0 <= i < |m[p].children| :: m[p].children[i] in m
  }

  /** No code occurs twice among all the children lists of the memo. */
  ghost predicate ChildrenUnique(m: Memo) {
    forall p, q, i, j | p in m && q in m && 0 <= i < |m[p].children| && 0 <= j < |m[q].children|
      && m[p].children[i] == m[q].children[j] :: p == q && i == j
  }

  /** `c` was attached under `p` by this pass: it was created in this pass,
      `p` is its recorded parent and is a department, and it is not the
      root department. */
  ghost predicate AttachedNow(env: Env, memo: Memo, p: string, c: string) {
    && c !in memo && c in env.depts
    && env.depts[c].parent == p && p in env.depts
    && env.depts[c].code != env.root
  }

  /** The attachment rules of one `constructPath` pass from `memo` to `r`:
      children lists only grow at their end; every child added is a node
      created in this pass, put under its own parent and never the root;
      and every node created in this pass that has a parent department (and
      is not the root) is put under it. */
  ghost predicate AttachRules(env: Env, memo: Memo, r: Memo) {
    && (forall p | p in memo :: p in r && memo[p].children <= r[p].children)
    && (forall p, i | p in r && (p in memo ==> |memo[p].children| <= i) && 0 <= i < |r[p].children| ::
          AttachedNow(env, memo, p, r[p].children[i]))
    && (forall k | k in r && k !in memo && k in env.depts && env.depts[k].code != env.root && env.depts[k].parent in env.depts ::
          env.depts[k].parent in r && k in r[env.depts[k].parent].children)
  }

  /** The attachment rules of `constructPath`: children lists only grow at
      their end; every child added is a node created in this pass, put under
      its own parent and never the root; every node created in this pass
      that has a parent department (and is not the root) is put under it;
      and no code ends up twice among the children. */
  lemma {:induction false} ConstructAttaches(env: Env, memo: Memo, code: string)
    requires ChildrenKnown(memo) && ChildrenUnique(memo)
    requires Construct(env, memo, code).Some?
    ensures var r := Construct(env, memo, code).value;
      ChildrenKnown(r) && ChildrenUnique(r) && AttachRules(env, memo, r)
    decreases |env.depts.Keys - memo.Keys|
  {
    if code == env.noDept || code in memo || code !in env.depts {
    } else {
      var dept := env.depts[code];
      var m1 := memo[code := Node(dept, [], [])];
      OneMoreNode(env, memo, code, dept);
      if dept.code == env.root || dept.parent !in env.depts {
      } else {
        var parent := dept.parent;
        MeasureDrops(env, memo, code, Node(dept, [], []));
        if parent in m1 {
          assert AttachRules(env, m1, m1);
          AttachNew(env, memo, code, m1, m1);
          assert Construct(env, memo, code) == Some(Attach(m1, parent, code));
        } else {
          var m2 := Construct(env, m1, parent).value;
          ConstructAttaches(env, m1, parent);
          AttachNew(env, memo, code, m1, m2);
          assert Construct(env, memo, code) == Some(Attach(m2, parent, code));
        }
      }
    }
  }

  /** Adding a fresh childless node keeps both children invariants. */
  lemma OneMoreNode(env: Env, memo: Memo, code: string, dept: Depart)
    requires ChildrenKnown(memo) && ChildrenUnique(memo) && code !in memo
    ensures ChildrenKnown(memo[code := Node(dept, [], [])])
    ensures ChildrenUnique(memo[code := Node(dept, [], [])])
  {
  }

  /** Before the last step of `constructPath`, the new node `code` is
      nobody's child yet. */
  lemma NotYetChild(env: Env, memo: Memo, code: string, m1: Memo, m2: Memo, p: string, i: nat)
    requires ChildrenKnown(memo) && code in env.depts && code !in memo
    requires m1 == memo[code := Node(env.depts[code], [], [])]
    requires AttachRules(env, m1, m2)
    requires p in m2 && i < |m2[p].children|
    ensures m2[p].children[i] != code
  {
    if p in m1 && i < |m1[p].children| {
      assert m1[p].children[i] == m2[p].children[i];
      if p != code {
        assert memo[p].children[i] in memo;
      }
    } else {
      assert AttachedNow(env, m1, p, m2[p].children[i]);
    }
  }

  /** The last step of `constructPath`: appending the new node `code` to its
      parent's children. */
  lemma AttachNew(env: Env, memo: Memo, code: string, m1: Memo, m2: Memo)
    requires ChildrenKnown(memo) && code in env.depts && code !in memo
    requires m1 == memo[code := Node(env.depts[code], [], [])]
    requires env.depts[code].code != env.root && env.depts[code].parent in env.depts
    requires env.depts[code].parent in m2
    requires ChildrenKnown(m2) && ChildrenUnique(m2) && AttachRules(env, m1, m2)
    ensures var r := Attach(m2, env.depts[code].parent, code);
      ChildrenKnown(r) && ChildrenUnique(r) && AttachRules(env, memo, r)
  {
    var parent := env.depts[code].parent;
    forall p, i | p in m2 && 0 <= i < |m2[p].children| ensures m2[p].children[i] != code {
      NotYetChild(env, memo, code, m1, m2, p, i);
    }
    AttachKeepsChildren(m2, parent, code);
    AttachKeepsRules(env, memo, code, m1, m2);
  }

  /** Appending a code that is a node but nobody's child keeps both
      children invariants. */
  lemma AttachKeepsChildren(m: Memo, parent: string, code: string)
    requires parent in m && code in m
    requires ChildrenKnown(m) && ChildrenUnique(m)
    requires forall p, i | p in m && 0 <= i < |m[p].children| :: m[p].children[i] != code
    ensures ChildrenKnown(Attach(m, parent, code)) && ChildrenUnique(Attach(m, parent, code))
  {
  }

  lemma AttachKeepsRules(env: Env, memo: Memo, code: string, m1: Memo, m2: Memo)
    requires code in env.depts && code !in memo
    requires m1 == memo[code := Node(env.depts[code], [], [])]
    requires env.depts[code].code != env.root && env.depts[code].parent in env.depts
    requires env.depts[code].parent in m2
    requires AttachRules(env, m1, m2)
    ensures AttachRules(env, memo, Attach(m2, env.depts[code].parent, code))
  {
    var parent := env.depts[code].parent;
    var r := Attach(m2, parent, code);
    forall p | p in memo ensures p in r && memo[p].children <= r[p].children {
      assert memo[p].children <= m1[p].children <= m2[p].children;
    }
    forall p, i | p in r && (p in memo ==> |memo[p].children| <= i) && 0 <= i < |r[p].children|
      ensures AttachedNow(env, memo, p, r[p].children[i])
    {
      if p == parent && i == |m2[p].children| {
      } else {
        assert r[p].children[i] == m2[p].children[i];
      }
    }
  }

  /** Under a department map keyed by each department's own code, the root
      is never attached under a parent. */
  lemma RootNeverAttached(env: Env, memo: Memo, code: string, p: string, i: nat)
    requires forall k | k in env.depts :: env.depts[k].code == k
    requires ChildrenKnown(memo) && ChildrenUnique(memo)
    requires Construct(env, memo, code).Some?
    requires var r := Construct(env, memo, code).value;
      p in r && (p in memo ==> |memo[p].children| <= i) && i < |r[p].children|
    ensures Construct(env, memo, code).value[p].children[i] != env.root
  {
    ConstructAttaches(env, memo, code);
  }

  /** A node whose parent is missing from the department map is built but
      stays parentless. */
  lemma OrphanStaysParentless(env: Env, memo: Memo, code: string, k: string)
    requires ChildrenKnown(memo) && ChildrenUnique(memo)
    requires Construct(env, memo, code).Some?
    requires k in Construct(env, memo, code).value && k !in memo
    requires env.depts[k].parent !in env.depts
    ensures forall p | p in Construct(env, memo, code).value :: k !in Construct(env, memo, code).value[p].children
  {
    ConstructAttaches(env, memo, code);
    var r := Construct(env, memo, code).value;
    forall p, i | p in r && 0 <= i < |r[p].children| ensures r[p].children[i] != k {
      if p in memo && i < |memo[p].children| {
        assert memo[p].children[i] == r[p].children[i];
        assert r[p].children[i] in memo;
      } else {
        assert AttachedNow(env, memo, p, r[p].children[i]);
      }
    }
  }

  /** Every node other than the root's record whose parent is a department
      hangs under its parent's node, so it is reached from there. */
  ghost predicate Linked(env: Env, m: Memo) {
    forall k | k in m && k in env.depts && env.depts[k].code != env.root && env.depts[k].parent in env.depts ::
      env.depts[k].parent in m && k in m[env.depts[k].parent].children
  }

  /** The invariant every tree-building pass keeps: nodes only for
      departments other than `NO_DEPT`, each built from its own record;
      every child code names a node, no code is listed as a child twice
      (a cycle of parent codes still yields a cycle of children), and every
      node is linked under its parent. */
  ghost predicate Sane(env: Env, m: Memo) {
    && (forall k | k in m :: k in env.depts)
    && env.noDept !in m
    && (forall k | k in m :: m[k].dept == env.depts[k])
    && ChildrenKnown(m) && ChildrenUnique(m)
    && Linked(env, m)
  }

  /** A target that is not listed under its parent, the root, makes the
      memo not sane: `T` has a node, but it is not among `R`'s children. */
  lemma UnlinkedIsNotSane()
    ensures var env := Env(map["R" := Depart("R", "r", "", ""), "T" := Depart("T", "t", "R", "")], "R", "N");
      !Sane(env, map["R" := Node(env.depts["R"], [], []), "T" := Node(env.depts["T"], [], [])])
  {
  }

  lemma ConstructSane(env: Env, memo: Memo, code: string)
    requires Sane(env, memo)
    requires Construct(env, memo, code).Some?
    ensures Sane(env, Construct(env, memo, code).value)
  {
    ConstructAttaches(env, memo, code);
    ConstructBuildsFromRecords(env, memo, code);
    ConstructSkipsNoDept(env, memo, code);
    var r := Construct(env, memo, code).value;
    forall k | k in memo ensures r[k].dept == env.depts[k] {
      ConstructKeepsOld(env, memo, code, k);
    }
    forall k | k in r && k in env.depts && env.depts[k].code != env.root && env.depts[k].parent in env.depts
      ensures env.depts[k].parent in r && k in r[env.depts[k].parent].children
    {
      var p := env.depts[k].parent;
      if k in memo {
        assert memo[p].children <= r[p].children;
        assert k in memo[p].children;
      }
    }
  }

  // ---------------------------------------------------------------------
  // Users.

  function AddUser(m: Memo, code: string, u: User): Memo
    requires code in m
  {
    m[code := m[code].(users := m[code].users + [u])]
  }

  /** `insertUserIntoDeptTree` on values: build the path for the user's
      department, then attach the user if a node exists for it. */
  function InsertUser(env: Env, memo: Memo, u: User): Option<Memo> {
    match Construct(env, memo, u.dept)
    case None => None
    case Some(m) => Some(if u.dept in m then AddUser(m, u.dept, u) else m)
  }

  /** `c` has a node, or can never get one: it is `NO_DEPT` or not a
      department. */
  ghost predicate Built(env: Env, m: Memo, c: string) {
    c in m || c == env.noDept || c !in env.depts
  }

  /** `u` is among the users of their department's node, or that node can
      never exist. */
  ghost predicate Placed(env: Env, m: Memo, u: User) {
    (u.dept in m && u in m[u.dept].users) || u.dept == env.noDept || u.dept !in env.depts
  }

  /** `constructPath(code)` builds `code`, and it undoes nothing: built codes
      stay built and placed users stay placed. */
  lemma ConstructKeeps(env: Env, memo: Memo, code: string, c: string, u: User)
    requires Construct(env, memo, code).Some?
    ensures Built(env, Construct(env, memo, code).value, code)
    ensures Built(env, memo, c) ==> Built(env, Construct(env, memo, code).value, c)
    ensures Placed(env, memo, u) ==> Placed(env, Construct(env, memo, code).value, u)
  {
    if u.dept in memo {
      ConstructKeepsOld(env, memo, code, u.dept);
    }
  }

  /** `insertUserIntoDeptTree` keeps the tree sane, places its user, and
      keeps every built code and placed user. */
  lemma InsertUserPlaces(env: Env, memo: Memo, u: User, c: string, v: User)
    requires Sane(env, memo)
    requires InsertUser(env, memo, u).Some?
    ensures Sane(env, InsertUser(env, memo, u).value)
    ensures Placed(env, InsertUser(env, memo, u).value, u)
    ensures Built(env, memo, c) ==> Built(env, InsertUser(env, memo, u).value, c)
    ensures Placed(env, memo, v) ==> Placed(env, InsertUser(env, memo, u).value, v)
  {
    ConstructSane(env, memo, u.dept);
    ConstructKeeps(env, memo, u.dept, c, v);
  }

  /** The user is dropped exactly when no node exists for their department
      once its path has been built. */
  lemma InsertUserDrops(env: Env, memo: Memo, u: User)
    requires InsertUser(env, memo, u).Some?
    ensures var r := InsertUser(env, memo, u).value;
      (u.dept in r && u in r[u.dept].users) <==> (u.dept in memo || (u.dept != env.noDept && u.dept in env.depts))
  {
  }

  /** Filtering on a department code, in order. */
  function UsersOf(us: seq<User>, code: string): (r: seq<User>)
    ensures forall u | u in r :: u in us && u.dept == code
    ensures forall u | u in us && u.dept == code :: u in r
  {
    if us == [] then []
    else UsersOf(us[..|us| - 1], code) + (if us[|us| - 1].dept == code then [us[|us| - 1]] else [])
  }

  /** The loop of `putUserInDepts` on values: each user goes to the node of
      their department if there is one; no node is created. */
  function PutUsers(m: Memo, us: seq<User>): Memo {
    if us == [] then m
    else
      var m' := PutUsers(m, us[..|us| - 1]);
      var u := us[|us| - 1];
      if u.dept in m' then AddUser(m', u.dept, u) else m'
  }

  /** `putUserInDepts` creates no node and changes no department or
      children; each node's users grow by the given users of its
      department, in order. */
  lemma {:induction false} PutUsersAppends(m: Memo, us: seq<User>, k: string)
    ensures k in PutUsers(m, us) <==> k in m
    ensures k in m ==> var r := PutUsers(m, us);
      && r[k].dept == m[k].dept && r[k].children == m[k].children
      && r[k].users == m[k].users + UsersOf(us, k)
    decreases |us|
  {
    if us != [] {
      var u := us[|us| - 1];
      PutUsersAppends(m, us[..|us| - 1], k);
      PutUsersAppends(m, us[..|us| - 1], u.dept);
    }
  }

  /** The staff query of `putUserInDepts`: users with the selected status
      whose department is one of the targets. */
  function UsersInDepts(users: seq<User>, targets: seq<Depart>): (r: seq<User>)
    ensures forall u | u in r :: u in users && u.active && exists t | t in targets :: t.code == u.dept
    ensures forall u | u in users && u.active && (exists t | t in targets :: t.code == u.dept) :: u in r
  {
    if users == [] then []
    else
      var u := users[|users| - 1];
      UsersInDepts(users[..|users| - 1], targets)
        + (if u.active && exists t | t in targets :: t.code == u.dept then [u] else [])
  }

  /** `putUserInDepts` keeps the tree sane, places every user it is given
      whose department has a node, and keeps every placed user. */
  lemma PutUsersPlaces(env: Env, m: Memo, us: seq<User>, c: string, v: User)
    requires Sane(env, m)
    ensures Sane(env, PutUsers(m, us))
    ensures Built(env, m, c) ==> Built(env, PutUsers(m, us), c)
    ensures Placed(env, m, v) ==> Placed(env, PutUsers(m, us), v)
    ensures v in us && Built(env, m, v.dept) ==> Placed(env, PutUsers(m, us), v)
  {
    var r := PutUsers(m, us);
    forall k ensures k in r <==> k in m {
      PutUsersAppends(m, us, k);
    }
    forall k | k in m
      ensures r[k].dept == m[k].dept && r[k].children == m[k].children && m[k].users <= r[k].users
    {
      PutUsersAppends(m, us, k);
    }
    PutUsersAppends(m, us, v.dept);
  }

  // ---------------------------------------------------------------------
  // Whole passes.

  /** `constructPath` on each code in turn; `None` as soon as one throws. */
  function ConstructAll(env: Env, memo: Memo, codes: seq<string>): Option<Memo>
    decreases |codes|
  {
    if codes == [] then Some(memo)
    else match Construct(env, memo, codes[0])
      case None => None
      case Some(m) => ConstructAll(env, m, codes[1..])
  }

  /** `insertUserIntoDeptTree` on each user in turn; `None` as soon as one
      throws. */
  function InsertUsers(env: Env, memo: Memo, us: seq<User>): Option<Memo>
    decreases |us|
  {
    if us == [] then Some(memo)
    else match InsertUser(env, memo, us[0])
      case None => None
      case Some(m) => InsertUsers(env, m, us[1..])
  }

  /** A pass of `constructPath` calls keeps the tree sane, builds every code
      it is given, and undoes nothing; it throws only when `NO_DEPT` is a
      department. */
  lemma {:induction false} ConstructAllPlaces(env: Env, memo: Memo, codes: seq<string>, c: string, v: User)
    requires Sane(env, memo)
    ensures ConstructAll(env, memo, codes).None? ==> env.noDept in env.depts
    ensures ConstructAll(env, memo, codes).Some? ==>
      var r := ConstructAll(env, memo, codes).value;
      && Sane(env, r)
      && ((c in codes || Built(env, memo, c)) ==> Built(env, r, c))
      && (Placed(env, memo, v) ==> Placed(env, r, v))
    decreases |codes|
  {
    if codes != [] {
      var o := Construct(env, memo, codes[0]);
      if o.Some? {
        ConstructSane(env, memo, codes[0]);
        ConstructKeeps(env, memo, codes[0], c, v);
        ConstructAllPlaces(env, o.value, codes[1..], c, v);
        if c in codes && c != codes[0] {
          assert c in codes[1..];
        }
      }
    }
  }

  /** A pass of `insertUserIntoDeptTree` calls keeps the tree sane, places
      every user it is given, and undoes nothing; it throws only when
      `NO_DEPT` is a department. */
  lemma {:induction false} InsertUsersPlaces(env: Env, memo: Memo, us: seq<User>, c: string, v: User)
    requires Sane(env, memo)
    ensures InsertUsers(env, memo, us).None? ==> env.noDept in env.depts
    ensures InsertUsers(env, memo, us).Some? ==>
      var r := InsertUsers(env, memo, us).value;
      && Sane(env, r)
      && (Built(env, memo, c) ==> Built(env, r, c))
      && ((v in us || Placed(env, memo, v)) ==> Placed(env, r, v))
    decreases |us|
  {
    if us != [] {
      var o := InsertUser(env, memo, us[0]);
      if o.Some? {
        InsertUserPlaces(env, memo, us[0], c, v);
        InsertUsersPlaces(env, o.value, us[1..], c, v);
        if v == us[0] {
          InsertUserPlaces(env, memo, us[0], c, us[0]);
          InsertUsersPlaces(env, o.value, us[1..], c, us[0]);
        } else if v in us {
          assert v in us[1..];
        }
      }
    }
  }

  /** A pass of `constructPath` calls creates only entries on the parent
      chains of its codes, gives them no users, leaves the users of the old
      entries alone, and never builds `NO_DEPT`. */
  lemma {:induction false} ConstructAllOnlyChains(env: Env, memo: Memo, codes: seq<string>)
    requires ConstructAll(env, memo, codes).Some?
    ensures var r := ConstructAll(env, memo, codes).value;
      && (forall k | k in memo :: k in r)
      && (forall k | k in r :: r[k].users == if k in memo then memo[k].users else [])
      && (forall k | k in r && k !in memo ::
            k in env.depts && exists i | 0 <= i < |codes| :: OnChain(env.depts, codes[i], k))
      && (env.noDept !in memo ==> env.noDept !in r)
    decreases |codes|
  {
    if codes != [] {
      var m := Construct(env, memo, codes[0]).value;
      ConstructAllOnlyChains(env, m, codes[1..]);
      ConstructStep(env, memo, codes[0], env.noDept);
      var r := ConstructAll(env, memo, codes).value;
      assert r == ConstructAll(env, m, codes[1..]).value;
      forall k | k in memo
        ensures k in r
      {
        ConstructStep(env, memo, codes[0], k);
      }
      forall k | k in r
        ensures r[k].users == if k in memo then memo[k].users else []
      {
        ConstructStep(env, memo, codes[0], k);
      }
      forall k | k in r && k !in memo
        ensures k in env.depts && exists i | 0 <= i < |codes| :: OnChain(env.depts, codes[i], k)
      {
        ConstructStep(env, memo, codes[0], k);
        if k in m {
          assert OnChain(env.depts, codes[0], k);
        } else {
          var i :| 0 <= i < |codes[1..]| && OnChain(env.depts, codes[1..][i], k);
          assert codes[1..][i] == codes[i + 1];
        }
      }
    }
  }

  lemma {:induction false} UsersOfAppend(a: seq<User>, b: seq<User>, k: string)
    ensures UsersOf(a + b, k) == UsersOf(a, k) + UsersOf(b, k)
    decreases |b|
  {
    if b == [] {
      assert a + b == a;
    } else {
      var b', x := b[..|b| - 1], b[|b| - 1];
      var ab := a + b;
      assert ab[..|ab| - 1] == a + b' && ab[|ab| - 1] == x;
      calc {
        UsersOf(ab, k);
        UsersOf(a + b', k) + (if x.dept == k then [x] else []);
        { UsersOfAppend(a, b', k); }
        UsersOf(a, k) + UsersOf(b', k) + (if x.dept == k then [x] else []);
        UsersOf(a, k) + UsersOf(b, k);
      }
    }
  }

  lemma {:induction false} UsersOfNone(us: seq<User>, k: string)
    requires forall u | u in us :: u.dept != k
    ensures UsersOf(us, k) == []
    decreases |us|
  {
    if us != [] {
      UsersOfNone(us[..|us| - 1], k);
    }
  }

  /** One `insertUserIntoDeptTree` call, summed up: as `ConstructStep`,
      and the user is appended to the node of their department, which
      exists unless it never can. */
  lemma InsertUserStep(env: Env, memo: Memo, u: User, k: string)
    requires InsertUser(env, memo, u).Some?
    requires env.noDept !in memo
    ensures var m := InsertUser(env, memo, u).value;
      && env.noDept !in m
      && (k in memo ==> k in m)
      && (k in m ==> m[k].users == (if k in memo then memo[k].users else []) + UsersOf([u], k))
      && (k in m && k !in memo ==> k in env.depts && OnChain(env.depts, u.dept, k))
      && (u.dept in m || u.dept == env.noDept || u.dept !in env.depts)
  {
    var c := Construct(env, memo, u.dept).value;
    ConstructStep(env, memo, u.dept, k);
    UsersOfOne(u, k);
    var m := if u.dept in c then AddUser(c, u.dept, u) else c;
    assert InsertUser(env, memo, u) == Some(m);
    if u.dept in c {
      assert m.Keys == c.Keys;
      if k == u.dept {
        assert m[k].users == c[k].users + [u];
      } else if k in m {
        assert m[k] == c[k];
      }
    }
  }

  lemma UsersOfCons(us: seq<User>, k: string)
    requires us != []
    ensures UsersOf(us, k) == UsersOf([us[0]], k) + UsersOf(us[1..], k)
  {
    UsersOfAppend([us[0]], us[1..], k);
    assert [us[0]] + us[1..] == us;
  }

  lemma UsersOfOne(u: User, k: string)
    ensures UsersOf([u], k) == if u.dept == k then [u] else []
  {
    assert [u][..0] == [];
  }

  /** A pass of `insertUserIntoDeptTree` calls creates only entries on the
      parent chains of its users' departments, and each node ends with the
      users it had, or none if it is new, followed by the pass's users of
      its department, in order; `NO_DEPT` is never built. */
  lemma {:induction false} InsertUsersAppends(env: Env, memo: Memo, us: seq<User>, k: string)
    requires InsertUsers(env, memo, us).Some?
    requires env.noDept !in memo
    ensures var r := InsertUsers(env, memo, us).value;
      && env.noDept !in r
      && (k in memo ==> k in r)
      && (k in r ==> r[k].users == (if k in memo then memo[k].users else []) + UsersOf(us, k))
      && (k in r && k !in memo ==>
            k in env.depts && exists i | 0 <= i < |us| :: OnChain(env.depts, us[i].dept, k))
    decreases |us|
  {
    if us != [] {
      var u := us[0];
      var m := InsertUser(env, memo, u).value;
      InsertUserStep(env, memo, u, k);
      InsertUsersAppends(env, m, us[1..], k);
      var r := InsertUsers(env, memo, us).value;
      assert r == InsertUsers(env, m, us[1..]).value;
      UsersOfCons(us, k);
      UsersOfOne(u, k);
      if k in r && k !in memo {
        if k in m {
          assert OnChain(env.depts, us[0].dept, k);
        } else {
          var i :| 0 <= i < |us[1..]| && OnChain(env.depts, us[1..][i].dept, k);
          assert us[1..][i] == us[i + 1];
        }
      }
    }
  }

  // ---------------------------------------------------------------------
  // The memo as mutable state.

  class TreeBuild {
    const env: Env
    var memo: Memo

    constructor (env: Env)
      ensures this.env == env && memo == map[]
    {
      this.env := env;
      memo := map[];
    }

    /** A tree build that goes on from the memo an earlier phase left. */
    constructor From(env: Env, memo: Memo)
      ensures this.env == env && this.memo == memo
    {
      this.env := env;
      this.memo := memo;
    }

    /** `constructPath`. Returns false when the source would throw. */
    method ConstructPath(code: string) returns (ok: bool)
      modifies this
      decreases |env.depts.Keys - memo.Keys|
      ensures ok <==> Construct(env, old(memo), code).Some?
      ensures ok ==> memo == Construct(env, old(memo), code).value
    {
      if code == env.noDept {
        return true;
      }
      if code !in memo {
        if code !in env.depts {
          return true;
        }
        var dept := env.depts[code];
        var node := Node(dept, [], []);
        MeasureDrops(env, memo, code, node);
        memo := memo[code := node];
        if dept.code == env.root {
          return true;
        }
        var parentCode := dept.parent;
        if parentCode in env.depts {
          if parentCode !in memo {
            ok := ConstructPath(parentCode);
            if !ok {
              return false;
            }
          }
          if parentCode !in memo {
            return false;
          }
          memo := Attach(memo, parentCode, code);
        }
      }
      return true;
    }

    /** The consumer returned by `insertUserIntoDeptTree`, applied to one user. */
    method InsertUserIntoDeptTree(u: User) returns (ok: bool)
      modifies this
      ensures ok <==> InsertUser(env, old(memo), u).Some?
      ensures ok ==> memo == InsertUser(env, old(memo), u).value
    {
      ok := ConstructPath(u.dept);
      if ok && u.dept in memo {
        memo := AddUser(memo, u.dept, u);
      }
    }

    /** `putUserInDepts`: the staff of the target departments, taken from
        `users`, go to their department's node when there is one. */
    method PutUserInDepts(targets: seq<Depart>, users: seq<User>)
      modifies this
      ensures memo == PutUsers(old(memo), UsersInDepts(users, targets))
    {
      var found := UsersInDepts(users, targets);
      for i := 0 to |found|
        invariant memo == PutUsers(old(memo), found[..i])
      {
        assert found[..i + 1][..i] == found[..i];
        var u := found[i];
        if u.dept in memo {
          memo := AddUser(memo, u.dept, u);
        }
      }
      assert found[..|found|] == found;
    }
  }
}
