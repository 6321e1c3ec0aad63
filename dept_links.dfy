/**
 * The two recursive walks over department records of DepartServiceImpl.java:
 * `getBmChildren`, which follows the comma-separated child lists downwards,
 * and `getParentNumList`, which follows parent codes upwards. Both add to a
 * set the caller supplies and neither keeps a visited set, so they terminate
 * only when the links they follow are acyclic; a ranking of the codes they
 * can reach is their precondition and their termination measure.
 *
 * The caller's set is passed in and the extended set handed back: the
 * source's callers create a fresh set for each call and only read it after.
 */
module DeptLinks {
  import opened Strings
  import opened DeptTree

  // ---------------------------------------------------------------------
  // getBmChildren.

  /** The child codes `getBmChildren` adds when it reads `raw`: every piece
      of `raw.split(",")` when it has a comma, otherwise `raw` itself. */
  function Listed(raw: string): (r: set<string>)
    ensures ',' !in raw ==> r == {raw}
    ensures ',' in raw ==> forall p :: p in r <==> p in Split(raw)
  {
    if ',' in raw then set p | p in Split(raw) else {raw}
  }

  /** Each department `c` the ranking covers lists, when its child list has a
      comma, only pieces that are either not departments or are ranked below
      `c`. The pieces of a list with no comma are never followed, so they
      need no rank. */
  ghost predicate Ranked(depts: map<string, Depart>, rank: map<string, nat>) {
    forall c | c in depts && c in rank && ',' in depts[c].children ::
      forall p | p in Split(depts[c].children) && p in depts :: p in rank && rank[p] < rank[c]
  }

  function Height(depts: map<string, Depart>, rank: map<string, nat>, code: string): nat {
    if code in depts && code in rank then rank[code] + 1 else 0
  }

  /** The codes `getBmChildren(code, …)` adds to its set. */
  function Expand(depts: map<string, Depart>, rank: map<string, nat>, code: string): (r: set<string>)
    requires Ranked(depts, rank)
    requires code in depts ==> code in rank
    ensures code in r
    ensures forall x | x in r && x != code :: Named(depts, x)
    decreases Height(depts, rank, code), 1, 0
  {
    if code in depts && depts[code].children != [] then
      var raw := depts[code].children;
      if ',' in raw then
        var ps := Split(raw);
        {code} + Listed(raw) + ExpandAll(depts, rank, code, ps)
      else {code, raw}
    else {code}
  }

  /** The expansions of the pieces `ps` of the child list of `parent`. */
  function ExpandAll(depts: map<string, Depart>, rank: map<string, nat>, parent: string, ps: seq<string>): (r: set<string>)
    requires Ranked(depts, rank)
    requires parent in depts && parent in rank && ',' in depts[parent].children
    requires forall p | p in ps :: p in Split(depts[parent].children)
    ensures forall x | x in r :: Named(depts, x)
    decreases Height(depts, rank, parent), 0, |ps|
  {
    if ps == [] then {}
    else
      var last := ps[|ps| - 1];
      assert last in Split(depts[parent].children);
      ExpandAll(depts, rank, parent, ps[..|ps| - 1]) + Expand(depts, rank, last)
  }

  /** `x` is listed in the child list of some department. */
  ghost predicate Named(depts: map<string, Depart>, x: string) {
    exists c | c in depts :: x in Listed(depts[c].children)
  }

  lemma {:induction false} ExpandAllCovers(depts: map<string, Depart>, rank: map<string, nat>, parent: string, ps: seq<string>, p: string)
    requires Ranked(depts, rank)
    requires parent in depts && parent in rank && ',' in depts[parent].children
    requires forall q | q in ps :: q in Split(depts[parent].children)
    requires p in ps
    ensures p in depts ==> p in rank
    ensures Expand(depts, rank, p) <= ExpandAll(depts, rank, parent, ps)
    decreases |ps|
  {
    var last := ps[|ps| - 1];
    if p != last {
      assert p in ps[..|ps| - 1];
      ExpandAllCovers(depts, rank, parent, ps[..|ps| - 1], p);
    }
  }

  /** A comma-separated list of children is taken apart with Java's
      `split(",")`, every piece is added, and every piece is expanded in
      turn. */
  lemma ExpandFollowsPieces(depts: map<string, Depart>, rank: map<string, nat>, code: string, p: string)
    requires Ranked(depts, rank)
    requires code in depts && code in rank
    requires ',' in depts[code].children && p in Split(depts[code].children)
    ensures p in depts ==> p in rank
    ensures p in Expand(depts, rank, code)
    ensures Expand(depts, rank, p) <= Expand(depts, rank, code)
  {
    ExpandAllCovers(depts, rank, code, Split(depts[code].children), p);
  }

  /** The quirk of `getBmChildren`: a child list with no comma adds that one
      child and stops, even when the child is a department with children of
      its own. */
  lemma SingleChildNotExpanded(depts: map<string, Depart>, rank: map<string, nat>, code: string)
    requires Ranked(depts, rank)
    requires code in depts && code in rank
    requires depts[code].children != [] && ',' !in depts[code].children
    ensures Expand(depts, rank, code) == {code, depts[code].children}
  {
  }

  /** A code that is not a department, or whose child list is empty, adds
      only itself. */
  lemma LeafAddsItself(depts: map<string, Depart>, rank: map<string, nat>, code: string)
    requires Ranked(depts, rank)
    requires code in depts ==> code in rank
    requires code !in depts || depts[code].children == []
    ensures Expand(depts, rank, code) == {code}
  {
  }

  /** One more piece of the child list of `parent`, expanded. */
  lemma ExpandAllStep(depts: map<string, Depart>, rank: map<string, nat>, parent: string, n: nat)
    requires Ranked(depts, rank)
    requires parent in depts && parent in rank && ',' in depts[parent].children
    requires n < |Split(depts[parent].children)|
    ensures var ps := Split(depts[parent].children);
      && (ps[n] in depts ==> ps[n] in rank && Height(depts, rank, ps[n]) < Height(depts, rank, parent))
      && ExpandAll(depts, rank, parent, ps[..n + 1]) == ExpandAll(depts, rank, parent, ps[..n]) + Expand(depts, rank, ps[n])
  {
    var ps := Split(depts[parent].children);
    assert ps[n] in ps;
    var qs := ps[..n + 1];
    assert qs[..|qs| - 1] == ps[..n] && qs[|qs| - 1] == ps[n];
    assert forall p | p in qs :: p in ps;
    assert ExpandAll(depts, rank, parent, qs) == ExpandAll(depts, rank, parent, ps[..n]) + Expand(depts, rank, ps[n]);
  }

  /** `getBmChildren`. */
  method GetBmChildren(deptNum: string, bmChildren: set<string>, departMap: map<string, Depart>, ghost rank: map<string, nat>)
    returns (r: set<string>)
    requires Ranked(departMap, rank)
    requires deptNum in departMap ==> deptNum in rank
    ensures r == bmChildren + Expand(departMap, rank, deptNum)
    decreases Height(departMap, rank, deptNum)
  {
    r := bmChildren;
    if deptNum in departMap {
      var raw := departMap[deptNum].children;
      if raw != [] {
        if ',' in raw {
          var strs := Split(raw);
          r := r + Listed(raw);
          for n := 0 to |strs|
            invariant r == bmChildren + Listed(raw) + ExpandAll(departMap, rank, deptNum, strs[..n])
          {
            ExpandAllStep(departMap, rank, deptNum, n);
            r := GetBmChildren(strs[n], r, departMap, rank);
          }
          assert strs[..|strs|] == strs;
          assert Expand(departMap, rank, deptNum) == {deptNum} + Listed(raw) + ExpandAll(departMap, rank, deptNum, strs);
        } else {
          r := r + {raw};
        }
      }
    }
    r := r + {deptNum};
  }

  // ---------------------------------------------------------------------
  // getParentNumList.

  /** Some record of `vos` has code `c`. */
  ghost predicate IsCode(vos: seq<Depart>, c: string) {
    exists j | 0 <= j < |vos| :: vos[j].code == c
  }

  /** The loop over the records looking for `code` has not stopped before
      position `i`: no earlier record with that code ended it (the code is
      "0" or the record's parent code is empty). */
  ghost predicate Unbroken(vos: seq<Depart>, code: string, i: nat) {
    forall l | 0 <= l < i && l < |vos| && vos[l].code == code :: code != "0" && vos[l].parent != []
  }

  /** Following a record's parent code to records with that code climbs the
      ranking, for every ranked record whose parent the walk follows: its
      code is not "0", its parent code is not empty, and the loop has not
      stopped at an earlier record with the same code. */
  ghost predicate ParentRanked(vos: seq<Depart>, rank: map<string, nat>) {
    forall j | 0 <= j < |vos| && vos[j].code in rank && vos[j].code != "0" && vos[j].parent != []
          && Unbroken(vos, vos[j].code, j) ::
      IsCode(vos, vos[j].parent) ==> vos[j].parent in rank && rank[vos[j].parent] < rank[vos[j].code]
  }

  ghost function Depth(vos: seq<Depart>, rank: map<string, nat>, code: string): nat {
    if IsCode(vos, code) && code in rank then rank[code] + 1 else 0
  }

  /** What `getParentNumList(vos, set, code)` adds to `set` from the loop
      position `i` on: for each record with that code, the code itself, then
      (unless the code is "0" or the parent code is empty, which ends the
      loop) everything added for the parent code. */
  function ParentNums(vos: seq<Depart>, rank: map<string, nat>, code: string, i: nat): (r: set<string>)
    requires ParentRanked(vos, rank)
    requires IsCode(vos, code) ==> code in rank
    requires i <= |vos| && Unbroken(vos, code, i)
    ensures forall x | x in r :: IsCode(vos, x)
    decreases Depth(vos, rank, code), |vos| - i
  {
    if i == |vos| then {}
    else if vos[i].code == code then
      if code == "0" || vos[i].parent == [] then {code}
      else {code} + ParentNums(vos, rank, vos[i].parent, 0) + ParentNums(vos, rank, code, i + 1)
    else ParentNums(vos, rank, code, i + 1)
  }

  /** `getParentNumList`: the loop over the records, recursing on the parent
      code of each record that has the current code. */
  method GetParentNumList(vos: seq<Depart>, seen: set<string>, deptNum: string, ghost rank: map<string, nat>)
    returns (r: set<string>)
    requires ParentRanked(vos, rank)
    requires IsCode(vos, deptNum) ==> deptNum in rank
    ensures r == seen + ParentNums(vos, rank, deptNum, 0)
    decreases Depth(vos, rank, deptNum)
  {
    r := seen;
    var i := 0;
    while i < |vos|
      invariant i <= |vos| && Unbroken(vos, deptNum, i)
      invariant r + ParentNums(vos, rank, deptNum, i) == seen + ParentNums(vos, rank, deptNum, 0)
    {
      if deptNum == vos[i].code {
        r := r + {deptNum};
        if deptNum == "0" || vos[i].parent == [] {
          break;
        }
        r := GetParentNumList(vos, r, vos[i].parent, rank);
      }
      i := i + 1;
    }
  }

  /** The code itself is in the result exactly when some record has it. */
  lemma {:induction false} ParentNumsHasCode(vos: seq<Depart>, rank: map<string, nat>, code: string, i: nat)
    requires ParentRanked(vos, rank)
    requires IsCode(vos, code) ==> code in rank
    requires i <= |vos| && Unbroken(vos, code, i)
    ensures code in ParentNums(vos, rank, code, i) <==> exists j | i <= j < |vos| :: vos[j].code == code
    decreases |vos| - i
  {
    if i < |vos| && vos[i].code != code {
      ParentNumsHasCode(vos, rank, code, i + 1);
      if exists j | i <= j < |vos| :: vos[j].code == code {
        var j :| i <= j < |vos| && vos[j].code == code;
        assert i + 1 <= j;
      }
    }
  }

  /** Records before the first one with the code change nothing. */
  lemma {:induction false} ParentNumsSkips(vos: seq<Depart>, rank: map<string, nat>, code: string, i: nat, j: nat)
    requires ParentRanked(vos, rank)
    requires IsCode(vos, code) ==> code in rank
    requires i <= j <= |vos| && Unbroken(vos, code, i)
    requires forall l | i <= l < j :: vos[l].code != code
    ensures ParentNums(vos, rank, code, i) == ParentNums(vos, rank, code, j)
    decreases j - i
  {
    if i < j {
      ParentNumsSkips(vos, rank, code, i + 1, j);
    }
  }

  /** The result is closed under the walk: for every code it holds, it
      holds everything the walk from that code adds. */
  lemma {:induction false} ParentNumsClosed(vos: seq<Depart>, rank: map<string, nat>, code: string, i: nat, x: string)
    requires ParentRanked(vos, rank)
    requires IsCode(vos, code) ==> code in rank
    requires i <= |vos| && Unbroken(vos, code, i)
    requires x in ParentNums(vos, rank, code, i) && x != code
    ensures IsCode(vos, x) && x in rank
    ensures ParentNums(vos, rank, x, 0) <= ParentNums(vos, rank, code, i)
    decreases Depth(vos, rank, code), |vos| - i
  {
    if vos[i].code == code {
      var parent := vos[i].parent;
      var up := ParentNums(vos, rank, parent, 0);
      if x in up && x != parent {
        ParentNumsClosed(vos, rank, parent, 0, x);
      } else if x !in up {
        ParentNumsClosed(vos, rank, code, i + 1, x);
      }
    } else {
      ParentNumsClosed(vos, rank, code, i + 1, x);
    }
  }

  /** The ancestor chain is complete: when a code `x` is in the result and
      the first record with that code has a parent code that the walk
      follows and that some record has, that parent code is in the result
      too. */
  lemma ParentNumsHasParents(vos: seq<Depart>, rank: map<string, nat>, code: string, x: string, j: nat)
    requires ParentRanked(vos, rank)
    requires IsCode(vos, code) ==> code in rank
    requires x in ParentNums(vos, rank, code, 0)
    requires j < |vos| && vos[j].code == x && forall l | 0 <= l < j :: vos[l].code != x
    requires x != "0" && vos[j].parent != [] && IsCode(vos, vos[j].parent)
    ensures vos[j].parent in ParentNums(vos, rank, code, 0)
  {
    if x != code {
      ParentNumsClosed(vos, rank, code, 0, x);
    }
    assert x in rank;
    ParentNumsSkips(vos, rank, x, 0, j);
    var parent := vos[j].parent;
    ParentNumsHasCode(vos, rank, parent, 0);
  }

  /** A record after the one that stops the loop is never reached, so it
      needs no rank: a code listed first with no parent and then with
      itself as parent yields just that code. */
  lemma StopIgnoresLaterRecords(a: Depart, b: Depart)
    requires a.code == "A" && a.parent == [] && b.code == "A" && b.parent == "A"
    ensures ParentRanked([a, b], map["A" := 0])
    ensures ParentNums([a, b], map["A" := 0], "A", 0) == {"A"}
  {
    var vos := [a, b];
    assert !Unbroken(vos, "A", 1) by { assert vos[0].code == "A" && vos[0].parent == []; }
  }
}
