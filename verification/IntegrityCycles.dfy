/** The independent cycle inspection of a revision database: an iterative three-colour depth-first
    search (src/weave_frontend/database_integrity.py). */
module IntegrityCycles {
  import opened Prelude
  import opened Graphs
  import Kahn
  import RevisionDag

  datatype Color = Gray | Black

  // The search state. An absent colour is white.
  datatype Dfs = Dfs(
    color: map<Rev, Color>, stack: seq<(Rev, nat)>, path: seq<Rev>, positions: map<Rev, nat>, reported: set<set<Rev>>)

  function SetOf(p: seq<Rev>): set<Rev> {
    set r | r in p
  }

  /** The set holds exactly the revisions of a real directed cycle that visits each of them once. */
  ghost predicate CycleSet(g: Graph, c: set<Rev>) {
    exists p, r ::
      && IsPath(g, p, r, r) && |p| > 1 && c == SetOf(p[..|p| - 1])
      && forall i, j :: 0 <= i < j < |p| - 1 ==> p[i] != p[j]
  }

  ghost predicate IsColor(s: Dfs, r: Rev, c: Color) {
    r in s.color && s.color[r] == c
  }

  /** The gray revisions are the path, each recorded at its position. */
  ghost predicate PathKept(s: Dfs) {
    && (forall i :: 0 <= i < |s.path| ==> s.path[i] in s.positions && s.positions[s.path[i]] == i)
    && (forall r :: r in s.positions ==> s.positions[r] < |s.path| && s.path[s.positions[r]] == r)
    && (forall r :: IsColor(s, r, Gray) <==> r in s.path)
  }

  /** The stack follows the path, possibly with one white revision on top. */
  ghost predicate StackKept(g: Graph, s: Dfs) {
    && |s.path| <= |s.stack| <= |s.path| + 1
    && (forall i :: 0 <= i < |s.path| ==> s.stack[i].0 == s.path[i])
    && (|s.stack| == |s.path| + 1 ==> s.stack[|s.path|].0 !in s.color && s.stack[|s.path|].1 == 0)
    && (forall i :: 0 <= i < |s.stack| ==> s.stack[i].1 <= |ParentsIn(g, s.stack[i].0)|)
    && (forall i :: 0 <= i < |s.stack| - 1 ==> Link(g, s.stack[i], s.stack[i + 1].0))
  }

  // The last parent taken at this stack entry is `next`.
  ghost predicate Link(g: Graph, entry: (Rev, nat), next: Rev) {
    var ps := ParentsIn(g, entry.0);
    0 < entry.1 <= |ps| && ps[entry.1 - 1] == next
  }

  /** While nothing is reported, every parent already taken is finished, except the one on the stack. */
  ghost predicate Taken(g: Graph, s: Dfs) {
    s.reported == {} ==>
    forall i, k :: 0 <= i < |s.stack| && 0 <= k < s.stack[i].1 && k < |ParentsIn(g, s.stack[i].0)| ==>
      || IsColor(s, ParentsIn(g, s.stack[i].0)[k], Black)
      || (i + 1 < |s.stack| && k == s.stack[i].1 - 1)
  }

  /** Finished revisions are numbered in finishing order; while nothing is reported, parents finish
      before their children. */
  ghost predicate Finished(g: Graph, s: Dfs, finish: map<Rev, nat>) {
    && (forall r :: r in finish <==> IsColor(s, r, Black))
    && (forall r :: r in finish ==> finish[r] < |finish|)
    && (s.reported == {} ==> forall r, p :: r in finish && Edge(g, r, p) ==> p in finish && finish[p] < finish[r])
  }

  ghost predicate Reported(g: Graph, s: Dfs) {
    forall c :: c in s.reported ==> CycleSet(g, c)
  }

  ghost predicate Tidy(g: Graph, s: Dfs, finish: map<Rev, nat>) {
    PathKept(s) && StackKept(g, s) && Taken(g, s) && Finished(g, s, finish) && Reported(g, s)
  }

  // ----- termination

  ghost function Universe(g: Graph): set<Rev> {
    g.Keys + (set a, b | a in g && b in g[a] :: b)
  }

  /** White revisions that are not on the stack. */
  ghost function Unmet(g: Graph, s: Dfs): set<Rev> {
    set r | r in Universe(g) && r !in s.color && forall i :: 0 <= i < |s.stack| ==> s.stack[i].0 != r
  }

  ghost function Work(g: Graph, stack: seq<(Rev, nat)>): nat {
    if stack == [] then 0
    else
      var (r, k) := stack[|stack| - 1];
      Work(g, stack[..|stack| - 1]) + 1 + (if k <= |ParentsIn(g, r)| then |ParentsIn(g, r)| - k else 0)
  }

  // ----- the moves of one turn

  function Enter(s: Dfs): Dfs
    requires s.stack != []
  {
    var node := s.stack[|s.stack| - 1].0;
    s.(color := s.color[node := Gray], positions := s.positions[node := |s.path|], path := s.path + [node])
  }

  lemma EnterPath(g: Graph, s: Dfs)
    requires PathKept(s) && StackKept(g, s) && s.stack != [] && s.stack[|s.stack| - 1].0 !in s.color
    ensures |s.stack| == |s.path| + 1
    ensures PathKept(Enter(s))
  {
    var t, node := Enter(s), s.stack[|s.stack| - 1].0;
    assert forall r :: r in s.path ==> IsColor(s, r, Gray);
    assert node !in s.path;
    assert s.path != [] ==> s.path[|s.path| - 1] in s.path;
    forall r ensures IsColor(t, r, Gray) <==> r in t.path {
      assert r != node ==> (IsColor(t, r, Gray) <==> IsColor(s, r, Gray));
    }
  }

  lemma EnterStack(g: Graph, s: Dfs)
    requires StackKept(g, s) && s.stack != [] && |s.stack| == |s.path| + 1
    ensures StackKept(g, Enter(s)) && |Enter(s).path| == |Enter(s).stack|
  {
  }

  lemma EnterColors(g: Graph, s: Dfs, finish: map<Rev, nat>)
    requires Taken(g, s) && Finished(g, s, finish) && s.stack != [] && s.stack[|s.stack| - 1].0 !in s.color
    ensures Taken(g, Enter(s)) && Finished(g, Enter(s), finish)
    ensures Unmet(g, Enter(s)) == Unmet(g, s)
  {
    var t := Enter(s);
    assert forall r :: IsColor(t, r, Black) <==> IsColor(s, r, Black);
    hide IsColor;
  }

  /** Colouring the white top of the stack. */
  lemma EnterKeeps(g: Graph, s: Dfs, finish: map<Rev, nat>)
    requires Tidy(g, s, finish) && s.stack != [] && s.stack[|s.stack| - 1].0 !in s.color
    ensures Tidy(g, Enter(s), finish) && |Enter(s).path| == |Enter(s).stack|
    ensures Unmet(g, Enter(s)) == Unmet(g, s)
  {
    EnterPath(g, s);
    EnterStack(g, s);
    EnterColors(g, s, finish);
    hide PathKept;
    hide StackKept;
    hide Taken;
    hide Finished;
  }

  function Leave(s: Dfs): Dfs
    requires s.stack != [] && s.path != []
  {
    var node := s.stack[|s.stack| - 1].0;
    s.(stack := s.stack[..|s.stack| - 1], color := s.color[node := Black], positions := s.positions - {node},
       path := s.path[..|s.path| - 1])
  }

  ghost predicate Exhausted(g: Graph, s: Dfs) {
    && s.stack != [] && |s.path| == |s.stack|
    && s.stack[|s.stack| - 1].1 >= |ParentsIn(g, s.stack[|s.stack| - 1].0)|
  }

  // Only the revision that is left changes its color.
  lemma LeaveColors(g: Graph, s: Dfs)
    requires Exhausted(g, s)
    ensures var t, node := Leave(s), s.stack[|s.stack| - 1].0;
      && IsColor(t, node, Black) && !IsColor(t, node, Gray)
      && (forall r, c :: r != node ==> (IsColor(t, r, c) <==> IsColor(s, r, c)))
      && t.reported == s.reported
  {
  }

  lemma LeavePath(g: Graph, s: Dfs)
    requires PathKept(s) && StackKept(g, s) && Exhausted(g, s)
    ensures PathKept(Leave(s)) && s.path[|s.path| - 1] == s.stack[|s.stack| - 1].0
  {
    var t, n := Leave(s), |s.path| - 1;
    var node := s.path[n];
    LeaveColors(g, s);
    hide IsColor;
    assert forall i :: 0 <= i < n ==> s.path[i] != node;
    assert s.path == t.path + [node];
    forall r ensures IsColor(t, r, Gray) <==> r in t.path {
    }
  }

  lemma LeaveStack(g: Graph, s: Dfs)
    requires StackKept(g, s) && Exhausted(g, s)
    ensures StackKept(g, Leave(s))
  {
  }

  lemma LeaveTaken(g: Graph, s: Dfs)
    requires Taken(g, s) && StackKept(g, s) && Exhausted(g, s)
    ensures Taken(g, Leave(s))
  {
    var t, n := Leave(s), |s.stack| - 1;
    if s.reported == {} {
      forall i, k | 0 <= i < n && 0 <= k < t.stack[i].1 && k < |ParentsIn(g, t.stack[i].0)|
        ensures IsColor(t, ParentsIn(g, t.stack[i].0)[k], Black) || (i + 1 < n && k == t.stack[i].1 - 1)
      {
        assert t.stack[i] == s.stack[i];
        assert IsColor(s, ParentsIn(g, s.stack[i].0)[k], Black) || k == s.stack[i].1 - 1;
        if i + 1 == n && k == s.stack[i].1 - 1 {
          assert Link(g, s.stack[i], s.stack[i + 1].0);
        }
      }
    }
  }

  lemma LeaveFinished(g: Graph, s: Dfs, finish: map<Rev, nat>)
    requires Taken(g, s) && Finished(g, s, finish) && StackKept(g, s) && Exhausted(g, s)
    requires IsColor(s, s.stack[|s.stack| - 1].0, Gray)
    ensures Finished(g, Leave(s), finish[s.stack[|s.stack| - 1].0 := |finish|])
  {
    var n := |s.stack| - 1;
    var node := s.stack[n].0;
    assert node !in finish;
    LeaveColors(g, s);
    forall p | s.reported == {} && Edge(g, node, p) ensures p in finish {
      var ps := ParentsIn(g, node);
      var k :| 0 <= k < |ps| && ps[k] == p;
      assert IsColor(s, p, Black);
    }
    hide *;
    FinishOne(g, s, Leave(s), node, finish);
  }

  lemma FinishOne(g: Graph, s: Dfs, t: Dfs, node: Rev, finish: map<Rev, nat>)
    requires Finished(g, s, finish) && node !in finish && t.reported == s.reported
    requires IsColor(t, node, Black) && forall r, c :: r != node ==> (IsColor(t, r, c) <==> IsColor(s, r, c))
    requires s.reported == {} ==> forall p :: Edge(g, node, p) ==> p in finish
    ensures Finished(g, t, finish[node := |finish|])
  {
    hide IsColor;
    hide Edge;
    var later := finish[node := |finish|];
    assert |later| == |finish| + 1;
    assert forall r :: r in later <==> IsColor(t, r, Black);
  }

  /** Blackening a revision whose parents are all taken. */
  lemma LeaveKeeps(g: Graph, s: Dfs, finish: map<Rev, nat>)
    requires Tidy(g, s, finish) && Exhausted(g, s)
    ensures Tidy(g, Leave(s), finish[s.stack[|s.stack| - 1].0 := |finish|])
  {
    assert IsColor(s, s.path[|s.path| - 1], Gray) && s.path[|s.path| - 1] == s.stack[|s.stack| - 1].0;
    LeavePath(g, s);
    LeaveStack(g, s);
    LeaveTaken(g, s);
    LeaveFinished(g, s, finish);
    hide PathKept;
    hide StackKept;
    hide Taken;
    hide Finished;
  }

  // Takes the next parent of the top of the stack.
  function Advance(s: Dfs): Dfs
    requires s.stack != []
  {
    var n := |s.stack| - 1;
    s.(stack := s.stack[n := (s.stack[n].0, s.stack[n].1 + 1)])
  }

  ghost predicate CanAdvance(g: Graph, s: Dfs, parent: Rev) {
    && s.stack != [] && |s.path| == |s.stack|
    && var (node, k) := s.stack[|s.stack| - 1];
       k < |ParentsIn(g, node)| && ParentsIn(g, node)[k] == parent
  }

  /** Descending into a white parent. */
  lemma PushKeeps(g: Graph, s: Dfs, finish: map<Rev, nat>, parent: Rev)
    requires Tidy(g, s, finish) && CanAdvance(g, s, parent) && parent !in s.color
    ensures var a := Advance(s); Tidy(g, a.(stack := a.stack + [(parent, 0)]), finish)
  {
    var a := Advance(s);
    var t := a.(stack := a.stack + [(parent, 0)]);
    PushStack(g, s, parent);
    PushTaken(g, s, parent);
    assert PathKept(t);
    assert Finished(g, t, finish);
    hide PathKept;
    hide StackKept;
    hide Taken;
    hide Finished;
  }

  lemma PushStack(g: Graph, s: Dfs, parent: Rev)
    requires StackKept(g, s) && CanAdvance(g, s, parent) && parent !in s.color
    ensures var a := Advance(s); StackKept(g, a.(stack := a.stack + [(parent, 0)]))
  {
    var a, n := Advance(s), |s.stack| - 1;
    var t := a.(stack := a.stack + [(parent, 0)]);
    forall i | 0 <= i < |t.stack| - 1 ensures Link(g, t.stack[i], t.stack[i + 1].0) {
      if i + 1 < n {
        assert Link(g, s.stack[i], s.stack[i + 1].0);
      } else if i + 1 == n {
        assert Link(g, s.stack[i], s.stack[n].0);
      }
    }
  }

  lemma PushTaken(g: Graph, s: Dfs, parent: Rev)
    requires Taken(g, s) && CanAdvance(g, s, parent)
    ensures var a := Advance(s); Taken(g, a.(stack := a.stack + [(parent, 0)]))
  {
  }

  /** Passing over a parent that is finished, or that closes a cycle just reported. */
  lemma PassKeeps(g: Graph, s: Dfs, finish: map<Rev, nat>, parent: Rev, reported: set<set<Rev>>)
    requires Tidy(g, s, finish) && CanAdvance(g, s, parent)
    requires s.reported <= reported && forall c :: c in reported ==> CycleSet(g, c)
    requires IsColor(s, parent, Black) || reported != {}
    ensures Tidy(g, Advance(s).(reported := reported), finish)
  {
    hide PathKept;
    hide StackKept;
    hide Taken;
    hide Finished;
    PassColors(g, s, finish, parent, reported);
    PassStack(g, s, parent, reported);
  }

  lemma PassColors(g: Graph, s: Dfs, finish: map<Rev, nat>, parent: Rev, reported: set<set<Rev>>)
    requires CanAdvance(g, s, parent) && s.reported <= reported
    requires IsColor(s, parent, Black) || reported != {}
    ensures var t := Advance(s).(reported := reported);
      && (PathKept(s) ==> PathKept(t)) && (Finished(g, s, finish) ==> Finished(g, t, finish)) && (Taken(g, s) ==> Taken(g, t))
  {
  }

  lemma PassStack(g: Graph, s: Dfs, parent: Rev, reported: set<set<Rev>>)
    requires CanAdvance(g, s, parent) && StackKept(g, s)
    ensures StackKept(g, Advance(s).(reported := reported))
  {
    var t := Advance(s).(reported := reported);
    forall i | 0 <= i < |t.stack| - 1 ensures Link(g, t.stack[i], t.stack[i + 1].0) {
      assert Link(g, s.stack[i], s.stack[i + 1].0);
    }
  }

  /** A gray parent closes a cycle made of the path from it on. */
  lemma GrayClosesCycle(g: Graph, s: Dfs, parent: Rev)
    requires PathKept(s) && StackKept(g, s) && CanAdvance(g, s, parent) && IsColor(s, parent, Gray)
    ensures parent in s.positions && CycleSet(g, SetOf(s.path[s.positions[parent]..]))
  {
    var n := |s.path| - 1;
    var k := s.positions[parent];
    var q := s.path[k..] + [parent];
    forall i | 0 <= i < |q| - 1 ensures Edge(g, q[i], q[i + 1]) {
      if i < |q| - 2 {
        assert q[i] == s.stack[k + i].0 && q[i + 1] == s.stack[k + i + 1].0;
        assert Link(g, s.stack[k + i], s.stack[k + i + 1].0);
      } else {
        assert q[i] == s.stack[n].0;
      }
    }
    assert q[..|q| - 1] == s.path[k..];
    assert IsPath(g, q, parent, parent);
    forall i, j | 0 <= i < j < |q| - 1 ensures q[i] != q[j] {
      assert s.positions[s.path[k + i]] == k + i && s.positions[s.path[k + j]] == k + j;
    }
  }

  // ----- measures

  ghost predicate Smaller2(g: Graph, t: Dfs, s: Dfs) {
    || |Unmet(g, t)| < |Unmet(g, s)|
    || (|Unmet(g, t)| == |Unmet(g, s)| && Work(g, t.stack) < Work(g, s.stack))
  }

  lemma LeaveShrinks(g: Graph, s: Dfs)
    requires s.stack != [] && s.path != [] && s.stack[|s.stack| - 1].0 in s.color
    ensures Unmet(g, Leave(s)) == Unmet(g, s) && Work(g, Leave(s).stack) < Work(g, s.stack)
  {
    var t, n := Leave(s), |s.stack| - 1;
    forall r | r in Universe(g) ensures r in Unmet(g, t) <==> r in Unmet(g, s) {
      if forall i :: 0 <= i < n ==> t.stack[i].0 != r {
        assert r != s.stack[n].0 ==> forall i :: 0 <= i < |s.stack| ==> s.stack[i].0 != r;
      }
    }
  }

  lemma AdvanceShrinks(g: Graph, s: Dfs, parent: Rev)
    requires CanAdvance(g, s, parent)
    ensures Unmet(g, Advance(s)) == Unmet(g, s) && Work(g, Advance(s).stack) < Work(g, s.stack)
  {
    var t, n := Advance(s), |s.stack| - 1;
    assert t.stack[..n] == s.stack[..n];
    forall r | r in Universe(g) ensures r in Unmet(g, t) <==> r in Unmet(g, s) {
      assert forall i :: 0 <= i < |s.stack| ==> t.stack[i].0 == s.stack[i].0;
    }
  }

  lemma PushShrinks(g: Graph, s: Dfs, parent: Rev)
    requires CanAdvance(g, s, parent) && parent !in s.color
    requires forall i :: 0 <= i < |s.stack| ==> s.stack[i].0 in s.color
    ensures var a := Advance(s); |Unmet(g, a.(stack := a.stack + [(parent, 0)]))| < |Unmet(g, s)|
  {
    var a := Advance(s);
    var t := a.(stack := a.stack + [(parent, 0)]);
    var (node, k) := s.stack[|s.stack| - 1];
    AdvanceShrinks(g, s, parent);
    assert node in g && parent in g[node];
    assert parent in Universe(g);
    assert parent in Unmet(g, s);
    assert t.stack[|s.stack|].0 == parent && parent !in Unmet(g, t);
    forall r | r in Unmet(g, t) ensures r in Unmet(g, a) {
      assert forall i :: 0 <= i < |a.stack| ==> a.stack[i].0 == t.stack[i].0;
    }
    Smaller(Unmet(g, t), Unmet(g, s));
  }

  // ----- the search

  /** One turn of the loop over the stack. */
  method Turn(g: Graph, s0: Dfs, ghost finish0: map<Rev, nat>) returns (s: Dfs, ghost finish: map<Rev, nat>)
    requires Tidy(g, s0, finish0) && s0.stack != []
    ensures Tidy(g, s, finish) && Smaller2(g, s, s0)
    ensures s0.color.Keys <= s.color.Keys
    ensures s0.stack[|s0.stack| - 1].0 in s.color
  {
    s, finish := s0, finish0;
    if s.stack[|s.stack| - 1].0 !in s.color {
      EnterKeeps(g, s, finish);
      s := Enter(s);
    }
    Entered(g, s, finish);
    hide Tidy;
    s, finish := TakeParent(g, s, finish);
  }

  // The rest of the turn: leave the top of the stack, or take its next parent.
  method TakeParent(g: Graph, s0: Dfs, ghost finish0: map<Rev, nat>) returns (s: Dfs, ghost finish: map<Rev, nat>)
    requires Tidy(g, s0, finish0) && s0.stack != [] && |s0.path| == |s0.stack|
    requires forall i :: 0 <= i < |s0.stack| ==> s0.stack[i].0 in s0.color
    ensures Tidy(g, s, finish) && Smaller2(g, s, s0)
    ensures s0.color.Keys <= s.color.Keys
  {
    hide Tidy;
    hide Unmet;
    hide Work;
    var (node, index) := s0.stack[|s0.stack| - 1];
    var parents := ParentsIn(g, node);
    if index >= |parents| {
      LeaveKeeps(g, s0, finish0);
      LeaveShrinks(g, s0);
      return Leave(s0), finish0[node := |finish0|];
    }
    finish := finish0;
    s := FollowParent(g, s0, finish, parents[index]);
  }

  method FollowParent(g: Graph, s: Dfs, ghost finish: map<Rev, nat>, parent: Rev) returns (t: Dfs)
    requires Tidy(g, s, finish) && CanAdvance(g, s, parent)
    requires forall i :: 0 <= i < |s.stack| ==> s.stack[i].0 in s.color
    ensures Tidy(g, t, finish) && Smaller2(g, t, s) && t.color == s.color
  {
    hide Tidy;
    hide Unmet;
    hide Work;
    hide CycleSet;
    var next := Advance(s);
    AdvanceShrinks(g, s, parent);
    if parent !in s.color {
      PushKeeps(g, s, finish, parent);
      PushShrinks(g, s, parent);
      t := next.(stack := next.stack + [(parent, 0)]);
    } else if s.color[parent].Gray? {
      CycleAt(g, s, finish, parent);
      var cycle := SetOf(s.path[s.positions[parent]..]);
      PassKeeps(g, s, finish, parent, s.reported + {cycle});
      SameMeasure(g, next, s.reported + {cycle});
      t := next.(reported := next.reported + {cycle});
    } else {
      ReportedKept(g, s, finish);
      PassKeeps(g, s, finish, parent, s.reported);
      t := next;
    }
  }

  lemma SameMeasure(g: Graph, s: Dfs, reported: set<set<Rev>>)
    ensures Unmet(g, s.(reported := reported)) == Unmet(g, s)
  {
  }

  // Once its top is coloured, the stack is the path.
  lemma Entered(g: Graph, s: Dfs, finish: map<Rev, nat>)
    requires Tidy(g, s, finish) && s.stack != [] && s.stack[|s.stack| - 1].0 in s.color
    ensures |s.path| == |s.stack|
    ensures forall i :: 0 <= i < |s.stack| ==> s.stack[i].0 in s.color
  {
    forall i | 0 <= i < |s.path| ensures s.path[i] in s.color {
      assert s.path[i] in s.path;
      assert IsColor(s, s.path[i], Gray);
    }
  }

  lemma CycleAt(g: Graph, s: Dfs, finish: map<Rev, nat>, parent: Rev)
    requires Tidy(g, s, finish) && CanAdvance(g, s, parent) && IsColor(s, parent, Gray)
    ensures parent in s.positions && s.positions[parent] <= |s.path|
    ensures CycleSet(g, SetOf(s.path[s.positions[parent]..]))
    ensures forall c :: c in s.reported ==> CycleSet(g, c)
  {
    GrayClosesCycle(g, s, parent);
  }

  lemma ReportedKept(g: Graph, s: Dfs, finish: map<Rev, nat>)
    requires Tidy(g, s, finish)
    ensures forall c :: c in s.reported ==> CycleSet(g, c)
  {
  }

  /** Between two starts nothing is gray. */
  ghost predicate Idle(g: Graph, s: Dfs, finish: map<Rev, nat>) {
    Tidy(g, s, finish) && s.stack == [] && s.path == []
  }

  lemma StartTidy(g: Graph, s: Dfs, finish: map<Rev, nat>, start: Rev)
    requires Idle(g, s, finish) && start !in s.color
    ensures Tidy(g, s.(stack := [(start, 0)], path := [], positions := map[]), finish)
  {
    var t := s.(stack := [(start, 0)], path := [], positions := map[]);
    assert PathKept(t) && StackKept(g, t) && Taken(g, t) && Finished(g, t, finish);
  }

  lemma EmptyIdle(g: Graph, s: Dfs, finish: map<Rev, nat>)
    requires Tidy(g, s, finish) && s.stack == []
    ensures Idle(g, s, finish)
  {
  }

  /** Explores everything reachable from one white revision. */
  method Explore(g: Graph, s0: Dfs, start: Rev, ghost finish0: map<Rev, nat>) returns (s: Dfs, ghost finish: map<Rev, nat>)
    requires Idle(g, s0, finish0) && start !in s0.color
    ensures Idle(g, s, finish)
    ensures s0.color.Keys <= s.color.Keys && start in s.color
  {
    StartTidy(g, s0, finish0, start);
    s, finish := s0.(stack := [(start, 0)], path := [], positions := map[]), finish0;
    hide *;
    while s.stack != []
      invariant Tidy(g, s, finish)
      invariant s0.color.Keys <= s.color.Keys
      invariant start in s.color || (s.stack != [] && s.stack[|s.stack| - 1].0 == start)
      decreases |Unmet(g, s)|, Work(g, s.stack)
    {
      s, finish := Turn(g, s, finish);
    }
    EmptyIdle(g, s, finish);
  }

  lemma IdleStart(g: Graph)
    ensures Idle(g, Dfs(map[], [], [], map[], {}), map[])
  {
  }

  // When every revision of the graph is coloured, the reports decide whether the graph is cyclic.
  lemma Verdict(g: Graph, s: Dfs, finish: map<Rev, nat>)
    requires Idle(g, s, finish) && g.Keys <= s.color.Keys
    ensures s.reported != {} <==> Cyclic(g)
    ensures forall c :: c in s.reported ==> CycleSet(g, c)
  {
    if s.reported == {} {
      var n := |finish|;
      var rank: map<Rev, nat> := map r | r in finish :: if finish[r] < n then n - finish[r] else 0;
      forall a, b | Edge(g, a, b) ensures a in rank && b in rank && rank[a] < rank[b] {
        assert !IsColor(s, a, Gray);
        assert IsColor(s, a, Black);
      }
      RankedAcyclic(g, rank);
    } else {
      var c :| c in s.reported;
      CycleSetCyclic(g, c);
    }
  }

  lemma CycleSetCyclic(g: Graph, c: set<Rev>)
    requires CycleSet(g, c)
    ensures Cyclic(g)
  {
    var p, r :| IsPath(g, p, r, r) && |p| > 1;
    assert Above(g, r, r);
  }

  /** The inspection reports a cycle exactly when the parent graph has one, and every report is the
      revision set of a real directed cycle. */
  method InspectParentCycles(g: Graph) returns (reported: set<set<Rev>>)
    ensures reported != {} <==> Cyclic(g)
    ensures forall c :: c in reported ==> CycleSet(g, c)
  {
    var s := Dfs(map[], [], [], map[], {});
    ghost var finish: map<Rev, nat> := map[];
    IdleStart(g);
    hide *;
    var todo := g.Keys;
    while todo != {}
      invariant Idle(g, s, finish)
      invariant todo <= g.Keys && g.Keys - todo <= s.color.Keys
      decreases todo
    {
      var start :| start in todo;
      if start !in s.color {
        s, finish := Explore(g, s, start, finish);
      }
      todo := todo - {start};
    }
    Verdict(g, s, finish);
    return s.reported;
  }

  /** The raw parent columns and the deduplicated ones have the same links. */
  lemma SameLinks(source: RevisionDag.Source)
    ensures Cyclic(RawGraph(source)) <==> Cyclic(RevisionDag.GraphOf(source))
    ensures Kahn.Complete(RevisionDag.GraphOf(source)) <==> ParentsStored(source)
    ensures forall v :: v in RevisionDag.GraphOf(source) ==> Kahn.NoDuplicates(RevisionDag.GraphOf(source)[v])
  {
    var g, h := RawGraph(source), RevisionDag.GraphOf(source);
    forall a, b ensures Edge(g, a, b) <==> Edge(h, a, b) {
      assert a in source ==> (b in g[a] <==> b in h[a]);
    }
    SameCycles(g, h);
    forall r, p | ParentsStored(source) && r in source && p in RevisionDag.RawParents(source[r]) ensures p in source {
    }
    if Kahn.Complete(h) {
      forall r, p | r in source && p in RevisionDag.RawParents(source[r]) ensures p in source {
        assert Edge(h, r, p);
      }
    }
  }

  lemma SameCycles(g: Graph, h: Graph)
    requires forall a, b :: Edge(g, a, b) <==> Edge(h, a, b)
    ensures Cyclic(g) <==> Cyclic(h)
  {
    hide Edge;
    forall r ensures Above(g, r, r) <==> Above(h, r, r) {
      forall p ensures IsPath(g, p, r, r) <==> IsPath(h, p, r, r) {
      }
    }
  }

  /** Each revision with its filled parent columns, as the inspection reads them. */
  function RawGraph(source: RevisionDag.Source): Graph {
    map r | r in source :: RevisionDag.RawParents(source[r])
  }

  ghost predicate ParentsStored(source: RevisionDag.Source) {
    forall r, p :: r in source && p in RevisionDag.RawParents(source[r]) ==> p in source
  }

  /** On the same stored rows, the inspection over the raw columns and the pass over deduplicated parents
      agree; the pass needs every parent to be stored. */
  method CycleChecksAgree(source: RevisionDag.Source) returns (reported: bool, failed: bool)
    requires ParentsStored(source)
    ensures reported == failed == Cyclic(RawGraph(source))
  {
    hide *;
    SameLinks(source);
    var cycles := InspectParentCycles(RawGraph(source));
    var best := Kahn.BestCommonAncestors(RevisionDag.GraphOf(source), {});
    return cycles != {}, best == Result.Err(Kahn.Cycle);
  }
}
