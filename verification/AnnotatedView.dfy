/** The annotated view with plain atoms, as an agent is shown it: every list carries its id, and the text reads
    back as the same tree with these ids (src/weave_frontend/sexpr.py, sexpr_service.py). */
module AnnotatedView {
  import opened Prelude
  import opened Chars
  import opened Lexer
  import opened Trees
  import opened Atoms
  import opened Validity
  import opened Parser
  import opened Printer
  import opened Layout
  import opened RoundTrip
  import opened AnnotatedTrip

  function ViewTokens(t: Tree): seq<Token>
    decreases t, 1
  {
    if t.Leaf? then [TokenOf(t.atom)] else Wrap(t.id, [LParen] + ViewTokensOf(t.children) + [RParen])
  }

  function ViewTokensOf(ts: seq<Tree>): seq<Token>
    decreases ts, 0
  {
    if ts == [] then [] else ViewTokensOf(ts[..|ts| - 1]) + ViewTokens(ts[|ts| - 1])
  }

  /** The id of every list can stand in the text. */
  predicate CleanLists(t: Tree) {
    t.List? ==> CleanId(t.id) && forall i :: 0 <= i < |t.children| ==> CleanLists(t.children[i])
  }

  /** One tree is the other but for the ids of its atoms. */
  predicate SameView(t: Tree, u: Tree) {
    match t
    case Leaf(_, atom) => u.Leaf? && u.atom == atom
    case List(id, children) =>
      u.List? && u.id == id && |u.children| == |children| && forall i :: 0 <= i < |children| ==> SameView(children[i], u.children[i])
  }

  // ----- the text lays out the tokens

  function KidViews(ts: seq<Tree>): (r: seq<seq<Token>>)
    ensures |r| == |ts|
  {
    if ts == [] then [] else KidViews(ts[..|ts| - 1]) + [ViewTokens(ts[|ts| - 1])]
  }

  lemma {:induction false} KidViewsFlatten(ts: seq<Tree>)
    ensures Flatten(KidViews(ts)) == ViewTokensOf(ts)
  {
    if ts != [] {
      KidViewsFlatten(ts[..|ts| - 1]);
      assert KidViews(ts)[..|ts| - 1] == KidViews(ts[..|ts| - 1]);
    }
  }

  lemma {:induction false} ReadsView(t: Tree, indent: nat)
    requires Printable(t) && CleanLists(t)
    ensures Reads(Annotated(t, indent, false), ViewTokens(t))
    decreases t, 1
  {
    if t.Leaf? {
      ReadsAtom(t.atom);
    } else {
      var texts := AnnotatedKids(t.children, indent + 2, false);
      var core, tokens := AnnotatedCore(texts, indent), [LParen] + ViewTokensOf(t.children) + [RParen];
      ReadsViews(t.children, indent + 2);
      ReadsCore(texts, KidViews(t.children), indent);
      KidViewsFlatten(t.children);
      LineBreakSpaces(indent + 2);
      ReadsReindent(core, tokens, Spaces(indent + 2));
      ReadsWrapped(t.id, Reindent(core, Spaces(indent + 2)), tokens);
    }
  }

  lemma {:induction false} ReadsViews(ts: seq<Tree>, indent: nat)
    requires forall i :: 0 <= i < |ts| ==> Printable(ts[i]) && CleanLists(ts[i])
    ensures ReadsEach(AnnotatedKids(ts, indent, false), KidViews(ts))
    decreases ts, 0
  {
    if ts != [] {
      ReadsViews(ts[..|ts| - 1], indent);
      ReadsView(ts[|ts| - 1], indent);
    }
  }

  // ----- what the reader counts

  /** A list is read as three nodes, two levels deep. */
  function ViewSize(t: Tree): nat
    decreases t, 1
  {
    if t.Leaf? then 1 else 3 + ViewSizeOf(t.children)
  }

  function ViewSizeOf(ts: seq<Tree>): nat
    decreases ts, 0
  {
    if ts == [] then 0 else ViewSize(ts[0]) + ViewSizeOf(ts[1..])
  }

  predicate ViewFits(t: Tree, depth: nat) {
    && depth <= MAX_TREE_DEPTH
    && (t.List? ==>
          && depth + 1 <= MAX_TREE_DEPTH && Utf8("@" + t.id) <= MAX_ATOM_VALUE_BYTES
          && forall i :: 0 <= i < |t.children| ==> ViewFits(t.children[i], depth + 2))
  }

  // ----- a tree of the same view is as valid

  lemma {:induction false} SameErased(t: Tree, u: Tree)
    requires SameView(t, u)
    ensures Erase(t) == Erase(u) && Size(t) == Size(u) && ValueBytes(t) == ValueBytes(u)
    decreases t
  {
    if t.List? {
      forall i | 0 <= i < |t.children|
        ensures Erase(t.children[i]) == Erase(u.children[i]) && Size(t.children[i]) == Size(u.children[i])
        ensures ValueBytes(t.children[i]) == ValueBytes(u.children[i])
      {
        SameErased(t.children[i], u.children[i]);
      }
      SameSums(t.children, u.children);
    }
  }

  lemma {:induction false} SameShallow(t: Tree, u: Tree, depth: int)
    requires SameView(t, u) && Shallow(t, depth)
    ensures Shallow(u, depth)
    decreases t
  {
    if t.List? {
      forall i | 0 <= i < |t.children| ensures Shallow(u.children[i], depth - 1) {
        SameShallow(t.children[i], u.children[i], depth - 1);
      }
    }
  }

  /** The ids of a tree that was read: its lists', or handed out in between. */
  ghost predicate IdsFrom(u: Tree, t: Tree, newId: Supply, lo: nat, hi: nat) {
    forall x :: x in IdSet(u) ==> x in IdSet(t) || exists n: nat :: lo <= n < hi && x == newId(n)
  }

  ghost predicate Apart(newId: Supply, t: Tree) {
    forall n: nat :: newId(n) !in IdSet(t)
  }

  // What reading gives for one tree.
  ghost predicate ReadAs(t: Tree, u: Tree, newId: Supply, lo: nat) {
    SameView(t, u) && Unique(u) && NodesOk(u) && IdsFrom(u, t, newId, lo, lo + ViewSize(t))
  }

  ghost predicate ReadAllAs(ts: seq<Tree>, us: seq<Tree>, newId: Supply, lo: nat) {
    && |us| == |ts| && UniqueAll(us)
    && forall i :: 0 <= i < |ts| ==> SameView(ts[i], us[i]) && NodesOk(us[i]) && IdsFrom(us[i], ts[i], newId, lo, lo + ViewSizeOf(ts))
  }

  lemma IdsWider(u: Tree, t: Tree, newId: Supply, lo: nat, hi: nat, low: nat, high: nat)
    requires IdsFrom(u, t, newId, lo, hi) && low <= lo && hi <= high
    ensures IdsFrom(u, t, newId, low, high)
  {
    forall x | x in IdSet(u) && x !in IdSet(t) ensures exists n: nat :: low <= n < high && x == newId(n) {
      var n: nat :| lo <= n < hi && x == newId(n);
    }
  }

  // An id that the tree did not have comes from the supply.
  lemma FromSupply(u: Tree, t: Tree, newId: Supply, lo: nat, hi: nat, x: string) returns (n: nat)
    requires IdsFrom(u, t, newId, lo, hi) && x in IdSet(u) && x !in IdSet(t)
    ensures lo <= n < hi && x == newId(n)
  {
    n :| lo <= n < hi && x == newId(n);
  }

  lemma NotSupplied(t: Tree, newId: Supply, n: nat)
    requires Apart(newId, t)
    ensures newId(n) !in IdSet(t)
  {
  }

  lemma IdsApart(a: Tree, s: Tree, b: Tree, t: Tree, newId: Supply, lo: nat, mid: nat, hi: nat)
    requires GoodSupply(newId) && Apart(newId, s) && Apart(newId, t) && IdSet(s) !! IdSet(t)
    requires IdsFrom(a, s, newId, lo, mid) && IdsFrom(b, t, newId, mid, hi)
    ensures IdSet(a) !! IdSet(b)
  {
    hide IdSet;
    hide CleanId;
    hide Apart;
    hide IdsFrom;
    forall x | x in IdSet(a) && x in IdSet(b) ensures false {
      if x in IdSet(s) {
        var n := FromSupply(b, t, newId, mid, hi, x);
        NotSupplied(s, newId, n);
      } else {
        var m := FromSupply(a, s, newId, lo, mid, x);
        NotSupplied(t, newId, m);
        var n := FromSupply(b, t, newId, mid, hi, x);
      }
    }
  }

  lemma ReadMore(ts: seq<Tree>, first: Tree, others: seq<Tree>, newId: Supply, lo: nat)
    requires ts != [] && UniqueAll(ts) && GoodSupply(newId) && forall i :: 0 <= i < |ts| ==> Apart(newId, ts[i])
    requires ReadAs(ts[0], first, newId, lo) && ReadAllAs(ts[1..], others, newId, lo + ViewSize(ts[0]))
    ensures ReadAllAs(ts, [first] + others, newId, lo)
  {
    hide SameView;
    hide NodesOk;
    hide Unique;
    hide IdSet;
    hide GoodSupply;
    hide IdsFrom;
    hide Apart;
    var us, mid := [first] + others, lo + ViewSize(ts[0]);
    var hi := lo + ViewSizeOf(ts);
    forall j | 1 <= j < |us|
      ensures us[j] == others[j - 1] && ts[j] == ts[1..][j - 1] && IdSet(us[0]) !! IdSet(us[j]) && IdsFrom(us[j], ts[j], newId, lo, hi)
    {
      IdsApart(first, ts[0], others[j - 1], ts[j], newId, lo, mid, mid + ViewSizeOf(ts[1..]));
      IdsWider(others[j - 1], ts[j], newId, mid, mid + ViewSizeOf(ts[1..]), lo, hi);
    }
    IdsWider(first, ts[0], newId, lo, mid, lo, hi);
    assert us[0] == first;
    forall i, j | 0 <= i < j < |us| ensures IdSet(us[i]) !! IdSet(us[j]) {
      if i > 0 {
        assert us[i] == others[i - 1] && us[j] == others[j - 1];
      }
    }
  }

  // A child was read under ids of its own and new ones, so not under its parent's.
  lemma KidWithout(t: Tree, i: nat, x: string, u: Tree, newId: Supply, lo: nat, hi: nat)
    requires t.List? && Unique(t) && i < |t.children| && x == t.id && Apart(newId, t)
    requires IdsFrom(u, t.children[i], newId, lo, hi)
    ensures x !in IdSet(u)
  {
    assert x !in IdSet(t.children[i]);
  }

  lemma ListRead(t: Tree, us: seq<Tree>, newId: Supply, lo: nat)
    requires t.List? && Unique(t) && CleanId(t.id) && Apart(newId, t) && ReadAllAs(t.children, us, newId, lo + 1)
    ensures ReadAs(t, List(t.id, us), newId, lo)
  {
    hide CleanId;
    var u := List(t.id, us);
    assert IdOk(t.id);
    forall i | 0 <= i < |us| ensures t.id !in IdSet(us[i]) {
      KidWithout(t, i, t.id, us[i], newId, lo + 1, lo + 1 + ViewSizeOf(t.children));
    }
    forall x | x in IdSet(u) && x !in IdSet(t) ensures exists n: nat :: lo <= n < lo + ViewSize(t) && x == newId(n) {
      assert x in IdSetOf(us);
      var i :| 0 <= i < |us| && x in IdSet(us[i]);
      assert x !in IdSet(t.children[i]);
      var n: nat :| lo + 1 <= n < lo + 1 + ViewSizeOf(t.children) && x == newId(n);
    }
  }

  lemma ReadIsValid(t: Tree, u: Tree, newId: Supply, lo: nat)
    requires ValidTree(t) && ReadAs(t, u, newId, lo)
    ensures ValidTree(u)
  {
    hide SameView;
    hide Unique;
    hide NodesOk;
    SameErased(t, u);
    SameShallow(t, u, MAX_TREE_DEPTH);
  }

  // ----- reading

  lemma {:induction false} ViewFront(ts: seq<Tree>)
    requires ts != []
    ensures ViewTokensOf(ts) == ViewTokens(ts[0]) + ViewTokensOf(ts[1..])
    decreases |ts|
  {
    if |ts| == 1 {
      assert ts[..0] == [];
      assert ViewTokensOf(ts[..0]) + ViewTokens(ts[0]) == ViewTokens(ts[0]) + ViewTokensOf(ts[1..]);
    } else {
      var init, last := ts[..|ts| - 1], ts[|ts| - 1];
      ViewFront(init);
      assert init[1..] == ts[1..][..|ts| - 2];
      Assoc(ViewTokens(ts[0]), ViewTokensOf(init[1..]), ViewTokens(last));
    }
  }

  lemma ViewHead(t: Tree)
    ensures ViewTokens(t) != [] && !ViewTokens(t)[0].RParen? && !ViewTokens(t)[0].Bad?
  {
  }

  lemma SameCollapses(ts: seq<Tree>, us: seq<Tree>)
    requires |us| == |ts| && forall i :: 0 <= i < |ts| ==> SameView(ts[i], us[i])
    ensures Collapses(us) <==> Collapses(ts)
  {
  }

  // The list inside the wrapper, its children read.
  lemma InnerList(us: seq<Tree>, tokens: seq<Token>, tail: seq<Token>, depth: nat, count: nat, next: nat, newId: Supply)
    requires !Collapses(us) && depth <= MAX_TREE_DEPTH && next < MAX_TREE_NODES
    requires ParseKids(tokens + ([RParen] + tail), depth + 1, count, newId) == Ok(ParsedKids(us, tail, next))
    ensures ParseOne([LParen] + tokens + [RParen] + tail, depth, count, newId) == Ok(Parsed(List(newId(next), us), tail, next + 1))
  {
    hide ParseOne;
    hide ParseKids;
    var toks := [LParen] + tokens + [RParen] + tail;
    assert toks[1..] == tokens + ([RParen] + tail);
    ParseList(toks, depth, count, newId, ParsedKids(us, tail, next));
  }

  /** Reading the tokens of a view gives a tree of the same view, whatever follows. */
  lemma {:induction false} ParseView(t: Tree, rest: seq<Token>, depth: nat, count: nat, newId: Supply) returns (u: Tree)
    requires Printable(t) && CleanLists(t) && ValidTree(t) && GoodSupply(newId) && Apart(newId, t)
    requires ViewFits(t, depth) && count + ViewSize(t) <= MAX_TREE_NODES
    ensures ParseOne(ViewTokens(t) + rest, depth, count, newId) == Ok(Parsed(u, rest, count + ViewSize(t)))
    ensures ReadAs(t, u, newId, count)
    decreases t, 1
  {
    hide ParseOne;
    hide ParseKids;
    hide ReadAllAs;
    hide Collapses;
    hide CleanId;
    if t.Leaf? {
      u := Leaf(newId(count), t.atom);
      LeafView(t, rest, depth, count, newId);
    } else {
      var tail := [RParen] + rest;
      ViewableKids(t, newId, depth, count);
      var us := ParseViews(t.children, tail, depth + 2, count + 1, newId);
      u := List(t.id, us);
      ListRead(t, us, newId, count);
      ReadIsValid(t, u, newId, count);
      ListView(t, us, rest, depth, count, newId);
    }
  }

  // Every tree of a list can be shown, at one depth, and has ids of its own.
  ghost predicate Viewable(ts: seq<Tree>, newId: Supply, depth: nat, count: nat) {
    && UniqueAll(ts) && count + ViewSizeOf(ts) <= MAX_TREE_NODES
    && forall i :: 0 <= i < |ts| ==> Printable(ts[i]) && CleanLists(ts[i]) && ValidTree(ts[i]) && Apart(newId, ts[i]) && ViewFits(ts[i], depth)
  }

  lemma ViewableKids(t: Tree, newId: Supply, depth: nat, count: nat)
    requires t.List? && Printable(t) && CleanLists(t) && ValidTree(t) && Apart(newId, t)
    requires ViewFits(t, depth) && count + ViewSize(t) <= MAX_TREE_NODES
    ensures Viewable(t.children, newId, depth + 2, count + 1)
  {
    forall i | 0 <= i < |t.children| ensures ValidTree(t.children[i]) && Apart(newId, t.children[i]) {
      ChildValid(t, i);
      assert IdSet(t.children[i]) <= IdSet(t);
    }
  }

  lemma ViewableFront(ts: seq<Tree>, newId: Supply, depth: nat, count: nat)
    requires Viewable(ts, newId, depth, count) && ts != []
    ensures Printable(ts[0]) && CleanLists(ts[0]) && ValidTree(ts[0]) && Apart(newId, ts[0]) && ViewFits(ts[0], depth)
    ensures count + ViewSize(ts[0]) <= MAX_TREE_NODES && Viewable(ts[1..], newId, depth, count + ViewSize(ts[0]))
    ensures UniqueAll(ts) && forall i :: 0 <= i < |ts| ==> Apart(newId, ts[i])
    ensures ViewSizeOf(ts) == ViewSize(ts[0]) + ViewSizeOf(ts[1..])
  {
    hide Printable;
    hide CleanLists;
    hide ValidTree;
    hide Apart;
    hide ViewFits;
    hide Unique;
    hide IdSet;
  }

  lemma NoViews(newId: Supply, count: nat)
    ensures ViewTokensOf([]) == [] && ViewSizeOf([]) == 0 && ReadAllAs([], [], newId, count)
  {
  }

  lemma LeafView(t: Tree, rest: seq<Token>, depth: nat, count: nat, newId: Supply)
    requires t.Leaf? && Printable(t) && ValidTree(t) && GoodSupply(newId) && depth <= MAX_TREE_DEPTH && count < MAX_TREE_NODES
    ensures ParseOne(ViewTokens(t) + rest, depth, count, newId) == Ok(Parsed(Leaf(newId(count), t.atom), rest, count + 1))
    ensures ReadAs(t, Leaf(newId(count), t.atom), newId, count)
  {
    ParseAtomToken(t.atom, rest, depth, count, newId);
    assert CleanId(newId(count));
    hide ParseOne;
    hide CleanId;
    assert IdOk(newId(count));
  }

  lemma ListView(t: Tree, us: seq<Tree>, rest: seq<Token>, depth: nat, count: nat, newId: Supply)
    requires t.List? && Printable(t) && CleanId(t.id) && ValidTree(List(t.id, us)) && ReadAllAs(t.children, us, newId, count + 1)
    requires ViewFits(t, depth) && count + ViewSize(t) <= MAX_TREE_NODES
    requires ParseKids(ViewTokensOf(t.children) + ([RParen] + ([RParen] + rest)), depth + 2, count + 1, newId) ==
             Ok(ParsedKids(us, [RParen] + rest, count + 1 + ViewSizeOf(t.children)))
    ensures ParseOne(ViewTokens(t) + rest, depth, count, newId) == Ok(Parsed(List(t.id, us), rest, count + ViewSize(t)))
  {
    hide ParseOne;
    hide ParseKids;
    hide ValidTree;
    hide CleanId;
    hide SameView;
    var tokens, tail, next := ViewTokensOf(t.children), [RParen] + rest, count + 1 + ViewSizeOf(t.children);
    var core := [LParen] + tokens + [RParen];
    SameCollapses(t.children, us);
    hide Collapses;
    InnerList(us, tokens, tail, depth + 1, count + 1, next, newId);
    assert [LParen] + tokens + [RParen] + tail == core + tail;
    ParseWrapper(List(t.id, us), List(newId(next), us), core, rest, depth, count, next + 1, newId);
  }

  lemma {:induction false} ParseViews(ts: seq<Tree>, rest: seq<Token>, depth: nat, count: nat, newId: Supply) returns (us: seq<Tree>)
    requires GoodSupply(newId) && Viewable(ts, newId, depth, count)
    ensures ParseKids(ViewTokensOf(ts) + ([RParen] + rest), depth, count, newId) == Ok(ParsedKids(us, rest, count + ViewSizeOf(ts)))
    ensures ReadAllAs(ts, us, newId, count)
    decreases ts, 0
  {
    hide *;
    if ts == [] {
      us := [];
      NoViews(newId, count);
      KidsEmpty(rest, depth, count, newId);
      return;
    }
    ViewFront(ts);
    ViewableFront(ts, newId, depth, count);
    var more := ViewTokensOf(ts[1..]);
    var first := ParseView(ts[0], more + ([RParen] + rest), depth, count, newId);
    var others := ParseViews(ts[1..], rest, depth, count + ViewSize(ts[0]), newId);
    us := [first] + others;
    ReadMore(ts, first, others, newId, count);
    ViewHead(ts[0]);
    KidsFront(ViewTokens(ts[0]), more, [RParen] + rest, depth, count, newId, first,
              count + ViewSize(ts[0]), ParsedKids(others, rest, count + ViewSizeOf(ts)));
  }

  // ----- the theorem

  /** The annotated view of a valid printable tree reads back as the same tree: every list keeps its id, and the
      atoms get new ones. */
  lemma ViewThenRead(t: Tree, newId: Supply) returns (u: Tree)
    requires ValidTree(t) && Printable(t) && CleanLists(t) && GoodSupply(newId) && Apart(newId, t)
    requires ViewFits(t, 0) && ViewSize(t) <= MAX_TREE_NODES && Utf8(Annotated(t, 0, false)) <= MAX_SOURCE_BYTES
    ensures ParseSource(Annotated(t, 0, false), newId) == Ok(u)
    ensures SameView(t, u) && Erase(u) == Erase(t) && ValidTree(u)
  {
    var source, toks := Annotated(t, 0, false), ViewTokens(t);
    ReadsView(t, 0);
    LexReads(source, toks, "");
    hide Annotated;
    hide ParseOne;
    hide ViewTokens;
    u := ParseView(t, [], 0, 0, newId);
    ReadIsValid(t, u, newId, 0);
    SameErased(t, u);
    assert source + "" == source && toks + Lex("") == toks && toks + [] == toks;
  }
}
