/** The S-expression reader (src/weave_frontend/sexpr.py). */
module Parser {
  import opened Prelude
  import opened Chars
  import opened Lexer
  import opened Trees
  import opened Atoms
  import opened Validity

  datatype ParseError =
    | SourceTooLarge
    | UnexpectedEof
    | UnterminatedList
    | UnexpectedRParen
    | TrailingInput
    | InvalidString(message: string)
    | TooDeep
    | TooLarge
    | ValueTooLarge
    | InvalidTree

  datatype Parsed = Parsed(node: Tree, rest: seq<Token>, count: nat)
  datatype ParsedKids = ParsedKids(nodes: seq<Tree>, rest: seq<Token>, count: nat)

  /** A two-element list headed by a symbol that names a node id is a wrapper around its second
      element. */
  predicate Collapses(kids: seq<Tree>) {
    |kids| == 2 && kids[0].Leaf? && kids[0].atom.Symbol? && "@n_" <= kids[0].atom.name
  }

  function WithId(t: Tree, id: NodeId): Tree {
    if t.List? then List(id, t.children) else Leaf(id, t.atom)
  }

  // Counts one parsed node against the limits.
  function Account(node: Tree, rest: seq<Token>, depth: nat, count: nat): Result<Parsed, ParseError> {
    if depth > MAX_TREE_DEPTH then Err(TooDeep)
    else if count + 1 > MAX_TREE_NODES then Err(TooLarge)
    else Ok(Parsed(node, rest, count + 1))
  }

  function ParseLeaf(a: Atom, rest: seq<Token>, depth: nat, count: nat, newId: Supply): Result<Parsed, ParseError> {
    if AtomBytes(a) > MAX_ATOM_VALUE_BYTES then Err(ValueTooLarge)
    else Account(Leaf(newId(count), a), rest, depth, count)
  }

  ghost function CloseList(kids: ParsedKids, depth: nat, newId: Supply): Result<Parsed, ParseError> {
    var node := Account(List(newId(kids.count), kids.nodes), kids.rest, depth, kids.count);
    if node.Ok? && Collapses(kids.nodes) then
      var wrapped := WithId(kids.nodes[1], kids.nodes[0].atom.name[1..]);
      if ValidTree(wrapped) then Ok(node.value.(node := wrapped)) else Err(InvalidTree)
    else node
  }

  ghost function ParseOne(toks: seq<Token>, depth: nat, count: nat, newId: Supply): (r: Result<Parsed, ParseError>)
    ensures r.Ok? ==> |r.value.rest| < |toks|
    decreases |toks|, 0
  {
    if toks == [] then Err(UnexpectedEof)
    else match toks[0]
      case LParen =>
        if depth > MAX_TREE_DEPTH then Err(TooDeep)
        else
          var kids := ParseKids(toks[1..], depth + 1, count, newId);
          if kids.Err? then Err(kids.error) else CloseList(kids.value, depth, newId)
      case RParen => Err(UnexpectedRParen)
      case Bad(message) => Err(InvalidString(message))
      case Str(value) => ParseLeaf(Text(value), toks[1..], depth, count, newId)
      case Atom(text) => ParseLeaf(ParseAtom(text), toks[1..], depth, count, newId)
  }

  ghost function ParseKids(toks: seq<Token>, depth: nat, count: nat, newId: Supply): (r: Result<ParsedKids, ParseError>)
    ensures r.Ok? ==> |r.value.rest| < |toks|
    decreases |toks|, 1
  {
    if toks == [] then Err(UnterminatedList)
    else if toks[0].Bad? then Err(InvalidString(toks[0].message))
    else if toks[0].RParen? then Ok(ParsedKids([], toks[1..], count))
    else
      var first := ParseOne(toks, depth, count, newId);
      if first.Err? then Err(first.error)
      else
        var others := ParseKids(first.value.rest, depth, first.value.count, newId);
        if others.Err? then Err(others.error)
        else Ok(others.value.(nodes := [first.value.node] + others.value.nodes))
  }

  ghost function ParseSource(source: string, newId: Supply): Result<Tree, ParseError> {
    if Utf8(source) > MAX_SOURCE_BYTES then Err(SourceTooLarge)
    else
      var root := ParseOne(Lex(source), 0, 0, newId);
      if root.Err? then Err(root.error)
      else if root.value.rest != [] && root.value.rest[0].Bad? then Err(InvalidString(root.value.rest[0].message))
      else if root.value.rest != [] then Err(TrailingInput)
      else if !ValidTree(root.value.node) then Err(InvalidTree)
      else Ok(root.value.node)
  }

  // ----- the reader as the source runs it

  class Reader {
    var stream: seq<Token>
    var buffered: seq<Token>
    var parsedNodes: nat
    const newId: Supply

    constructor (tokens: seq<Token>, newId: Supply)
      ensures Valid() && Remaining() == tokens && parsedNodes == 0 && this.newId == newId
    {
      stream, buffered, parsedNodes := tokens, [], 0;
      this.newId := newId;
    }

    ghost predicate Valid()
      reads this
    {
      |buffered| <= 1
    }

    /** The tokens still to be read. */
    function Remaining(): seq<Token>
      reads this
    {
      buffered + stream
    }

    method NextToken() returns (token: Option<Token>)
      requires Valid()
      modifies this
      ensures Valid() && buffered == [] && parsedNodes == old(parsedNodes)
      ensures old(Remaining()) == [] ==> token == None && Remaining() == []
      ensures old(Remaining()) != [] ==> token == Some(old(Remaining())[0]) && Remaining() == old(Remaining())[1..]
    {
      if buffered != [] {
        token := Some(buffered[|buffered| - 1]);
        buffered := buffered[..|buffered| - 1];
      } else if stream != [] {
        token := Some(stream[0]);
        stream := stream[1..];
      } else {
        token := None;
      }
    }

    method Push(token: Token)
      requires Valid() && buffered == []
      modifies this
      ensures Valid() && Remaining() == [token] + old(Remaining()) && parsedNodes == old(parsedNodes)
    {
      buffered := buffered + [token];
    }

    method AccountNode(node: Tree, depth: nat) returns (r: Result<Tree, ParseError>)
      requires Valid()
      modifies this
      ensures Valid() && Remaining() == old(Remaining())
      ensures Agrees(r, Account(node, old(Remaining()), depth, old(parsedNodes)))
    {
      if depth > MAX_TREE_DEPTH {
        return Err(TooDeep);
      }
      parsedNodes := parsedNodes + 1;
      if parsedNodes > MAX_TREE_NODES {
        return Err(TooLarge);
      }
      return Ok(node);
    }

    // The outcome of a method against the outcome the specification gives.
    ghost predicate Agrees(r: Result<Tree, ParseError>, spec: Result<Parsed, ParseError>)
      reads this
    {
      match spec
      case Err(e) => r == Err(e)
      case Ok(p) => r == Ok(p.node) && Remaining() == p.rest && parsedNodes == p.count
    }

    ghost predicate AgreesKids(r: Result<seq<Tree>, ParseError>, spec: Result<ParsedKids, ParseError>)
      reads this
    {
      match spec
      case Err(e) => r == Err(e)
      case Ok(p) => r == Ok(p.nodes) && Remaining() == p.rest && parsedNodes == p.count
    }

    method ParseOneNode(depth: nat) returns (r: Result<Tree, ParseError>)
      requires Valid()
      modifies this
      ensures Valid() && Agrees(r, ParseOne(old(Remaining()), depth, old(parsedNodes), newId))
      decreases |Remaining()|, 0
    {
      var token := NextToken();
      if token.None? {
        return Err(UnexpectedEof);
      }
      match token.value {
        case LParen =>
          if depth > MAX_TREE_DEPTH {
            return Err(TooDeep);
          }
          var kids := ParseChildren(depth + 1);
          if kids.Err? {
            return Err(kids.error);
          }
          r := FinishList(kids.value, depth);
        case RParen => return Err(UnexpectedRParen);
        case Bad(message) => return Err(InvalidString(message));
        case Str(value) => r := MakeLeaf(Text(value), depth);
        case Atom(text) => r := MakeLeaf(ParseAtom(text), depth);
      }
    }

    method MakeLeaf(a: Atom, depth: nat) returns (r: Result<Tree, ParseError>)
      requires Valid()
      modifies this
      ensures Valid() && Agrees(r, ParseLeaf(a, old(Remaining()), depth, old(parsedNodes), newId))
    {
      if AtomBytes(a) > MAX_ATOM_VALUE_BYTES {
        return Err(ValueTooLarge);
      }
      r := AccountNode(Leaf(newId(parsedNodes), a), depth);
    }

    method FinishList(kids: seq<Tree>, depth: nat) returns (r: Result<Tree, ParseError>)
      requires Valid()
      modifies this
      ensures Valid() && Agrees(r, CloseList(ParsedKids(kids, old(Remaining()), old(parsedNodes)), depth, newId))
    {
      r := AccountNode(List(newId(parsedNodes), kids), depth);
      if r.Ok? && Collapses(kids) {
        var wrapped := WithId(kids[1], kids[0].atom.name[1..]);
        var valid := ValidateTree(wrapped);
        r := if valid then Ok(wrapped) else Err(InvalidTree);
      }
    }

    // The loop over the children of an open list.
    method ParseChildren(depth: nat) returns (r: Result<seq<Tree>, ParseError>)
      requires Valid()
      modifies this
      ensures Valid() && AgreesKids(r, ParseKids(old(Remaining()), depth, old(parsedNodes), newId))
      decreases |Remaining()|, 1
    {
      var children: seq<Tree> := [];
      ghost var spec := ParseKids(Remaining(), depth, parsedNodes, newId);
      assert After([], spec) == spec by {
        if spec.Ok? {
          assert [] + spec.value.nodes == spec.value.nodes;
        }
      }
      while true
        invariant Valid()
        invariant |Remaining()| <= |old(Remaining())|
        invariant spec == After(children, ParseKids(Remaining(), depth, parsedNodes, newId))
        decreases |Remaining()|
      {
        ghost var toks, count := Remaining(), parsedNodes;
        var item := NextToken();
        if item.None? {
          return Err(UnterminatedList);
        }
        if item.value.RParen? {
          assert children + [] == children;
          return Ok(children);
        }
        if item.value.Bad? {
          return Err(InvalidString(item.value.message));
        }
        Push(item.value);
        assert Remaining() == toks;
        var child := ParseOneNode(depth);
        if child.Err? {
          return Err(child.error);
        }
        AfterOne(children, toks, depth, count, newId);
        children := children + [child.value];
      }
    }
  }

  // The children read before, put in front of those read after.
  ghost function After(children: seq<Tree>, r: Result<ParsedKids, ParseError>): Result<ParsedKids, ParseError> {
    if r.Err? then r else Ok(r.value.(nodes := children + r.value.nodes))
  }

  lemma AfterOne(children: seq<Tree>, toks: seq<Token>, depth: nat, count: nat, newId: Supply)
    requires toks != [] && !toks[0].Bad? && !toks[0].RParen? && ParseOne(toks, depth, count, newId).Ok?
    ensures var first := ParseOne(toks, depth, count, newId).value;
      After(children, ParseKids(toks, depth, count, newId)) ==
      After(children + [first.node], ParseKids(first.rest, depth, first.count, newId))
  {
    var first := ParseOne(toks, depth, count, newId).value;
    var others := ParseKids(first.rest, depth, first.count, newId);
    if others.Ok? {
      assert children + ([first.node] + others.value.nodes) == children + [first.node] + others.value.nodes;
    }
  }

  /** Reading a source: the reader over the scanner's tokens, then nothing may be left, and the tree
      must be valid. */
  method ReadSource(source: string, newId: Supply) returns (r: Result<Tree, ParseError>)
    ensures r == ParseSource(source, newId)
  {
    if Utf8(source) > MAX_SOURCE_BYTES {
      return Err(SourceTooLarge);
    }
    var tokens := Tokenize(source);
    var reader := new Reader(tokens, newId);
    var root := reader.ParseOneNode(0);
    hide ParseOne;
    if root.Err? {
      return root;
    }
    var trailing := reader.NextToken();
    if trailing.Some? {
      return Err(if trailing.value.Bad? then InvalidString(trailing.value.message) else TrailingInput);
    }
    var valid := ValidateTree(root.value);
    return if valid then root else Err(InvalidTree);
  }
}
