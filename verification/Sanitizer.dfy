/**
 `sanitizeSensitiveEvidenceValue` of scripts/testbed/failure-evidence-redaction.ts: a walk of
 a possibly cyclic object graph with a depth limit and a shared set of ancestors.
 */
module Sanitizer {
  import opened Wrappers

  // ----- values

  /** A value: a primitive, a string, something else that is printed, or a reference to an object. */
  datatype Value = Primitive(literal: string) | Text(text: string) | Other(printed: string) | Ref(node: nat)

  /** An array or a plain object. The key of an array entry is its index. */
  datatype Node = Node(isArray: bool, entries: seq<Entry>)

  datatype Entry = Entry(key: string, value: Value)

  type Graph = map<nat, Node>

  /** Every reference leads to an object of the graph. Cycles and sharing are allowed. */
  predicate Closed(g: Graph) {
    forall n | n in g :: forall i | 0 <= i < |g[n].entries| :: InGraph(g, g[n].entries[i].value)
  }

  predicate InGraph(g: Graph, v: Value) {
    v.Ref? ==> v.node in g
  }

  /** What is emitted: a tree. */
  datatype Tree = Leaf(literal: string) | String(text: string) | Container(isArray: bool, fields: seq<Field>)

  datatype Field = Field(key: string, tree: Tree)

  const BOUNDED := String("[bounded]")
  const CIRCULAR := String("[circular]")
  const REDACTED := String("[REDACTED]")
  const MAXIMUM_DEPTH: nat := 16

  /** Text redaction and the test for sensitive keys are parameters. */
  datatype Policy = Policy(redact: string -> string, sensitive: string -> bool) {
    predicate Hides(isArray: bool, key: string) {
      !isArray && sensitive(key)
    }
  }

  // ----- the walk, as a function of the ancestors

  function Sanitize(p: Policy, g: Graph, v: Value, depth: nat, seen: set<nat>): Tree
    requires Closed(g) && InGraph(g, v)
    decreases MAXIMUM_DEPTH - depth
  {
    match v
    case Primitive(literal) => Leaf(literal)
    case Text(text) => String(p.redact(text))
    case Other(printed) => String(printed)
    case Ref(n) =>
      if depth >= MAXIMUM_DEPTH then BOUNDED
      else if n in seen then CIRCULAR
      else
        var node := g[n];
        Container(node.isArray, seq(|node.entries|, i requires 0 <= i < |node.entries| =>
          Field(node.entries[i].key,
                if p.Hides(node.isArray, node.entries[i].key) then REDACTED
                else Sanitize(p, g, node.entries[i].value, depth + 1, seen + {n}))))
  }

  /** The shared `WeakSet`. */
  class SeenSet {
    var members: set<nat>

    constructor ()
      ensures members == {}
    {
      members := {};
    }

    method Add(n: nat)
      modifies this
      ensures members == old(members) + {n}
    {
      members := members + {n};
    }

    method Delete(n: nat)
      modifies this
      ensures members == old(members) - {n}
    {
      members := members - {n};
    }
  }

  /** The walk reaches an object whose properties cannot be read. */
  ghost predicate Meets(p: Policy, g: Graph, unreadable: set<nat>, v: Value, depth: nat, seen: set<nat>)
    requires Closed(g) && InGraph(g, v)
    decreases MAXIMUM_DEPTH - depth
  {
    && v.Ref? && depth < MAXIMUM_DEPTH && v.node !in seen
    && (v.node in unreadable || exists i | 0 <= i < |g[v.node].entries| :: MeetsBelow(p, g, unreadable, v.node, i, depth, seen))
  }

  ghost predicate MeetsBelow(p: Policy, g: Graph, unreadable: set<nat>, n: nat, i: nat, depth: nat, seen: set<nat>)
    requires Closed(g) && n in g && i < |g[n].entries| && depth < MAXIMUM_DEPTH
    decreases MAXIMUM_DEPTH - depth, 0
  {
    var entry := g[n].entries[i];
    !p.Hides(g[n].isArray, entry.key) && Meets(p, g, unreadable, entry.value, depth + 1, seen + {n})
  }

  /**
   The recursive procedure; None is a throw, from an object whose properties cannot be read.
   Whatever it adds to the shared set it takes out again, also when it throws.
   */
  method SanitizeValue(p: Policy, g: Graph, unreadable: set<nat>, v: Value, depth: nat, seen: SeenSet) returns (tree: Option<Tree>)
    requires Closed(g) && InGraph(g, v)
    modifies seen
    ensures seen.members == old(seen.members)
    ensures tree == if Meets(p, g, unreadable, v, depth, old(seen.members)) then None else Some(Sanitize(p, g, v, depth, old(seen.members)))
    decreases MAXIMUM_DEPTH - depth
  {
    match v
    case Primitive(literal) => return Some(Leaf(literal));
    case Text(text) => return Some(String(p.redact(text)));
    case Other(printed) => return Some(String(printed));
    case Ref(n) =>
      if depth >= MAXIMUM_DEPTH {
        return Some(BOUNDED);
      }
      if n in seen.members {
        return Some(CIRCULAR);
      }
      ghost var ancestors := seen.members;
      seen.Add(n);
      if n in unreadable {
        seen.Delete(n);
        assert seen.members == ancestors;
        return None;
      }
      var node := g[n];
      var fields: seq<Field> := [];
      for i := 0 to |node.entries|
        invariant seen.members == ancestors + {n}
        invariant |fields| == i
        invariant forall k | 0 <= k < i :: !MeetsBelow(p, g, unreadable, n, k, depth, ancestors)
        invariant forall k | 0 <= k < i :: fields[k] == Field(node.entries[k].key,
                    if p.Hides(node.isArray, node.entries[k].key) then REDACTED
                    else Sanitize(p, g, node.entries[k].value, depth + 1, ancestors + {n}))
      {
        var entry := node.entries[i];
        var child := Some(REDACTED);
        if !p.Hides(node.isArray, entry.key) {
          child := SanitizeValue(p, g, unreadable, entry.value, depth + 1, seen);
        }
        assert child.None? <==> MeetsBelow(p, g, unreadable, n, i, depth, ancestors);
        if child.None? {
          seen.Delete(n);
          assert seen.members == ancestors;
          return None;
        }
        fields := fields + [Field(entry.key, child.value)];
      }
      seen.Delete(n);
      assert seen.members == ancestors;
      tree := Some(Container(node.isArray, fields));
      assert fields == Sanitize(p, g, v, depth, ancestors).fields;
  }

  /** On readable objects the procedure always returns. */
  lemma {:induction false} NothingUnreadable(p: Policy, g: Graph, v: Value, depth: nat, seen: set<nat>)
    requires Closed(g) && InGraph(g, v)
    ensures !Meets(p, g, {}, v, depth, seen)
    decreases MAXIMUM_DEPTH - depth
  {
    if v.Ref? && depth < MAXIMUM_DEPTH {
      forall i | 0 <= i < |g[v.node].entries|
        ensures !MeetsBelow(p, g, {}, v.node, i, depth, seen)
      {
        NothingUnreadable(p, g, g[v.node].entries[i].value, depth + 1, seen + {v.node});
      }
    }
  }

  // ----- what stands where in the output

  /** A position: which entry to take at each level. */
  type Path = seq<nat>

  /** Position `path` under `v` is walked: no step leads through a leaf, a limit, an ancestor or a hidden key. */
  predicate Visible(p: Policy, g: Graph, v: Value, depth: nat, seen: set<nat>, path: Path)
    requires Closed(g) && InGraph(g, v)
    decreases |path|
  {
    path == [] ||
    (&& v.Ref? && depth < MAXIMUM_DEPTH && v.node !in seen
     && var node := g[v.node];
        && path[0] < |node.entries|
        && !p.Hides(node.isArray, node.entries[path[0]].key)
        && Visible(p, g, node.entries[path[0]].value, depth + 1, seen + {v.node}, path[1..]))
  }

  function ValueAt(p: Policy, g: Graph, v: Value, depth: nat, seen: set<nat>, path: Path): (w: Value)
    requires Closed(g) && InGraph(g, v) && Visible(p, g, v, depth, seen, path)
    ensures InGraph(g, w)
    decreases |path|
  {
    if path == [] then v
    else ValueAt(p, g, g[v.node].entries[path[0]].value, depth + 1, seen + {v.node}, path[1..])
  }

  /** The objects passed through on the way. */
  function Ancestors(p: Policy, g: Graph, v: Value, depth: nat, seen: set<nat>, path: Path): set<nat>
    requires Closed(g) && InGraph(g, v) && Visible(p, g, v, depth, seen, path)
    decreases |path|
  {
    if path == [] then {}
    else {v.node} + Ancestors(p, g, g[v.node].entries[path[0]].value, depth + 1, seen + {v.node}, path[1..])
  }

  function TreeAt(t: Tree, path: Path): Option<Tree>
    decreases |path|
  {
    if path == [] then Some(t)
    else if !t.Container? || path[0] >= |t.fields| then None
    else TreeAt(t.fields[path[0]].tree, path[1..])
  }

  /** At every visible position stands the walk of the value there, with the objects on the way as its ancestors. */
  lemma {:induction false} OutputAtPosition(p: Policy, g: Graph, v: Value, depth: nat, seen: set<nat>, path: Path)
    requires Closed(g) && InGraph(g, v) && Visible(p, g, v, depth, seen, path)
    ensures TreeAt(Sanitize(p, g, v, depth, seen), path)
         == Some(Sanitize(p, g, ValueAt(p, g, v, depth, seen, path), depth + |path|,
                          seen + Ancestors(p, g, v, depth, seen, path)))
    decreases |path|
  {
    if path == [] {
      assert seen + {} == seen;
    } else {
      var child := g[v.node].entries[path[0]].value;
      OutputAtPosition(p, g, child, depth + 1, seen + {v.node}, path[1..]);
      assert seen + {v.node} + Ancestors(p, g, child, depth + 1, seen + {v.node}, path[1..])
          == seen + Ancestors(p, g, v, depth, seen, path);
    }
  }

  /**
   An object within the depth limit is replaced by "[circular]" exactly when it is its own
   ancestor. A shared object that is not its own ancestor is walked again.
   */
  lemma CircularMeansOwnAncestor(p: Policy, g: Graph, v: Value, path: Path)
    requires Closed(g) && InGraph(g, v) && Visible(p, g, v, 0, {}, path) && |path| < MAXIMUM_DEPTH
    requires ValueAt(p, g, v, 0, {}, path).Ref?
    ensures var n := ValueAt(p, g, v, 0, {}, path).node;
            var out := TreeAt(Sanitize(p, g, v, 0, {}), path);
            if n in Ancestors(p, g, v, 0, {}, path) then out == Some(CIRCULAR)
            else out.Some? && out.value.Container? && |out.value.fields| == |g[n].entries|
  {
    OutputAtPosition(p, g, v, 0, {}, path);
    assert {} + Ancestors(p, g, v, 0, {}, path) == Ancestors(p, g, v, 0, {}, path);
  }

  lemma {:induction false} VisibleIsBounded(p: Policy, g: Graph, v: Value, depth: nat, seen: set<nat>, path: Path)
    requires Closed(g) && InGraph(g, v) && Visible(p, g, v, depth, seen, path) && depth <= MAXIMUM_DEPTH
    ensures depth + |path| <= MAXIMUM_DEPTH
    decreases |path|
  {
    if path != [] {
      VisibleIsBounded(p, g, g[v.node].entries[path[0]].value, depth + 1, seen + {v.node}, path[1..]);
    }
  }

  /** An object in the output: of the same kind, with the same keys in order, and nothing but the marker under a sensitive one. */
  predicate Shows(p: Policy, out: Tree, node: Node) {
    && out.Container? && out.isArray == node.isArray && |out.fields| == |node.entries|
    && forall i | 0 <= i < |node.entries| ::
         && out.fields[i].key == node.entries[i].key
         && (!node.isArray && p.sensitive(node.entries[i].key) ==> out.fields[i].tree == String("[REDACTED]"))
  }

  /**
   The output at every visible position of a value, told from what is found there: a primitive
   stands unchanged, a text is redacted, what is neither is printed, and an object is cut off
   16 levels down, marked if it is its own ancestor, and shown otherwise.
   */
  lemma StandsAt(p: Policy, g: Graph, v: Value, path: Path)
    requires Closed(g) && InGraph(g, v) && Visible(p, g, v, 0, {}, path)
    ensures TreeAt(Sanitize(p, g, v, 0, {}), path).Some?
    ensures var w, out := ValueAt(p, g, v, 0, {}, path), TreeAt(Sanitize(p, g, v, 0, {}), path).value;
            match w
            case Primitive(literal) => out == Leaf(literal)
            case Text(text) => out == String(p.redact(text))
            case Other(printed) => out == String(printed)
            case Ref(n) =>
              if |path| == 16 then out == String("[bounded]")
              else if n in Ancestors(p, g, v, 0, {}, path) then out == String("[circular]")
              else Shows(p, out, g[n])
  {
    OutputAtPosition(p, g, v, 0, {}, path);
    VisibleIsBounded(p, g, v, 0, {}, path);
    assert {} + Ancestors(p, g, v, 0, {}, path) == Ancestors(p, g, v, 0, {}, path);
  }

  // ----- acyclic graphs

  /** The walk without any ancestor set. */
  function Unfold(p: Policy, g: Graph, v: Value, depth: nat): Tree
    requires Closed(g) && InGraph(g, v)
    decreases MAXIMUM_DEPTH - depth
  {
    match v
    case Primitive(literal) => Leaf(literal)
    case Text(text) => String(p.redact(text))
    case Other(printed) => String(printed)
    case Ref(n) =>
      if depth >= MAXIMUM_DEPTH then BOUNDED
      else
        var node := g[n];
        Container(node.isArray, seq(|node.entries|, i requires 0 <= i < |node.entries| =>
          Field(node.entries[i].key,
                if p.Hides(node.isArray, node.entries[i].key) then REDACTED
                else Unfold(p, g, node.entries[i].value, depth + 1))))
  }

  /** A ranking of the objects under which every reference leads downwards. */
  predicate Acyclic(g: Graph, rank: map<nat, nat>) {
    && (forall n | n in g :: n in rank)
    && forall n | n in g :: forall i | 0 <= i < |g[n].entries| :: Below(rank, g[n].entries[i].value, n)
  }

  predicate Below(rank: map<nat, nat>, v: Value, n: nat) {
    v.Ref? ==> v.node in rank && n in rank && rank[v.node] < rank[n]
  }

  /** On an acyclic graph the ancestor set never matters, however much is shared. */
  lemma {:induction false} AcyclicIsUnfolded(p: Policy, g: Graph, rank: map<nat, nat>, v: Value, depth: nat, seen: set<nat>)
    requires Closed(g) && InGraph(g, v) && Acyclic(g, rank)
    requires forall n | n in seen :: Below(rank, v, n)
    ensures Sanitize(p, g, v, depth, seen) == Unfold(p, g, v, depth)
    decreases MAXIMUM_DEPTH - depth
  {
    if v.Ref? && depth < MAXIMUM_DEPTH {
      var node := g[v.node];
      assert v.node !in seen by {
        assert v.node in seen ==> Below(rank, v, v.node);
      }
      forall i | 0 <= i < |node.entries|
        ensures Sanitize(p, g, node.entries[i].value, depth + 1, seen + {v.node}) == Unfold(p, g, node.entries[i].value, depth + 1)
      {
        var child := node.entries[i].value;
        assert Below(rank, child, v.node);
        assert forall n | n in seen :: Below(rank, v, n);
        AcyclicIsUnfolded(p, g, rank, child, depth + 1, seen + {v.node});
      }
      assert Sanitize(p, g, v, depth, seen).fields == Unfold(p, g, v, depth).fields;
    }
  }

  /** Nothing stands at a position that is not visible. */
  lemma {:induction false} OnlyVisiblePositions(p: Policy, g: Graph, v: Value, depth: nat, seen: set<nat>, path: Path)
    requires Closed(g) && InGraph(g, v) && !Visible(p, g, v, depth, seen, path)
    ensures TreeAt(Sanitize(p, g, v, depth, seen), path) in {None, Some(REDACTED)}
    decreases |path|
  {
    if v.Ref? && depth < MAXIMUM_DEPTH && v.node !in seen && path[0] < |g[v.node].entries| {
      var node := g[v.node];
      if p.Hides(node.isArray, node.entries[path[0]].key) {
        assert Sanitize(p, g, v, depth, seen).fields[path[0]].tree == REDACTED;
      } else {
        OnlyVisiblePositions(p, g, node.entries[path[0]].value, depth + 1, seen + {v.node}, path[1..]);
      }
    }
  }

  // ----- sensitive keys

  /** Under every sensitive key of an object stands the redaction marker and nothing else. */
  predicate Hidden(p: Policy, t: Tree) {
    t.Container? ==>
      forall i | 0 <= i < |t.fields| ::
        if p.Hides(t.isArray, t.fields[i].key) then t.fields[i].tree == REDACTED else Hidden(p, t.fields[i].tree)
  }

  lemma {:induction false} SensitiveKeysAreHidden(p: Policy, g: Graph, v: Value, depth: nat, seen: set<nat>)
    requires Closed(g) && InGraph(g, v)
    ensures Hidden(p, Sanitize(p, g, v, depth, seen))
    decreases MAXIMUM_DEPTH - depth
  {
    if v.Ref? && depth < MAXIMUM_DEPTH && v.node !in seen {
      var node := g[v.node];
      forall i | 0 <= i < |node.entries| && !p.Hides(node.isArray, node.entries[i].key)
        ensures Hidden(p, Sanitize(p, g, node.entries[i].value, depth + 1, seen + {v.node}))
      {
        SensitiveKeysAreHidden(p, g, node.entries[i].value, depth + 1, seen + {v.node});
      }
    }
  }

  // ----- sanitising twice

  /** The walk of a tree. */
  function SanitizeTree(p: Policy, t: Tree, depth: nat): Tree
    decreases t
  {
    match t
    case Leaf(literal) => t
    case String(text) => String(p.redact(text))
    case Container(isArray, fields) =>
      if depth >= MAXIMUM_DEPTH then BOUNDED
      else Container(isArray, seq(|fields|, i requires 0 <= i < |fields| =>
        Field(fields[i].key,
              if p.Hides(isArray, fields[i].key) then REDACTED else SanitizeTree(p, fields[i].tree, depth + 1))))
  }

  /** In the graph, `v` is the tree `t`: the output, read back in as a value. */
  predicate Represents(g: Graph, v: Value, t: Tree)
    decreases t
  {
    match t
    case Leaf(literal) => v == Primitive(literal)
    case String(text) => v == Text(text)
    case Container(isArray, fields) =>
      && v.Ref? && v.node in g
      && var node := g[v.node];
         && node.isArray == isArray && |node.entries| == |fields|
         && forall i | 0 <= i < |fields| ::
              node.entries[i].key == fields[i].key && Represents(g, node.entries[i].value, fields[i].tree)
  }

  function Size(t: Tree): nat {
    match t
    case Container(_, fields) => 1 + FieldsSize(fields)
    case _ => 1
  }

  function FieldsSize(fields: seq<Field>): nat {
    if fields == [] then 0 else Size(fields[0].tree) + FieldsSize(fields[1..])
  }

  lemma {:induction false} FieldIsSmaller(fields: seq<Field>, i: nat)
    requires i < |fields|
    ensures Size(fields[i].tree) <= FieldsSize(fields)
  {
    if i > 0 {
      FieldIsSmaller(fields[1..], i - 1);
    }
  }

  lemma {:induction false} RepresentsOne(g: Graph, v: Value, t: Tree, u: Tree)
    requires Represents(g, v, t) && Represents(g, v, u)
    ensures t == u
    decreases t
  {
    if t.Container? {
      forall i | 0 <= i < |t.fields|
        ensures t.fields[i] == u.fields[i]
      {
        RepresentsOne(g, g[v.node].entries[i].value, t.fields[i].tree, u.fields[i].tree);
      }
      assert t.fields == u.fields;
    }
  }

  /** Object `n` is the root of some tree bigger than `t`. */
  ghost predicate Larger(g: Graph, n: nat, t: Tree) {
    exists u :: Represents(g, Ref(n), u) && Size(u) > Size(t)
  }

  /** Sanitising any value that is a tree, with its ancestors in `seen`, is the walk of the tree. */
  lemma {:induction false} TreeIsWalked(p: Policy, g: Graph, v: Value, t: Tree, depth: nat, seen: set<nat>)
    requires Closed(g) && InGraph(g, v) && Represents(g, v, t)
    requires forall n | n in seen :: Larger(g, n, t)
    ensures Sanitize(p, g, v, depth, seen) == SanitizeTree(p, t, depth)
    decreases t
  {
    if t.Container? && depth < MAXIMUM_DEPTH {
      var node := g[v.node];
      if v.node in seen {
        assert Larger(g, v.node, t);
        var u :| Represents(g, v, u) && Size(u) > Size(t);
        RepresentsOne(g, v, t, u);
      } else {
        forall i | 0 <= i < |t.fields|
          ensures Sanitize(p, g, node.entries[i].value, depth + 1, seen + {v.node}) == SanitizeTree(p, t.fields[i].tree, depth + 1)
        {
          FieldIsSmaller(t.fields, i);
          StillLarger(g, v, t, t.fields[i].tree, seen);
          TreeIsWalked(p, g, node.entries[i].value, t.fields[i].tree, depth + 1, seen + {v.node});
        }
        assert Sanitize(p, g, v, depth, seen).fields == SanitizeTree(p, t, depth).fields;
      }
    }
  }

  lemma StillLarger(g: Graph, v: Value, t: Tree, child: Tree, seen: set<nat>)
    requires v.Ref? && Represents(g, v, t) && Size(child) < Size(t)
    requires forall n | n in seen :: Larger(g, n, t)
    ensures forall n | n in seen + {v.node} :: Larger(g, n, child)
  {
    hide Represents, Size;
    forall n | n in seen + {v.node}
      ensures Larger(g, n, child)
    {
      if n in seen {
        assert Larger(g, n, t);
      }
    }
  }

  /** What is assumed of text redaction. */
  ghost predicate GoodRedaction(p: Policy) {
    && (forall s: string :: p.redact(p.redact(s)) == p.redact(s))
    && p.redact(BOUNDED.text) == BOUNDED.text
    && p.redact(CIRCULAR.text) == CIRCULAR.text
  }

  /** Every printed value the walk emits is one that redaction would leave alone. */
  predicate PrintedAreClean(p: Policy, g: Graph, v: Value, depth: nat, seen: set<nat>)
    requires Closed(g) && InGraph(g, v)
    decreases MAXIMUM_DEPTH - depth
  {
    match v
    case Other(printed) => p.redact(printed) == printed
    case Ref(n) =>
      depth >= MAXIMUM_DEPTH || n in seen ||
      forall i | 0 <= i < |g[n].entries| ::
        p.Hides(g[n].isArray, g[n].entries[i].key) || PrintedAreClean(p, g, g[n].entries[i].value, depth + 1, seen + {n})
    case _ => true
  }

  lemma {:induction false} TwiceIsOnce(p: Policy, g: Graph, v: Value, depth: nat, seen: set<nat>)
    requires Closed(g) && InGraph(g, v) && GoodRedaction(p)
    ensures var t := Sanitize(p, g, v, depth, seen);
            SanitizeTree(p, t, depth) == t <==> PrintedAreClean(p, g, v, depth, seen)
    decreases MAXIMUM_DEPTH - depth
  {
    hide GoodRedaction;
    match v {
      case Primitive(literal) =>
      case Text(text) => RedactedText(p, text);
      case Other(printed) =>
      case Ref(n) =>
        if depth < MAXIMUM_DEPTH && n !in seen {
          var node := g[n];
          var t := Sanitize(p, g, v, depth, seen);
          var again := SanitizeTree(p, t, depth);
          forall i | 0 <= i < |node.entries|
            ensures again.fields[i] == t.fields[i] <==>
                    p.Hides(node.isArray, node.entries[i].key) || PrintedAreClean(p, g, node.entries[i].value, depth + 1, seen + {n})
          {
            if !p.Hides(node.isArray, node.entries[i].key) {
              TwiceIsOnce(p, g, node.entries[i].value, depth + 1, seen + {n});
            }
          }
          assert again == t <==> again.fields == t.fields;
        } else {
          MarkersAreClean(p);
        }
    }
  }

  lemma RedactedText(p: Policy, text: string)
    requires GoodRedaction(p)
    ensures p.redact(p.redact(text)) == p.redact(text)
  {
  }

  lemma MarkersAreClean(p: Policy)
    requires GoodRedaction(p)
    ensures p.redact(BOUNDED.text) == BOUNDED.text && p.redact(CIRCULAR.text) == CIRCULAR.text
  {
  }

  /**
   Sanitising the output again, read back in as any graph, gives the output itself exactly
   when every emitted value that is neither a string nor an object (a function, a symbol, a
   bigint) already prints as text that redaction leaves alone: those are printed without
   redaction the first time, and are redacted as strings the second time.
   */
  lemma IdempotentIffPrintedAreClean(p: Policy, g: Graph, v: Value, h: Graph, w: Value)
    requires Closed(g) && InGraph(g, v) && Closed(h) && InGraph(h, w) && GoodRedaction(p)
    requires Represents(h, w, Sanitize(p, g, v, 0, {}))
    ensures Sanitize(p, h, w, 0, {}) == Sanitize(p, g, v, 0, {}) <==> PrintedAreClean(p, g, v, 0, {})
  {
    TreeIsWalked(p, h, w, Sanitize(p, g, v, 0, {}), 0, {});
    TwiceIsOnce(p, g, v, 0, {});
  }

  /** A function whose source text names a secret is such a value. */
  lemma PrintedSecretIsNotRedacted(p: Policy, printed: string)
    requires p.redact(printed) != printed
    ensures Sanitize(p, map[], Other(printed), 0, {}) == String(printed)
    ensures Sanitize(p, map[], Text(printed), 0, {}) != String(printed)
  {
  }
}
