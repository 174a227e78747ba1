/** The loader of OTB files: one pass over the bytes with a stack of pointers into a tree of nodes held by value. */
module OtbLoaders {
  import opened Bytes
  import opened OtbFormat

  /** A pointer to a node of the tree: the child indices that lead to it from the root. */
  type Path = seq<nat>

  predicate HasPath(n: Node, p: Path)
    decreases p
  {
    p != [] ==> p[0] < |n.children| && HasPath(n.children[p[0]], p[1..])
  }

  function NodeAt(n: Node, p: Path): Node
    requires HasPath(n, p)
    decreases p
  {
    if p == [] then n else NodeAt(n.children[p[0]], p[1..])
  }

  function SetAt(n: Node, p: Path, m: Node): Node
    requires HasPath(n, p)
    decreases p
  {
    if p == [] then m else n.(children := n.children[p[0] := SetAt(n.children[p[0]], p[1..], m)])
  }

  /** q lies strictly below p, that is, in memory owned by the children vector of p or deeper. */
  predicate Below(q: Path, p: Path) {
    |p| < |q| && q[..|p|] == p
  }

  // ----- The chain of last children

  predicate HasSpine(n: Node, d: nat)
    decreases d
  {
    d > 0 ==> n.children != [] && HasSpine(n.children[|n.children| - 1], d - 1)
  }

  function Last(n: Node, d: nat): Node
    requires HasSpine(n, d)
    decreases d
  {
    if d == 0 then n else Last(n.children[|n.children| - 1], d - 1)
  }

  function SetLast(n: Node, d: nat, m: Node): (r: Node)
    requires HasSpine(n, d)
    ensures HasSpine(r, d) && Last(r, d) == m
    decreases d
  {
    if d == 0 then m
    else
      var k := |n.children| - 1;
      n.(children := n.children[k := SetLast(n.children[k], d - 1, m)])
  }

  function SpinePath(n: Node, d: nat): (p: Path)
    requires HasSpine(n, d)
    ensures |p| == d && HasPath(n, p) && NodeAt(n, p) == Last(n, d)
    decreases d
  {
    if d == 0 then []
    else
      var k := |n.children| - 1;
      var rest := SpinePath(n.children[k], d - 1);
      var p: Path := [k] + rest;
      assert p[1..] == rest;
      p
  }

  lemma {:induction false} ShorterSpine(n: Node, d: nat, k: nat)
    requires HasSpine(n, d) && k <= d
    ensures HasSpine(n, k)
    decreases d
  {
    if k > 0 {
      ShorterSpine(n.children[|n.children| - 1], d - 1, k - 1);
    }
  }

  lemma {:induction false} SetAtSpine(n: Node, d: nat, m: Node)
    requires HasSpine(n, d)
    ensures SetAt(n, SpinePath(n, d), m) == SetLast(n, d, m)
    decreases d
  {
    if d > 0 {
      var k := |n.children| - 1;
      SetAtSpine(n.children[k], d - 1, m);
      assert SpinePath(n, d)[1..] == SpinePath(n.children[k], d - 1);
    }
  }

  lemma {:induction false} SetKeepsPaths(n: Node, d: nat, m: Node, k: nat)
    requires HasSpine(n, d) && k <= d
    ensures HasSpine(n, k) && HasSpine(SetLast(n, d, m), k)
    ensures SpinePath(SetLast(n, d, m), k) == SpinePath(n, k)
    decreases d
  {
    if k > 0 {
      SetKeepsPaths(n.children[|n.children| - 1], d - 1, m, k - 1);
    }
  }

  lemma {:induction false} SetTwice(n: Node, d: nat, m: Node, m': Node)
    requires HasSpine(n, d)
    ensures SetLast(SetLast(n, d, m), d, m') == SetLast(n, d, m')
    decreases d
  {
    if d > 0 {
      SetTwice(n.children[|n.children| - 1], d - 1, m, m');
      assert SetLast(SetLast(n, d, m), d, m').children == SetLast(n, d, m').children;
    }
  }

  /** One level further down: the child that was put last into node m. */
  lemma {:induction false} SetDeeper(n: Node, d: nat, m: Node, cs: seq<Node>, c: Node, c': Node)
    requires HasSpine(n, d) && m.children == cs + [c]
    ensures HasSpine(SetLast(n, d, m), d + 1) && Last(SetLast(n, d, m), d + 1) == c
    ensures SetLast(SetLast(n, d, m), d + 1, c') == SetLast(n, d, m.(children := cs + [c']))
    ensures SpinePath(SetLast(n, d, m), d + 1) == SpinePath(n, d) + [|cs|]
    decreases d
  {
    var r := SetLast(n, d, m);
    if d == 0 {
      assert HasSpine(c, 0);
      assert SetLast(m, 1, c').children == cs + [c'];
      assert SpinePath(m, 1) == [|cs|];
      assert SpinePath(n, 0) + [|cs|] == [|cs|];
    } else {
      var k := |n.children| - 1;
      SetDeeper(n.children[k], d - 1, m, cs, c, c');
      assert r.children[k] == SetLast(n.children[k], d - 1, m) && |r.children| == k + 1;
      assert SetLast(r, d + 1, c').children == SetLast(n, d, m.(children := cs + [c'])).children;
      assert SpinePath(r, d + 1) == [k] + SpinePath(r.children[k], d);
    }
  }

  // ----- What remains to be read when some nodes are still open

  ghost predicate HasDepth(root: Node, d: nat) {
    d > 0 ==> HasSpine(root, d - 1)
  }

  /** The finished tree when the last `d` nodes of the chain of last children are open at position `i`. */
  ghost function Finish(s: seq<Byte>, i: nat, root: Node, d: nat): Parsed
    requires i <= |s| && HasDepth(root, d)
    decreases d
  {
    if d == 0 then (if TailOk(s, i) then Good(root, |s|) else Bad)
    else
      match ParseNode(s, i, Last(root, d - 1))
      case Bad => Bad
      case Good(n, j) =>
        ShorterIfAny(root, d - 1, n);
        Finish(s, j, SetLast(root, d - 1, n), d - 1)
  }

  lemma ShorterIfAny(n: Node, d: nat, m: Node)
    requires HasSpine(n, d)
    ensures d > 0 ==> HasSpine(SetLast(n, d, m), d - 1)
  {
    if d > 0 {
      ShorterSpine(SetLast(n, d, m), d, d - 1);
    }
  }

  lemma FinishSkips(s: seq<Byte>, i: nat, root: Node, d: nat)
    requires i < |s| && HasDepth(root, d)
    ensures Plain(s[i]) ==> Finish(s, i, root, d) == Finish(s, i + 1, root, d)
    ensures s[i] == ESCAPE && i + 1 < |s| ==> Finish(s, i, root, d) == Finish(s, i + 2, root, d)
  {
  }

  lemma FinishCloses(s: seq<Byte>, i: nat, root: Node, d: nat)
    requires i < |s| && d > 0 && HasDepth(root, d) && s[i] == END
    ensures var next := SetLast(root, d - 1, Closed(Last(root, d - 1), i));
            HasDepth(next, d - 1) && Finish(s, i, root, d) == Finish(s, i + 1, next, d - 1)
  {
    ShorterIfAny(root, d - 1, Closed(Last(root, d - 1), i));
  }

  /** The parent as a START leaves it: closed, with a child that has only a kind and a first position. */
  function Grown(n: Node, i: nat, kind: Byte): Node {
    var parent := Closed(n, i);
    parent.(children := parent.children + [Node(kind, i + 2, 0, [])])
  }

  lemma FinishDescends(s: seq<Byte>, i: nat, root: Node, d: nat)
    requires i + 1 < |s| && d > 0 && HasDepth(root, d) && s[i] == START
    ensures var next := SetLast(root, d - 1, Grown(Last(root, d - 1), i, s[i + 1]));
            HasDepth(next, d + 1) && Finish(s, i, root, d) == Finish(s, i + 2, next, d + 1)
  {
    var node := Last(root, d - 1);
    var parent := Closed(node, i);
    var blank := Node(s[i + 1], i + 2, 0, []);
    var grown := Grown(node, i, s[i + 1]);
    var next := SetLast(root, d - 1, grown);
    SetDeeper(root, d - 1, grown, parent.children, blank, blank);
    match ParseNode(s, i + 2, blank)
    case Bad =>
    case Good(child, j) =>
      var full := parent.(children := parent.children + [child]);
      SetDeeper(root, d - 1, grown, parent.children, blank, child);
      assert grown.(children := parent.children + [child]) == full;
      ShorterIfAny(next, d, child);
      assert Finish(s, i + 2, next, d + 1) == Finish(s, j, SetLast(root, d - 1, full), d);
      match ParseNode(s, j, full)
      case Bad =>
      case Good(n, k) => SetTwice(root, d - 1, full, n);
  }

  lemma FinishRefuses(s: seq<Byte>, i: nat, root: Node, d: nat)
    requires i < |s| && HasDepth(root, d)
    ensures d == 0 && (s[i] == START || s[i] == END) ==> Finish(s, i, root, d) == Bad
    ensures (s[i] == START || s[i] == ESCAPE) && i + 1 == |s| ==> Finish(s, i, root, d) == Bad
  {
  }

  const WILDCARD: seq<Byte> := [0, 0, 0, 0]

  function Resized(b: seq<Byte>, n: nat): (r: seq<Byte>)
    ensures |r| == n
  {
    if n <= |b| then b[..n] else b + seq(n - |b|, i => 0)
  }

  class Loader {
    const fileContents: seq<Byte>
    var root: Node
    var propBuffer: seq<Byte>

    constructor (contents: seq<Byte>)
      ensures fileContents == contents && root == UNPARSED
    {
      fileContents, root, propBuffer := contents, UNPARSED, [];
    }

    /** The checks on a file before it is parsed; null stands for the exception. */
    static method Open(contents: seq<Byte>, accepted: seq<Byte>) returns (loader: Loader?)
      requires |accepted| == IDENTIFIER_SIZE
      ensures loader != null <==>
                |contents| > IDENTIFIER_SIZE + 3 && (contents[..4] == accepted || contents[..4] == WILDCARD)
      ensures loader != null ==> fresh(loader) && loader.fileContents == contents && loader.root == UNPARSED
    {
      if |contents| <= IDENTIFIER_SIZE + 3 {
        return null;
      }
      var id := contents[..IDENTIFIER_SIZE];
      if id != accepted && id != WILDCARD {
        return null;
      }
      loader := new Loader(contents);
    }

    /** Ends the range of the node at p unless a child has done so. */
    method CloseProps(p: Path, at: nat, ghost live: set<Path>)
      requires p in live && HasPath(root, p)
      modifies this`root
      ensures root == SetAt(old(root), p, Closed(NodeAt(old(root), p), at))
    {
      var node := NodeAt(root, p);
      if node.children == [] {
        root := SetAt(root, p, node.(propsEnd := at));
      } else {
        SetSame(root, p);
      }
    }

    /** Grows the children of the node at p; pointers into those children do not survive it, all others do. */
    method EmplaceBack(p: Path, child: Node, ghost live: set<Path>) returns (q: Path, ghost left: set<Path>)
      requires p in live && HasPath(root, p)
      modifies this`root
      ensures var node := NodeAt(old(root), p);
              root == SetAt(old(root), p, node.(children := node.children + [child])) && q == p + [|node.children|]
      ensures left == (set x | x in live && !Below(x, p)) + {q}
    {
      var node := NodeAt(root, p);
      root := SetAt(root, p, node.(children := node.children + [child]));
      q := p + [|node.children|];
      left := (set x | x in live && !Below(x, p)) + {q};
    }

    /** Reads the tree; every node is reached through a pointer that is still alive. */
    method ParseTree() returns (ok: bool)
      requires |fileContents| > IDENTIFIER_SIZE + 3
      modifies this`root
      ensures ok <==> ParseInto(fileContents, old(root)).Good?
      ensures ok ==> root == ParseInto(fileContents, old(root)).node
    {
      hide Finish, SetLast, SetAt, NodeAt, HasPath, HasSpine, SpinePath, OnSpine, Last, ParseInto, Below, Closed;
      var s := fileContents;
      var it := IDENTIFIER_SIZE;
      if s[it] != START {
        NotStarted(s, root);
        return false;
      }
      it := it + 1;
      root := root.(kind := s[it]);
      it := it + 1;
      root := root.(propsBegin := it);
      var parseStack: seq<Path> := [[]];
      ghost var live: set<Path> := {[]};
      StackStarts(s, old(root));
      ghost var spec := Finish(s, it, root, 1);
      while it < |s|
        invariant it <= |s| && OnSpine(root, parseStack)
        invariant HasDepth(root, |parseStack|) && Finish(s, it, root, |parseStack|) == spec
        invariant forall p | p in parseStack :: p in live
        decreases |s| - it
      {
        ghost var d := |parseStack|;
        ghost var was := root;
        FinishSkips(s, it, root, d);
        FinishRefuses(s, it, root, d);
        if s[it] == START {
          if parseStack == [] {
            return false;
          }
          var top := parseStack[|parseStack| - 1];
          StartsNode(root, parseStack, s, it);
          CloseProps(top, it, live);
          if it + 1 == |s| {
            return false;
          }
          StackSurvives(was, parseStack);
          var child;
          child, live := EmplaceBack(top, Node(s[it + 1], it + 2, 0, []), live);
          parseStack := parseStack + [child];
          it := it + 2;
        } else if s[it] == END {
          if parseStack == [] {
            return false;
          }
          var top := parseStack[|parseStack| - 1];
          EndsNode(root, parseStack, s, it);
          CloseProps(top, it, live);
          parseStack := parseStack[..|parseStack| - 1];
          it := it + 1;
        } else if s[it] == ESCAPE {
          if it + 1 == |s| {
            return false;
          }
          it := it + 2;
        } else {
          it := it + 1;
        }
      }
      FinishEnds(s, root, |parseStack|);
      ok := parseStack == [];
    }

    /** Copies the properties of a node without their escapes; false when it has none. */
    method GetProps(node: Node) returns (ok: bool, props: seq<Byte>)
      requires node.propsBegin <= node.propsEnd <= |fileContents|
      modifies this`propBuffer
      ensures ok <==> node.propsBegin < node.propsEnd
      ensures props == Unescape(fileContents[node.propsBegin..node.propsEnd], false)
      ensures ok ==>
                && |propBuffer| == node.propsEnd - node.propsBegin
                && |props| <= |propBuffer| && props == propBuffer[..|props|]
    {
      var size := node.propsEnd - node.propsBegin;
      if size == 0 {
        return false, [];
      }
      propBuffer := Resized(propBuffer, size);
      var lastEscaped := false;
      var i, out := node.propsBegin, 0;
      ghost var range := fileContents[node.propsBegin..node.propsEnd];
      assert fileContents[i..node.propsEnd] == range;
      while i < node.propsEnd
        invariant node.propsBegin <= i <= node.propsEnd && out <= i - node.propsBegin && |propBuffer| == size
        invariant propBuffer[..out] + Unescape(fileContents[i..node.propsEnd], lastEscaped) == Unescape(range, false)
      {
        ghost var rest := fileContents[i..node.propsEnd];
        assert rest[1..] == fileContents[i + 1..node.propsEnd];
        lastEscaped := fileContents[i] == ESCAPE && !lastEscaped;
        if !lastEscaped {
          ghost var kept := propBuffer[..out];
          propBuffer := propBuffer[out := fileContents[i]];
          out := out + 1;
          assert propBuffer[..out] == kept + [fileContents[i]];
        }
        i := i + 1;
      }
      assert fileContents[i..node.propsEnd] == [];
      assert propBuffer[..out] + [] == propBuffer[..out];
      return true, propBuffer[..out];
    }
  }

  // ----- The stack

  /** Every pointer on the stack is the one to its depth on the chain of last children. */
  ghost predicate OnSpine(root: Node, stack: seq<Path>) {
    HasDepth(root, |stack|) && forall k | 0 <= k < |stack| :: HasSpine(root, k) && stack[k] == SpinePath(root, k)
  }

  lemma StackSurvives(root: Node, stack: seq<Path>)
    requires OnSpine(root, stack) && stack != []
    ensures forall p | p in stack :: !Below(p, stack[|stack| - 1])
  {
  }

  lemma {:induction false} SetSame(n: Node, p: Path)
    requires HasPath(n, p)
    ensures SetAt(n, p, NodeAt(n, p)) == n
    decreases p
  {
    if p != [] {
      SetSame(n.children[p[0]], p[1..]);
      assert n.children[p[0] := n.children[p[0]]] == n.children;
    }
  }

  /** What the two writes of a START do to the tree, to the stack and to what remains. */
  lemma StartsNode(root: Node, stack: seq<Path>, s: seq<Byte>, i: nat)
    requires OnSpine(root, stack) && stack != [] && i < |s| && s[i] == START
    ensures var top, d := stack[|stack| - 1], |stack|;
            && HasPath(root, top)
            && var closed := SetAt(root, top, Closed(NodeAt(root, top), i));
            && HasPath(closed, top)
            && (i + 1 < |s| ==>
                  && var n := NodeAt(closed, top);
                  && var next := SetAt(closed, top, n.(children := n.children + [Node(s[i + 1], i + 2, 0, [])]));
                  && OnSpine(next, stack + [top + [|n.children|]])
                  && HasDepth(next, d + 1) && Finish(s, i, root, d) == Finish(s, i + 2, next, d + 1))
  {
    hide OnSpine, Finish;
    var top, d := stack[|stack| - 1], |stack| - 1;
    TopIs(root, stack);
    var closed := Closed(Last(root, d), i);
    SetAtSpine(root, d, closed);
    SetKeepsPaths(root, d, closed, d);
    if i + 1 < |s| {
      var grown := Grown(Last(root, d), i, s[i + 1]);
      SetAtSpine(SetLast(root, d, closed), d, grown);
      SetTwice(root, d, closed, grown);
      FinishDescends(s, i, root, d + 1);
      Descend(root, stack, i, s[i + 1]);
    }
  }

  lemma EndsNode(root: Node, stack: seq<Path>, s: seq<Byte>, i: nat)
    requires OnSpine(root, stack) && stack != [] && i < |s| && s[i] == END
    ensures var top, d := stack[|stack| - 1], |stack|;
            && HasPath(root, top)
            && var next := SetAt(root, top, Closed(NodeAt(root, top), i));
            && OnSpine(next, stack[..d - 1])
            && HasDepth(next, d - 1) && Finish(s, i, root, d) == Finish(s, i + 1, next, d - 1)
  {
    hide OnSpine, Finish;
    var d := |stack| - 1;
    TopIs(root, stack);
    SetAtSpine(root, d, Closed(Last(root, d), i));
    FinishCloses(s, i, root, d + 1);
    Ascend(root, stack, i);
  }

  lemma TopIs(root: Node, stack: seq<Path>)
    requires OnSpine(root, stack) && stack != []
    ensures HasSpine(root, |stack| - 1) && stack[|stack| - 1] == SpinePath(root, |stack| - 1)
  {
  }

  lemma Descend(root: Node, stack: seq<Path>, i: nat, kind: Byte)
    requires OnSpine(root, stack) && stack != []
    ensures var d := |stack| - 1;
            var next := SetLast(root, d, Grown(Last(root, d), i, kind));
            OnSpine(next, stack + [stack[d] + [|Last(root, d).children|]])
  {
    var d := |stack| - 1;
    var grown := Grown(Last(root, d), i, kind);
    var next := SetLast(root, d, grown);
    var blank := Node(kind, i + 2, 0, []);
    SetDeeper(root, d, grown, Last(root, d).children, blank, blank);
    forall k | 0 <= k < |stack| ensures HasSpine(next, k) && stack[k] == SpinePath(next, k) {
      SetKeepsPaths(root, d, grown, k);
    }
  }

  lemma Ascend(root: Node, stack: seq<Path>, i: nat)
    requires OnSpine(root, stack) && stack != []
    ensures var d := |stack| - 1;
            OnSpine(SetLast(root, d, Closed(Last(root, d), i)), stack[..d])
  {
    var d := |stack| - 1;
    var next := SetLast(root, d, Closed(Last(root, d), i));
    forall k | 0 <= k < d
      ensures HasSpine(next, k) && stack[k] == SpinePath(next, k)
    {
      SetKeepsPaths(root, d, Closed(Last(root, d), i), k);
    }
    ShorterIfAny(root, d, Closed(Last(root, d), i));
  }

  lemma StackStarts(s: seq<Byte>, root: Node)
    requires |s| > IDENTIFIER_SIZE + 3 && s[IDENTIFIER_SIZE] == START
    ensures var first := root.(kind := s[5], propsBegin := 6);
            && OnSpine(first, [[]]) && HasDepth(first, 1)
            && var spec := Finish(s, 6, first, 1);
            && (spec.Good? <==> ParseInto(s, root).Good?)
            && (spec.Good? ==> spec.node == ParseInto(s, root).node)
  {
    assert HasSpine(root.(kind := s[5], propsBegin := 6), 0);
  }

  lemma NotStarted(s: seq<Byte>, root: Node)
    requires |s| > IDENTIFIER_SIZE && s[IDENTIFIER_SIZE] != START
    ensures ParseInto(s, root) == Bad
  {
  }

  lemma FinishEnds(s: seq<Byte>, root: Node, d: nat)
    requires HasDepth(root, d)
    ensures Finish(s, |s|, root, d) == if d == 0 then Good(root, |s|) else Bad
  {
  }
}
