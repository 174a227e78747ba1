/** The OTB file format: nested nodes with escaped properties, what its bytes mean and how the loader reads them. */
module OtbFormat {
  import opened Bytes

  const ESCAPE: Byte := 0xFD
  const START: Byte := 0xFE
  const END: Byte := 0xFF

  /** A parsed node: properties as a range of the file, children in order. */
  datatype Node = Node(kind: Byte, propsBegin: nat, propsEnd: nat, children: seq<Node>)

  datatype Parsed = Bad | Good(node: Node, next: nat)

  // ----- Reading one node after the other, by recursion

  /** Where a node's properties end, unless a child has already ended them. */
  function Closed(n: Node, at: nat): Node {
    if n.children == [] then n.(propsEnd := at) else n
  }

  /** Reads the rest of `node` from position `i` on, up to and with its END. */
  function ParseNode(s: seq<Byte>, i: nat, node: Node): (r: Parsed)
    requires i <= |s|
    ensures r.Good? ==> i < r.next <= |s|
    decreases |s| - i
  {
    if i == |s| then Bad
    else if s[i] == END then Good(Closed(node, i), i + 1)
    else if s[i] == ESCAPE then (if i + 1 == |s| then Bad else ParseNode(s, i + 2, node))
    else if s[i] == START then
      if i + 1 == |s| then Bad
      else
        match ParseNode(s, i + 2, Node(s[i + 1], i + 2, 0, []))
        case Bad => Bad
        case Good(child, j) =>
          var parent := Closed(node, i);
          ParseNode(s, j, parent.(children := parent.children + [child]))
    else ParseNode(s, i + 1, node)
  }

  /** After the root has ended only plain and escaped bytes may follow. */
  predicate TailOk(s: seq<Byte>, i: nat)
    requires i <= |s|
    decreases |s| - i
  {
    if i == |s| then true
    else if s[i] == START || s[i] == END then false
    else if s[i] == ESCAPE then i + 1 < |s| && TailOk(s, i + 2)
    else TailOk(s, i + 1)
  }

  const IDENTIFIER_SIZE: nat := 4

  const UNPARSED := Node(0, 0, 0, [])

  /** What the bytes of a well-formed file make of a root node, which is UNPARSED unless the file was read before. */
  function ParseInto(s: seq<Byte>, root: Node): Parsed {
    if |s| <= IDENTIFIER_SIZE + 3 || s[IDENTIFIER_SIZE] != START then Bad
    else
      match ParseNode(s, 6, root.(kind := s[5], propsBegin := 6))
      case Bad => Bad
      case Good(n, j) => if TailOk(s, j) then Good(n, j) else Bad
  }

  function ParseFile(s: seq<Byte>): Parsed {
    ParseInto(s, UNPARSED)
  }

  // ----- The language of well-formed files

  /** What stands between the START and the END of a node. */
  datatype Elem = Raw(b: Byte) | Esc(b: Byte) | Sub(kind: Byte, body: seq<Elem>)

  predicate Plain(b: Byte) {
    b != ESCAPE && b != START && b != END
  }

  predicate WellFormed(es: seq<Elem>) {
    es != [] ==>
      && WellFormed(es[1..])
      && match es[0]
         case Raw(b) => Plain(b)
         case Esc(_) => true
         case Sub(_, body) => WellFormed(body)
  }

  function RenderOne(e: Elem): (bs: seq<Byte>)
    ensures |bs| > 0
    decreases e, 1
  {
    match e
    case Raw(b) => [b]
    case Esc(b) => [ESCAPE, b]
    case Sub(kind, body) => [START, kind] + Render(body) + [END]
  }

  function Render(es: seq<Elem>): seq<Byte>
    decreases es, 0
  {
    if es == [] then [] else RenderOne(es[0]) + Render(es[1..])
  }

  /** The node a body makes of `node` when it stands at position `i` of the file. */
  function Fill(node: Node, es: seq<Elem>, i: nat): Node
    decreases es
  {
    if es == [] then Closed(node, i)
    else
      match es[0]
      case Sub(kind, body) =>
        var parent := Closed(node, i);
        var child := Fill(Node(kind, i + 2, 0, []), body, i + 2);
        Fill(parent.(children := parent.children + [child]), es[1..], i + |RenderOne(es[0])|)
      case _ => Fill(node, es[1..], i + |RenderOne(es[0])|)
  }

  // ----- The reader accepts exactly the language, and reads what it means

  /** How the first element of a body lies in the file. */
  lemma AtFirst(s: seq<Byte>, i: nat, es: seq<Elem>)
    requires es != [] && At(s, i, Render(es))
    ensures At(s, i + |RenderOne(es[0])|, Render(es[1..]))
    ensures !es[0].Raw? ==> |RenderOne(es[0])| >= 2 && i + 1 < |s|
    ensures match es[0]
            case Raw(b) => s[i] == b
            case Esc(b) => s[i] == ESCAPE && s[i + 1] == b
            case Sub(kind, body) =>
              && s[i] == START && s[i + 1] == kind
              && |RenderOne(es[0])| == |Render(body)| + 3
              && At(s, i + 2, Render(body) + [END])
  {
    hide At;
    AtParts(s, i, RenderOne(es[0]), Render(es[1..]));
    match es[0]
    case Raw(b) => AtByte(s, i, b);
    case Esc(b) =>
      assert RenderOne(es[0]) == [ESCAPE] + [b];
      AtParts(s, i, [ESCAPE], [b]);
      AtByte(s, i, ESCAPE);
      AtByte(s, i + 1, b);
    case Sub(kind, body) =>
      assert RenderOne(es[0]) == [START] + ([kind] + (Render(body) + [END]));
      AtParts(s, i, [START], [kind] + (Render(body) + [END]));
      AtParts(s, i + 1, [kind], Render(body) + [END]);
      AtByte(s, i, START);
      AtByte(s, i + 1, kind);
  }

  lemma {:induction false} ReadsBody(s: seq<Byte>, i: nat, es: seq<Elem>, node: Node)
    requires WellFormed(es) && At(s, i, Render(es) + [END])
    ensures i + |Render(es)| < |s|
    ensures ParseNode(s, i, node) == Good(Fill(node, es, i), i + |Render(es)| + 1)
    decreases es
  {
    hide At;
    AtParts(s, i, Render(es), [END]);
    AtByte(s, i + |Render(es)|, END);
    if es != [] {
      var n := |RenderOne(es[0])|;
      AtFirst(s, i, es);
      AtParts(s, i + n, Render(es[1..]), [END]);
      if es[0].Sub? {
        var kind, body := es[0].kind, es[0].body;
        var blank := Node(kind, i + 2, 0, []);
        ReadsBody(s, i + 2, body, blank);
        var parent := Closed(node, i);
        ReadsBody(s, i + n, es[1..], parent.(children := parent.children + [Fill(blank, body, i + 2)]));
      } else {
        ReadsBody(s, i + n, es[1..], node);
      }
    }
  }

  lemma RenderCons(e: Elem, es: seq<Elem>)
    ensures Render([e] + es) == RenderOne(e) + Render(es)
  {
    assert ([e] + es)[1..] == es;
  }

  lemma WellFormedCons(e: Elem, es: seq<Elem>)
    requires WellFormed(es)
    requires match e case Raw(b) => Plain(b) case Esc(_) => true case Sub(_, body) => WellFormed(body)
    ensures WellFormed([e] + es)
  {
    assert ([e] + es)[1..] == es;
  }

  lemma BodyGrows(s: seq<Byte>, e: Elem, es: seq<Elem>, i: nat, j: nat, k: nat)
    requires i <= j <= k <= |s| && s[i..j] == RenderOne(e) && s[j..k] == Render(es) + [END]
    ensures s[i..k] == Render([e] + es) + [END]
  {
    RenderCons(e, es);
    assert s[i..k] == s[i..j] + s[j..k];
  }

  lemma NoElems()
    ensures WellFormed([]) && Render([]) == []
  {
  }

  lemma {:induction false} BodyOf(s: seq<Byte>, i: nat, node: Node) returns (es: seq<Elem>)
    requires i <= |s| && ParseNode(s, i, node).Good?
    ensures var r := ParseNode(s, i, node);
            WellFormed(es) && s[i..r.next] == Render(es) + [END]
    decreases |s| - i, 1
  {
    hide Render, RenderOne, WellFormed;
    var r := ParseNode(s, i, node);
    if s[i] == END {
      es := [];
      NoElems();
    } else {
      var e, j, n := FirstOf(s, i, node);
      var rest := BodyOf(s, j, n);
      WellFormedCons(e, rest);
      BodyGrows(s, e, rest, i, j, r.next);
      es := [e] + rest;
    }
  }

  /** The first element of a body that is read, where it ends and the node it leaves. */
  lemma FirstOf(s: seq<Byte>, i: nat, node: Node) returns (e: Elem, j: nat, n: Node)
    requires i < |s| && s[i] != END && ParseNode(s, i, node).Good?
    ensures i < j <= |s| && s[i..j] == RenderOne(e)
    ensures ParseNode(s, i, node) == ParseNode(s, j, n)
    ensures match e case Raw(b) => Plain(b) case Esc(_) => true case Sub(_, body) => WellFormed(body)
    decreases |s| - i, 0
  {
    if s[i] == ESCAPE {
      e, j, n := Esc(s[i + 1]), i + 2, node;
    } else if s[i] == START {
      var blank := Node(s[i + 1], i + 2, 0, []);
      var body := BodyOf(s, i + 2, blank);
      var child := ParseNode(s, i + 2, blank);
      var parent := Closed(node, i);
      e, j, n := Sub(s[i + 1], body), child.next, parent.(children := parent.children + [child.node]);
      assert s[i..j] == [s[i], s[i + 1]] + s[i + 2..j];
    } else {
      e, j, n := Raw(s[i]), i + 1, node;
    }
  }

  predicate NoNodes(es: seq<Elem>) {
    es != [] ==> NoNodes(es[1..]) && !es[0].Sub? && (es[0].Raw? ==> Plain(es[0].b))
  }

  lemma {:induction false} TailReads(pre: seq<Byte>, es: seq<Elem>)
    requires NoNodes(es)
    ensures TailOk(pre + Render(es), |pre|)
    decreases es
  {
    var s := pre + Render(es);
    if es != [] {
      var pre' := pre + RenderOne(es[0]);
      assert s == pre' + Render(es[1..]);
      assert s[|pre|] == RenderOne(es[0])[0];
      TailReads(pre', es[1..]);
    }
  }

  lemma {:induction false} TailIs(s: seq<Byte>, i: nat) returns (es: seq<Elem>)
    requires i <= |s| && TailOk(s, i)
    ensures NoNodes(es) && s[i..] == Render(es)
    decreases |s| - i
  {
    if i == |s| {
      es := [];
    } else if s[i] == ESCAPE {
      var rest := TailIs(s, i + 2);
      es := [Esc(s[i + 1])] + rest;
      assert es[1..] == rest && s[i..] == [s[i], s[i + 1]] + s[i + 2..];
    } else {
      var rest := TailIs(s, i + 1);
      es := [Raw(s[i])] + rest;
      assert es[1..] == rest && s[i..] == [s[i]] + s[i + 1..];
    }
  }

  /** The bytes of a file with a given identifier, root body and trailing bytes. */
  function Document(id: seq<Byte>, kind: Byte, body: seq<Elem>, tail: seq<Elem>): seq<Byte> {
    id + [START, kind] + Render(body) + [END] + Render(tail)
  }

  /** A file is read exactly when it is a document longer than an empty root node. */
  lemma FileIsRead(id: seq<Byte>, kind: Byte, body: seq<Elem>, tail: seq<Elem>)
    requires |id| == IDENTIFIER_SIZE && WellFormed(body) && NoNodes(tail)
    ensures ParseFile(Document(id, kind, body, tail)).Good? <==> body != [] || tail != []
    ensures body != [] || tail != [] ==>
              ParseFile(Document(id, kind, body, tail)).node == Fill(Node(kind, 6, 0, []), body, 6)
  {
    hide Render, ParseNode, TailOk, Fill, WellFormed, NoNodes;
    var s := Document(id, kind, body, tail);
    var pre := id + [START, kind];
    var read := Render(body) + [END];
    assert s == pre + read + Render(tail) && s[4] == START && s[5] == kind;
    AtAfter(pre, read, Render(tail));
    ReadsBody(s, 6, body, Node(kind, 6, 0, []));
    TailReads(pre + read, tail);
    RenderedSize(body);
    RenderedSize(tail);
  }

  lemma AtAfter(a: seq<Byte>, b: seq<Byte>, c: seq<Byte>)
    ensures At(a + b + c, |a|, b)
  {
  }

  lemma RenderedSize(es: seq<Elem>)
    ensures |Render(es)| == 0 <==> es == []
  {
  }

  lemma ReadFileIsDocument(s: seq<Byte>) returns (body: seq<Elem>, tail: seq<Elem>)
    requires ParseFile(s).Good?
    ensures WellFormed(body) && NoNodes(tail) && (body != [] || tail != [])
    ensures s == Document(s[..4], s[5], body, tail)
  {
    var node := Node(s[5], 6, 0, []);
    body := BodyOf(s, 6, node);
    var j := ParseNode(s, 6, node).next;
    tail := TailIs(s, j);
    assert s == s[..4] + [s[4], s[5]] + s[6..j] + s[j..];
  }

  // ----- Ranges

  /** All property ranges of a tree of nodes lie in the file. */
  ghost predicate Ranged(n: Node, size: nat) {
    n.propsBegin <= n.propsEnd <= size && forall c | c in n.children :: Ranged(c, size)
  }

  /** A node that is still being read: once it has a child its range is known. */
  ghost predicate Opened(n: Node, i: nat, size: nat) {
    && n.propsBegin <= i <= size
    && (n.children != [] ==> Ranged(n, size))
  }

  lemma {:induction false} ParsedIsRanged(s: seq<Byte>, i: nat, node: Node)
    requires Opened(node, i, |s|) && ParseNode(s, i, node).Good?
    ensures Ranged(ParseNode(s, i, node).node, |s|)
    decreases |s| - i
  {
    if s[i] == ESCAPE {
      ParsedIsRanged(s, i + 2, node);
    } else if s[i] == START {
      var blank := Node(s[i + 1], i + 2, 0, []);
      ParsedIsRanged(s, i + 2, blank);
      var child := ParseNode(s, i + 2, blank);
      var parent := Closed(node, i);
      ParsedIsRanged(s, child.next, parent.(children := parent.children + [child.node]));
    } else if s[i] != END {
      ParsedIsRanged(s, i + 1, node);
    }
  }

  lemma FileIsRanged(s: seq<Byte>)
    requires ParseFile(s).Good?
    ensures Ranged(ParseFile(s).node, |s|)
  {
    ParsedIsRanged(s, 6, Node(s[5], 6, 0, []));
  }

  // ----- Properties

  /** The bytes that `getProps` keeps of a range; `escaped` says whether the byte before was an escape. */
  function Unescape(bs: seq<Byte>, escaped: bool): seq<Byte> {
    if bs == [] then []
    else
      var skip := bs[0] == ESCAPE && !escaped;
      (if skip then [] else [bs[0]]) + Unescape(bs[1..], skip)
  }

  predicate Special(b: Byte) {
    b == ESCAPE || b == START || b == END
  }

  /** How a property byte is written. */
  function Escaped(props: seq<Byte>): seq<Elem> {
    if props == [] then [] else [if Special(props[0]) then Esc(props[0]) else Raw(props[0])] + Escaped(props[1..])
  }

  lemma {:induction false} EscapedIsPlain(props: seq<Byte>)
    ensures NoNodes(Escaped(props)) && (Escaped(props) == [] <==> props == [])
  {
    if props != [] {
      EscapedIsPlain(props[1..]);
    }
  }

  lemma {:induction false} UnescapeInverts(props: seq<Byte>)
    ensures Unescape(Render(Escaped(props)), false) == props
  {
    if props != [] {
      UnescapeInverts(props[1..]);
      var es := Escaped(props);
      assert es[1..] == Escaped(props[1..]);
      var rest := Render(es[1..]);
      if Special(props[0]) {
        assert Render(es) == [ESCAPE, props[0]] + rest;
        assert Render(es)[1..] == [props[0]] + rest;
        assert Render(es)[1..][1..] == rest;
        assert Unescape(Render(es)[1..], true) == [props[0]] + Unescape(rest, false);
      } else {
        assert Render(es) == [props[0]] + rest;
        assert Render(es)[1..] == rest;
      }
    }
  }

  // ----- Trees as they are written

  datatype Tree = Tree(kind: Byte, props: seq<Byte>, children: seq<Tree>)

  function BodyElems(t: Tree): seq<Elem>
    decreases t, 1
  {
    Escaped(t.props) + ChildElems(t.children)
  }

  function ChildElems(ts: seq<Tree>): seq<Elem>
    decreases ts, 0
  {
    if ts == [] then [] else [Sub(ts[0].kind, BodyElems(ts[0]))] + ChildElems(ts[1..])
  }

  /** The node stands for the tree: same kind, same properties once unescaped, same children in order. */
  ghost predicate Matches(s: seq<Byte>, n: Node, t: Tree)
    decreases t
  {
    && n.kind == t.kind && n.propsBegin <= n.propsEnd <= |s|
    && Unescape(s[n.propsBegin..n.propsEnd], false) == t.props
    && (n.propsBegin == n.propsEnd <==> t.props == [])
    && |n.children| == |t.children|
    && forall i | 0 <= i < |t.children| :: Matches(s, n.children[i], t.children[i])
  }

  lemma {:induction false} RenderConcat(a: seq<Elem>, b: seq<Elem>)
    ensures Render(a + b) == Render(a) + Render(b)
    ensures WellFormed(a) && WellFormed(b) ==> WellFormed(a + b)
  {
    if a == [] {
      assert a + b == b;
    } else {
      assert (a + b)[1..] == a[1..] + b;
      RenderConcat(a[1..], b);
    }
  }

  lemma {:induction false} NoNodesWellFormed(es: seq<Elem>)
    requires NoNodes(es)
    ensures WellFormed(es)
  {
    if es != [] {
      NoNodesWellFormed(es[1..]);
    }
  }

  lemma {:induction false} ElemsWellFormed(t: Tree)
    ensures WellFormed(BodyElems(t))
    decreases t, 1
  {
    EscapedIsPlain(t.props);
    NoNodesWellFormed(Escaped(t.props));
    ChildElemsWellFormed(t.children);
    RenderConcat(Escaped(t.props), ChildElems(t.children));
  }

  lemma {:induction false} ChildElemsWellFormed(ts: seq<Tree>)
    ensures WellFormed(ChildElems(ts))
    decreases ts, 0
  {
    if ts != [] {
      ElemsWellFormed(ts[0]);
      ChildElemsWellFormed(ts[1..]);
    }
  }

  /** Bytes without nodes leave the node open and only move on. */
  lemma {:induction false} FillSkips(node: Node, a: seq<Elem>, b: seq<Elem>, i: nat)
    requires NoNodes(a)
    ensures Fill(node, a + b, i) == Fill(node, b, i + |Render(a)|)
  {
    if a == [] {
      assert a + b == b;
    } else {
      assert (a + b)[0] == a[0] && (a + b)[1..] == a[1..] + b;
      FillSkips(node, a[1..], b, i + |RenderOne(a[0])|);
    }
  }

  /** The node read at the place where a tree was written stands for that tree. */
  lemma {:induction false} FilledMatches(s: seq<Byte>, t: Tree, i: nat)
    requires At(s, i, Render(BodyElems(t)))
    ensures Matches(s, Fill(Node(t.kind, i, 0, []), BodyElems(t), i), t)
    decreases t, 1
  {
    hide At, Render, Escaped, Unescape, Fill, NoNodes, ChildElems;
    var props := Escaped(t.props);
    var node := Node(t.kind, i, 0, []);
    EscapedIsPlain(t.props);
    UnescapeInverts(t.props);
    RenderConcat(props, ChildElems(t.children));
    FillSkips(node, props, ChildElems(t.children), i);
    AtParts(s, i, Render(props), Render(ChildElems(t.children)));
    AtIs(s, i, Render(props));
    FilledChildren(s, node, t.children, i + |Render(props)|);
    RenderedSize(props);
  }

  /** Children written one after the other are read back in order. */
  lemma {:induction false} FilledChildren(s: seq<Byte>, node: Node, ts: seq<Tree>, i: nat)
    requires At(s, i, Render(ChildElems(ts)))
    ensures var n := Fill(node, ChildElems(ts), i);
            && n.kind == node.kind && n.propsBegin == node.propsBegin
            && n.propsEnd == (if node.children == [] then i else node.propsEnd)
            && |n.children| == |node.children| + |ts| && n.children[..|node.children|] == node.children
            && forall k | 0 <= k < |ts| :: Matches(s, n.children[|node.children| + k], ts[k])
    decreases ts, 0
  {
    hide Matches, At, Render, RenderOne, BodyElems;
    if ts != [] {
      var t, es := ts[0], ChildElems(ts);
      assert es[0] == Sub(t.kind, BodyElems(t)) && es[1..] == ChildElems(ts[1..]);
      AtFirst(s, i, es);
      AtParts(s, i + 2, Render(BodyElems(t)), [END]);
      FilledMatches(s, t, i + 2);
      var j := i + |RenderOne(es[0])|;
      var child := Fill(Node(t.kind, i + 2, 0, []), BodyElems(t), i + 2);
      var parent := Closed(node, i);
      var next := parent.(children := parent.children + [child]);
      FilledChildren(s, next, ts[1..], j);
      var n := Fill(node, es, i);
      assert n == Fill(next, es[1..], j);
      assert n.children[|node.children|] == child by {
        assert n.children[..|next.children|][|node.children|] == next.children[|node.children|];
      }
      assert n.children[..|node.children|] == n.children[..|next.children|][..|node.children|];
      forall k | 0 <= k < |ts|
        ensures Matches(s, n.children[|node.children| + k], ts[k])
      {
        if k > 0 {
          assert Matches(s, n.children[|next.children| + (k - 1)], ts[1..][k - 1]);
        }
      }
    }
  }

  /** Writing a tree and reading the file gives the tree back; only an empty root is refused, for its size. */
  lemma TreeRoundTrip(id: seq<Byte>, t: Tree)
    requires |id| == IDENTIFIER_SIZE
    ensures var s := Document(id, t.kind, BodyElems(t), []);
            && (ParseFile(s).Good? <==> t.props != [] || t.children != [])
            && (ParseFile(s).Good? ==> Matches(s, ParseFile(s).node, t))
  {
    hide ParseFile, Fill, Matches, Escaped, BodyElems, WellFormed;
    var s := Document(id, t.kind, BodyElems(t), []);
    ElemsWellFormed(t);
    EmptyTree(t);
    FileIsRead(id, t.kind, BodyElems(t), []);
    assert s[6..6 + |Render(BodyElems(t))|] == Render(BodyElems(t));
    FilledMatches(s, t, 6);
  }

  lemma EmptyTree(t: Tree)
    ensures NoNodes([]) && (BodyElems(t) == [] <==> t.props == [] && t.children == [])
  {
    EscapedIsPlain(t.props);
  }

  /** A file, byte by byte: a root with the property 5 and an escaped 254, and a child with the property 8. */
  lemma ReadsLiteralFile()
    ensures var s: seq<Byte> := [0, 0, 0, 0, 254, 1, 5, 253, 254, 254, 7, 8, 255, 255];
            && ParseFile(s) == Good(Node(1, 6, 9, [Node(7, 11, 12, [])]), 14)
            && Unescape(s[6..9], false) == [5, 254] && Unescape(s[11..12], false) == [8]
  {
    var s: seq<Byte> := [0, 0, 0, 0, 254, 1, 5, 253, 254, 254, 7, 8, 255, 255];
    var child := Node(7, 11, 0, []);
    assert ParseNode(s, 12, child) == Good(Node(7, 11, 12, []), 13);
    assert ParseNode(s, 11, child) == Good(Node(7, 11, 12, []), 13);
    var root := Node(1, 6, 9, [Node(7, 11, 12, [])]);
    assert ParseNode(s, 13, root) == Good(root, 14);
    assert ParseNode(s, 9, Node(1, 6, 0, [])) == Good(root, 14);
    assert ParseNode(s, 7, Node(1, 6, 0, [])) == Good(root, 14);
    assert ParseNode(s, 6, Node(1, 6, 0, [])) == Good(root, 14);
    assert TailOk(s, 14);
    assert s[6..9] == [5, 253, 254] && s[11..12] == [8];
    UnescapesLiteral();
  }

  lemma UnescapesLiteral()
    ensures Unescape([5, 253, 254], false) == [5, 254] && Unescape([8], false) == [8]
  {
    assert Unescape([254], true) == [254] by { assert [254 as Byte][1..] == []; }
    assert [5 as Byte, 253, 254][1..] == [253, 254] && [253 as Byte, 254][1..] == [254];
    assert Unescape([253, 254], false) == [254];
    assert [8 as Byte][1..] == [];
  }
}
