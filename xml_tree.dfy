/**
 * The in-memory document trees of `xml.etree.ElementTree`, as parsed with comments
 * kept (`TreeBuilder(insert_comments=True)`): elements and comment nodes.
 */
module XmlTree {
  import opened Wrappers

  datatype Node =
    | Element(tag: string, attrib: map<string, string>, text: Option<string>, children: seq<Node>)
    | Comment(content: string)

  /** A document root: a parsed document's root is always an element. */
  type Tree = n: Node | n.Element? witness Element("", map[], None, [])

  /** `node.text`: an element's text, or a comment's content. */
  function Text(n: Node): Option<string> {
    match n
    case Element(_, _, text, _) => text
    case Comment(content) => Some(content)
  }

  /** The children `len(node)` and `node[-1]` see; a comment has none. */
  function Children(n: Node): seq<Node> {
    if n.Element? then n.children else []
  }

  /** Whether a lookup by tag matches this node (a comment's tag is never a string). */
  predicate HasTag(n: Node, tag: string) {
    n.Element? && n.tag == tag
  }

  /** Position of the first node in `c` with the tag, in document order. */
  function FindIndex(c: seq<Node>, tag: string): (r: Option<nat>)
    ensures r.Some? ==> r.value < |c| && HasTag(c[r.value], tag)
    ensures r.Some? ==> forall j :: 0 <= j < r.value ==> !HasTag(c[j], tag)
    ensures r.None? ==> forall j :: 0 <= j < |c| ==> !HasTag(c[j], tag)
  {
    if c == [] then None
    else if HasTag(c[0], tag) then Some(0)
    else match FindIndex(c[1..], tag)
      case None => None
      case Some(i) => Some(i + 1)
  }

  /** The first node in `c` with the tag, if there is one. */
  function FirstWithTag(c: seq<Node>, tag: string): (r: Option<Node>)
    ensures r.Some? <==> exists k :: 0 <= k < |c| && HasTag(c[k], tag)
    ensures r.Some? ==> HasTag(r.value, tag) && r.value in c
  {
    match FindIndex(c, tag)
    case None => None
    case Some(i) => Some(c[i])
  }

  /** What `find` returns is the child at the first position with the tag. */
  lemma FirstWithTagIsFirst(c: seq<Node>, tag: string)
    ensures FirstWithTag(c, tag).Some? ==>
      FindIndex(c, tag).Some? && FirstWithTag(c, tag).value == c[FindIndex(c, tag).value]
  {
  }

  /** `node.find(tag)`: the first direct child with that tag, if there is one. */
  function Find(n: Node, tag: string): Option<Node> {
    FirstWithTag(Children(n), tag)
  }

  /** `node.findall(tag)`: every direct child with that tag, in document order. */
  function FindAll(c: seq<Node>, tag: string): (r: seq<Node>)
    ensures forall k :: 0 <= k < |r| ==> HasTag(r[k], tag)
    ensures forall k :: 0 <= k < |c| && HasTag(c[k], tag) ==> c[k] in r
    ensures |r| <= |c|
  {
    if c == [] then []
    else (if HasTag(c[0], tag) then [c[0]] else []) + FindAll(c[1..], tag)
  }

  /** `findall` keeps document order: a child appended last is found last, when it has the tag. */
  lemma {:induction false} FindAllSnoc(c: seq<Node>, x: Node, tag: string)
    ensures FindAll(c + [x], tag) == FindAll(c, tag) + (if HasTag(x, tag) then [x] else [])
  {
    if c == [] {
      assert [x][1..] == [];
    } else {
      assert (c + [x])[1..] == c[1..] + [x];
      FindAllSnoc(c[1..], x, tag);
    }
  }

  /** `ET.SubElement(parent, ...)` for an already built child: appended as the last child. */
  function AppendChild(parent: Tree, child: Node): Tree {
    parent.(children := parent.children + [child])
  }

  /** Sets `parent[i].text`, the i-th child being an element. */
  function SetChildText(parent: Tree, i: nat, t: Option<string>): Tree
    requires i < |parent.children| && parent.children[i].Element?
  {
    parent.(children := parent.children[i := parent.children[i].(text := t)])
  }

  /** Nodes that agree on whether they carry the tag are found at the same position. */
  lemma FindIndexSameTags(c: seq<Node>, d: seq<Node>, tag: string)
    requires |c| == |d|
    requires forall k :: 0 <= k < |c| ==> (HasTag(c[k], tag) <==> HasTag(d[k], tag))
    ensures FindIndex(c, tag) == FindIndex(d, tag)
  {
  }

  /** The first node with the tag is at `k` when it carries the tag and none before it does. */
  lemma FindIndexAt(c: seq<Node>, tag: string, k: nat)
    requires k < |c| && HasTag(c[k], tag)
    requires forall j :: 0 <= j < k ==> !HasTag(c[j], tag)
    ensures FindIndex(c, tag) == Some(k)
  {
  }

  /** Setting the text of a child leaves every lookup by tag where it was. */
  lemma FindIndexAfterSetText(parent: Tree, i: nat, t: Option<string>, tag: string)
    requires i < |parent.children| && parent.children[i].Element?
    ensures FindIndex(SetChildText(parent, i, t).children, tag) == FindIndex(parent.children, tag)
  {
    FindIndexSameTags(SetChildText(parent, i, t).children, parent.children, tag);
  }

  /** The nodes of `c` without those carrying the tag. */
  function Without(c: seq<Node>, tag: string): (r: seq<Node>)
    ensures forall k :: 0 <= k < |r| ==> !HasTag(r[k], tag)
  {
    if c == [] then [] else (if HasTag(c[0], tag) then [] else [c[0]]) + Without(c[1..], tag)
  }

  /**
   * Dropping every node with one tag leaves nothing to find under that tag and
   * the first node of any other tag unchanged.
   */
  lemma {:induction false} FirstWithTagWithout(c: seq<Node>, dropped: string, tag: string)
    ensures FirstWithTag(Without(c, dropped), tag) == if tag == dropped then None else FirstWithTag(c, tag)
  {
    if c == [] || tag == dropped {
      return;
    }
    var rest := Without(c[1..], dropped);
    FirstWithTagWithout(c[1..], dropped, tag);
    assert c == [c[0]] + c[1..];
    FirstWithTagCons(c[0], c[1..], tag);
    if HasTag(c[0], dropped) {
      assert Without(c, dropped) == rest;
    } else {
      assert Without(c, dropped) == [c[0]] + rest;
      FirstWithTagCons(c[0], rest, tag);
    }
  }

  lemma FirstWithTagCons(x: Node, s: seq<Node>, tag: string)
    ensures FirstWithTag([x] + s, tag) == if HasTag(x, tag) then Some(x) else FirstWithTag(s, tag)
  {
    FindIndexCons(x, s, tag);
  }

  /** Looking up in `[x] + s` stops at `x` when it matches and otherwise looks in `s`. */
  lemma FindIndexCons(x: Node, s: seq<Node>, tag: string)
    ensures FindIndex([x] + s, tag) ==
      if HasTag(x, tag) then Some(0)
      else match FindIndex(s, tag) case None => None case Some(i) => Some(i + 1)
  {
    assert ([x] + s)[1..] == s;
  }
}
