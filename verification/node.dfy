/**
 The DOM node of INXMLNode.h: an element with a name, an attribute
 dictionary, ordered children and optional own text, or a text leaf
 (INXMLTextNode). The leaf case has no children field at all, so "text
 nodes cannot have child nodes" holds by construction. The weak `parent`
 back-reference is not represented.
 */
module XmlNode {
  import opened Common
  import Strings

  datatype Node =
    | Element(name: string, attributes: map<string, string>, children: seq<Node>, text: Option<string>)
    | Text(content: string)

  /** nodeWithName:attributes: — a new element with no children and no text. */
  function NodeWithName(name: string, attributes: map<string, string>): (n: Node)
    ensures NameOf(n) == Some(name)
    ensures forall k :: Attr(n, k) == (if k in attributes then Some(attributes[k]) else None)
    ensures Children(n) == [] && FirstChild(n) == None
    ensures TextOf(n) == None
  {
    Element(name, attributes, [], None)
  }

  /** nodeWithText: — a text leaf: no name, no attributes, no children. */
  function NodeWithText(text: string): (n: Node)
    ensures NameOf(n) == None
    ensures forall k :: Attr(n, k) == None
    ensures Children(n) == []
    ensures TextOf(n) == Some(text)
  {
    Text(text)
  }

  /** The node's name; a text node has none. */
  function NameOf(n: Node): Option<string> {
    match n
    case Element(name, _, _, _) => Some(name)
    case Text(_) => None
  }

  /** The child list; always empty for a text node. */
  function Children(n: Node): seq<Node> {
    match n
    case Element(_, _, children, _) => children
    case Text(_) => []
  }

  /** The node's own text content. */
  function TextOf(n: Node): Option<string> {
    match n
    case Element(_, _, _, text) => text
    case Text(content) => Some(content)
  }

  // ---------------------------------------------------------------- attributes

  /** attr: — the stored value of an attribute, or nil when it is not set. Never fails. */
  function Attr(n: Node, key: string): (r: Option<string>)
    ensures r.Some? <==> n.Element? && key in n.attributes
    ensures r.Some? ==> r.value == n.attributes[key]
  {
    match n
    case Element(_, attributes, _, _) => if key in attributes then Some(attributes[key]) else None
    case Text(_) => None
  }

  /**
   setAttr:forKey: — the key must be a string of length 1 or more. A text
   node has no attribute dictionary, so setting on it changes nothing.
   */
  function SetAttr(n: Node, value: string, key: string): (r: Node)
    requires |key| >= 1
    ensures n.Element? ==> Attr(r, key) == Some(value)
    ensures n.Text? ==> r == n
    ensures forall other :: other != key ==> Attr(r, other) == Attr(n, other)
    ensures NameOf(r) == NameOf(n) && Children(r) == Children(n) && TextOf(r) == TextOf(n)
  {
    match n
    case Element(name, attributes, children, text) => Element(name, attributes[key := value], children, text)
    case Text(_) => n
  }

  /**
   The one comparison form used by both word lists below. Case-insensitive
   matching is `Strings.FoldCase(s)`; replacing it by `s` here makes both
   `boolAttr` and `boolValue` case-sensitive.
   */
  function BoolWord(s: string): string {
    Strings.FoldCase(s)
  }

  /** The attribute readings that `boolAttr` turns into NO. */
  const FalseWords: set<string> := {"null", "0", "false", "no"}

  /** The text readings that `boolValue` turns into YES. */
  const TrueWords: set<string> := {"true", "yes", "1"}

  /** boolAttr: — NO when the attribute is missing, empty or reads one of the false words. */
  function BoolAttr(n: Node, key: string): (b: bool)
    ensures Attr(n, key).None? ==> !b
    ensures Attr(n, key) == Some("") ==> !b
    ensures Attr(n, key).Some? && BoolWord(Attr(n, key).value) in FalseWords ==> !b
  {
    match Attr(n, key)
    case None => false
    case Some(v) => v != "" && BoolWord(v) !in FalseWords
  }

  /**
   The reading of `boolAttr` the header implies but does not state: every
   other non-empty value gives YES.
   */
  lemma BoolAttrTrueOtherwise(n: Node, key: string)
    requires Attr(n, key).Some?
    requires Attr(n, key).value != ""
    requires BoolWord(Attr(n, key).value) !in FalseWords
    ensures BoolAttr(n, key)
  {
  }

  /** boolValue — YES exactly when the own text is some form of "true", "yes" or "1". */
  function BoolValue(n: Node): (b: bool)
    ensures b <==> (
              && TextOf(n).Some?
              && (|| Strings.CaseFormOf(TextOf(n).value, "true")
                  || Strings.CaseFormOf(TextOf(n).value, "yes")
                  || Strings.CaseFormOf(TextOf(n).value, "1")))
    ensures TextOf(n).None? ==> !b
  {
    match TextOf(n)
    case None => false
    case Some(t) =>
      Strings.FoldCaseMatchesAnyForm(t, "true");
      Strings.FoldCaseMatchesAnyForm(t, "yes");
      Strings.FoldCaseMatchesAnyForm(t, "1");
      BoolWord(t) in TrueWords
  }

  /** boolAttr is NO for every case form of null, 0, false and no. */
  lemma BoolAttrFalseForms(n: Node, key: string)
    requires Attr(n, key).Some?
    requires var v := Attr(n, key).value;
      Strings.CaseFormOf(v, "null") || Strings.CaseFormOf(v, "0")
      || Strings.CaseFormOf(v, "false") || Strings.CaseFormOf(v, "no")
    ensures !BoolAttr(n, key)
  {
    var v := Attr(n, key).value;
    Strings.FoldCaseMatchesAnyForm(v, "null");
    Strings.FoldCaseMatchesAnyForm(v, "0");
    Strings.FoldCaseMatchesAnyForm(v, "false");
    Strings.FoldCaseMatchesAnyForm(v, "no");
  }

  /**
   Concrete readings of boolAttr: the false words in other cases read NO,
   and "1" and an unlisted word read YES (the latter by the implied reading
   of BoolAttrTrueOtherwise).
   */
  lemma BoolCoercionExamples(name: string)
    ensures !BoolAttr(NodeWithName(name, map["a" := "FALSE"]), "a")
    ensures !BoolAttr(NodeWithName(name, map["a" := "No"]), "a")
    ensures !BoolAttr(NodeWithName(name, map["a" := "null"]), "a")
    ensures BoolAttr(NodeWithName(name, map["a" := "1"]), "a")
    ensures BoolAttr(NodeWithName(name, map["a" := "anything-else"]), "a")
  {
    assert BoolWord("FALSE") == "false";
    assert BoolWord("null") == "null";
    assert BoolWord("1") == "1";
    assert BoolWord("No") == "no";
    assert BoolWord("anything-else") == "anything-else";
  }

  /** Concrete readings of boolValue: case forms of the true words read YES, anything else NO. */
  lemma BoolValueExamples(name: string)
    ensures BoolValue(Text("TRUE")) && BoolValue(Text("Yes")) && BoolValue(Text("1"))
    ensures !BoolValue(Text("0")) && !BoolValue(Text("")) && !BoolValue(NodeWithName(name, map[]))
  {
    assert BoolWord("1") == "1";
    assert BoolWord("0") == "0";
    assert BoolWord("") == "";
    assert BoolWord("TRUE") == "true";
    assert BoolWord("Yes") == "yes";
  }

  // ---------------------------------------------------------------- children

  /** addChild: — appends to an element's children; a text node stays childless. */
  function AddChild(n: Node, child: Node): (r: Node)
    ensures n.Element? ==> |Children(r)| == |Children(n)| + 1
    ensures n.Element? ==> Children(r)[|Children(n)|] == child
    ensures n.Element? ==> Children(r)[..|Children(n)|] == Children(n)
    ensures n.Text? ==> r == n && Children(r) == []
    ensures NameOf(r) == NameOf(n) && TextOf(r) == TextOf(n)
    ensures forall k :: Attr(r, k) == Attr(n, k)
  {
    match n
    case Element(name, attributes, children, text) => Element(name, attributes, children + [child], text)
    case Text(_) => n
  }

  /** firstChild — the first child, or nil when there are none. */
  function FirstChild(n: Node): (r: Option<Node>)
    ensures r.None? <==> Children(n) == []
    ensures r.Some? ==> r.value == Children(n)[0]
  {
    if Children(n) == [] then None else Some(Children(n)[0])
  }

  /** A child added to an element that had none becomes its first child. */
  lemma AddChildToEmpty(n: Node, child: Node)
    requires n.Element? && Children(n) == []
    ensures FirstChild(AddChild(n, child)) == Some(child)
  {
  }

  /** Adding a child never changes an existing first child. */
  lemma AddChildKeepsFirst(n: Node, child: Node)
    requires Children(n) != []
    ensures FirstChild(AddChild(n, child)) == FirstChild(n)
  {
  }

  /** The name test of childNamed:/childrenNamed:; text nodes have no name and never match. */
  predicate HasName(n: Node, name: string) {
    n.Element? && n.name == name
  }

  /** Position of the first node in `cs` named `name`. */
  function FirstNamedIndex(cs: seq<Node>, name: string): (r: Option<nat>)
    ensures r.Some? ==> r.value < |cs| && HasName(cs[r.value], name)
    ensures r.Some? ==> forall i :: 0 <= i < r.value ==> !HasName(cs[i], name)
    ensures r.None? ==> forall i :: 0 <= i < |cs| ==> !HasName(cs[i], name)
  {
    if |cs| == 0 then None
    else if HasName(cs[0], name) then Some(0)
    else
      match FirstNamedIndex(cs[1..], name)
      case None => None
      case Some(i) => Some(i + 1)
  }

  /**
   childNamed: — the first direct child with the given name, nil if none.
   Only the node's own children are searched, never grandchildren.
   */
  function ChildNamed(n: Node, name: string): (r: Option<Node>)
    ensures r.Some? ==> r.value in Children(n) && HasName(r.value, name)
    ensures r.Some? ==> exists i :: 0 <= i < |Children(n)| && Children(n)[i] == r.value
                          && forall j :: 0 <= j < i ==> !HasName(Children(n)[j], name)
    ensures r.None? <==> forall c :: c in Children(n) ==> !HasName(c, name)
  {
    match FirstNamedIndex(Children(n), name)
    case None => None
    case Some(i) => Some(Children(n)[i])
  }

  /** The nodes of `cs` named `name`, in their order in `cs`. */
  function Filter(cs: seq<Node>, name: string): (r: seq<Node>)
    ensures |r| <= |cs|
    ensures forall c :: c in r <==> c in cs && HasName(c, name)
  {
    if |cs| == 0 then []
    else if HasName(cs[0], name) then [cs[0]] + Filter(cs[1..], name)
    else Filter(cs[1..], name)
  }

  /** Filtering distributes over concatenation, so it keeps the relative order of the matches. */
  lemma {:induction false} FilterAppend(a: seq<Node>, b: seq<Node>, name: string)
    ensures Filter(a + b, name) == Filter(a, name) + Filter(b, name)
  {
    if |a| == 0 {
      assert a + b == b;
    } else {
      assert (a + b)[0] == a[0];
      assert (a + b)[1..] == a[1..] + b;
      FilterAppend(a[1..], b, name);
      if HasName(a[0], name) {
        assert Filter(a + b, name) == [a[0]] + Filter(a[1..] + b, name);
        assert Filter(a, name) == [a[0]] + Filter(a[1..], name);
      } else {
        assert Filter(a + b, name) == Filter(a[1..] + b, name);
      }
    }
  }

  /**
   childrenNamed: — the direct children with the given name, in child order;
   nil (not an empty array) when there are none.
   */
  function ChildrenNamed(n: Node, name: string): (r: Option<seq<Node>>)
    ensures r.None? <==> forall c :: c in Children(n) ==> !HasName(c, name)
    ensures r.Some? ==> |r.value| > 0
    ensures r.Some? ==> forall c :: c in r.value <==> c in Children(n) && HasName(c, name)
    ensures r.Some? ==> r.value == Filter(Children(n), name)
  {
    var matches := Filter(Children(n), name);
    if matches == [] then None
    else
      assert matches[0] in matches;
      Some(matches)
  }

  /** When childrenNamed: finds something, its first element is what childNamed: returns. */
  lemma {:induction false} FilterHeadIsFirstNamed(cs: seq<Node>, name: string)
    requires Filter(cs, name) != []
    ensures FirstNamedIndex(cs, name).Some?
    ensures Filter(cs, name)[0] == cs[FirstNamedIndex(cs, name).value]
  {
    if !HasName(cs[0], name) {
      FilterHeadIsFirstNamed(cs[1..], name);
    }
  }

  lemma ChildrenNamedAgreesWithChildNamed(n: Node, name: string)
    ensures ChildrenNamed(n, name).None? <==> ChildNamed(n, name).None?
    ensures ChildrenNamed(n, name).Some? ==> ChildNamed(n, name) == Some(ChildrenNamed(n, name).value[0])
  {
    if ChildrenNamed(n, name).Some? {
      FilterHeadIsFirstNamed(Children(n), name);
    }
  }

  /** Adding a child extends childrenNamed: by that child exactly when its name matches. */
  lemma AddChildThenFilter(n: Node, child: Node, name: string)
    requires n.Element?
    ensures Filter(Children(AddChild(n, child)), name)
         == Filter(Children(n), name) + (if HasName(child, name) then [child] else [])
  {
    FilterAppend(Children(n), [child], name);
    assert Filter([child], name) == (if HasName(child, name) then [child] else []) by {
      assert [child][1..] == [];
    }
  }

  /** childrenNamed: on children [a, x, b, x] gives [x, x]; a grandchild is never found. */
  lemma ChildSearchExamples(x: Node, a: Node, b: Node)
    requires x == Element("x", map[], [], None)
    requires a == Element("a", map[], [Element("y", map[], [], None)], None)
    requires b == Text("x")
    ensures ChildrenNamed(Element("p", map[], [a, x, b, x], None), "x") == Some([x, x])
    ensures ChildNamed(Element("p", map[], [a, x, b, x], None), "y") == None
    ensures ChildrenNamed(Element("p", map[], [a, b], None), "y") == None
  {
    var cs := [a, x, b, x];
    assert cs[1..] == [x, b, x] && cs[1..][1..] == [b, x] && cs[1..][1..][1..] == [x];
    assert Filter([x], "x") == [x];
    assert Filter([b, x], "x") == [x];
    assert Filter([x, b, x], "x") == [x, x];
    assert !HasName(a, "y") && !HasName(x, "y") && !HasName(b, "y");
  }
}
