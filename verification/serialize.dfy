/**
 The XML text of a node (`xml`) and of its content only (`childXML`).
 Characters that would read as markup are written as the predefined
 entities of XML 1.0 (section 4.6): text escapes `&`, `<` and `>`,
 attribute values additionally `"` and `'`. An element with neither text
 nor children is written in the self-closing form.

 A Dafny map has no order, so the attribute list is rendered in an order
 fixed by the map alone; the serializer is a specification, so making it
 ghost loses nothing.
 */
module XmlSerialize {
  import opened Common
  import opened XmlNode

  /** Escape of one character of text content. */
  function EscapeTextChar(c: char): string {
    if c == '&' then "&amp;"
    else if c == '<' then "&lt;"
    else if c == '>' then "&gt;"
    else [c]
  }

  /** Escape of one character of an attribute value. */
  function EscapeAttrChar(c: char): string {
    if c == '"' then "&quot;"
    else if c == '\'' then "&apos;"
    else EscapeTextChar(c)
  }

  /** No character of `s` can open or close a tag. */
  predicate NoMarkup(s: string) {
    forall i :: 0 <= i < |s| ==> s[i] != '<' && s[i] != '>'
  }

  /** No character of `s` can end a quoted attribute value. */
  predicate NoQuote(s: string) {
    forall i :: 0 <= i < |s| ==> s[i] != '"' && s[i] != '\''
  }

  function EscapeText(s: string): (r: string)
    ensures |r| >= |s|
    ensures NoMarkup(r)
  {
    if |s| == 0 then "" else EscapeTextChar(s[0]) + EscapeText(s[1..])
  }

  function EscapeAttr(s: string): (r: string)
    ensures |r| >= |s|
    ensures NoMarkup(r) && NoQuote(r)
  {
    if |s| == 0 then "" else EscapeAttrChar(s[0]) + EscapeAttr(s[1..])
  }

  /**
   Reads the predefined entities back; the inverse of both escapes. Any other
   `&` is kept literally.
   */
  function Unescape(s: string): string
    decreases |s|
  {
    if |s| == 0 then ""
    else if |s| >= 5 && s[..5] == "&amp;" then "&" + Unescape(s[5..])
    else if |s| >= 4 && s[..4] == "&lt;" then "<" + Unescape(s[4..])
    else if |s| >= 4 && s[..4] == "&gt;" then ">" + Unescape(s[4..])
    else if |s| >= 6 && s[..6] == "&quot;" then "\"" + Unescape(s[6..])
    else if |s| >= 6 && s[..6] == "&apos;" then "'" + Unescape(s[6..])
    else [s[0]] + Unescape(s[1..])
  }

  lemma UnescapeCharPrefix(c: char, rest: string, attr: bool)
    ensures Unescape((if attr then EscapeAttrChar(c) else EscapeTextChar(c)) + rest) == [c] + Unescape(rest)
  {
    var e := if attr then EscapeAttrChar(c) else EscapeTextChar(c);
    var s := e + rest;
    assert s[..|e|] == e;
    assert s[|e|..] == rest;
    if |e| == 1 {
      assert s[0] == c && c != '&';
      assert |s| >= 4 ==> s[..4][0] == c;
      assert |s| >= 5 ==> s[..5][0] == c;
      assert |s| >= 6 ==> s[..6][0] == c;
    } else if c == '&' {
      assert s[..5] == "&amp;";
    } else if c == '<' {
      assert |s| >= 5 ==> s[..5][1] == 'l';
      assert s[..4] == "&lt;";
    } else if c == '>' {
      assert |s| >= 5 ==> s[..5][1] == 'g';
      assert s[..4][1] == 'g';
      assert s[..4] == "&gt;";
    } else if c == '"' {
      assert s[..5][1] == 'q' && s[..4][1] == 'q';
      assert s[..6] == "&quot;";
    } else {
      assert s[..5][1] == 'a' && s[..5][2] == 'p' && s[..4][1] == 'a' && s[..6][1] == 'a';
      assert s[..6] == "&apos;";
    }
  }

  /** Escaped text reads back as the original text. */
  lemma {:induction false} UnescapeEscapeText(s: string)
    ensures Unescape(EscapeText(s)) == s
  {
    if |s| > 0 {
      UnescapeCharPrefix(s[0], EscapeText(s[1..]), false);
      UnescapeEscapeText(s[1..]);
      assert [s[0]] + s[1..] == s;
    }
  }

  /** An escaped attribute value reads back as the original value. */
  lemma {:induction false} UnescapeEscapeAttr(s: string)
    ensures Unescape(EscapeAttr(s)) == s
  {
    if |s| > 0 {
      UnescapeCharPrefix(s[0], EscapeAttr(s[1..]), true);
      UnescapeEscapeAttr(s[1..]);
      assert [s[0]] + s[1..] == s;
    }
  }

  /** ` key="value"` for every attribute, in an order fixed by the map. */
  ghost function AttrsXml(attributes: map<string, string>): string
    decreases |attributes|
  {
    if attributes == map[] then ""
    else
      var k :| k in attributes;
      var rest := attributes - {k};
      assert |rest| < |attributes| by {
        assert rest.Keys == attributes.Keys - {k};
      }
      " " + k + "=\"" + EscapeAttr(attributes[k]) + "\"" + AttrsXml(rest)
  }

  function StartTag(name: string, attrsXml: string): string {
    "<" + name + attrsXml + ">"
  }

  function EndTag(name: string): string {
    "</" + name + ">"
  }

  function TextXml(text: Option<string>): string {
    match text
    case None => ""
    case Some(t) => EscapeText(t)
  }

  /**
   xml — the node with its subtree. An element is written as markup from
   its opening `<` to its final `>`; a text node has no tag, so its xml is
   its childXML, holds no markup and reads back as its content.
   */
  ghost function Xml(n: Node): (r: string)
    ensures n.Element? ==> |r| >= 2 && r[0] == '<' && r[|r| - 1] == '>'
    ensures n.Text? ==> r == ChildXml(n) && NoMarkup(r)
    ensures n.Text? ==> Unescape(r) == n.content && |r| >= |n.content|
    decreases n, 1
  {
    match n
    case Text(t) =>
      UnescapeEscapeText(t);
      EscapeText(t)
    case Element(name, attributes, children, text) =>
      var content := ChildXml(n);
      if content == "" then "<" + name + AttrsXml(attributes) + "/>"
      else StartTag(name, AttrsXml(attributes)) + content + EndTag(name)
  }

  /**
   childXML — the node's content: its own text, then each child's xml in
   order. It is empty for an element without text and children, and not
   empty once the element has non-empty text or any child element.
   */
  ghost function ChildXml(n: Node): (r: string)
    ensures n.Element? && n.children == [] && (n.text.None? || n.text.value == "") ==> r == ""
    ensures n.Element? && n.text.Some? && n.text.value != "" ==> r != ""
    ensures n.Element? && (exists i :: 0 <= i < |n.children| && n.children[i].Element?) ==> r != ""
    decreases n, 0
  {
    match n
    case Text(t) => EscapeText(t)
    case Element(_, _, children, text) => TextXml(text) + ChildrenXml(children)
  }

  /** The xml of a list of children; an element anywhere in the list makes it non-empty. */
  ghost function ChildrenXml(cs: seq<Node>): (r: string)
    ensures (exists i :: 0 <= i < |cs| && cs[i].Element?) ==> r != ""
    decreases cs
  {
    if cs == [] then ""
    else
      assert !cs[0].Element? && (exists i :: 0 <= i < |cs| && cs[i].Element?) ==>
        exists j :: 0 <= j < |cs[1..]| && cs[1..][j].Element? by {
        if !cs[0].Element? && (exists i :: 0 <= i < |cs| && cs[i].Element?) {
          var i :| 0 <= i < |cs| && cs[i].Element?;
          assert cs[1..][i - 1] == cs[i];
        }
      }
      Xml(cs[0]) + ChildrenXml(cs[1..])
  }

  /** The content of a list of children is the concatenation of their xml. */
  lemma {:induction false} ChildrenXmlAppend(a: seq<Node>, b: seq<Node>)
    ensures ChildrenXml(a + b) == ChildrenXml(a) + ChildrenXml(b)
  {
    if a == [] {
      assert a + b == b;
    } else {
      assert (a + b)[0] == a[0];
      assert (a + b)[1..] == a[1..] + b;
      ChildrenXmlAppend(a[1..], b);
    }
  }

  /** Adding a child to an element appends exactly that child's xml to its childXML. */
  lemma ChildXmlAfterAddChild(n: Node, child: Node)
    requires n.Element?
    ensures ChildXml(AddChild(n, child)) == ChildXml(n) + Xml(child)
  {
    var m := AddChild(n, child);
    assert m == Element(n.name, n.attributes, n.children + [child], n.text);
    ChildrenXmlAppend(n.children, [child]);
    assert ChildrenXml([child]) == Xml(child) by {
      assert [child][1..] == [];
    }
    assert ChildXml(m) == TextXml(n.text) + ChildrenXml(n.children + [child]);
    assert ChildXml(n) == TextXml(n.text) + ChildrenXml(n.children);
  }

  /**
   The xml of an element with content is its start tag, its childXML and its
   end tag; without content it is the self-closing tag.
   */
  lemma XmlWrapsChildXml(n: Node)
    requires n.Element?
    ensures ChildXml(n) != "" ==> Xml(n) == StartTag(n.name, AttrsXml(n.attributes)) + ChildXml(n) + EndTag(n.name)
    ensures n.children == [] && (n.text.None? || n.text.value == "") ==> ChildXml(n) == ""
    ensures n.text.Some? && n.text.value != "" ==> ChildXml(n) != ""
    ensures n.children != [] && n.children[0].Element? ==> ChildXml(n) != ""
    ensures ChildXml(n) == "" ==> Xml(n) == "<" + n.name + AttrsXml(n.attributes) + "/>"
  {
  }
}
