/**
 Properties of the tree builder over all event sequences: the element
 events a tree produces are rebuilt into the same tree, every text the
 XML mode stores is stripped, each StartElement yields exactly one element
 of the result, and the first StartElement becomes the root.
 */
module ParserProperties {
  import opened Common
  import Strings
  import opened XmlNode
  import opened XmlParser

  // ---------------------------------------------------------------- events of a tree

  /** The delegate events a tokenizer reports for a tree: start tag, own text, children, end tag. */
  function Events(n: Node): seq<Event>
    decreases n
  {
    match n
    case Text(t) => [Characters(t)]
    case Element(name, attributes, children, text) =>
      [StartElement(name, attributes)]
      + (if text.Some? then [Characters(text.value)] else [])
      + ChildEvents(children)
      + [EndElement(name)]
  }

  function ChildEvents(cs: seq<Node>): seq<Event>
    decreases cs
  {
    if cs == [] then [] else Events(cs[0]) + ChildEvents(cs[1..])
  }

  /** Text a node may hold after the given text policy: none, or non-empty (and stripped in XML mode). */
  predicate TextAllowed(htmlMode: bool, t: Option<string>) {
    t.None? || (t.value != "" && (htmlMode || Strings.Stripped(t.value)))
  }

  /** The trees the builder can produce: elements only, each text as the policy leaves it. */
  predicate Canonical(htmlMode: bool, n: Node)
    decreases n
  {
    n.Element? && TextAllowed(htmlMode, n.text)
    && forall i :: 0 <= i < |n.children| ==> Canonical(htmlMode, n.children[i])
  }

  predicate AllCanonical(htmlMode: bool, cs: seq<Node>) {
    forall i :: 0 <= i < |cs| ==> Canonical(htmlMode, cs[i])
  }

  /** The text policy gives back any text it could have produced. */
  lemma TextPolicyKeepsAllowed(htmlMode: bool, t: Option<string>)
    requires TextAllowed(htmlMode, t)
    ensures TextPolicy(htmlMode, if t.Some? then t.value else "") == t
  {
    if t.Some? && !htmlMode {
      Strings.StripKeepsStripped(t.value);
    }
  }

  /** Adds `cs` to the children of the innermost open element. */
  function AppendToTop(b: Builder, cs: seq<Node>): Builder
    requires |b.stack| > 0
  {
    var top := b.stack[|b.stack| - 1];
    b.(stack := b.stack[..|b.stack| - 1] + [top.(children := top.children + cs)])
  }

  /** The start tag and own text of an element open a frame holding that text. */
  lemma RunOpen(htmlMode: bool, b: Builder, name: string, attributes: map<string, string>, text: Option<string>)
    requires b.error.None? && b.root.None?
    ensures Run(htmlMode, b, [StartElement(name, attributes)] + (if text.Some? then [Characters(text.value)] else []))
         == b.(stack := b.stack + [Frame(name, attributes, [], if text.Some? then text.value else "")])
  {
    var start := [StartElement(name, attributes)];
    var textEvents := if text.Some? then [Characters(text.value)] else [];
    RunAppend(htmlMode, b, start, textEvents);
    var b1 := Run(htmlMode, b, start);
    assert b1 == b.(stack := b.stack + [Frame(name, attributes, [], "")]);
    if text.Some? {
      assert textEvents[1..] == [];
      assert Run(htmlMode, b1, textEvents) == Step(htmlMode, b1, Characters(text.value));
      assert b1.stack[..|b1.stack| - 1] == b.stack;
      assert "" + text.value == text.value;
    }
  }

  /** The end tag of the open frame closes it and delivers the node. */
  lemma RunClose(htmlMode: bool, b: Builder, f: Frame)
    requires b.error.None? && b.root.None?
    ensures Run(htmlMode, b.(stack := b.stack + [f]), [EndElement(f.name)]) == Deliver(b, Close(f, htmlMode))
  {
    var b3 := b.(stack := b.stack + [f]);
    assert b3.stack[..|b3.stack| - 1] == b.stack;
    assert Run(htmlMode, b3, [EndElement(f.name)]) == Step(htmlMode, b3, EndElement(f.name));
  }

  lemma AppendToPushed(b: Builder, f: Frame, cs: seq<Node>)
    ensures AppendToTop(b.(stack := b.stack + [f]), cs) == b.(stack := b.stack + [f.(children := f.children + cs)])
  {
    var pushed := b.(stack := b.stack + [f]);
    assert pushed.stack[..|pushed.stack| - 1] == b.stack;
  }

  /** Feeding the events of one canonical tree delivers exactly that tree. */
  lemma {:induction false} RunEvents(htmlMode: bool, b: Builder, n: Node)
    requires b.error.None? && b.root.None?
    requires Canonical(htmlMode, n)
    ensures Run(htmlMode, b, Events(n)) == Deliver(b, n)
    decreases n, 1
  {
    var name, attributes, children, text := n.name, n.attributes, n.children, n.text;
    var opening := [StartElement(name, attributes)] + (if text.Some? then [Characters(text.value)] else []);
    var end := [EndElement(name)];
    assert Events(n) == opening + ChildEvents(children) + end;
    RunAppend(htmlMode, b, opening + ChildEvents(children), end);
    RunAppend(htmlMode, b, opening, ChildEvents(children));

    var buffer := if text.Some? then text.value else "";
    var openFrame := Frame(name, attributes, [], buffer);
    var filled := Frame(name, attributes, children, buffer);
    var s0 := Run(htmlMode, b, opening);
    var s1 := Run(htmlMode, s0, ChildEvents(children));
    var s2 := Run(htmlMode, s1, end);

    RunOpen(htmlMode, b, name, attributes, text);
    assert s0 == b.(stack := b.stack + [openFrame]);
    assert AllCanonical(htmlMode, children);
    RunChildEvents(htmlMode, s0, children);
    AppendToPushed(b, openFrame, children);
    assert openFrame.(children := openFrame.children + children) == filled by {
      assert [] + children == children;
    }
    assert s1 == b.(stack := b.stack + [filled]);
    RunClose(htmlMode, b, filled);
    assert s2 == Deliver(b, Close(filled, htmlMode));
    TextPolicyKeepsAllowed(htmlMode, text);
    assert Close(filled, htmlMode) == n;
  }

  /** Feeding the events of canonical children appends them, in order, to the open element. */
  lemma {:induction false} RunChildEvents(htmlMode: bool, b: Builder, cs: seq<Node>)
    requires b.error.None? && b.root.None? && |b.stack| > 0
    requires AllCanonical(htmlMode, cs)
    ensures Run(htmlMode, b, ChildEvents(cs)) == AppendToTop(b, cs)
    decreases cs
  {
    if cs == [] {
      var top := b.stack[|b.stack| - 1];
      assert top.(children := top.children + cs) == top;
      assert b.stack[..|b.stack| - 1] + [top] == b.stack;
    } else {
      RunAppend(htmlMode, b, Events(cs[0]), ChildEvents(cs[1..]));
      RunEvents(htmlMode, b, cs[0]);
      var b1 := Deliver(b, cs[0]);
      assert b1 == AppendToTop(b, [cs[0]]);
      assert AllCanonical(htmlMode, cs[1..]);
      RunChildEvents(htmlMode, b1, cs[1..]);
      AppendToTopTwice(b, cs[0], cs[1..]);
      assert [cs[0]] + cs[1..] == cs;
    }
  }

  /** Appending one child and then more equals appending them all at once. */
  lemma AppendToTopTwice(b: Builder, c: Node, rest: seq<Node>)
    requires |b.stack| > 0
    ensures AppendToTop(AppendToTop(b, [c]), rest) == AppendToTop(b, [c] + rest)
  {
    var top := b.stack[|b.stack| - 1];
    var b1 := AppendToTop(b, [c]);
    assert b1.stack[..|b1.stack| - 1] == b.stack[..|b.stack| - 1];
    assert top.children + [c] + rest == top.children + ([c] + rest);
  }

  /**
   Round trip: building from the events of any tree the builder could have
   produced gives that tree back, in either mode.
   */
  lemma BuildEventsRoundTrip(htmlMode: bool, n: Node)
    requires Canonical(htmlMode, n)
    ensures Build(Events(n), htmlMode) == Parsed(n)
  {
    RunEvents(htmlMode, Initial, n);
  }

  // ---------------------------------------------------------------- canonical output

  predicate FrameCanonical(htmlMode: bool, f: Frame) {
    AllCanonical(htmlMode, f.children)
  }

  /** Invariant of the builder: everything closed so far is canonical, and a root means nothing is open. */
  predicate Good(htmlMode: bool, b: Builder) {
    && (b.root.Some? ==> Canonical(htmlMode, b.root.value) && |b.stack| == 0)
    && forall j :: 0 <= j < |b.stack| ==> FrameCanonical(htmlMode, b.stack[j])
  }

  /** A matching end tag closes a canonical node and hands it to a canonical frame or to the root. */
  lemma EndElementGood(htmlMode: bool, b: Builder, name: string)
    requires Good(htmlMode, b) && b.error.None?
    requires |b.stack| > 0 && b.stack[|b.stack| - 1].name == name
    ensures Good(htmlMode, DidEndElement(b, name, htmlMode))
  {
    var r := DidEndElement(b, name, htmlMode);
    var top := b.stack[|b.stack| - 1];
    var node := Close(top, htmlMode);
    assert FrameCanonical(htmlMode, top);
    assert Canonical(htmlMode, node);
    var popped := b.(stack := b.stack[..|b.stack| - 1]);
    if |popped.stack| > 0 {
      var parent := popped.stack[|popped.stack| - 1];
      assert FrameCanonical(htmlMode, parent);
      assert r.stack[|r.stack| - 1] == parent.(children := parent.children + [node]);
      forall j | 0 <= j < |r.stack| ensures FrameCanonical(htmlMode, r.stack[j]) {
        if j < |r.stack| - 1 {
          assert r.stack[j] == r.stack[..|r.stack| - 1][j] == b.stack[j];
        }
      }
    }
  }

  lemma StepGood(htmlMode: bool, b: Builder, e: Event)
    requires Good(htmlMode, b)
    ensures Good(htmlMode, Step(htmlMode, b, e))
  {
    if b.error.None? {
      var r := Step(htmlMode, b, e);
      match e
      case StartElement(name, attributes) =>
        if b.root.None? {
          assert forall j :: 0 <= j < |b.stack| ==> r.stack[j] == b.stack[j];
        }
      case EndElement(name) =>
        if |b.stack| > 0 && b.stack[|b.stack| - 1].name == name {
          EndElementGood(htmlMode, b, name);
        }
      case Characters(chars) =>
        if |b.stack| > 0 {
          forall j | 0 <= j < |r.stack| ensures FrameCanonical(htmlMode, r.stack[j]) {
            if j < |r.stack| - 1 {
              assert r.stack[j] == r.stack[..|r.stack| - 1][j] == b.stack[j];
            }
          }
        }
      case ParseFault(_, _) =>
    }
  }

  lemma {:induction false} RunGood(htmlMode: bool, b: Builder, events: seq<Event>)
    requires Good(htmlMode, b)
    ensures Good(htmlMode, Run(htmlMode, b, events))
    decreases |events|
  {
    if events != [] {
      StepGood(htmlMode, b, events[0]);
      RunGood(htmlMode, Step(htmlMode, b, events[0]), events[1..]);
    }
  }

  /** Every tree the builder returns is canonical for the mode it ran in. */
  lemma BuildCanonical(events: seq<Event>, htmlMode: bool)
    requires Build(events, htmlMode).Parsed?
    ensures Canonical(htmlMode, Build(events, htmlMode).root)
  {
    RunGood(htmlMode, Initial, events);
  }

  /** All texts stored anywhere in the tree have no surrounding whitespace. */
  predicate TextsStripped(n: Node)
    decreases n
  {
    (TextOf(n).Some? ==> Strings.Stripped(TextOf(n).value) && TextOf(n).value != "")
    && forall i :: 0 <= i < |Children(n)| ==> TextsStripped(Children(n)[i])
  }

  lemma {:induction false} CanonicalXmlStripped(n: Node)
    requires Canonical(false, n)
    ensures TextsStripped(n)
    decreases n
  {
    forall i | 0 <= i < |Children(n)| ensures TextsStripped(Children(n)[i]) {
      CanonicalXmlStripped(n.children[i]);
    }
  }

  /** With htmlMode off, no text in the parsed tree starts or ends with whitespace. */
  lemma XmlModeTextsStripped(events: seq<Event>)
    requires Build(events, false).Parsed?
    ensures TextsStripped(Build(events, false).root)
  {
    BuildCanonical(events, false);
    CanonicalXmlStripped(Build(events, false).root);
  }

  /** Rebuilding a parsed tree from its own events gives the same tree. */
  lemma BuildIdempotent(events: seq<Event>, htmlMode: bool)
    requires Build(events, htmlMode).Parsed?
    ensures Build(Events(Build(events, htmlMode).root), htmlMode) == Build(events, htmlMode)
  {
    BuildCanonical(events, htmlMode);
    BuildEventsRoundTrip(htmlMode, Build(events, htmlMode).root);
  }

  // ---------------------------------------------------------------- one element per StartElement

  /** Number of element nodes in a tree. */
  function ElementCount(n: Node): nat
    decreases n
  {
    match n
    case Text(_) => 0
    case Element(_, _, children, _) => 1 + ElementsIn(children)
  }

  function ElementsIn(cs: seq<Node>): nat
    decreases cs
  {
    if cs == [] then 0 else ElementsIn(cs[..|cs| - 1]) + ElementCount(cs[|cs| - 1])
  }

  function FrameElements(f: Frame): nat {
    1 + ElementsIn(f.children)
  }

  function StackElements(stack: seq<Frame>): nat {
    if stack == [] then 0 else StackElements(stack[..|stack| - 1]) + FrameElements(stack[|stack| - 1])
  }

  /** Elements held by the builder: the finished root plus every open element with its closed children. */
  function BuilderElements(b: Builder): nat {
    (if b.root.Some? then ElementCount(b.root.value) else 0) + StackElements(b.stack)
  }

  function StartCount(events: seq<Event>): nat {
    if events == [] then 0 else (if events[0].StartElement? then 1 else 0) + StartCount(events[1..])
  }

  /** A builder that has a root has nothing open. */
  predicate RootClosed(b: Builder) {
    b.root.Some? ==> |b.stack| == 0
  }

  lemma StackElementsReplaceTop(stack: seq<Frame>, f: Frame)
    requires |stack| > 0
    ensures StackElements(stack[..|stack| - 1] + [f])
         == StackElements(stack) - FrameElements(stack[|stack| - 1]) + FrameElements(f)
  {
    assert (stack[..|stack| - 1] + [f])[..|stack| - 1] == stack[..|stack| - 1];
  }

  lemma StepElements(htmlMode: bool, b: Builder, e: Event)
    requires b.error.None? && RootClosed(b)
    requires Step(htmlMode, b, e).error.None?
    ensures RootClosed(Step(htmlMode, b, e))
    ensures BuilderElements(Step(htmlMode, b, e)) == BuilderElements(b) + (if e.StartElement? then 1 else 0)
  {
    var r := Step(htmlMode, b, e);
    match e
    case StartElement(name, attributes) =>
      var f := Frame(name, attributes, [], "");
      assert (b.stack + [f])[..|b.stack|] == b.stack;
      assert ElementsIn([]) == 0;
    case Characters(chars) =>
      if |b.stack| > 0 {
        var top := b.stack[|b.stack| - 1];
        StackElementsReplaceTop(b.stack, top.(buffer := top.buffer + chars));
      }
    case EndElement(name) =>
      var top := b.stack[|b.stack| - 1];
      var node := Close(top, htmlMode);
      var popped := b.stack[..|b.stack| - 1];
      assert ElementCount(node) == FrameElements(top);
      if |popped| > 0 {
        var parent := popped[|popped| - 1];
        var children := parent.children + [node];
        assert children[..|children| - 1] == parent.children;
        StackElementsReplaceTop(popped, parent.(children := children));
      }
    case ParseFault(_, _) =>
  }

  lemma {:induction false} RunElements(htmlMode: bool, b: Builder, events: seq<Event>)
    requires b.error.None? && RootClosed(b)
    requires Run(htmlMode, b, events).error.None?
    ensures BuilderElements(Run(htmlMode, b, events)) == BuilderElements(b) + StartCount(events)
    decreases |events|
  {
    if events != [] {
      var b1 := Step(htmlMode, b, events[0]);
      StepElements(htmlMode, b, events[0]);
      RunElements(htmlMode, b1, events[1..]);
    }
  }

  /** Each StartElement event yields exactly one element node of the parsed tree. */
  lemma ParsedElementsMatchStarts(events: seq<Event>, htmlMode: bool)
    requires Build(events, htmlMode).Parsed?
    ensures ElementCount(Build(events, htmlMode).root) == StartCount(events)
  {
    RunElements(htmlMode, Initial, events);
  }

  /** Without any StartElement there is no document. */
  lemma NoStartNoDocument(events: seq<Event>, htmlMode: bool)
    requires StartCount(events) == 0
    ensures Build(events, htmlMode).Failed?
  {
    if Build(events, htmlMode).Parsed? {
      ParsedElementsMatchStarts(events, htmlMode);
      BuildCanonical(events, htmlMode);
    }
  }

  // ---------------------------------------------------------------- the first element is the root

  /** The bottom of the stack, or else the finished root, is an element with this start tag. */
  predicate RootFrom(b: Builder, name: string, attributes: map<string, string>) {
    if |b.stack| > 0 then
      b.root.None? && b.stack[0].name == name && b.stack[0].attributes == attributes
    else
      b.root.Some? && b.root.value.Element? && b.root.value.name == name && b.root.value.attributes == attributes
  }

  lemma StepRootFrom(htmlMode: bool, b: Builder, e: Event, name: string, attributes: map<string, string>)
    requires b.error.None? && RootFrom(b, name, attributes)
    ensures Step(htmlMode, b, e).error.Some? || RootFrom(Step(htmlMode, b, e), name, attributes)
  {
    var r := Step(htmlMode, b, e);
    if r.error.None? && |r.stack| > 0 {
      assert |b.stack| > 0;
      if e.EndElement? {
        assert |b.stack| > 1;
      }
      if (e.EndElement? || e.Characters?) && |r.stack| > 1 {
        assert r.stack[0] == r.stack[..|r.stack| - 1][0];
      }
    }
  }

  lemma {:induction false} RunRootFrom(htmlMode: bool, b: Builder, events: seq<Event>, name: string, attributes: map<string, string>)
    requires b.error.None? && RootFrom(b, name, attributes)
    ensures Run(htmlMode, b, events).error.Some? || RootFrom(Run(htmlMode, b, events), name, attributes)
    decreases |events|
  {
    if events != [] {
      var b1 := Step(htmlMode, b, events[0]);
      StepRootFrom(htmlMode, b, events[0], name, attributes);
      if b1.error.None? {
        RunRootFrom(htmlMode, b1, events[1..], name, attributes);
      }
    }
  }

  /** The first StartElement establishes the root: its name and attributes are the root's. */
  lemma FirstStartIsRoot(events: seq<Event>, htmlMode: bool)
    requires |events| > 0 && events[0].StartElement?
    requires Build(events, htmlMode).Parsed?
    ensures Build(events, htmlMode).root.Element?
    ensures Build(events, htmlMode).root.name == events[0].name
    ensures Build(events, htmlMode).root.attributes == events[0].attributes
  {
    var b1 := Step(htmlMode, Initial, events[0]);
    assert b1.stack == [Frame(events[0].name, events[0].attributes, [], "")];
    RunRootFrom(htmlMode, b1, events[1..], events[0].name, events[0].attributes);
  }

  // ---------------------------------------------------------------- the htmlMode text policy

  lemma RunThree(htmlMode: bool, b: Builder, x: Event, y: Event, z: Event)
    ensures Run(htmlMode, b, [x, y, z]) == Step(htmlMode, Step(htmlMode, Step(htmlMode, b, x), y), z)
  {
    var b1 := Step(htmlMode, b, x);
    var b2 := Step(htmlMode, b1, y);
    var b3 := Step(htmlMode, b2, z);
    assert [x, y, z][1..] == [y, z] && [y, z][1..] == [z] && [z][1..] == [];
    assert Run(htmlMode, b, [x, y, z]) == Run(htmlMode, b1, [y, z]);
    assert Run(htmlMode, b1, [y, z]) == Run(htmlMode, b2, [z]);
    assert Run(htmlMode, b2, [z]) == Run(htmlMode, b3, []);
  }

  /** The builder state after one element holding `chars` was closed. */
  lemma RunSingleElement(htmlMode: bool, name: string, attributes: map<string, string>, chars: string)
    ensures Run(htmlMode, Initial, [StartElement(name, attributes), Characters(chars), EndElement(name)])
         == Builder([], Some(Element(name, attributes, [], TextPolicy(htmlMode, chars))), None)
  {
    RunThree(htmlMode, Initial, StartElement(name, attributes), Characters(chars), EndElement(name));
    var b1 := Step(htmlMode, Initial, StartElement(name, attributes));
    assert b1 == Builder([Frame(name, attributes, [], "")], None, None);
    var b2 := Step(htmlMode, b1, Characters(chars));
    assert "" + chars == chars;
    assert b2 == Builder([Frame(name, attributes, [], chars)], None, None);
  }

  /** HTML mode stores the received text exactly as it came. */
  lemma HtmlModeKeepsText(name: string, attributes: map<string, string>, chars: string)
    ensures Build([StartElement(name, attributes), Characters(chars), EndElement(name)], true)
         == Parsed(Element(name, attributes, [], if chars == "" then None else Some(chars)))
  {
    RunSingleElement(true, name, attributes, chars);
  }

  /** XML mode stores the received text with its surrounding whitespace stripped. */
  lemma XmlModeStripsText(name: string, attributes: map<string, string>, chars: string)
    ensures Build([StartElement(name, attributes), Characters(chars), EndElement(name)], false)
         == Parsed(Element(name, attributes, [],
                           if Strings.AllWhitespace(chars) then None else Some(Strings.Strip(chars))))
  {
    RunSingleElement(false, name, attributes, chars);
  }

  // ---------------------------------------------------------------- small documents: mismatched, empty, unclosed, nested

  /** `<a><b></a>` is malformed: the open `b` is closed by `</a>`. */
  lemma MismatchedCloseFails()
    ensures Build([StartElement("a", map[]), StartElement("b", map[]), EndElement("a")], false)
         == Failed(TagMismatch("b", "a"))
  {
  }

  /** A document without events has no root. */
  lemma EmptyDocumentFails(htmlMode: bool)
    ensures Build([], htmlMode) == Failed(EmptyDocument)
  {
  }

  /** `<a>` never closed is reported as unclosed. */
  lemma UnclosedFails(htmlMode: bool)
    ensures Build([StartElement("a", map[])], htmlMode) == Failed(Unclosed("a"))
  {
  }

  /** `<a><b/></a>` gives root `a` with one child `b` that has no children and no text. */
  lemma NestedEmptyChild(htmlMode: bool)
    ensures Build([StartElement("a", map[]), StartElement("b", map[]), EndElement("b"), EndElement("a")], htmlMode)
         == Parsed(Element("a", map[], [Element("b", map[], [], None)], None))
  {
    var child := Element("b", map[], [], None);
    var root := Element("a", map[], [child], None);
    assert Events(child) == [StartElement("b", map[]), EndElement("b")];
    assert [child][1..] == [];
    assert ChildEvents([child]) == Events(child);
    assert Events(root) == [StartElement("a", map[]), StartElement("b", map[]), EndElement("b"), EndElement("a")];
    assert Canonical(htmlMode, child);
    BuildEventsRoundTrip(htmlMode, root);
  }

}
