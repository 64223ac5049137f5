/**
 INXMLParser as an NSXMLParserDelegate: the tokenizer (NSXMLParser, a
 foreign library) is replaced by the sequence of delegate events it would
 deliver, and the tree is built by a pure fold over those events with an
 explicit stack of open elements.
 */
module XmlParser {
  import opened Common
  import Strings
  import opened XmlNode

  /** The delegate callbacks the builder reacts to. */
  datatype Event =
    | StartElement(name: string, attributes: map<string, string>)   // parser:didStartElement:...
    | EndElement(name: string)                                      // parser:didEndElement:...
    | Characters(chars: string)                                     // parser:foundCharacters:
    | ParseFault(code: int, message: string)                        // parser:parseErrorOccurred:

  /** An open element: its start tag, the children closed so far and the text received so far. */
  datatype Frame = Frame(name: string, attributes: map<string, string>, children: seq<Node>, buffer: string)

  datatype ParseError =
    | EmptyDocument
    | UnmatchedEnd(name: string)
    | TagMismatch(open: string, close: string)
    | Unclosed(name: string)
    | ExtraContent(name: string)
    | TokenizerError(code: int, message: string)

  /**
   Builder state. Idle: empty stack, no root. Building: non-empty stack.
   Done: empty stack and a root. Failed: an error is recorded; later events
   are ignored.
   */
  datatype Builder = Builder(stack: seq<Frame>, root: Option<Node>, error: Option<ParseError>)

  const Initial: Builder := Builder([], None, None)

  datatype ParseResult = Parsed(root: Node) | Failed(error: ParseError)

  /**
   The `htmlMode` text policy: verbatim in HTML mode, whitespace-stripped
   otherwise. Text that ends up empty is no text.
   */
  function TextPolicy(htmlMode: bool, buffer: string): (t: Option<string>)
    ensures htmlMode ==> (t.None? <==> buffer == "")
    ensures htmlMode && t.Some? ==> t.value == buffer
    ensures !htmlMode ==> (t.None? <==> Strings.AllWhitespace(buffer))
    ensures !htmlMode && t.Some? ==> t.value == Strings.Strip(buffer)
    ensures !htmlMode && t.Some? ==> Strings.Stripped(t.value) && |t.value| <= |buffer|
    ensures t.Some? ==> t.value != ""
  {
    var s := if htmlMode then buffer else Strings.Strip(buffer);
    if s == "" then None else Some(s)
  }

  /** The node an open element becomes when it is closed. */
  function Close(f: Frame, htmlMode: bool): (n: Node)
    ensures NameOf(n) == Some(f.name)
    ensures forall k :: Attr(n, k) == (if k in f.attributes then Some(f.attributes[k]) else None)
    ensures Children(n) == f.children
    ensures TextOf(n) == TextPolicy(htmlMode, f.buffer)
  {
    Element(f.name, f.attributes, f.children, TextPolicy(htmlMode, f.buffer))
  }

  /** A closed node goes to the element below it on the stack, or becomes the root. */
  function Deliver(b: Builder, n: Node): (r: Builder)
    ensures |b.stack| == 0 ==> r == b.(root := Some(n))
    ensures |b.stack| > 0 ==> |r.stack| == |b.stack| && r.root == b.root && r.error == b.error
    ensures |b.stack| > 0 ==> r.stack[..|r.stack| - 1] == b.stack[..|b.stack| - 1]
    ensures |b.stack| > 0 ==> var top := b.stack[|b.stack| - 1];
      r.stack[|r.stack| - 1] == top.(children := top.children + [n])
  {
    if |b.stack| == 0 then b.(root := Some(n))
    else
      var top := b.stack[|b.stack| - 1];
      b.(stack := b.stack[..|b.stack| - 1] + [top.(children := top.children + [n])])
  }

  /** parser:didStartElement: — opens a new element on top of the stack. */
  function DidStartElement(b: Builder, name: string, attributes: map<string, string>): (r: Builder)
    requires b.error.None?
    ensures b.root.Some? ==> r.error == Some(ExtraContent(name))
    ensures b.root.None? ==> r.error.None? && r.root.None? && r.stack == b.stack + [Frame(name, attributes, [], "")]
  {
    if b.root.Some? then b.(error := Some(ExtraContent(name)))
    else b.(stack := b.stack + [Frame(name, attributes, [], "")])
  }

  /** parser:foundCharacters: — appends to the text of the innermost open element. */
  function FoundCharacters(b: Builder, chars: string): (r: Builder)
    requires b.error.None?
    ensures |b.stack| == 0 ==> r == b
    ensures |r.stack| == |b.stack| && r.root == b.root && r.error == b.error
    ensures |b.stack| > 0 ==> r.stack[..|r.stack| - 1] == b.stack[..|b.stack| - 1]
    ensures |b.stack| > 0 ==> var top := b.stack[|b.stack| - 1];
      r.stack[|r.stack| - 1] == top.(buffer := top.buffer + chars)
  {
    if |b.stack| == 0 then b
    else
      var top := b.stack[|b.stack| - 1];
      b.(stack := b.stack[..|b.stack| - 1] + [top.(buffer := top.buffer + chars)])
  }

  /**
   parser:didEndElement: — closes the innermost open element, which must
   carry the same name, and hands the finished node to its parent.
   */
  function DidEndElement(b: Builder, name: string, htmlMode: bool): (r: Builder)
    requires b.error.None?
    ensures |b.stack| == 0 ==> r.error == Some(UnmatchedEnd(name))
    ensures |b.stack| > 0 && b.stack[|b.stack| - 1].name != name ==>
      r.error == Some(TagMismatch(b.stack[|b.stack| - 1].name, name))
    ensures |b.stack| > 0 && b.stack[|b.stack| - 1].name == name ==>
      r == Deliver(b.(stack := b.stack[..|b.stack| - 1]), Close(b.stack[|b.stack| - 1], htmlMode))
  {
    if |b.stack| == 0 then b.(error := Some(UnmatchedEnd(name)))
    else
      var top := b.stack[|b.stack| - 1];
      if top.name != name then b.(error := Some(TagMismatch(top.name, name)))
      else Deliver(b.(stack := b.stack[..|b.stack| - 1]), Close(top, htmlMode))
  }

  /** One delegate callback. After a failure nothing changes any more. */
  function Step(htmlMode: bool, b: Builder, e: Event): (r: Builder)
    ensures b.error.Some? ==> r == b
  {
    if b.error.Some? then b
    else
      match e
      case StartElement(name, attributes) => DidStartElement(b, name, attributes)
      case EndElement(name) => DidEndElement(b, name, htmlMode)
      case Characters(chars) => FoundCharacters(b, chars)
      case ParseFault(code, message) => b.(error := Some(TokenizerError(code, message)))
  }

  /**
   The builder state after all of `events`, fed one by one. A failed builder
   stays failed with the same error, and the root, once there, is an element.
   */
  function Run(htmlMode: bool, b: Builder, events: seq<Event>): (r: Builder)
    ensures b.error.Some? ==> r == b
    ensures (b.root.Some? ==> b.root.value.Element?) ==> (r.root.Some? ==> r.root.value.Element?)
    decreases |events|
  {
    if events == [] then b else Run(htmlMode, Step(htmlMode, b, events[0]), events[1..])
  }

  /** End of document: one root and nothing left open, or an error. */
  function Finish(b: Builder): (r: ParseResult)
    ensures r.Parsed? <==> b.error.None? && |b.stack| == 0 && b.root.Some?
    ensures r.Parsed? ==> r.root == b.root.value
    ensures b.error.Some? ==> r == Failed(b.error.value)
    ensures b.error.None? && |b.stack| > 0 ==> r == Failed(Unclosed(b.stack[|b.stack| - 1].name))
  {
    if b.error.Some? then Failed(b.error.value)
    else if |b.stack| > 0 then Failed(Unclosed(b.stack[|b.stack| - 1].name))
    else if b.root.None? then Failed(EmptyDocument)
    else Parsed(b.root.value)
  }

  /**
   The whole tree-building pass over a document's events: an element tree,
   or the first failure. No events is an empty document; a leading end tag
   or tokenizer fault decides the failure on its own.
   */
  function Build(events: seq<Event>, htmlMode: bool): (r: ParseResult)
    ensures r.Parsed? ==> r.root.Element?
    ensures events == [] ==> r == Failed(EmptyDocument)
    ensures |events| > 0 && events[0].EndElement? ==> r == Failed(UnmatchedEnd(events[0].name))
    ensures |events| > 0 && events[0].ParseFault? ==>
      r == Failed(TokenizerError(events[0].code, events[0].message))
  {
    Finish(Run(htmlMode, Initial, events))
  }

  lemma {:induction false} RunAppend(htmlMode: bool, b: Builder, xs: seq<Event>, ys: seq<Event>)
    ensures Run(htmlMode, b, xs + ys) == Run(htmlMode, Run(htmlMode, b, xs), ys)
    decreases |xs|
  {
    if xs == [] {
      assert xs + ys == ys;
    } else {
      assert (xs + ys)[0] == xs[0];
      assert (xs + ys)[1..] == xs[1..] + ys;
      RunAppend(htmlMode, Step(htmlMode, b, xs[0]), xs[1..], ys);
    }
  }

  /**
   The builder driven the way NSXMLParser drives its delegate: one callback
   at a time, with the state kept between callbacks.
   */
  method ParseEvents(events: seq<Event>, htmlMode: bool) returns (result: ParseResult)
    ensures result == Build(events, htmlMode)
  {
    var b := Initial;
    var i := 0;
    while i < |events|
      invariant 0 <= i <= |events|
      invariant Run(htmlMode, b, events[i..]) == Run(htmlMode, Initial, events)
    {
      assert events[i..][0] == events[i] && events[i..][1..] == events[i + 1..];
      b := Step(htmlMode, b, events[i]);
      i := i + 1;
    }
    assert events[i..] == [];
    result := Finish(b);
  }

  // ---------------------------------------------------------------- errors

  /** The subset of NSError this model needs. */
  datatype Error = Error(domain: string, code: int, description: string)

  /** An `NSError **` argument: NULL, or a slot the callee may fill. */
  datatype ErrorOut = NullPointer | Slot(contents: Option<Error>)

  const XMLParserErrorDomain: string := "NSXMLParserErrorDomain"

  /**
   The INERR(p, s, c) macro: writes an error into `*p` only when `p` is not
   NULL and the message `s` is not nil; its code is `c ? c : 0`.
   */
  function InErr(p: ErrorOut, s: Option<string>, c: int): (r: ErrorOut)
    ensures p.NullPointer? || s.None? ==> r == p
    ensures p.Slot? && s.Some? ==> r.Slot? && r.contents.Some?
    ensures p.Slot? && s.Some? ==> r.contents.value.code == c
    ensures p.Slot? && s.Some? ==> r.contents.value.description == s.value
    ensures p.Slot? && s.Some? ==> r.contents.value.domain == XMLParserErrorDomain
  {
    if p.Slot? && s.Some? then
      Slot(Some(Error(XMLParserErrorDomain, if c != 0 then c else 0, s.value)))
    else p
  }

  /** NSXMLParserError codes for the failures the builder detects itself. */
  const EmptyDocumentCode: int := 4
  const PrematureDocumentEndCode: int := 5
  const TagNameMismatchCode: int := 76
  const NotWellBalancedCode: int := 85

  function ErrorCode(e: ParseError): int {
    match e
    case EmptyDocument => EmptyDocumentCode
    case UnmatchedEnd(_) => NotWellBalancedCode
    case TagMismatch(_, _) => TagNameMismatchCode
    case Unclosed(_) => PrematureDocumentEndCode
    case ExtraContent(_) => NotWellBalancedCode
    case TokenizerError(code, _) => code
  }

  /** A human-readable description; never empty. */
  function ErrorMessage(e: ParseError): (m: string)
    ensures m != ""
  {
    match e
    case EmptyDocument => "The document is empty"
    case UnmatchedEnd(name) => "Closing tag </" + name + "> without an open element"
    case TagMismatch(open, close) => "Element <" + open + "> closed by </" + close + ">"
    case Unclosed(name) => "Element <" + name + "> is not closed"
    case ExtraContent(name) => "Element <" + name + "> after the root element"
    case TokenizerError(_, message) => if message == "" then "Parse error" else message
  }

  /**
   parseXML:error: / parseHTML:error: — a node on success; nil on failure,
   with the error filled in through INERR when a pointer was passed.
   */
  function Parse(events: seq<Event>, htmlMode: bool, p: ErrorOut): (r: (Option<Node>, ErrorOut))
    ensures r.0.Some? <==> Build(events, htmlMode).Parsed?
    ensures r.0.Some? ==> r.0.value == Build(events, htmlMode).root && r.1 == p
    ensures r.0.None? && p.Slot? ==> r.1.Slot? && r.1.contents.Some?
    ensures r.0.None? && p.Slot? ==> r.1.contents.value.code == ErrorCode(Build(events, htmlMode).error)
    ensures p.NullPointer? ==> r.1 == p
  {
    match Build(events, htmlMode)
    case Parsed(root) => (Some(root), p)
    case Failed(e) => (None, InErr(p, Some(ErrorMessage(e)), ErrorCode(e)))
  }

  /** parseXML:error: — whitespace around text is stripped. */
  function ParseXML(events: seq<Event>, p: ErrorOut): (r: (Option<Node>, ErrorOut))
    ensures r.0.Some? <==> Build(events, false).Parsed?
    ensures r.0.Some? ==> r.0.value == Build(events, false).root && r.1 == p
    ensures r.0.None? && p.Slot? ==> r.1.Slot? && r.1.contents.Some?
    ensures r.0.None? && p.Slot? ==> r.1.contents.value.code == ErrorCode(Build(events, false).error)
    ensures p.NullPointer? ==> r.1 == p
  {
    Parse(events, false, p)
  }

  /** parseHTML:error: — text is kept as received. */
  function ParseHTML(events: seq<Event>, p: ErrorOut): (r: (Option<Node>, ErrorOut))
    ensures r.0.Some? <==> Build(events, true).Parsed?
    ensures r.0.Some? ==> r.0.value == Build(events, true).root && r.1 == p
    ensures r.0.None? && p.Slot? ==> r.1.Slot? && r.1.contents.Some?
    ensures r.0.None? && p.Slot? ==> r.1.contents.value.code == ErrorCode(Build(events, true).error)
    ensures p.NullPointer? ==> r.1 == p
  {
    Parse(events, true, p)
  }
}
