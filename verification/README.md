# INXMLParsing in Dafny

A Dafny model of the XML document-object-model of the IndivoFramework
INXMLParsing component:

- `INXMLNode` / `INXMLTextNode`, the DOM node, with its attribute accessors, its
  bool coercions and its child search.
- `INXMLParser`, the `NSXMLParserDelegate` that builds a node tree from the parse
  events of `NSXMLParser`, with its `htmlMode` whitespace policy.
- The `parseXML:error:` / `parseHTML:error:` result contract and the `INERR`
  error-out macro.

The model is built from the declarations and documentation comments of
INXMLNode.h and INXMLParser.h; the method bodies are not modelled.
Where the headers are silent, the model makes a choice; each such choice is
listed under "Modelling choices" below.

Files and modules:

- `common.dfy` (`Common`): `Option`, the model of a `nil`-able result.
- `strings.dfy` (`Strings`): whitespace stripping and ASCII case folding.
- `node.dfy` (`XmlNode`): the `Node` datatype, `Element(name, attributes,
  children, text)` or `Text(content)`, and the `INXMLNode` operations as pure
  functions. "Text nodes cannot have child nodes" holds by construction: the
  `Text` case has no children field.
- `serialize.dfy` (`XmlSerialize`): `xml` and `childXML`.
- `parser.dfy` (`XmlParser`): the delegate callbacks and the builder, a fold over
  an event sequence with an explicit stack of open elements. Also `parseXML` /
  `parseHTML` and `INERR`.
- `parser_props.dfy` (`ParserProperties`): properties of the builder over all
  event sequences. These include a round trip (tree → events → the same tree), the
  XML-mode stripping invariant, one element per `StartElement`, and the first
  element becoming the root.

Modelling choices:

- Mutation becomes a new value. `setAttr:forKey:` and `addChild:` return the
  updated node.
- A text node has no name, no attribute dictionary and no children. `setAttr`
  and `addChild` on it return it unchanged.
- The tokenizer is a foreign library, so its output is a parameter: a sequence
  of `StartElement`, `EndElement`, `Characters` and `ParseFault` events
  (`parser:parseErrorOccurred:`).
- The parser attaches a finished element to its parent when the element closes,
  rather than when it opens. The objects are mutable in the source, so both
  orders yield the same final tree.
- Text received while an element is open accumulates in its frame. On the end
  tag, the `htmlMode` policy is applied:
  - XML mode strips surrounding whitespace.
  - HTML mode keeps the text verbatim.
  - Text that ends up empty is stored as no text.
- A failure is one of: an empty document, an end tag with nothing open, a
  mismatched end tag, an unclosed element, a second root element, or a tokenizer
  fault. On failure `Parse` returns no node and fills the caller's error slot
  through `InErr`, always with a non-empty message.
- The codes stored for the builder's own failures are the `NSXMLParserError`
  values of Foundation: `EmptyDocument` 4, `PrematureDocumentEnd` 5,
  `TagNameMismatch` 76 and `NotWellBalanced` 85. The headers do not name any
  codes.
- `childrenNamed:` returns `None` (nil) when nothing matches, as its header
  documents, and not an empty array.
- `boolAttr:` and `boolValue` compare through one helper, `XmlNode.BoolWord`,
  which folds ASCII case. Making that helper return its argument makes both
  comparisons case-sensitive; the members that state the case-insensitive
  reading (`BoolValue`'s ensures, `BoolAttrFalseForms`, `BoolCoercionExamples`
  and `BoolValueExamples`) change with it.
- "Strip whitespace" is `Strings.Strip`: remove leading and trailing space, tab,
  line feed, vertical tab, form feed and carriage return.
- The serializer escapes `&`, `<` and `>` in text, and additionally `"` and `'` in
  attribute values, using the predefined entities of XML 1.0 (section 4.6). An
  element without content is written self-closing. `childXML` is the element's
  own text followed by each child's `xml`.
- A Dafny map has no order, so attributes are written in an order fixed by the
  attribute map alone. That choice is made with a ghost let-such-that, which
  makes `Xml`, `ChildXml` and `AttrsXml` ghost functions.

## Model

| member | source | states |
|---|---|---|
| Strings.Strip | INXMLParser.h:25-26 | stripped text has no leading or trailing whitespace, is no longer than the input, and is empty exactly when the input is all whitespace |
| Strings.StripRemovesPadding | INXMLParser.h:25-26 | stripping removes exactly the whitespace padding: whitespace + t + whitespace strips back to t when t has no surrounding whitespace |
| Strings.StripKeepsStripped | INXMLParser.h:25-26 | text without surrounding whitespace is left unchanged by stripping |
| Strings.StripIdempotent | INXMLParser.h:25-26 | stripping twice equals stripping once |
| Strings.FoldCaseMatchesAnyForm | INXMLNode.h:65-70 | for a lower-case word, a string folds to the word exactly when it spells the word with any mix of letter cases |
| XmlNode.NodeWithName | INXMLNode.h:29 | a new element has the given name and exactly the given attributes, no children (firstChild is nil) and no text |
| XmlNode.NodeWithText | INXMLNode.h:121-128 | a text node has no name, no attributes, no children, and its text is the given text |
| XmlNode.Attr | INXMLNode.h:33-36 | attr returns the stored value when the key is present and nil when it is missing; it is total |
| XmlNode.SetAttr | INXMLNode.h:56-61 | with a key of length 1 or more, on an element attr(key) afterwards is the new value; every other attribute, the name, the children and the text are unchanged; a text node is returned unchanged |
| XmlNode.BoolAttr | INXMLNode.h:45-54 | boolAttr is NO when the attribute is missing, empty, or reads null, 0, false or no in any case |
| XmlNode.BoolAttrTrueOtherwise | INXMLNode.h:45-54 | the implied reading: every other non-empty value gives YES |
| XmlNode.BoolValue | INXMLNode.h:65-70 | boolValue is YES exactly when there is text and it is some case form of true, yes or 1; absent text gives NO |
| XmlNode.BoolAttrFalseForms | INXMLNode.h:45-54 | boolAttr is NO for every case form of null, 0, false and no |
| XmlNode.BoolCoercionExamples | INXMLNode.h:45-54 | FALSE, No and null read as NO and 1 or other words as YES for boolAttr |
| XmlNode.BoolValueExamples | INXMLNode.h:65-70 | TRUE, Yes and 1 read as YES and 0, empty or absent text as NO for boolValue |
| XmlNode.AddChild | INXMLNode.h:74-77 | on an element the child count grows by one, earlier children keep their order and the new child is last; a text node stays childless; name, text and attributes are unchanged |
| XmlNode.FirstChild | INXMLNode.h:79-82 | firstChild is nil exactly when there are no children, otherwise it is the first child |
| XmlNode.AddChildToEmpty | INXMLNode.h:74-82 | a child added to an element without children becomes its firstChild |
| XmlNode.AddChildKeepsFirst | INXMLNode.h:74-82 | adding a child never changes an existing firstChild |
| XmlNode.FirstNamedIndex | INXMLNode.h:84-90 | the index found holds a node with the name and no earlier node has it; no index means no node has it |
| XmlNode.ChildNamed | INXMLNode.h:84-90 | childNamed returns a direct child with the name that no earlier child shares, and nil exactly when no direct child has the name |
| XmlNode.Filter | INXMLNode.h:92-99 | the selected nodes are exactly the nodes of the list that carry the name |
| XmlNode.FilterAppend | INXMLNode.h:92-99 | selection distributes over concatenation, so matches keep their child order |
| XmlNode.ChildrenNamed | INXMLNode.h:92-99 | childrenNamed is nil exactly when no direct child has the name, and otherwise the non-empty selection of exactly the direct children with that name, in child order and with every occurrence |
| XmlNode.FilterHeadIsFirstNamed | INXMLNode.h:84-99 | when there are matches, the first match is the node at the first matching index |
| XmlNode.ChildrenNamedAgreesWithChildNamed | INXMLNode.h:84-99 | childrenNamed is nil exactly when childNamed is nil, and otherwise its first element is childNamed |
| XmlNode.AddChildThenFilter | INXMLNode.h:92-99 | after addChild, the matches are the old matches followed by the new child exactly when it carries the name |
| XmlNode.ChildSearchExamples | INXMLNode.h:84-99 | children [a, x, b, x] give [x, x]; a grandchild named y is not found; no match gives nil |
| XmlSerialize.EscapeText | INXMLNode.h:103-106 | escaped text contains no angle bracket |
| XmlSerialize.EscapeAttr | INXMLNode.h:103-106 | an escaped attribute value contains no angle bracket and no quote |
| XmlSerialize.UnescapeEscapeText | INXMLNode.h:103-106 | escaped text reads back as the original text |
| XmlSerialize.UnescapeEscapeAttr | INXMLNode.h:103-106 | an escaped attribute value reads back as the original value |
| XmlSerialize.ChildrenXmlAppend | INXMLNode.h:108-111 | the content of a child list is the concatenation of the children's xml |
| XmlSerialize.ChildXmlAfterAddChild | INXMLNode.h:108-111 | addChild appends exactly the new child's xml to childXML |
| XmlSerialize.XmlWrapsChildXml | INXMLNode.h:103-111 | an element's xml is its start tag, its childXML and its end tag; it is self-closing exactly when childXML is empty, which holds without text and children and fails with non-empty text or an element child |
| XmlSerialize.Xml | INXMLNode.h:103-106 | an element's xml is markup running from an opening `<` to a closing `>`; a text node's xml equals its childXML, contains no markup and reads back as its text |
| XmlSerialize.ChildXml | INXMLNode.h:108-111 | childXML is empty for an element without text and children, and non-empty once it has non-empty text or any child element |
| XmlParser.TextPolicy | INXMLParser.h:25-26 | in HTML mode the stored text is the received text, absent only when nothing was received; in XML mode it is the received text with its surrounding whitespace stripped, absent exactly when the text was all whitespace |
| XmlParser.Close | INXMLParser.h:21-23 | a closed element keeps its start tag's name and attributes, the children closed inside it, and the text the policy makes of what it received |
| XmlParser.Deliver | INXMLParser.h:21-23 | a finished node becomes the root when nothing is open, otherwise it is appended to the innermost open element and nothing else changes |
| XmlParser.DidStartElement | INXMLParser.h:21-23 | a start tag pushes a fresh frame with no children and no text; a start tag after the root is an error |
| XmlParser.FoundCharacters | INXMLParser.h:21-26 | characters are appended to the innermost open element's text and nothing else changes |
| XmlParser.DidEndElement | INXMLParser.h:21-23 | an end tag with nothing open, or with a different name than the open element, is an error; otherwise the element is popped, closed and delivered |
| XmlParser.Step | INXMLParser.h:21-23 | after a failure no further event changes the builder |
| XmlParser.Run | INXMLParser.h:21-23 | over any event sequence a failed builder stays failed with the same error, and a root, once delivered, is an element |
| XmlParser.Finish | INXMLParser.h:28-35 | the result is a node exactly when no error occurred, nothing is left open and a root exists; an open element at the end is reported as unclosed |
| XmlParser.Build | INXMLParser.h:28-35 | a parsed document's root is an element; no events fail as an empty document; a leading end tag fails as unmatched and a leading tokenizer fault fails with its code and message |
| XmlParser.ParseEvents | INXMLParser.h:28-35 | feeding the events one callback at a time and keeping the state in between computes the same result as the whole-document build |
| XmlParser.InErr | INXMLParser.h:49-52 | the error slot is written only for a non-NULL pointer and a non-nil message; the stored error has the parser error domain, code c (c ? c : 0 is c) and the message as description |
| XmlParser.ErrorMessage | INXMLParser.h:49-52 | every failure has a non-empty, human-readable description to pass as INERR's message |
| XmlParser.Parse | INXMLParser.h:28-44 | a node exactly when the build succeeds, with the error slot untouched; otherwise no node and, for a non-NULL pointer, an error with the failure's code |
| XmlParser.ParseXML | INXMLParser.h:28-35 | parseXML returns the tree built with htmlMode off exactly when that build succeeds, leaving the error slot untouched; otherwise nil and, for a non-NULL pointer, an error with the failure's code |
| XmlParser.ParseHTML | INXMLParser.h:37-44 | parseHTML returns the tree built with htmlMode on exactly when that build succeeds, leaving the error slot untouched; otherwise nil and, for a non-NULL pointer, an error with the failure's code |
| XmlParser.RunAppend | INXMLParser.h:21-23 | feeding two event sequences one after the other equals feeding their concatenation |
| ParserProperties.TextPolicyKeepsAllowed | INXMLParser.h:25-26 | the text policy gives back any text it could have produced |
| ParserProperties.RunEvents | INXMLParser.h:21-26 | the events of one canonical tree deliver exactly that tree to the builder |
| ParserProperties.RunChildEvents | INXMLParser.h:21-26 | the events of canonical children append exactly those children, in order, to the open element |
| ParserProperties.BuildEventsRoundTrip | INXMLParser.h:21-26 | building from the events of any tree the builder could produce gives that tree back, in either mode |
| ParserProperties.StepGood | INXMLParser.h:21-26 | each callback keeps everything built so far canonical and leaves nothing open once a root exists |
| ParserProperties.RunGood | INXMLParser.h:21-26 | any event sequence keeps the builder invariant |
| ParserProperties.BuildCanonical | INXMLParser.h:21-26 | every parsed tree is made of elements whose texts follow the mode's policy |
| ParserProperties.CanonicalXmlStripped | INXMLParser.h:25-26 | in an XML-mode canonical tree every stored text is non-empty and has no surrounding whitespace |
| ParserProperties.XmlModeTextsStripped | INXMLParser.h:25-26 | with htmlMode off, no text anywhere in the parsed tree starts or ends with whitespace |
| ParserProperties.BuildIdempotent | INXMLParser.h:21-26 | rebuilding a parsed tree from its own events gives the same tree |
| ParserProperties.StepElements | INXMLParser.h:21-23 | each successful callback adds one held element for a start tag and none otherwise |
| ParserProperties.RunElements | INXMLParser.h:21-23 | without failure, the elements held grow by the number of start tags fed |
| ParserProperties.ParsedElementsMatchStarts | INXMLParser.h:21-23 | the parsed tree has exactly one element per StartElement event |
| ParserProperties.NoStartNoDocument | INXMLParser.h:28-35 | events without any start tag never produce a node |
| ParserProperties.StepRootFrom | INXMLParser.h:21-23 | each callback keeps the bottom frame, or the finished root, carrying the first start tag |
| ParserProperties.RunRootFrom | INXMLParser.h:21-23 | any event sequence keeps the bottom frame, or the finished root, carrying the first start tag |
| ParserProperties.FirstStartIsRoot | INXMLParser.h:21-23 | when the document starts with a start tag and parses, the root carries that tag's name and attributes |
| ParserProperties.RunSingleElement | INXMLParser.h:21-26 | one element with text is closed into a root holding the policy's text |
| ParserProperties.HtmlModeKeepsText | INXMLParser.h:25-26 | in a one-element document with htmlMode on, the element's text is stored exactly as received |
| ParserProperties.XmlModeStripsText | INXMLParser.h:25-26 | in a one-element document with htmlMode off, the element's text is stored stripped, and whitespace-only text is dropped |
| ParserProperties.MismatchedCloseFails | INXMLParser.h:28-35 | `<a><b></a>` fails with a tag mismatch |
| ParserProperties.EmptyDocumentFails | INXMLParser.h:28-35 | a document without events fails as empty |
| ParserProperties.UnclosedFails | INXMLParser.h:28-35 | an element never closed fails as unclosed |
| ParserProperties.NestedEmptyChild | INXMLParser.h:28-35 | `<a><b/></a>` parses to root a with one child b that has no children and no text |

## Left out

- `numAttr:`: the header leaves non-numeric input unspecified, and the result is
  an `NSDecimalNumber`, whose decimal parsing is Foundation behaviour.
- `prettyXML`: its indentation and line layout are not stated in the header.
- The weak `parent` back-reference: the nodes are values, so there is no
  identity to refer back to, and ARC lifetime cannot be expressed.
- `INURLLoader.h` as a whole: asynchronous HTTP loading, cancellation, timeouts
  and response status are network I/O. This includes its callback and `NSLog`
  macros, and `queryFromRequest` / `queryFromRequestString`, which have no stated
  contract.
- The `NSXMLParser` tokenizer and its HTML leniency: a foreign library. The model
  takes the event sequence it would deliver, including its error report, as input.
  `parseXML:` and `parseHTML:` therefore take events, not a string.
- XmlNode.SetAttr: on a text node it is a no-op, so attr(key) stays nil. In the
  source, `INXMLTextNode` subclasses `INXMLNode` and inherits `setAttr:forKey:`
  and the `attributes` dictionary; the header forbids only children. The
  `Text(content)` case has no attribute dictionary.
- XmlNode.SetAttr: the value is always a string. What `setAttr:forKey:` does with
  a nil value is not stated.
- XmlNode.BoolWord: folds only ASCII letters. It does not model Unicode case
  mapping of `NSString`.
- Strings.Strip: whitespace is the six ASCII whitespace characters. It does not
  model the Unicode separators in `NSCharacterSet`'s whitespace-and-newline set.
- XmlSerialize.AttrsXml: the attribute order is fixed per attribute map but left
  unspecified. The source's order comes from `NSDictionary` and is not stated.
- XmlParser.FoundCharacters: all character data received while an element is
  open goes into one buffer. Text after a child is merged with text before it,
  so for `<p>a<b/>c</p>` the text of p is `"ac"`, and `childXML` writes it ahead
  of the children. The builder never creates `INXMLTextNode` children for mixed
  content. The headers do not say which of these the parser does; the choice
  matters most for `parseHTML:`.
- XmlSerialize.ChildXml: the element's own text comes before its children's xml.
  The header does not say how text and children are interleaved.
