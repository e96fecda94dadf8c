/** The handle-based C interface over the tree (lib/bbcpp_c.cpp): error
    codes and their messages, the enum conversions, the bounded copy of a
    string into a caller's buffer, and the error outcome of every accessor.

    A caller's pointer argument is modelled by what the callee can observe
    of it: a node or document handle is an `Option` (None is NULL); a
    `size_t*` or `int*` out-parameter is a flag saying whether it is
    non-NULL, and the result says which value, if any, was stored through
    it; a character buffer is a `Buf` whose length is its `buffer_size`. */
module CApi {
  import opened Wrappers
  import opened Tree
  import opened Bounded

  /** bbcpp_error. */
  datatype Status = Success | NullPointer | InvalidArgument | BufferTooSmall
                  | OutOfMemory | ParseError | NotFound

  /** The numeric value of each bbcpp_error constant. */
  function StatusCode(s: Status): (c: int)
    ensures -6 <= c <= 0
    ensures StatusOfCode(c) == Some(s)
  {
    match s
    case Success => 0
    case NullPointer => -1
    case InvalidArgument => -2
    case BufferTooSmall => -3
    case OutOfMemory => -4
    case ParseError => -5
    case NotFound => -6
  }

  /** The bbcpp_error constant an integer denotes, if any. */
  function StatusOfCode(c: int): Option<Status>
  {
    if c == 0 then Some(Success)
    else if c == -1 then Some(NullPointer)
    else if c == -2 then Some(InvalidArgument)
    else if c == -3 then Some(BufferTooSmall)
    else if c == -4 then Some(OutOfMemory)
    else if c == -5 then Some(ParseError)
    else if c == -6 then Some(NotFound)
    else None
  }

  /** bbcpp_error_string: the fixed message of each error code, and
      "Unknown error" for any integer that is not one of the constants. */
  function ErrorString(code: int): (msg: string)
    ensures msg == "Unknown error" <==> StatusOfCode(code).None?
    ensures NoNul(msg)
  {
    if code == 0 then "Success"
    else if code == -1 then "Null pointer error"
    else if code == -2 then "Invalid argument"
    else if code == -3 then "Buffer too small"
    else if code == -4 then "Out of memory"
    else if code == -5 then "Parse error"
    else if code == -6 then "Not found"
    else "Unknown error"
  }

  /** Distinct error codes get distinct messages. */
  lemma ErrorStringInjective(s: Status, t: Status)
    requires s != t
    ensures ErrorString(StatusCode(s)) != ErrorString(StatusCode(t))
  {
  }

  /** convert_node_type: bbcpp_node_type value of each node kind. */
  function NodeTypeCode(t: NodeType): (c: int)
    ensures 0 <= c <= 3
    ensures NodeTypeOfCode(c) == Some(t)
  {
    match t
    case DocumentNode => 0
    case ElementNode => 1
    case TextNode => 2
    case AttributeNode => 3
  }

  function NodeTypeOfCode(c: int): Option<NodeType>
  {
    if c == 0 then Some(DocumentNode)
    else if c == 1 then Some(ElementNode)
    else if c == 2 then Some(TextNode)
    else if c == 3 then Some(AttributeNode)
    else None
  }

  /** convert_element_type: bbcpp_element_type value of each element type. */
  function ElementTypeCode(t: ElementType): (c: int)
    ensures 0 <= c <= 3
    ensures ElementTypeOfCode(c) == Some(t)
  {
    match t
    case Simple => 0
    case Value => 1
    case Parameter => 2
    case Closing => 3
  }

  function ElementTypeOfCode(c: int): Option<ElementType>
  {
    if c == 0 then Some(Simple)
    else if c == 1 then Some(Value)
    else if c == 2 then Some(Parameter)
    else if c == 3 then Some(Closing)
    else None
  }

  /** Both conversions are one-to-one onto 0..3. */
  lemma ConversionsBijective(a: NodeType, b: NodeType, x: ElementType, y: ElementType, c: int)
    ensures NodeTypeCode(a) == NodeTypeCode(b) ==> a == b
    ensures ElementTypeCode(x) == ElementTypeCode(y) ==> x == y
    ensures 0 <= c <= 3 ==> NodeTypeOfCode(c).Some? && ElementTypeOfCode(c).Some?
  {
    assert NodeTypeOfCode(NodeTypeCode(a)) == Some(a);
    assert NodeTypeOfCode(NodeTypeCode(b)) == Some(b);
    assert ElementTypeOfCode(ElementTypeCode(x)) == Some(x);
    assert ElementTypeOfCode(ElementTypeCode(y)) == Some(y);
  }

  /** A caller's character buffer: NULL, or its `buffer_size` bytes. */
  datatype Buf = Null | Buf(bytes: seq<char>)

  /** Result of a copy into a caller's buffer: the status, the buffer's
      contents afterwards, and the value stored through the length pointer
      (None when nothing was stored). */
  datatype Copied = Copied(status: Status, buffer: Buf, length: Option<nat>)

  /** Result of a call with one scalar out-parameter: the status and the
      value stored through the pointer (None when nothing was stored). */
  datatype Out<T> = Out(status: Status, written: Option<T>)

  /** copy_string(source, buffer, buffer_size, length). */
  function CopyString(source: string, buffer: Buf, lengthPtr: bool): (r: Copied)
    // a NULL buffer or length pointer: nothing is touched
    ensures buffer.Null? || !lengthPtr ==> r == Copied(NullPointer, buffer, None)
    // otherwise the source length is reported, whatever the outcome
    ensures buffer.Buf? && lengthPtr ==> r.length == Some(|source|)
    // the size query: a zero-size buffer succeeds and is not written
    ensures buffer.Buf? && lengthPtr && |buffer.bytes| == 0 ==>
              r.status == Success && r.buffer == buffer
    // no room for the bytes and a terminator: nothing is written
    ensures buffer.Buf? && lengthPtr && 0 < |buffer.bytes| <= |source| ==>
              r.status == BufferTooSmall && r.buffer == buffer
    // enough room: exactly the source bytes are written, and no terminator
    ensures buffer.Buf? && lengthPtr && |source| < |buffer.bytes| ==>
              && r.status == Success && r.buffer.Buf?
              && |r.buffer.bytes| == |buffer.bytes|
              && r.buffer.bytes[..|source|] == source
              && r.buffer.bytes[|source|..] == buffer.bytes[|source|..]
  {
    if buffer.Null? || !lengthPtr then Copied(NullPointer, buffer, None)
    else if |buffer.bytes| == 0 then Copied(Success, buffer, Some(|source|))
    else if |buffer.bytes| <= |source| then Copied(BufferTooSmall, buffer, Some(|source|))
    else Copied(Success, Buf(source + buffer.bytes[|source|..]), Some(|source|))
  }

  /** The two-call idiom the size query supports: ask with a zero-size
      buffer, then any buffer one byte longer than the reported length
      receives the whole string. */
  lemma {:induction false} CopyStringTwoCalls(source: string, second: seq<char>)
    requires CopyString(source, Buf([]), true).length.Some?
    requires |second| == CopyString(source, Buf([]), true).length.value + 1
    ensures CopyString(source, Buf([]), true).status == Success
    ensures CopyString(source, Buf(second), true).status == Success
    ensures CopyString(source, Buf(second), true).buffer.bytes[..|source|] == source
  {
    var r := CopyString(source, Buf(second), true);
    assert |second| == |source| + 1;
    assert r.buffer.bytes[..|source|] == source;
  }

  /** bbcpp_document_get_children_count. */
  function DocumentGetChildrenCount(doc: Option<Document>, countPtr: bool): (r: Out<nat>)
    ensures r.status == Success <==> doc.Some? && countPtr
    ensures r.status != Success ==> r == Out(NullPointer, None)
    ensures r.status == Success ==> r.written == Some(|doc.value.children|)
  {
    if doc.None? || !countPtr then Out(NullPointer, None)
    else Out(Success, Some(|doc.value.children|))
  }

  /** bbcpp_document_get_child: a handle on the index-th top-level child. */
  function DocumentGetChild(doc: Option<Document>, index: nat, childPtr: bool): (r: Out<Node>)
    ensures doc.None? || !childPtr ==> r == Out(NullPointer, None)
    ensures doc.Some? && childPtr && index >= |doc.value.children| ==> r == Out(InvalidArgument, None)
    ensures r.status == Success <==> doc.Some? && childPtr && index < |doc.value.children|
    ensures r.status == Success ==> r.written == Some(doc.value.children[index])
  {
    if doc.None? || !childPtr then Out(NullPointer, None)
    else if index >= |doc.value.children| then Out(InvalidArgument, None)
    else Out(Success, Some(doc.value.children[index]))
  }

  /** bbcpp_node_get_type. */
  function NodeGetType(node: Option<Node>, typePtr: bool): (r: Out<int>)
    ensures r.status == Success <==> node.Some? && typePtr
    ensures r.status != Success ==> r == Out(NullPointer, None)
    ensures r.status == Success ==>
              r.written.Some? && NodeTypeOfCode(r.written.value) == Some(KindOf(node.value))
  {
    if node.None? || !typePtr then Out(NullPointer, None)
    else Out(Success, Some(NodeTypeCode(KindOf(node.value))))
  }

  /** bbcpp_node_get_name: the node's name through copy_string. */
  function NodeGetName(node: Option<Node>, buffer: Buf, lengthPtr: bool): (r: Copied)
    ensures node.None? ==> r == Copied(NullPointer, buffer, None)
    ensures node.Some? ==> r == CopyString(NameOf(node.value), buffer, lengthPtr)
    ensures node.Some? && buffer.Buf? && lengthPtr ==> r.length == Some(|NameOf(node.value)|)
    ensures r.status == Success && buffer.Buf? && |buffer.bytes| > 0 ==>
              r.buffer.Buf? && |NameOf(node.value)| < |r.buffer.bytes|
              && r.buffer.bytes[..|NameOf(node.value)|] == NameOf(node.value)
  {
    if node.None? then Copied(NullPointer, buffer, None)
    else CopyString(NameOf(node.value), buffer, lengthPtr)
  }

  /** bbcpp_node_get_children_count. */
  function NodeGetChildrenCount(node: Option<Node>, countPtr: bool): (r: Out<nat>)
    ensures r.status == Success <==> node.Some? && countPtr
    ensures r.status != Success ==> r == Out(NullPointer, None)
    ensures r.status == Success ==> r.written == Some(|ChildrenOf(node.value)|)
  {
    if node.None? || !countPtr then Out(NullPointer, None)
    else Out(Success, Some(|ChildrenOf(node.value)|))
  }

  /** bbcpp_node_get_child: a handle on the index-th child. */
  function NodeGetChild(node: Option<Node>, index: nat, childPtr: bool): (r: Out<Node>)
    ensures node.None? || !childPtr ==> r == Out(NullPointer, None)
    ensures node.Some? && childPtr && index >= |ChildrenOf(node.value)| ==> r == Out(InvalidArgument, None)
    ensures r.status == Success <==> node.Some? && childPtr && index < |ChildrenOf(node.value)|
    ensures r.status == Success ==> r.written == Some(ChildrenOf(node.value)[index])
  {
    if node.None? || !childPtr then Out(NullPointer, None)
    else if index >= |ChildrenOf(node.value)| then Out(InvalidArgument, None)
    else Out(Success, Some(ChildrenOf(node.value)[index]))
  }

  /** Enumerating a node's children through the handle API visits exactly
      its children, in order: get_child succeeds precisely for the indices
      below the count get_children_count reports. */
  lemma {:induction false} ChildEnumeration(n: Node, i: nat)
    ensures NodeGetChildrenCount(Some(n), true).written == Some(|ChildrenOf(n)|)
    ensures (NodeGetChild(Some(n), i, true).status == Success
             <==> i < NodeGetChildrenCount(Some(n), true).written.value)
    ensures i < |ChildrenOf(n)| ==> NodeGetChild(Some(n), i, true).written == Some(ChildrenOf(n)[i])
  {
    var count := NodeGetChildrenCount(Some(n), true);
    assert count.status == Success;
  }

  /** bbcpp_text_get_content: the kind check precedes copy_string's own
      checks, so a non-text node is refused whatever the buffer. */
  function TextGetContent(node: Option<Node>, buffer: Buf, lengthPtr: bool): (r: Copied)
    ensures node.None? ==> r == Copied(NullPointer, buffer, None)
    ensures node.Some? ==> (r.status == InvalidArgument <==> !node.value.Text?)
    ensures node.Some? && !node.value.Text? ==> r.buffer == buffer && r.length.None?
    ensures node.Some? && node.value.Text? ==> r == CopyString(node.value.content, buffer, lengthPtr)
    ensures node.Some? && node.value.Text? && buffer.Buf? && lengthPtr ==>
              r.length == Some(|node.value.content|)
    ensures r.status == Success && buffer.Buf? && |buffer.bytes| > 0 ==>
              r.buffer.Buf? && |node.value.content| < |r.buffer.bytes|
              && r.buffer.bytes[..|node.value.content|] == node.value.content
  {
    if node.None? then Copied(NullPointer, buffer, None)
    else if !node.value.Text? then Copied(InvalidArgument, buffer, None)
    else CopyString(node.value.content, buffer, lengthPtr)
  }

  /** bbcpp_element_get_type. */
  function ElementGetType(node: Option<Node>, typePtr: bool): (r: Out<int>)
    ensures node.None? || !typePtr ==> r == Out(NullPointer, None)
    ensures node.Some? && typePtr ==> (r.status == InvalidArgument <==> !node.value.Element?)
    ensures r.status == Success <==> node.Some? && typePtr && node.value.Element?
    ensures r.status != Success ==> r.written.None?
    ensures r.status == Success ==>
              r.written.Some? && ElementTypeOfCode(r.written.value) == Some(node.value.etype)
  {
    if node.None? || !typePtr then Out(NullPointer, None)
    else if !node.value.Element? then Out(InvalidArgument, None)
    else Out(Success, Some(ElementTypeCode(node.value.etype)))
  }

  /** bbcpp_element_get_parameter_count. */
  function ElementGetParameterCount(node: Option<Node>, countPtr: bool): (r: Out<nat>)
    ensures node.None? || !countPtr ==> r == Out(NullPointer, None)
    ensures r.status == Success <==> node.Some? && countPtr && node.value.Element?
    ensures node.Some? && countPtr && !node.value.Element? ==> r == Out(InvalidArgument, None)
    ensures r.status == Success ==> r.written == Some(|node.value.params|)
  {
    if node.None? || !countPtr then Out(NullPointer, None)
    else if !node.value.Element? then Out(InvalidArgument, None)
    else Out(Success, Some(|node.value.params|))
  }

  /** Result of bbcpp_element_get_parameter_by_index: the status and the
      outcome of the key and value copies. */
  datatype ParamCopied = ParamCopied(status: Status, key: Copied, value: Copied)

  /** bbcpp_element_get_parameter_by_index. Both copies run once the index
      is valid; the key copy's error wins over the value copy's. */
  function ElementGetParameterByIndex(node: Option<Node>, index: nat,
                                      keyBuffer: Buf, keyLengthPtr: bool,
                                      valueBuffer: Buf, valueLengthPtr: bool): (r: ParamCopied)
    ensures node.None? || !node.value.Element? || index >= |node.value.params| ==>
              && r.status == (if node.None? then NullPointer else InvalidArgument)
              && r.key == Copied(r.status, keyBuffer, None)
              && r.value == Copied(r.status, valueBuffer, None)
    ensures node.Some? && node.value.Element? && index < |node.value.params| ==>
              && r.key == CopyString(node.value.params[index].0, keyBuffer, keyLengthPtr)
              && r.value == CopyString(node.value.params[index].1, valueBuffer, valueLengthPtr)
              && (r.status == Success <==> r.key.status == Success && r.value.status == Success)
              && (r.key.status != Success ==> r.status == r.key.status)
              && (r.key.status == Success ==> r.status == r.value.status)
  {
    if node.None? then
      ParamCopied(NullPointer, Copied(NullPointer, keyBuffer, None), Copied(NullPointer, valueBuffer, None))
    else if !node.value.Element? || index >= |node.value.params| then
      ParamCopied(InvalidArgument, Copied(InvalidArgument, keyBuffer, None),
                  Copied(InvalidArgument, valueBuffer, None))
    else
      var (k, v) := node.value.params[index];
      var keyResult := CopyString(k, keyBuffer, keyLengthPtr);
      var valueResult := CopyString(v, valueBuffer, valueLengthPtr);
      var status := if keyResult.status != Success then keyResult.status else valueResult.status;
      ParamCopied(status, keyResult, valueResult)
  }

  /** bbcpp_element_get_parameter: the value stored under `key`. */
  function ElementGetParameter(node: Option<Node>, key: Option<string>,
                               buffer: Buf, lengthPtr: bool): (r: Copied)
    ensures node.None? || key.None? ==> r == Copied(NullPointer, buffer, None)
    ensures node.Some? && key.Some? && !node.value.Element? ==> r == Copied(InvalidArgument, buffer, None)
    ensures node.Some? && key.Some? && node.value.Element? ==>
              (r.status == NotFound <==> Lookup(node.value.params, key.value).None?)
    ensures r.status == NotFound ==> r.buffer == buffer && r.length.None?
    ensures node.Some? && key.Some? && node.value.Element? && Lookup(node.value.params, key.value).Some? ==>
              r == CopyString(Lookup(node.value.params, key.value).value, buffer, lengthPtr)
    ensures r.status == Success && buffer.Buf? && |buffer.bytes| > 0 ==>
              && Lookup(node.value.params, key.value).Some?
              && var v := Lookup(node.value.params, key.value).value;
                 r.buffer.Buf? && |v| < |r.buffer.bytes| && r.buffer.bytes[..|v|] == v
  {
    if node.None? || key.None? then Copied(NullPointer, buffer, None)
    else if !node.value.Element? then Copied(InvalidArgument, buffer, None)
    else match Lookup(node.value.params, key.value)
      case None => Copied(NotFound, buffer, None)
      case Some(v) => CopyString(v, buffer, lengthPtr)
  }

  /** bbcpp_element_has_parameter: stores 1 or 0 and succeeds on any
      element node. */
  function ElementHasParameter(node: Option<Node>, key: Option<string>, flagPtr: bool): (r: Out<int>)
    ensures node.None? || key.None? || !flagPtr ==> r == Out(NullPointer, None)
    ensures node.Some? && key.Some? && flagPtr && !node.value.Element? ==> r == Out(InvalidArgument, None)
    ensures node.Some? && key.Some? && flagPtr && node.value.Element? ==>
              && r.status == Success
              && (r.written == Some(1) <==> Lookup(node.value.params, key.value).Some?)
              && (r.written == Some(0) <==> Lookup(node.value.params, key.value).None?)
  {
    if node.None? || key.None? || !flagPtr then Out(NullPointer, None)
    else if !node.value.Element? then Out(InvalidArgument, None)
    else Out(Success, Some(if Lookup(node.value.params, key.value).Some? then 1 else 0))
  }

  /** has_parameter answers 1 exactly when get_parameter does not report
      NOT_FOUND, for any element node and key. */
  lemma HasParameterAgreesWithGet(n: Node, key: string, buffer: Buf, lengthPtr: bool)
    requires n.Element?
    ensures (ElementHasParameter(Some(n), Some(key), true).written == Some(1)
             <==> ElementGetParameter(Some(n), Some(key), buffer, lengthPtr).status != NotFound)
  {
  }

  /** With unique keys, the pair at any valid index and a lookup of its key
      agree: get_parameter(key_i) copies exactly what by_index copies as
      value_i, with the same outcome. */
  lemma ByIndexAgreesWithGet(n: Node, i: nat, keyBuffer: Buf, valueBuffer: Buf, lengthPtr: bool)
    requires n.Element? && UniqueKeys(n.params) && i < |n.params|
    ensures ElementGetParameter(Some(n), Some(n.params[i].0), valueBuffer, lengthPtr)
              == ElementGetParameterByIndex(Some(n), i, keyBuffer, true, valueBuffer, lengthPtr).value
  {
    LookupAtIndex(n.params, i);
  }

  /** bbcpp_document_load: the parser (not part of this model) either
      yields a tree or throws, which is reported as PARSE_ERROR. */
  function DocumentLoad(doc: Option<Document>, bbcode: Option<string>,
                        parse: string -> Option<Document>): (r: Out<Document>)
    ensures doc.None? || bbcode.None? ==> r == Out(NullPointer, None)
    ensures r.status == Success <==> doc.Some? && bbcode.Some? && parse(bbcode.value).Some?
    ensures doc.Some? && bbcode.Some? && parse(bbcode.value).None? ==> r == Out(ParseError, None)
    ensures r.status == Success ==> r.written == parse(bbcode.value)
    ensures r.status != Success ==> r.written.None? && r.status in {NullPointer, ParseError}
  {
    if doc.None? || bbcode.None? then Out(NullPointer, None)
    else match parse(bbcode.value)
      case None => Out(ParseError, None)
      case Some(d) => Out(Success, Some(d))
  }
}
