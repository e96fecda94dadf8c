# bbcpp C layer — a Dafny model

bbcpp parses BBCode (`[b]bold[/b]`, `[quote user=John]…[/quote]`) into a
tree of document, element, text and attribute nodes. This project models the
two C layers that sit on top of that tree:

- the handle-based accessor API of `lib/bbcpp_c.cpp`. It covers the numeric
  error codes and their messages, the node-kind and element-type enum
  conversions, and `copy_string`, the bounded copy of a string into a
  caller's buffer. It also covers the error outcome of every accessor: a
  NULL argument, an index out of range, a node of the wrong kind, or a
  missing parameter;
- the convenience layer of `lib/bbcpp_simple.c`. It covers plain-text
  extraction, BBCode-to-HTML rendering, tag counting and `has_tag`,
  validation and statistics, and the stubbed helpers. Text extraction and
  HTML rendering walk the tree and write into a fixed-size output buffer;
  tag counting walks the tree and returns a count.

The tree is an immutable datatype (`Tree.Node`, `Tree.Document`). The parser
behind `bbcpp_document_load` is not part of this model: `CApi.DocumentLoad`
takes it as a `parse` function, and every simple-layer operation that
loads a document takes a `Simple.Loader`: whether
`bbcpp_document_create` can allocate, and a parse function that yields a
tree or a failure.

A C buffer is a `CApi.Buf`: NULL, or its bytes, whose count is its
`buffer_size`. A `size_t*` or `int*` out-parameter is a flag saying whether
it is non-NULL; the result records the value stored through it, if any.
Each walk threads the bytes written so far at the start of the buffer. The
C code's `*pos` is the length of that prefix.

Each walk has two definitions: the walk as the source performs it, node by
node and child by child, and an independent reference definition. The
walk's contract ties them together:

- text extraction against `PlainText`, the pre-order concatenation of text
  contents, clipped to the buffer;
- HTML rendering against `Emit(DocPieces(…))`. This is the flat stream of
  tag strings and text runs, written one at a time. A tag string is written
  only whole, and a text run may be cut short;
- tag counting against the multiset of element names in pre-order.

Modules: `Wrappers` (Option), `Tree` (the node model), `Bounded` (buffer
arithmetic and C-string reading), `CApi` (`lib/bbcpp_c.cpp`), `NameMatch`
(reading an element name into the walks' 64-byte array), and `Simple`
(`lib/bbcpp_simple.c`).

Where the library's header comments and its code differ, the model
follows the code:

- `bbcpp_simple_validate` is documented as checking that opening and
  closing tags match (lib/bbcpp_simple.h:30). The code only reports
  whether the document loads.
- `bbcpp_stats` declares several statistics (lib/bbcpp_simple.h:47-53).
  The code sets only `total_tags`, and sets it to the number of top-level
  children, texts included.

In the accessors, a wrong node kind and an out-of-range index both return
INVALID_ARGUMENT (lib/bbcpp_c.cpp:115-116, 222-224).

The text and count walks recurse into the children of every node kind.
Text and attribute nodes are leaves here, so those walks find nothing to
visit below them. The HTML walk visits children only inside an element,
renders only its non-element children, and never descends below them.

## Model

| member | source | states |
|---|---|---|
| Tree.Lookup | lib/bbcpp_c.cpp:333-338 | a parameter lookup finds nothing exactly when no pair has the key; a value it finds is stored under that key, at the first pair carrying it |
| CApi.StatusCode | lib/bbcpp_c.h:31-39 | each error constant has its value in -6..0, and decoding that value gives the constant back |
| CApi.ErrorString | lib/bbcpp_c.cpp:386-397 | the message is "Unknown error" exactly when the integer is none of the seven error codes; no message holds a zero byte |
| CApi.ErrorStringInjective | lib/bbcpp_c.cpp:386-397 | different error codes have different messages |
| CApi.NodeTypeCode | lib/bbcpp_c.cpp:44-52 | each node kind maps to a code in 0..3 that decodes back to the same kind |
| CApi.ElementTypeCode | lib/bbcpp_c.cpp:54-62 | each element type maps to a code in 0..3 that decodes back to the same type |
| CApi.ConversionsBijective | lib/bbcpp_c.cpp:44-62 | both conversions are one-to-one, and every code in 0..3 is hit |
| CApi.CopyString | lib/bbcpp_c.cpp:24-42 | a NULL buffer or length gives NULL_POINTER and touches nothing. Otherwise the source length is stored. Size 0 succeeds and writes nothing. A size from 1 to the length gives BUFFER_TOO_SMALL and writes nothing. A larger size gets exactly the source bytes, with no terminator after them |
| CApi.CopyStringTwoCalls | lib/bbcpp_c.cpp:29-41 | a size query with a zero-size buffer reports the length; a buffer one byte longer then receives the whole string |
| CApi.DocumentLoad | lib/bbcpp_c.cpp:80-93 | NULL arguments give NULL_POINTER; a parser failure gives PARSE_ERROR and no tree; success yields the parsed tree |
| CApi.DocumentGetChildrenCount | lib/bbcpp_c.cpp:95-106 | succeeds exactly when both pointers are non-NULL, and stores the number of top-level children |
| CApi.DocumentGetChild | lib/bbcpp_c.cpp:108-124 | an index at or beyond the child count gives INVALID_ARGUMENT; otherwise the handle wraps that child |
| CApi.NodeGetType | lib/bbcpp_c.cpp:140-151 | a non-NULL call stores a code that decodes to the node's kind |
| CApi.NodeGetName | lib/bbcpp_c.cpp:153-163 | a NULL node gives NULL_POINTER; any other node gets exactly copy_string's outcome on its name: NULL_POINTER for a NULL buffer or length pointer, the name's length stored, SUCCESS on size 0, BUFFER_TOO_SMALL without room for a terminator, otherwise the name at the start of the buffer |
| CApi.NodeGetChildrenCount | lib/bbcpp_c.cpp:165-176 | stores the node's child count; leaves have none |
| CApi.NodeGetChild | lib/bbcpp_c.cpp:178-194 | an index at or beyond the child count gives INVALID_ARGUMENT; otherwise the handle wraps that child |
| CApi.ChildEnumeration | lib/bbcpp_c.cpp:165-194 | get_child succeeds exactly for the indices below the count get_children_count reports, and visits the children in order |
| CApi.TextGetContent | lib/bbcpp_c.cpp:216-235 | a non-NULL node gives INVALID_ARGUMENT exactly when it is not a text node, before any buffer check; a text node gets exactly copy_string's outcome on its content, so a large enough buffer succeeds and receives it |
| CApi.ElementGetType | lib/bbcpp_c.cpp:238-258 | a non-element gives INVALID_ARGUMENT; an element's stored code decodes to its element type |
| CApi.ElementGetParameterCount | lib/bbcpp_c.cpp:260-280 | a non-element gives INVALID_ARGUMENT; an element stores its parameter count |
| CApi.ElementGetParameterByIndex | lib/bbcpp_c.cpp:282-315 | a wrong kind or an index at or beyond the count gives INVALID_ARGUMENT and copies nothing. Otherwise both copies run, and the key copy's error takes precedence over the value copy's |
| CApi.ElementGetParameter | lib/bbcpp_c.cpp:317-342 | NULL arguments give NULL_POINTER, and a non-element gives INVALID_ARGUMENT. NOT_FOUND comes back exactly when the key is missing, leaving the buffer untouched. A found key gets exactly copy_string's outcome on its value, including the stored value length and SUCCESS with a large enough buffer |
| CApi.ElementHasParameter | lib/bbcpp_c.cpp:344-370 | on an element it succeeds and stores 1 exactly when the key is present, 0 exactly when it is missing |
| CApi.HasParameterAgreesWithGet | lib/bbcpp_c.cpp:317-370 | has_parameter stores 1 exactly when get_parameter does not report NOT_FOUND |
| CApi.ByIndexAgreesWithGet | lib/bbcpp_c.cpp:299-338 | with unique keys, get_parameter on the key at index i copies what get_parameter_by_index copies as the value at i, with the same outcome |
| NameMatch.ReadName | lib/bbcpp_simple.c:46-48 | reading a name back by its reported length yields the name exactly when it is under 64 bytes, whatever the array held before |
| NameMatch.StrcmpAsWritten | lib/bbcpp_simple.c:46-52 | as written, a name of 64 bytes or more never matches |
| NameMatch.AsWrittenMissesMatch | lib/bbcpp_simple.c:46-52 | an element named "b" fails to match "b" when the stack byte after the copy is non-zero |
| NameMatch.AsWrittenFalseMatch | lib/bbcpp_simple.c:46-52 | an element named "b" matches "bx" for the same stack contents |
| NameMatch.AsWrittenUndefined | lib/bbcpp_simple.c:46-52 | with no zero byte in the array, strcmp reads past its end |
| NameMatch.StrcmpTerminated | lib/bbcpp_simple.c:46-52 | terminating the copy first makes the comparison exactly "the name is under 64 bytes and equals the tag" |
| Simple.Open | lib/bbcpp_simple.c:149-155 | the create-and-load prologue yields a tree exactly when allocation and parsing both succeed; a load failure is PARSE_ERROR |
| Simple.CopyText | lib/bbcpp_simple.c:16-22 | a text under 512 bytes is appended, clipped to the room before the terminator; a longer text adds nothing |
| Simple.ExtractWalk | lib/bbcpp_simple.c:9-35 | the walk's output is the prefix written so far plus the node's plain text, clipped at size-1 bytes |
| Simple.ExtractChildren | lib/bbcpp_simple.c:26-34 | walking children i.. appends their plain texts in index order, clipped at size-1 bytes |
| Simple.LongTextContributesNothing | lib/bbcpp_simple.c:16-22 | a text node of 512 bytes or more leaves the output unchanged |
| Simple.Finish | lib/bbcpp_simple.c:157-174 | the buffer holds the written bytes, then a terminator, then its old contents; the terminator is always inside the buffer |
| Simple.GetText | lib/bbcpp_simple.c:146-178 | returns -1 exactly for a NULL input, a NULL or zero-size output, or a failed create or load, and then leaves the output untouched. Otherwise it returns 0, and the output holds the document's plain text clipped to size-1 bytes, then a terminator |
| Simple.GetTextReadsBack | lib/bbcpp_simple.c:146-178 | after a successful get_text, a C reader sees exactly the clipped plain text |
| Simple.StripTag | lib/bbcpp_simple.c:299-303 | produces exactly the get_text result |
| Simple.ReplaceTags | lib/bbcpp_simple.c:305-311 | produces exactly the get_text result, whatever the replacements |
| Simple.HtmlTags | lib/bbcpp_simple.c:88-110 | b, i, u, code, quote and url get a non-empty opening tag starting with "<" and a closing tag starting with "</"; every other name gets two empty strings; no tag string holds a zero byte |
| Simple.Put | lib/bbcpp_simple.c:112-116 | a tag string is written whole when it fits before the last byte and otherwise not at all (likewise the closing tag at lines 134-138); a text run is clipped to the room before the terminator (lines 79-82); what was written stays, and nothing goes past size-1 bytes |
| Simple.Emit | lib/bbcpp_simple.c:112-139 | writing pieces never exceeds size-1 bytes and only extends what was already written |
| Simple.EmitAmple | lib/bbcpp_simple.c:112-139 | when the whole rendering fits with a byte to spare, every piece is written whole |
| Simple.LeafWalk | lib/bbcpp_simple.c:70-83 | a text or attribute node writes its leaf pieces: a text under 512 bytes, or nothing |
| Simple.HtmlChildren | lib/bbcpp_simple.c:119-132 | inside an element, only non-element children are rendered, in index order |
| Simple.HtmlWalk | lib/bbcpp_simple.c:70-142 | a node's rendering equals the bounded emission of its pieces. For an element whose name is under 64 bytes these are the fixed open tag, its non-element children's texts, and the close tag; a longer name renders nothing |
| Simple.HtmlTopLevel | lib/bbcpp_simple.c:194-202 | the top-level loop renders every top-level node in order, elements included |
| Simple.ToHtml | lib/bbcpp_simple.c:180-212 | returns -1 exactly for a NULL input, a NULL or zero-size output, or a failed create or load, and then leaves the output untouched. Otherwise the output holds the bounded emission of the document's pieces, then a terminator |
| Simple.ToHtmlAmple | lib/bbcpp_simple.c:180-212 | with enough room, to_html writes the full rendering |
| Simple.EmitLeaf | lib/bbcpp_simple.c:76-83 | a leaf is rendered to HTML exactly as text extraction writes it |
| Simple.HtmlOfTextsIsPlainText | lib/bbcpp_simple.c:76-83 | on a document of text nodes only, to_html writes exactly what get_text writes |
| Simple.HtmlBold | lib/bbcpp_simple.c:92-94 | an element `b` holding the text `bold` renders as `<strong>bold</strong>` |
| Simple.HtmlNestedDropped | lib/bbcpp_simple.c:125-129 | an element nested in another element renders nothing, its text included |
| Simple.HtmlTagAllOrNothing | lib/bbcpp_simple.c:113-117 | with 9 bytes of room, the 8-byte `<strong>` is dropped whole while the text after it is written |
| Simple.CountWalk | lib/bbcpp_simple.c:38-67 | the count for a node is the number of elements in its subtree whose name equals the tag, for tags under 64 bytes; a longer tag counts 0 |
| Simple.CountChildren | lib/bbcpp_simple.c:56-64 | counting children i.. adds up the matching elements among them and their descendants |
| Simple.CountTags | lib/bbcpp_simple.c:220-245 | returns 0 for NULL arguments or a failed create or load. Otherwise it returns the number of elements anywhere in the tree named like the tag |
| Simple.HasTag | lib/bbcpp_simple.c:214-218 | returns 1 exactly when count_tags is positive, that is, when some element anywhere in the tree carries the tag's name; otherwise 0 |
| Simple.Validate | lib/bbcpp_simple.c:273-297 | returns 1 exactly when the document loads, and then leaves the buffer alone. On failure, a non-empty buffer reads back as "Failed to create document" or "Parse error", clipped to fit |
| Simple.Report | lib/bbcpp_simple.c:289-291 | strncpy and a final terminator leave the message, clipped to size-1 bytes, readable as a C string |
| Simple.CInt | lib/bbcpp_simple.c:329 | the `(int)` cast keeps values below 2^31 and wraps others modulo 2^32 into the 32-bit range |
| Simple.GetStats | lib/bbcpp_simple.c:313-334 | with non-NULL arguments the struct is always zeroed. On success, total_tags is the number of top-level children and every other field stays 0 |
| Simple.ExtractUrls | lib/bbcpp_simple.c:247-252 | the stub always reports 0 URLs |
| Simple.ExtractQuoteAuthors | lib/bbcpp_simple.c:254-271 | the stub reports 0 authors whatever the load outcome |

## Findings

| source | as written | input that shows it | evidently intended | confidence | as-written member | corrected member |
|---|---|---|---|---|---|---|
| lib/bbcpp_simple.c:46-52 | `strcmp(name, tag_name)` reads `name[64]` as a C string. `bbcpp_node_get_name` copies the name's bytes without a terminator (lib/bbcpp_c.cpp:40), and the array is uninitialised | element `b` with stack bytes `?x\0…` in the array: strcmp sees "bx", so `b` is not counted, and a search for `bx` counts it; with no zero byte in the array the read runs past it | compare the copied name, for example after `name[name_length] = '\0'` | medium (not executed) | NameMatch.StrcmpAsWritten, NameMatch.AsWrittenMissesMatch, NameMatch.AsWrittenFalseMatch | NameMatch.StrcmpTerminated, NameMatch.ReadName |

The same unterminated array is compared against the fixed tag names in
`to_html_recursive` (lib/bbcpp_simple.c:85-110). Both walks in this model
(`Simple.CountWalk`, `Simple.HtmlWalk`) use the corrected reading,
`NameMatch.ReadName`.

## Left out

- The parser (BBDocument's tokenizer and tree builder), `getRawString` and `printDocument`: their sources are not part of this model. `load` is the `parse` function of `Simple.Loader`, so `bbcpp_get_raw_string` and `bbcpp_document_print` are not modelled.
- `bbcpp_node_get_parent`: the tree is an immutable value without parent back-references.
- Tree.Lookup: the parameter container behind `getParameter` is not part of this model, so `Node` does not carry its key uniqueness as an invariant; `Lookup` answers with the first pair of a repeated key, and `CApi.ByIndexAgreesWithGet` assumes unique keys.
- Handle allocation and release: `bbcpp_document_create` and `bbcpp_document_destroy`, and the node handles that are never freed. The create step survives only as `Loader.creates`.
- The catch-all exception handlers: allocation or downcast failures inside an accessor are not modelled. A parser exception is the only failure, reported as PARSE_ERROR.
- `bbcpp_simple_version` and `bbcpp_simple_set_debug`: a constant string and a flag nothing reads.
- The `default:` branches of the two enum conversions: they cannot be reached from a closed enumeration.
- Simple.CountWalk: the C `int` accumulators of the counting walk are unbounded naturals here. More than 2^31 - 1 matches would overflow them, which in C is undefined behaviour.
- Simple.CountTags: returns a natural; the C `int` overflow (undefined behaviour) for more than 2^31 - 1 matching elements is not modelled.
- The uninitialised bytes of the walks' `content[512]` and `name[64]` arrays: the model starts them at zero. Only bytes already overwritten by the copy are read, except in the as-written name comparison, which takes them as a parameter.
- Text content and names may contain zero bytes in this model, though text parsed from a C string cannot. `Simple.GetTextReadsBack` and `NameMatch.StrcmpTerminated` assume there are none.
- Node types are dispatched on the datatype constructor rather than through `bbcpp_node_get_type`, which cannot fail for a non-NULL handle.
