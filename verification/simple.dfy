/** The convenience layer of lib/bbcpp_simple.c: plain-text extraction,
    BBCode-to-HTML rendering, tag counting, validation, statistics and the
    stubbed helpers. Text extraction and HTML rendering walk the parsed tree
    and write into a caller's fixed-size buffer; tag counting walks the tree
    and returns a count.

    Every walk threads `acc`, the bytes written so far at the start of the
    output buffer (the C code's `*pos` is |acc|); bytes past `acc` are never
    touched by a walk. Each walk is modelled twice: once as the source does
    it, node by node, and once as an independent reference definition; the
    walk's contract connects the two. */
module Simple {
  import opened Wrappers
  import opened Tree
  import opened Bounded
  import opened CApi
  import opened NameMatch

  /** sizeof(content) in the walks: a text of this many bytes or more does
      not fit and is skipped. */
  const TextCapacity: nat := 512

  /** What the layer needs from outside: whether bbcpp_document_create can
      allocate, and the parser behind bbcpp_document_load (None when it
      throws). */
  datatype Loader = Loader(creates: bool, parse: string -> Option<Document>)

  /** Outcome of the create-then-load prologue every public function runs. */
  datatype Opened = Ready(doc: Document) | CreateFailed | LoadFailed(status: Status)

  function Open(loader: Loader, bbcode: string): (r: Opened)
    ensures r.Ready? <==> loader.creates && loader.parse(bbcode).Some?
    ensures r.Ready? ==> loader.parse(bbcode) == Some(r.doc)
    ensures r.CreateFailed? <==> !loader.creates
    ensures r.LoadFailed? ==> r.status == ParseError
  {
    if !loader.creates then CreateFailed
    else
      var loaded := DocumentLoad(Some(Document([])), Some(bbcode), loader.parse);
      if loaded.status == Success then Ready(loaded.written.value) else LoadFailed(loaded.status)
  }

  /** A public function's return value and the caller's buffer afterwards. */
  datatype Reply = Reply(rc: int, buffer: Buf)

  // ---------------------------------------------------------------------
  // Plain text

  /** Reference: the contents of the text nodes in pre-order, children in
      index order, leaving out every text too long for the content array. */
  function PlainText(n: Node): string
  {
    match n
    case Text(c) => if |c| < TextCapacity then c else []
    case Element(_, _, _, cs) => PlainTexts(cs)
    case Attribute(_, _) => []
  }

  function PlainTexts(cs: seq<Node>): string
  {
    if cs == [] then [] else PlainText(cs[0]) + PlainTexts(cs[1..])
  }

  /** The text step shared by both walks (lib/bbcpp_simple.c:16-22 and
      77-83): fetch the content into a 512-byte array, then append as much
      of it as leaves room for the terminator. */
  function CopyText(c: string, acc: string, size: nat): (r: string)
    requires |acc| < size - 1
    ensures r == Clip(acc + (if |c| < TextCapacity then c else []), size - 1)
  {
    var got := TextGetContent(Some(Text(c)), Buf(seq(TextCapacity, _ => NUL)), true);
    if got.status == Success then
      var copyLen := Min(got.length.value, size - |acc| - 1);
      assert got.buffer.bytes[..copyLen] == c[..copyLen];
      acc + got.buffer.bytes[..copyLen]
    else acc
  }

  /** extract_text_recursive: the text this node adds to `acc`. */
  function ExtractWalk(n: Node, acc: string, size: nat): (r: string)
    requires 1 <= size && |acc| <= size - 1
    ensures r == Clip(acc + PlainText(n), size - 1)
    decreases n
  {
    if |acc| >= size - 1 then
      assert (acc + PlainText(n))[..size - 1] == acc;
      acc
    else
      match n
      case Text(c) => CopyText(c, acc, size)
      case Element(_, _, _, cs) => ExtractChildren(cs, 0, acc, size)
      case Attribute(_, _) => acc
  }

  /** The loop over children (lib/bbcpp_simple.c:26-34, and the top-level
      loop at 160-168). */
  function ExtractChildren(cs: seq<Node>, i: nat, acc: string, size: nat): (r: string)
    requires i <= |cs| && 1 <= size && |acc| <= size - 1
    ensures r == Clip(acc + PlainTexts(cs[i..]), size - 1)
    decreases cs, |cs| - i
  {
    if i == |cs| then acc
    else
      var next := ExtractWalk(cs[i], acc, size);
      assert cs[i..][1..] == cs[i + 1..];
      ClipAppend(acc + PlainText(cs[i]), PlainTexts(cs[i + 1..]), size - 1);
      ExtractChildren(cs, i + 1, next, size)
  }

  /** A text of 512 bytes or more adds nothing, however much room is left. */
  lemma LongTextContributesNothing(c: string, acc: string, size: nat)
    requires |c| >= TextCapacity && 1 <= size && |acc| <= size - 1
    ensures ExtractWalk(Text(c), acc, size) == acc
  {
  }

  /** The prologue and epilogue around a walk (lines 157 and 170-174):
      the first byte is cleared, the walk writes `written` from the start,
      and a terminator goes right after it. As |written| <= size - 1, the
      else branch at lines 172-173 never runs. */
  function Finish(output: seq<char>, written: string): (r: seq<char>)
    requires |written| < |output|
    ensures r == Terminate(output, written)
  {
    var cleared := output[0 := NUL];
    var pos := |written|;
    var filled := written + cleared[pos..];
    assert filled[pos := NUL] == Terminate(output, written);
    filled[pos := NUL]
  }

  /** bbcpp_simple_get_text. */
  function GetText(bbcode: Option<string>, output: Buf, loader: Loader): (r: Reply)
    ensures r.rc == 0 || r.rc == -1
    ensures r.rc == -1 <==> bbcode.None? || output.Null? || |output.bytes| == 0
                            || !Open(loader, bbcode.value).Ready?
    ensures r.rc == -1 ==> r.buffer == output
    ensures r.rc == 0 ==>
              r.buffer == Buf(Terminate(output.bytes,
                Clip(PlainTexts(Open(loader, bbcode.value).doc.children), |output.bytes| - 1)))
  {
    if bbcode.None? || output.Null? || |output.bytes| == 0 then Reply(-1, output)
    else match Open(loader, bbcode.value)
      case Ready(doc) =>
        var written := ExtractChildren(doc.children, 0, [], |output.bytes|);
        assert doc.children[0..] == doc.children;
        assert written == Clip(PlainTexts(doc.children), |output.bytes| - 1);
        Reply(0, Buf(Finish(output.bytes, written)))
      case _ => Reply(-1, output)
  }

  /** After a successful get_text, a C reader sees exactly the clipped text
      (when the text holds no zero byte, as text parsed from a C string). */
  lemma GetTextReadsBack(bbcode: string, output: seq<char>, loader: Loader)
    requires |output| > 0 && Open(loader, bbcode).Ready?
    requires NoNul(PlainTexts(Open(loader, bbcode).doc.children))
    ensures GetText(Some(bbcode), Buf(output), loader).rc == 0
    ensures CStr(GetText(Some(bbcode), Buf(output), loader).buffer.bytes)
              == Some(Clip(PlainTexts(Open(loader, bbcode).doc.children), |output| - 1))
  {
    var text := Clip(PlainTexts(Open(loader, bbcode).doc.children), |output| - 1);
    assert NoNul(text) by {
      assert forall i :: 0 <= i < |text| ==>
        text[i] == PlainTexts(Open(loader, bbcode).doc.children)[i];
    }
    CStrTerminate(output, text);
  }

  /** bbcpp_simple_strip_tag: the tag name is ignored and the plain text is
      produced. */
  function StripTag(bbcode: Option<string>, tagName: Option<string>, output: Buf, loader: Loader): (r: Reply)
    ensures r == GetText(bbcode, output, loader)
  {
    GetText(bbcode, output, loader)
  }

  /** One entry of bbcpp_tag_replacement. */
  datatype TagReplacement = TagReplacement(tagName: string, openReplacement: string, closeReplacement: string)

  /** bbcpp_simple_replace_tags: the replacements are ignored and the plain
      text is produced. */
  function ReplaceTags(bbcode: Option<string>, replacements: seq<TagReplacement>,
                       output: Buf, loader: Loader): (r: Reply)
    ensures r == GetText(bbcode, output, loader)
  {
    GetText(bbcode, output, loader)
  }

  // ---------------------------------------------------------------------
  // HTML

  /** The fixed HTML open/close pair for a tag name; empty strings for any
      tag without a translation. */
  function HtmlTags(name: string): (r: (string, string))
    ensures name !in {"b", "i", "u", "code", "quote", "url"} ==> r == ("", "")
    ensures name in {"b", "i", "u", "code", "quote", "url"} ==>
              && 0 < |r.0| && 2 < |r.1| && r.0[0] == '<' && r.1[..2] == "</"
    ensures NoNul(r.0) && NoNul(r.1)
  {
    if name == "b" then ("<strong>", "</strong>")
    else if name == "i" then ("<em>", "</em>")
    else if name == "u" then ("<u>", "</u>")
    else if name == "code" then ("<code>", "</code>")
    else if name == "quote" then ("<blockquote>", "</blockquote>")
    else if name == "url" then ("<a href=\"#\">", "</a>")
    else ("", "")
  }

  /** One unit of HTML output: a tag string, written whole or not at all,
      or a run of text, which may be cut short. */
  datatype Piece = Markup(s: string) | Chunk(s: string)

  /** Reference: the pieces a leaf renders to. */
  function LeafPieces(n: Node): seq<Piece>
  {
    match n
    case Text(c) => if |c| < TextCapacity then [Chunk(c)] else []
    case Element(_, _, _, _) => []
    case Attribute(_, _) => []
  }

  /** Reference: inside an element only the non-element children render. */
  function ChildPieces(cs: seq<Node>): seq<Piece>
  {
    if cs == [] then []
    else (if cs[0].Element? then [] else LeafPieces(cs[0])) + ChildPieces(cs[1..])
  }

  /** Reference: the pieces one top-level node renders to. An element whose
      name does not fit the name array renders nothing at all. */
  function HtmlPieces(n: Node): seq<Piece>
  {
    match n
    case Element(name, _, _, cs) =>
      if |name| < NameCapacity then
        [Markup(HtmlTags(name).0)] + ChildPieces(cs) + [Markup(HtmlTags(name).1)]
      else []
    case Text(_) => LeafPieces(n)
    case Attribute(_, _) => LeafPieces(n)
  }

  /** Reference: the pieces of every top-level node, in order. */
  function DocPieces(cs: seq<Node>): seq<Piece>
  {
    if cs == [] then [] else HtmlPieces(cs[0]) + DocPieces(cs[1..])
  }

  /** The rendering with unlimited room. */
  function Flatten(ps: seq<Piece>): string
  {
    if ps == [] then [] else ps[0].s + Flatten(ps[1..])
  }

  /** Writing one piece into a buffer of `size` bytes that already holds
      `acc`: a tag only when it fits with a byte to spare beyond the
      terminator's (lib/bbcpp_simple.c:114,136), text up to the last byte
      before the terminator. */
  function Put(p: Piece, acc: string, size: nat): (r: string)
    requires 1 <= size
    // a tag string is never written partially
    ensures p.Markup? ==> r == acc || r == acc + p.s
    ensures p.Markup? && |acc| + |p.s| < size - 1 ==> r == acc + p.s
    ensures p.Markup? && |acc| + |p.s| >= size - 1 ==> r == acc
    // text is written as far as room allows
    ensures p.Chunk? && |acc| < size - 1 ==> r == Clip(acc + p.s, size - 1)
    // nothing is written beyond the terminator's byte, and what is there stays
    ensures |acc| <= size - 1 ==> |acc| <= |r| <= size - 1 && r[..|acc|] == acc
  {
    match p
    case Markup(s) => if |acc| + |s| < size - 1 then acc + s else acc
    case Chunk(s) => if |acc| >= size - 1 then acc else Clip(acc + s, size - 1)
  }

  /** Reference: writing the pieces one after another. The result never
      exceeds the room before the terminator and only ever extends `acc`. */
  function Emit(ps: seq<Piece>, acc: string, size: nat): (r: string)
    requires 1 <= size && |acc| <= size - 1
    ensures |acc| <= |r| <= size - 1
    ensures r[..|acc|] == acc
  {
    if ps == [] then acc
    else
      var next := Put(ps[0], acc, size);
      assert next[..|acc|] == acc;
      var r := Emit(ps[1..], next, size);
      assert r[..|acc|] == r[..|next|][..|acc|];
      r
  }

  lemma {:induction false} EmitAppend(p: seq<Piece>, q: seq<Piece>, acc: string, size: nat)
    requires 1 <= size && |acc| <= size - 1
    ensures Emit(p + q, acc, size) == Emit(q, Emit(p, acc, size), size)
  {
    if p == [] {
      assert p + q == q;
    } else {
      assert (p + q)[1..] == p[1..] + q;
      EmitAppend(p[1..], q, Put(p[0], acc, size), size);
    }
  }

  /** Once the buffer is full up to the terminator nothing more is written. */
  lemma {:induction false} EmitFull(ps: seq<Piece>, acc: string, size: nat)
    requires 1 <= size && |acc| == size - 1
    ensures Emit(ps, acc, size) == acc
  {
    if ps != [] {
      assert Put(ps[0], acc, size) == acc;
      EmitFull(ps[1..], acc, size);
    }
  }

  /** With room to spare every piece is written whole: the output is the
      unlimited rendering. */
  lemma {:induction false} EmitAmple(ps: seq<Piece>, acc: string, size: nat)
    requires 1 <= size && |acc| + |Flatten(ps)| < size - 1
    ensures Emit(ps, acc, size) == acc + Flatten(ps)
  {
    if ps != [] {
      var next := Put(ps[0], acc, size);
      assert next == acc + ps[0].s;
      EmitAmple(ps[1..], next, size);
      assert acc + ps[0].s + Flatten(ps[1..]) == acc + Flatten(ps);
    }
  }

  /** to_html_recursive for a non-element child inside an element, and for
      text and attribute nodes at the top level. */
  function LeafWalk(n: Node, acc: string, size: nat): (r: string)
    requires !n.Element? && 1 <= size && |acc| <= size - 1
    ensures r == Emit(LeafPieces(n), acc, size)
  {
    if |acc| >= size - 1 then
      EmitFull(LeafPieces(n), acc, size);
      acc
    else
      match n
      case Text(c) => CopyText(c, acc, size)
      case Attribute(_, _) => acc
  }

  /** The child loop of to_html_recursive (lib/bbcpp_simple.c:120-132):
      element children are skipped. */
  function HtmlChildren(cs: seq<Node>, i: nat, acc: string, size: nat): (r: string)
    requires i <= |cs| && 1 <= size && |acc| <= size - 1
    ensures r == Emit(ChildPieces(cs[i..]), acc, size)
    decreases |cs| - i
  {
    if i == |cs| then acc
    else
      var next := if cs[i].Element? then acc else LeafWalk(cs[i], acc, size);
      assert cs[i..][1..] == cs[i + 1..];
      EmitAppend(if cs[i].Element? then [] else LeafPieces(cs[i]), ChildPieces(cs[i + 1..]), acc, size);
      HtmlChildren(cs, i + 1, next, size)
  }

  /** to_html_recursive on a top-level node. */
  function HtmlWalk(n: Node, acc: string, size: nat): (r: string)
    requires 1 <= size && |acc| <= size - 1
    ensures r == Emit(HtmlPieces(n), acc, size)
  {
    if |acc| >= size - 1 then
      EmitFull(HtmlPieces(n), acc, size);
      acc
    else if !n.Element? then LeafWalk(n, acc, size)
    else
      match ReadName(n, ZeroStack())
      case None => acc
      case Some(name) =>
        var (openTag, closeTag) := HtmlTags(name);
        var afterOpen := if |acc| + |openTag| < size - 1 then acc + openTag else acc;
        var inner := HtmlChildren(n.children, 0, afterOpen, size);
        assert n.children[0..] == n.children;
        EmitAppend([Markup(openTag)], ChildPieces(n.children), acc, size);
        EmitAppend([Markup(openTag)] + ChildPieces(n.children), [Markup(closeTag)], acc, size);
        if |inner| + |closeTag| < size - 1 then inner + closeTag else inner
  }

  /** The top-level loop of bbcpp_simple_to_html (lines 194-202). */
  function HtmlTopLevel(cs: seq<Node>, i: nat, acc: string, size: nat): (r: string)
    requires i <= |cs| && 1 <= size && |acc| <= size - 1
    ensures r == Emit(DocPieces(cs[i..]), acc, size)
    decreases |cs| - i
  {
    if i == |cs| then acc
    else
      var next := HtmlWalk(cs[i], acc, size);
      assert cs[i..][1..] == cs[i + 1..];
      EmitAppend(HtmlPieces(cs[i]), DocPieces(cs[i + 1..]), acc, size);
      HtmlTopLevel(cs, i + 1, next, size)
  }

  /** bbcpp_simple_to_html. */
  function ToHtml(bbcode: Option<string>, output: Buf, loader: Loader): (r: Reply)
    ensures r.rc == 0 || r.rc == -1
    ensures r.rc == -1 <==> bbcode.None? || output.Null? || |output.bytes| == 0
                            || !Open(loader, bbcode.value).Ready?
    ensures r.rc == -1 ==> r.buffer == output
    ensures r.rc == 0 ==>
              r.buffer == Buf(Terminate(output.bytes,
                Emit(DocPieces(Open(loader, bbcode.value).doc.children), [], |output.bytes|)))
  {
    if bbcode.None? || output.Null? || |output.bytes| == 0 then Reply(-1, output)
    else match Open(loader, bbcode.value)
      case Ready(doc) =>
        var written := HtmlTopLevel(doc.children, 0, [], |output.bytes|);
        assert doc.children[0..] == doc.children;
        Reply(0, Buf(Finish(output.bytes, written)))
      case _ => Reply(-1, output)
  }

  /** With enough room, to_html writes the full rendering. */
  lemma ToHtmlAmple(bbcode: string, output: seq<char>, loader: Loader)
    requires Open(loader, bbcode).Ready?
    requires |Flatten(DocPieces(Open(loader, bbcode).doc.children))| < |output| - 1
    ensures ToHtml(Some(bbcode), Buf(output), loader)
              == Reply(0, Buf(Terminate(output, Flatten(DocPieces(Open(loader, bbcode).doc.children)))))
  {
    EmitAmple(DocPieces(Open(loader, bbcode).doc.children), [], |output|);
  }

  /** A leaf's pieces are written as its plain text is. */
  lemma EmitLeaf(n: Node, acc: string, size: nat)
    requires !n.Element? && 1 <= size && |acc| <= size - 1
    ensures Emit(LeafPieces(n), acc, size) == Clip(acc + PlainText(n), size - 1)
  {
    if |acc| >= size - 1 {
      EmitFull(LeafPieces(n), acc, size);
      assert (acc + PlainText(n))[..size - 1] == acc;
    } else if n.Text? && |n.content| < TextCapacity {
      assert Emit(LeafPieces(n), acc, size) == Put(Chunk(n.content), acc, size);
    }
  }

  /** A leading leaf is written as its plain text, before the rest. */
  lemma EmitFirstLeaf(cs: seq<Node>, acc: string, size: nat)
    requires cs != [] && !cs[0].Element?
    requires 1 <= size && |acc| <= size - 1
    ensures Emit(DocPieces(cs), acc, size)
              == Emit(DocPieces(cs[1..]), Clip(acc + PlainText(cs[0]), size - 1), size)
  {
    assert DocPieces(cs) == LeafPieces(cs[0]) + DocPieces(cs[1..]);
    EmitAppend(LeafPieces(cs[0]), DocPieces(cs[1..]), acc, size);
    EmitLeaf(cs[0], acc, size);
  }

  /** Clipping the text of a sequence is clipping the first node's text
      and then the rest's. */
  lemma PlainTextsStep(cs: seq<Node>, acc: string, room: nat)
    requires cs != []
    ensures Clip(acc + PlainTexts(cs), room)
              == Clip(Clip(acc + PlainText(cs[0]), room) + PlainTexts(cs[1..]), room)
  {
    assert acc + PlainTexts(cs) == (acc + PlainText(cs[0])) + PlainTexts(cs[1..]);
    ClipAppend(acc + PlainText(cs[0]), PlainTexts(cs[1..]), room);
  }

  /** On a document of plain texts only, to_html writes exactly what
      get_text writes. */
  lemma {:induction false} HtmlOfTextsIsPlainText(cs: seq<Node>, acc: string, size: nat)
    requires forall i :: 0 <= i < |cs| ==> cs[i].Text?
    requires 1 <= size && |acc| <= size - 1
    ensures Emit(DocPieces(cs), acc, size) == Clip(acc + PlainTexts(cs), size - 1)
  {
    if cs == [] {
      assert Emit(DocPieces(cs), acc, size) == Clip(acc + PlainTexts(cs), size - 1) by {
        assert Clip(acc, size - 1) == acc;
      }
    } else {
      var rest := cs[1..];
      var next := Clip(acc + PlainText(cs[0]), size - 1);
      assert forall i :: 0 <= i < |rest| ==> rest[i].Text? by {
        assert forall i :: 0 <= i < |rest| ==> rest[i] == cs[i + 1];
      }
      HtmlOfTextsIsPlainText(rest, next, size);
      EmitFirstLeaf(cs, acc, size);
      PlainTextsStep(cs, acc, size - 1);
    }
  }

  /** A bold element renders to a strong element. */
  lemma HtmlBold()
    ensures HtmlTopLevel([Element("b", Simple, [], [Text("bold")])], 0, [], 64)
              == "<strong>bold</strong>"
  {
    var ps := DocPieces([Element("b", Simple, [], [Text("bold")])]);
    assert ChildPieces([Text("bold")]) == [Chunk("bold")];
    assert ps == [Markup("<strong>"), Chunk("bold"), Markup("</strong>")];
    assert Flatten(ps) == "<strong>bold</strong>";
    EmitAmple(ps, [], 64);
    assert [Element("b", Simple, [], [Text("bold")])][0..] == [Element("b", Simple, [], [Text("bold")])];
  }

  /** An element nested inside another renders nothing, its text included. */
  lemma HtmlNestedDropped()
    ensures HtmlTopLevel([Element("b", Simple, [], [Element("i", Simple, [], [Text("x")])])], 0, [], 64)
              == "<strong></strong>"
  {
    var doc := [Element("b", Simple, [], [Element("i", Simple, [], [Text("x")])])];
    var ps := DocPieces(doc);
    assert ChildPieces([Element("i", Simple, [], [Text("x")])]) == [];
    assert ps == [Markup("<strong>"), Markup("</strong>")];
    assert Flatten(ps[1..]) == "</strong>";
    assert Flatten(ps) == "<strong></strong>";
    EmitAmple(ps, [], 64);
    assert doc[0..] == doc;
  }

  /** A tag string that does not fit is dropped whole while text is still
      written: with 9 bytes, "<strong>" (8 bytes) is left out but "bold"
      goes in. */
  lemma HtmlTagAllOrNothing()
    ensures HtmlTopLevel([Element("b", Simple, [], [Text("bold")])], 0, [], 9) == "bold"
  {
    var doc := [Element("b", Simple, [], [Text("bold")])];
    assert ChildPieces([Text("bold")]) == [Chunk("bold")];
    var ps := DocPieces(doc);
    assert ps == [Markup("<strong>"), Chunk("bold"), Markup("</strong>")];
    assert Put(Markup("<strong>"), [], 9) == [];
    assert Put(Chunk("bold"), [], 9) == "bold";
    assert Put(Markup("</strong>"), "bold", 9) == "bold";
    assert Emit(ps[2..], "bold", 9) == "bold";
    assert Emit(ps[1..], [], 9) == "bold";
    assert Emit(ps, [], 9) == "bold";
    assert doc[0..] == doc;
  }

  // ---------------------------------------------------------------------
  // Counting tags

  /** Reference: the names of all elements, in pre-order. */
  function ElementNames(n: Node): seq<string>
  {
    match n
    case Element(name, _, _, cs) => [name] + ElementNamesOf(cs)
    case Text(_) => []
    case Attribute(_, _) => []
  }

  function ElementNamesOf(cs: seq<Node>): seq<string>
  {
    if cs == [] then [] else ElementNames(cs[0]) + ElementNamesOf(cs[1..])
  }

  /** Reference: how many of `names` equal `tag`; a tag that could not fit
      the name array matches nothing. */
  function Occurrences(names: seq<string>, tag: string): nat
  {
    if |tag| < NameCapacity then multiset(names)[tag] else 0
  }

  /** count_tags_recursive. */
  function CountWalk(n: Node, tag: string): (r: nat)
    ensures r == Occurrences(ElementNames(n), tag)
  {
    match n
    case Element(_, _, _, cs) =>
      var here := if ReadName(n, ZeroStack()) == Some(tag) then 1 else 0;
      assert cs[0..] == cs;
      here + CountChildren(cs, 0, tag)
    case Text(_) => 0
    case Attribute(_, _) => 0
  }

  /** The child loop of count_tags_recursive (lines 56-64) and the
      top-level loop of bbcpp_simple_count_tags (lines 231-241). */
  function CountChildren(cs: seq<Node>, i: nat, tag: string): (r: nat)
    requires i <= |cs|
    ensures r == Occurrences(ElementNamesOf(cs[i..]), tag)
    decreases cs, |cs| - i
  {
    if i == |cs| then 0
    else
      assert cs[i..][1..] == cs[i + 1..];
      CountWalk(cs[i], tag) + CountChildren(cs, i + 1, tag)
  }

  /** bbcpp_simple_count_tags. */
  function CountTags(bbcode: Option<string>, tagName: Option<string>, loader: Loader): (r: nat)
    ensures bbcode.None? || tagName.None? || !Open(loader, bbcode.value).Ready? ==> r == 0
    ensures bbcode.Some? && tagName.Some? && Open(loader, bbcode.value).Ready? ==>
              r == Occurrences(ElementNamesOf(Open(loader, bbcode.value).doc.children), tagName.value)
  {
    if bbcode.None? || tagName.None? then 0
    else match Open(loader, bbcode.value)
      case Ready(doc) =>
        assert doc.children[0..] == doc.children;
        CountChildren(doc.children, 0, tagName.value)
      case _ => 0
  }

  /** bbcpp_simple_has_tag: 1 exactly when some element anywhere in the
      tree carries the tag's name. */
  function HasTag(bbcode: Option<string>, tagName: Option<string>, loader: Loader): (r: int)
    ensures r == 0 || r == 1
    ensures r == 1 <==> CountTags(bbcode, tagName, loader) > 0
    ensures r == 1 <==> && bbcode.Some? && tagName.Some? && Open(loader, bbcode.value).Ready?
                        && |tagName.value| < NameCapacity
                        && tagName.value in ElementNamesOf(Open(loader, bbcode.value).doc.children)
  {
    if bbcode.None? || tagName.None? then 0
    else if CountTags(bbcode, tagName, loader) > 0 then 1 else 0
  }

  // ---------------------------------------------------------------------
  // Validation, statistics and stubs

  /** bbcpp_simple_validate: 1 exactly when the document loads. On failure
      a non-empty message buffer receives the reason, cut to fit and
      terminated. */
  function Validate(bbcode: Option<string>, errorMsg: Buf, loader: Loader): (r: Reply)
    ensures r.rc == 0 || r.rc == 1
    ensures r.rc == 1 <==> bbcode.Some? && Open(loader, bbcode.value).Ready?
    ensures r.rc == 1 || bbcode.None? || errorMsg.Null? || |errorMsg.bytes| == 0 ==> r.buffer == errorMsg
    ensures r.rc == 0 && bbcode.Some? && errorMsg.Buf? && |errorMsg.bytes| > 0 ==>
              && r.buffer.Buf? && |r.buffer.bytes| == |errorMsg.bytes|
              && CStr(r.buffer.bytes) == Some(Clip(if loader.creates then "Parse error"
                                                   else "Failed to create document",
                                                   |errorMsg.bytes| - 1))
  {
    if bbcode.None? then Reply(0, errorMsg)
    else match Open(loader, bbcode.value)
      case Ready(_) => Reply(1, errorMsg)
      case CreateFailed => Reply(0, Report(errorMsg, "Failed to create document"))
      case LoadFailed(status) => Reply(0, Report(errorMsg, ErrorString(StatusCode(status))))
  }

  /** strncpy of a message into a non-empty buffer, then a terminator in
      its last byte; a NULL or empty buffer is left alone. */
  function Report(buffer: Buf, msg: string): (r: Buf)
    requires NoNul(msg)
    ensures buffer.Null? || |buffer.bytes| == 0 ==> r == buffer
    ensures buffer.Buf? && |buffer.bytes| > 0 ==>
              r.Buf? && |r.bytes| == |buffer.bytes| && CStr(r.bytes) == Some(Clip(msg, |buffer.bytes| - 1))
  {
    if buffer.Buf? && |buffer.bytes| > 0 then Buf(CopyTerminated(buffer.bytes, msg)) else buffer
  }

  /** bbcpp_stats. */
  datatype Stats = Stats(totalTags: int, textNodes: int, uniqueTags: int,
                         maxNestingDepth: int, totalTextLength: nat)

  const ZeroStats := Stats(0, 0, 0, 0, 0)

  /** The `(int)` cast of a size_t: the value modulo 2^32 read as a
      two's-complement 32-bit integer. */
  function CInt(n: nat): (r: int)
    ensures -0x8000_0000 <= r < 0x8000_0000
    ensures (r - n) % 0x1_0000_0000 == 0
    ensures n < 0x8000_0000 ==> r == n
  {
    var m := n % 0x1_0000_0000;
    if m < 0x8000_0000 then m else m - 0x1_0000_0000
  }

  /** Result of bbcpp_simple_get_stats: the return value and what the
      stats pointer holds afterwards (None when it was NULL or never
      written). */
  datatype StatsReply = StatsReply(rc: int, stats: Option<Stats>)

  /** bbcpp_simple_get_stats: the struct is zeroed first; only total_tags
      is ever set, to the number of top-level children. */
  function GetStats(bbcode: Option<string>, statsPtr: bool, loader: Loader): (r: StatsReply)
    ensures r.rc == 0 || r.rc == -1
    ensures r.stats.Some? <==> bbcode.Some? && statsPtr
    ensures r.rc == 0 <==> bbcode.Some? && statsPtr && Open(loader, bbcode.value).Ready?
    ensures r.rc == -1 && r.stats.Some? ==> r.stats.value == ZeroStats
    ensures r.rc == 0 ==>
              && var doc := Open(loader, bbcode.value).doc;
                 r.stats.value == ZeroStats.(totalTags := CInt(|doc.children|))
                 && (|doc.children| < 0x8000_0000 ==> r.stats.value.totalTags == |doc.children|)
  {
    if bbcode.None? || !statsPtr then StatsReply(-1, None)
    else match Open(loader, bbcode.value)
      case Ready(doc) =>
        var count := DocumentGetChildrenCount(Some(doc), true);
        StatsReply(0, Some(ZeroStats.(totalTags := CInt(count.written.value))))
      case _ => StatsReply(-1, Some(ZeroStats))
  }

  /** bbcpp_simple_extract_urls: a stub that reports no URLs. */
  function ExtractUrls(bbcode: Option<string>, maxUrls: int): (r: int)
    ensures r == 0
  {
    0
  }

  /** bbcpp_simple_extract_quote_authors: loads the document when asked to,
      but reports no authors whatever the outcome. */
  function ExtractQuoteAuthors(bbcode: Option<string>, authorsPtr: bool, maxAuthors: int,
                               loader: Loader): (r: int)
    ensures r == 0
  {
    if bbcode.None? || !authorsPtr || maxAuthors <= 0 then 0
    else match Open(loader, bbcode.value)
      case Ready(_) => 0
      case _ => 0
  }
}
