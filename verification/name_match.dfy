/** Reading an element's name into the walks' `char name[64]` and comparing
    it with a tag name (lib/bbcpp_simple.c:46-52 and 85-110).

    bbcpp_node_get_name copies the name's bytes and no terminator, and the
    array starts uninitialised, so `strcmp(name, tag_name)` as written reads
    whatever stack bytes follow the copy. `StrcmpAsWritten` models that
    reading with the array's prior contents as a parameter; `ReadName` is
    the corrected reading, by the reported length, that the walks use. */
module NameMatch {
  import opened Wrappers
  import opened Tree
  import opened Bounded
  import opened CApi

  /** sizeof(name) in the walks. */
  const NameCapacity: nat := 64

  /** One possible prior content of the uninitialised name array. */
  function ZeroStack(): (s: seq<char>)
    ensures |s| == NameCapacity
  {
    seq(NameCapacity, _ => NUL)
  }

  /** The corrected reading: bbcpp_node_get_name into the array, then the
      first `name_length` bytes. It yields the node's name exactly when the
      name fits with room to spare, whatever the array held before. */
  function ReadName(n: Node, stack: seq<char>): (r: Option<string>)
    requires |stack| == NameCapacity
    ensures r.Some? <==> |NameOf(n)| < NameCapacity
    ensures r.Some? ==> r.value == NameOf(n)
  {
    var got := NodeGetName(Some(n), Buf(stack), true);
    if got.status == Success then Some(got.buffer.bytes[..got.length.value]) else None
  }

  /** The comparison as written: copy, then compare the array as a C string
      against `tag`. None stands for undefined behaviour: the array holds no
      terminator and strcmp would read past its end. */
  function StrcmpAsWritten(n: Node, stack: seq<char>, tag: string): (r: Option<bool>)
    requires |stack| == NameCapacity
    ensures |NameOf(n)| >= NameCapacity ==> r == Some(false)
  {
    var got := NodeGetName(Some(n), Buf(stack), true);
    if got.status != Success then Some(false)
    else match CStr(got.buffer.bytes)
      case None => None
      case Some(s) => Some(s == tag)
  }

  /** An element named "b" is not recognised as a "b" tag when the byte
      after the copied name happens to be non-zero. */
  lemma AsWrittenMissesMatch()
    ensures var stack := ['?', 'x', NUL] + seq(NameCapacity - 3, _ => NUL);
            StrcmpAsWritten(Element("b", Simple, [], []), stack, "b") == Some(false)
            && ReadName(Element("b", Simple, [], []), stack) == Some("b")
  {
    var stack := ['?', 'x', NUL] + seq(NameCapacity - 3, _ => NUL);
    var got := NodeGetName(Some(Element("b", Simple, [], [])), Buf(stack), true);
    assert got.buffer.bytes == ['b', 'x', NUL] + stack[3..];
    CStrAt(got.buffer.bytes, 2);
    assert got.buffer.bytes[..2] == ['b', 'x'];
  }

  /** ... and an element named "b" is taken for a "bx" tag. */
  lemma AsWrittenFalseMatch()
    ensures var stack := ['?', 'x', NUL] + seq(NameCapacity - 3, _ => NUL);
            StrcmpAsWritten(Element("b", Simple, [], []), stack, "bx") == Some(true)
  {
    var stack := ['?', 'x', NUL] + seq(NameCapacity - 3, _ => NUL);
    var got := NodeGetName(Some(Element("b", Simple, [], [])), Buf(stack), true);
    assert got.buffer.bytes == ['b', 'x', NUL] + stack[3..];
    CStrAt(got.buffer.bytes, 2);
    assert got.buffer.bytes[..2] == ['b', 'x'];
  }

  /** With no zero byte left in the array the comparison reads past it. */
  lemma AsWrittenUndefined()
    ensures StrcmpAsWritten(Element("b", Simple, [], []), seq(NameCapacity, _ => 'x'), "b").None?
  {
    var got := NodeGetName(Some(Element("b", Simple, [], [])), Buf(seq(NameCapacity, _ => 'x')), true);
    assert NoNul(got.buffer.bytes) by {
      assert got.buffer.bytes == ['b'] + seq(NameCapacity, _ => 'x')[1..];
    }
  }

  /** The evident fix terminates the copy (`name[name_length] = '\0'`)
      before strcmp. For a name without zero bytes, as every name parsed
      from a C string is, the fixed comparison is exactly "the name fits
      and equals the tag", whatever the array held before. */
  function StrcmpTerminated(n: Node, stack: seq<char>, tag: string): (r: bool)
    requires |stack| == NameCapacity && NoNul(NameOf(n))
    ensures r <==> ReadName(n, stack) == Some(tag)
    ensures r <==> |NameOf(n)| < NameCapacity && NameOf(n) == tag
  {
    var got := NodeGetName(Some(n), Buf(stack), true);
    if got.status != Success then false
    else
      var name := NameOf(n);
      var fixed := got.buffer.bytes[got.length.value := NUL];
      assert fixed == Terminate(got.buffer.bytes, name);
      CStrTerminate(got.buffer.bytes, name);
      CStr(fixed) == Some(tag)
  }
}
