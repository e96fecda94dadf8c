/** Fixed-capacity character buffers: truncation, NUL termination, and
    reading a buffer back as a C string. A buffer's bytes are a `seq<char>`
    whose length is the buffer's capacity; '\0' is the terminator. */
module Bounded {
  import opened Wrappers

  const NUL: char := '\0'

  function Min(a: nat, b: nat): nat
  {
    if a <= b then a else b
  }

  /** The longest prefix of `s` that fits in `cap` bytes. */
  function Clip(s: string, cap: nat): (r: string)
    ensures |r| == Min(|s|, cap)
    ensures r == s[..|r|]
  {
    s[..Min(|s|, cap)]
  }

  /** Clipping is stable: writing into a clipped prefix and clipping again
      equals clipping the whole concatenation once. This is what makes a
      walk that stops writing at the capacity emit a prefix of its input. */
  lemma ClipAppend(x: string, y: string, cap: nat)
    ensures Clip(Clip(x, cap) + y, cap) == Clip(x + y, cap)
  {
    if |x| >= cap {
      assert Clip(x, cap) + y == x[..cap] + y;
      assert (x[..cap] + y)[..cap] == x[..cap];
      assert (x + y)[..cap] == x[..cap];
    } else {
      assert Clip(x, cap) == x;
    }
  }

  /** True when `s` contains no terminator byte, as every C string's body. */
  predicate NoNul(s: string)
  {
    forall i :: 0 <= i < |s| ==> s[i] != NUL
  }

  /** The buffer after `s` has been written at its start and a terminator
      placed right after it; the remaining bytes keep their old values. */
  function Terminate(buffer: seq<char>, s: string): (r: seq<char>)
    requires |s| < |buffer|
    ensures |r| == |buffer|
    ensures r[..|s|] == s && r[|s|] == NUL
    ensures forall i :: |s| < i < |buffer| ==> r[i] == buffer[i]
  {
    s + [NUL] + buffer[|s| + 1..]
  }

  /** What a C reader sees in a buffer: the bytes before the first
      terminator, or None when the buffer holds no terminator at all (a
      reader would then run past its end). */
  function CStr(buffer: seq<char>): (r: Option<string>)
    ensures r.None? <==> NoNul(buffer)
    ensures r.Some? ==> |r.value| < |buffer| && buffer[|r.value|] == NUL
                        && r.value == buffer[..|r.value|] && NoNul(r.value)
  {
    if buffer == [] then None
    else if buffer[0] == NUL then Some([])
    else
      match CStr(buffer[1..])
      case None =>
        assert forall i :: 1 <= i < |buffer| ==> buffer[i] == buffer[1..][i - 1];
        None
      case Some(t) =>
        assert forall i :: 1 <= i < |buffer| ==> buffer[i] == buffer[1..][i - 1];
        Some([buffer[0]] + t)
  }

  /** A reader stops at the first terminator. */
  lemma CStrAt(buffer: seq<char>, k: nat)
    requires k < |buffer| && buffer[k] == NUL && NoNul(buffer[..k])
    ensures CStr(buffer) == Some(buffer[..k])
  {
    assert !NoNul(buffer);
  }

  /** A terminated string reads back exactly. */
  lemma {:induction false} CStrTerminate(buffer: seq<char>, s: string)
    requires |s| < |buffer| && NoNul(s)
    ensures CStr(Terminate(buffer, s)) == Some(s)
  {
    var t := Terminate(buffer, s);
    if s != [] {
      assert t[1..] == Terminate(buffer[1..], s[1..]);
      CStrTerminate(buffer[1..], s[1..]);
      assert [s[0]] + s[1..] == s;
    }
  }

  /** strncpy(buffer, msg, size - 1) followed by buffer[size - 1] = '\0':
      the first size-1 bytes receive `msg` (cut short if longer) padded
      with terminators, and the last byte is a terminator. */
  function CopyTerminated(buffer: seq<char>, msg: string): (r: seq<char>)
    requires |buffer| > 0 && NoNul(msg)
    ensures |r| == |buffer|
    ensures CStr(r) == Some(Clip(msg, |buffer| - 1))
    ensures forall i :: |Clip(msg, |buffer| - 1)| <= i < |buffer| ==> r[i] == NUL
  {
    var k := Min(|msg|, |buffer| - 1);
    var r := msg[..k] + seq(|buffer| - k, _ => NUL);
    assert r == Terminate(r, msg[..k]);
    CStrTerminate(r, msg[..k]);
    r
  }
}
