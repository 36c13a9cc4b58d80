/** Shared vocabulary: bytes, ASCII text, an Option type and byte-sequence helpers. */
module Common {

  /** One unsigned byte (`uint8_t`, or a `char` read as unsigned). */
  type byte = x: int | 0 <= x < 256

  /** Line feed, `'\n'`. */
  const LF: byte := 10
  /** The C string terminator. */
  const NUL: byte := 0

  datatype Option<+T> = None | Some(value: T)

  /** The bytes of an ASCII/Latin-1 string literal. */
  function Ascii(s: string): (r: seq<byte>)
    requires forall i :: 0 <= i < |s| ==> s[i] as int < 256
    ensures |r| == |s|
    ensures forall i :: 0 <= i < |s| ==> r[i] == s[i] as int
  {
    seq(|s|, i requires 0 <= i < |s| => s[i] as int)
  }

  /** C `tolower` in the "C" locale: only 'A'..'Z' are folded. */
  function ToLower(c: byte): (r: byte)
    ensures 65 <= c <= 90 ==> r == c + 32
    ensures !(65 <= c <= 90) ==> r == c
  {
    if 65 <= c <= 90 then c + 32 else c
  }

  /** A C string: a byte sequence without a terminator inside it. */
  predicate NoNul(s: seq<byte>)
  {
    forall i :: 0 <= i < |s| ==> s[i] != NUL
  }

  /** The bytes of a C string up to (not including) its terminator. */
  type CString = s: seq<byte> | NoNul(s)

  /** All the chunks of `cs`, concatenated in order. */
  function Flatten(cs: seq<seq<byte>>): seq<byte>
  {
    if cs == [] then [] else Flatten(cs[..|cs| - 1]) + cs[|cs| - 1]
  }

  lemma FlattenAppend(cs: seq<seq<byte>>, c: seq<byte>)
    ensures Flatten(cs + [c]) == Flatten(cs) + c
  {
    assert (cs + [c])[..|cs|] == cs;
  }

  lemma {:induction false} FlattenCons(c: seq<byte>, cs: seq<seq<byte>>)
    ensures Flatten([c] + cs) == c + Flatten(cs)
    decreases |cs|
  {
    if cs == [] {
      assert [c] + cs == [c];
      assert Flatten([c]) == Flatten([]) + c;
    } else {
      var last := cs[|cs| - 1];
      var init := cs[..|cs| - 1];
      assert [c] + cs == ([c] + init) + [last];
      assert cs == init + [last];
      FlattenAppend([c] + init, last);
      FlattenAppend(init, last);
      FlattenCons(c, init);
    }
  }
}
