/**
 * The few PHP value semantics the contact form relies on: byte strings,
 * request fields that may be absent, `empty` and `strlen`.
 */
module Php {

  /** PHP strings are byte strings. */
  newtype byte = x: int | 0 <= x < 256

  type Bytes = seq<byte>

  /** A request field as the handler reads it: an absent `$_POST` key reads as `null`. */
  datatype Value = Null | Str(bytes: Bytes)

  /** The bytes of an ASCII literal. */
  function Ascii(s: string): (r: Bytes)
    requires forall i :: 0 <= i < |s| ==> s[i] as int < 128
    ensures |r| == |s|
    ensures forall i :: 0 <= i < |s| ==> r[i] as int == s[i] as int
  {
    if s == [] then [] else [s[0] as int as byte] + Ascii(s[1..])
  }

  /** The one-byte string "0". */
  const Zero: Bytes := ['0' as int as byte]

  /** PHP `empty` on a request field: null, "" and "0" are empty. */
  predicate Empty(v: Value)
  {
    match v
    case Null => true
    case Str(b) => b == [] || b == Zero
  }

  /** PHP `strlen`: the byte length, with null coerced to "". */
  function StrLen(v: Value): nat
  {
    match v
    case Null => 0
    case Str(b) => |b|
  }

  /**
   * `empty` is not a blank test: an empty value has at most one byte, the only one-byte
   * empty string is "0", and so a single space or any longer string is non-empty.
   */
  lemma EmptyValues(v: Value)
    ensures Empty(v) ==> StrLen(v) <= 1
    ensures StrLen(v) == 1 ==> (Empty(v) <==> v.bytes == Ascii("0"))
    ensures !Empty(Str(Ascii(" ")))
  {
    assert Ascii("0") == Zero;
    assert Ascii(" ") != Zero;
  }
}
