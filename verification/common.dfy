/** Value wrappers shared by the whole model. */
module Common {

  /** A Java reference that may be null. */
  datatype Option<+T> = None | Some(value: T)

  /**
   * The outcome of Java code that either returns normally or throws an unchecked
   * IndexOutOfBoundsException (charAt(0) on an empty string, element 0 of an empty
   * array, an array index past the end) that nothing in the proxy catches.
   */
  datatype Outcome<+T> = Normal(value: T) | IndexOutOfBounds

  /** An octet of a byte stream, read as the unsigned value 0..255. */
  newtype byte = x: int | 0 <= x < 256

  /** The two halves of a concatenation are its operands. */
  lemma SlicesOfAppend<T>(a: seq<T>, b: seq<T>)
    ensures (a + b)[..|a|] == a && (a + b)[|a|..] == b
  {
  }

  /** Cutting a sequence at k and joining the two halves gives it back. */
  lemma SplitAt<T>(s: seq<T>, k: nat)
    requires k <= |s|
    ensures s[k..|s|] == s[k..] && s[..k] + s[k..] == s && s[..|s|] == s
  {
  }
}
