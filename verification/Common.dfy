/** Result and option types, and the integer widths, shared by the components. */
module Common {

  datatype Option<+T> = None | Some(value: T)

  /** Outcome of an operation that reports errors through a status object.
      The message text is not part of the model. */
  datatype Result<+T> = Ok(value: T) | Err

  type byte = b: int | 0 <= b < 256

  type bytes = seq<byte>

  const U32: nat := 0x1_0000_0000

  /** A small number is its own remainder. */
  lemma SmallMod(x: nat)
    requires x < U32
    ensures x % U32 == x
  {
  }

  function Min(a: int, b: int): int {
    if a < b then a else b
  }

  function Max(a: int, b: int): int {
    if a < b then b else a
  }

  /** The part of a string before its first null character, which is all that C code sees of it. */
  function CString(s: string): (r: string)
    ensures '\0' !in r && |r| <= |s|
    ensures '\0' !in s <==> r == s
  {
    if s == "" || s[0] == '\0' then "" else [s[0]] + CString(s[1..])
  }

  /** No value occurs twice. */
  ghost predicate Distinct<T>(s: seq<T>) {
    forall i, j :: 0 <= i < j < |s| ==> s[i] != s[j]
  }
}
