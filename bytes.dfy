/** Bytes and the C-string conventions shared by every stage of the token pipeline. */
module Bytes {

  /** One octet of a C `char` buffer. Where the source treats a `char` as signed
      (the base64 decoder), the signedness is modelled explicitly. */
  type Byte = bv8

  /** The name of one directory entry (`d_name`). */
  type Name = seq<Byte>

  /** A path below the scan root, as the sequence of entry names that leads to it. */
  type Path = seq<Name>

  datatype Option<+T> = None | Some(value: T)

  const Nul: Byte := 0x00
  const Newline: Byte := 0x0A      // '\n'
  const Quote: Byte := 0x22        // '"'
  const Dot: Byte := 0x2E          // '.'
  const Colon: Byte := 0x3A        // ':'
  const Equals: Byte := 0x3D       // '='

  /** The text a C string function sees in a buffer: every byte before the first NUL. */
  function CString(s: seq<Byte>): (r: seq<Byte>)
    ensures |r| <= |s| && r == s[..|r|]
    ensures Nul !in r
    ensures |r| == |s| || s[|r|] == Nul
  {
    if s == [] || s[0] == Nul then [] else [s[0]] + CString(s[1..])
  }

  /** A buffer with no NUL byte is read by the C string functions in full. */
  lemma CStringOfNulFree(s: seq<Byte>)
    requires Nul !in s
    ensures CString(s) == s
  {
  }
}
