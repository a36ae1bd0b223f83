/** The characters the text formats give a meaning to, and digits. */
module Ascii {
  import opened Words

  const TAB: byte := 0x09
  const LF: byte := 0x0a
  const CR: byte := 0x0d
  const SPACE: byte := 0x20
  const DQUOTE: byte := 0x22
  const HASH: byte := 0x23
  const COMMA: byte := 0x2c
  const BACKSLASH: byte := 0x5c
  const ZERO: byte := 0x30

  /** isspace(3) in the C locale. */
  predicate IsSpace(c: byte) { c == SPACE || 0x09 <= c <= 0x0d }

  predicate IsOctal(c: byte) { 0x30 <= c <= 0x37 }

  predicate IsDigit(c: byte) { 0x30 <= c <= 0x39 }

  predicate IsHex(c: byte) { IsDigit(c) || 0x41 <= c <= 0x46 || 0x61 <= c <= 0x66 }

  function HexVal(c: byte): (v: nat)
    requires IsHex(c)
    ensures v < 16
  {
    if c <= 0x39 then c - 0x30 else if c <= 0x46 then c - 0x37 else c - 0x57
  }

  /** A digit as printf's %x writes it. */
  function HexDigit(v: nat): (c: byte)
    requires v < 16
    ensures IsHex(c) && HexVal(c) == v
  {
    if v < 10 then 0x30 + v else 0x57 + v
  }
}
