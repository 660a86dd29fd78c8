/** Shared vocabulary of the console model: bytes, optional values and the
    constants of console.c. */
module Bytes {

  /** One byte as the console sees it. The source stores input in a C `char`
      array; every comparison it makes is against a small ASCII constant, so
      signedness never matters and a byte is modelled as a character below 256. */
  type byte = c: char | c as int < 0x100 witness '\0'

  datatype Option<T> = None | Some(value: T)

  /** The C macro `C(x)`: the control code typed as Ctrl-x. */
  function Ctrl(x: char): (b: byte)
    requires '@' <= x <= '_'
    ensures b as int < 0x20
  {
    (x as int - '@' as int) as char
  }

  const NUL: byte := '\0'
  const NEWLINE: byte := '\n'
  const RETURN: byte := '\r'
  const TAB: byte := '\t'
  const SPACE: byte := ' '
  const DELETE: byte := 0x7f as char

  /** Capacity of the input ring (`INPUT_BUF`). */
  const INPUT_BUF: nat := 512
  /** Capacity of the command table (`MAX_COMMANDS`). */
  const MAX_COMMANDS: nat := 100
  /** Size of a command-name buffer, terminator included (`MAX_COMMAND_LENGTH`). */
  const MAX_COMMAND_LENGTH: nat := 32
  /** Fan-out of a trie node (`TRIE_CHILDREN`). */
  const TRIE_CHILDREN: nat := 128

  /** A C string as the trie stores it: no terminator inside, and every byte
      usable as an index into a 128-slot child array. */
  predicate IsName(s: seq<byte>) {
    forall k :: 0 <= k < |s| ==> 0 < s[k] as int < TRIE_CHILDREN
  }

  predicate IsPrefix(p: seq<byte>, s: seq<byte>) {
    |p| <= |s| && s[..|p|] == p
  }

  /** `safestrcpy(dst, src, MAX_COMMAND_LENGTH)`: copies at most
      MAX_COMMAND_LENGTH - 1 bytes and always terminates the copy. */
  function SafeCopy(s: seq<byte>): (r: seq<byte>)
    ensures |r| < MAX_COMMAND_LENGTH
    ensures IsPrefix(r, s)
    ensures |s| < MAX_COMMAND_LENGTH ==> r == s
  {
    if |s| < MAX_COMMAND_LENGTH then s else s[..MAX_COMMAND_LENGTH - 1]
  }
}
