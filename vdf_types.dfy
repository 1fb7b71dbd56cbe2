/** Values shared by the shortcuts.vdf decoder: the file's bytes, the strings
    cut out of it, and the two dictionaries the decoder builds. */
module VdfTypes {

  /** The decoder's `null` result is `None`. */
  datatype Option<+T> = None | Some(value: T)

  /** One byte of the file. */
  type byte = x: int | 0 <= x < 0x100

  /** A string as it sits in the file: its bytes, without the terminating 0x00. */
  type Str = seq<byte>

  /** One shortcut: property name to property value (strings and rendered integers). */
  type Entry = map<Str, Str>

  /** The whole file: shortcut index ("0", "1", ...) to its properties. */
  type Registry = map<Str, Entry>

  /** Type tags of the binary format. */
  const TagObject: byte := 0x00
  const TagString: byte := 0x01
  const TagInt32: byte := 0x02
  const TagEnd: byte := 0x08

  /** The root key the file must start with, as ASCII bytes. */
  const ShortcutsKey: Str := [0x73, 0x68, 0x6F, 0x72, 0x74, 0x63, 0x75, 0x74, 0x73]

  predicate NoNul(s: Str) {
    forall i :: 0 <= i < |s| ==> s[i] != 0
  }

  /** ASCII upper-casing of one byte; every other byte maps to itself. */
  function AsciiUpper(b: byte): byte {
    if 0x61 <= b <= 0x7A then b - 0x20 else b
  }

  /** Ordinal, case-insensitive equality restricted to ASCII letters. */
  predicate EqualsIgnoreCase(a: Str, b: Str) {
    |a| == |b| && forall i :: 0 <= i < |a| ==> AsciiUpper(a[i]) == AsciiUpper(b[i])
  }

  function Min(a: int, b: int): (m: int)
    ensures m <= a && m <= b && (m == a || m == b)
  {
    if a <= b then a else b
  }

  /** The byte at offset `i` of `s`. `At` reads its argument through this
      function so that its quantifier is only instantiated where a proof asks
      for a particular byte. */
  function ByteOf(s: seq<byte>, i: nat): byte
    requires i < |s|
  {
    s[i]
  }

  /** `At(buf, pos, s)`: the bytes of `buf` starting at `pos` begin with `s`. */
  predicate At(buf: seq<byte>, pos: nat, s: seq<byte>) {
    pos + |s| <= |buf| && forall i :: 0 <= i < |s| ==> buf[pos + i] == ByteOf(s, i)
  }

  /** The byte of `s` at offset `i` is the byte of `buf` at `k`. */
  lemma AtByte(buf: seq<byte>, pos: nat, s: seq<byte>, i: nat, k: nat)
    requires At(buf, pos, s) && i < |s| && k == pos + i
    ensures k < |buf| && buf[k] == s[i]
  {
    assert ByteOf(s, i) == s[i];
  }

  /** `mid` is where `b` starts. */
  lemma AtConcat(buf: seq<byte>, pos: nat, a: seq<byte>, b: seq<byte>, mid: nat)
    requires At(buf, pos, a + b) && mid == pos + |a|
    ensures At(buf, pos, a) && At(buf, mid, b)
  {
    forall i | 0 <= i < |a| ensures buf[pos + i] == ByteOf(a, i) {
      assert ByteOf(a + b, i) == a[i];
    }
    forall i | 0 <= i < |b| ensures buf[mid + i] == ByteOf(b, i) {
      assert ByteOf(a + b, |a| + i) == b[i];
    }
  }

  /** The slice of `buf` that `At` speaks of, up to `end`, is `s` itself. */
  lemma AtSlice(buf: seq<byte>, pos: nat, s: seq<byte>, end: nat)
    requires At(buf, pos, s) && end == pos + |s|
    ensures end <= |buf| && buf[pos..end] == s
  {
    forall i | 0 <= i < |s| ensures buf[pos..end][i] == s[i] {
      AtByte(buf, pos, s, i, pos + i);
    }
  }
}
