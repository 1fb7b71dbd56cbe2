/** The reference decoder of the binary shortcuts.vdf format, as functions of
    the buffer and a read position. Each function follows one loop of the
    imperative decoder in module VdfReader; the methods there are proved to
    compute exactly these values. */
module VdfSpec {
  import opened VdfTypes
  import opened Numbers

  /** A string cut out of the buffer, and the position just after it. */
  datatype Cut = Cut(text: Str, next: nat)

  /** Where a skip stops, and the nesting depth still open there. */
  datatype SkipEnd = SkipEnd(next: nat, depth: nat)

  /** The properties of one shortcut, and the position just after them. */
  datatype EntryEnd = EntryEnd(entry: Entry, next: nat)

  /** The offset of the first 0x00 at or after `pos`, or the end of the buffer. */
  function NulFrom(buf: seq<byte>, pos: nat): (e: nat)
    requires pos <= |buf|
    ensures pos <= e <= |buf|
    decreases |buf| - pos
  {
    if pos == |buf| || buf[pos] == 0 then pos else NulFrom(buf, pos + 1)
  }

  /** `NulFrom` is the first 0x00: none before it, and one at it unless it is the end. */
  lemma {:induction false} NulFromFirst(buf: seq<byte>, pos: nat)
    requires pos <= |buf|
    ensures var e := NulFrom(buf, pos);
      && (forall j :: pos <= j < e ==> buf[j] != 0)
      && (e < |buf| ==> buf[e] == 0)
    decreases |buf| - pos
  {
    if pos < |buf| && buf[pos] != 0 {
      NulFromFirst(buf, pos + 1);
    }
  }

  /** Conversely, an offset with no 0x00 before it and a 0x00 (or the end) at it is `NulFrom`. */
  lemma {:induction false} NulFromIs(buf: seq<byte>, pos: nat, k: nat)
    requires pos <= k <= |buf|
    requires forall j :: pos <= j < k ==> buf[j] != 0
    requires k < |buf| ==> buf[k] == 0
    ensures NulFrom(buf, pos) == k
    decreases k - pos
  {
    if pos < k {
      NulFromIs(buf, pos + 1, k);
    }
  }

  /** Reading a null-terminated string at `pos`: the bytes up to the first
      0x00, which is consumed but not kept, or up to the end of the buffer. */
  function ReadCString(buf: seq<byte>, pos: nat): (r: Cut)
    requires pos <= |buf|
    ensures pos <= r.next <= |buf|
    ensures pos < |buf| ==> pos < r.next
  {
    var e := NulFrom(buf, pos);
    Cut(buf[pos..e], if e < |buf| then e + 1 else e)
  }

  /** The string read is the run of non-zero bytes at `pos`; the cursor ends
      just after the 0x00 that stops it, or at the end of the buffer. */
  lemma ReadCStringMeaning(buf: seq<byte>, pos: nat)
    requires pos <= |buf|
    ensures var r := ReadCString(buf, pos);
      && pos + |r.text| <= r.next
      && r.text == buf[pos..pos + |r.text|] && NoNul(r.text)
      && (|| (r.next == pos + |r.text| + 1 && buf[pos + |r.text|] == 0)
          || (r.next == pos + |r.text| == |buf|))
  {
    var e := NulFrom(buf, pos);
    NulFromFirst(buf, pos);
    forall i | 0 <= i < e - pos ensures buf[pos..e][i] != 0 {
      assert buf[pos..e][i] == buf[pos + i];
    }
  }

  /** When the buffer holds `s` at `pos` followed by 0x00, `s` is what is
      read, and reading goes on at `next`, just after the 0x00. */
  lemma CStringAt(buf: seq<byte>, pos: nat, s: Str, next: nat)
    requires NoNul(s) && At(buf, pos, s + [0]) && next == pos + |s| + 1
    ensures ReadCString(buf, pos) == Cut(s, next)
  {
    var e := pos + |s|;
    AtConcat(buf, pos, s, [0], e);
    forall j | pos <= j < e ensures buf[j] != 0 {
      AtByte(buf, pos, s, j - pos, j);
    }
    AtByte(buf, e, [0], 0, e);
    NulFromIs(buf, pos, e);
    AtSlice(buf, pos, s, e);
  }

  /** The position after one item inside a skipped object, whose tag at
      `pos` is not 0x08: the tag, a name, and for 0x01 a string value and
      for 0x02 four bytes (fewer at the end of the buffer). Any other tag
      carries a name only. */
  function SkipItem(buf: seq<byte>, pos: nat): (next: nat)
    requires pos < |buf|
    ensures pos < next <= |buf|
  {
    var name := ReadCString(buf, pos + 1);
    if buf[pos] == TagString then ReadCString(buf, name.next).next
    else if buf[pos] == TagInt32 then Min(name.next + 4, |buf|)
    else name.next
  }

  /** Skipping a nested object whose opening tag and name have been read,
      with `depth` objects still open: the loop of `SkipObject`. */
  function Skip(buf: seq<byte>, pos: nat, depth: nat): (r: SkipEnd)
    requires pos <= |buf|
    ensures pos <= r.next <= |buf|
    decreases |buf| - pos
  {
    if pos == |buf| || depth == 0 then SkipEnd(pos, depth)
    else if buf[pos] == TagEnd then Skip(buf, pos + 1, depth - 1)
    else if buf[pos] == TagObject then Skip(buf, SkipItem(buf, pos), depth + 1)
    else Skip(buf, SkipItem(buf, pos), depth)
  }

  /** A 0x08 closes the innermost open object; the skip goes on at `next`. */
  lemma SkipClosed(buf: seq<byte>, pos: nat, depth: nat, next: nat)
    requires pos < |buf| && buf[pos] == TagEnd && next == pos + 1
    ensures Skip(buf, pos, depth + 1) == Skip(buf, next, depth)
  {
  }

  /** A string, an integer or an unknown item is stepped over. */
  lemma SkipOver(buf: seq<byte>, pos: nat, depth: nat)
    requires pos < |buf| && buf[pos] != TagEnd && buf[pos] != TagObject && depth > 0
    ensures Skip(buf, pos, depth) == Skip(buf, SkipItem(buf, pos), depth)
  {
  }

  /** A nested object's tag and name open one more level. */
  lemma SkipInto(buf: seq<byte>, pos: nat, depth: nat)
    requires pos < |buf| && buf[pos] == TagObject && depth > 0
    ensures Skip(buf, pos, depth) == Skip(buf, SkipItem(buf, pos), depth + 1)
  {
  }

  /** A skip never fails and never reads past the end: it stops either at the
      end of the buffer or just after the 0x08 that closes the outermost open
      object, and with nothing open it does not move. */
  lemma {:induction false} SkipStops(buf: seq<byte>, pos: nat, depth: nat)
    requires pos <= |buf|
    ensures var r := Skip(buf, pos, depth);
      && (r.depth == 0 || r.next == |buf|)
      && (depth > 0 && r.depth == 0 ==> pos < r.next && buf[r.next - 1] == TagEnd)
      && (depth == 0 ==> r == SkipEnd(pos, 0))
    decreases |buf| - pos
  {
    if pos < |buf| && depth > 0 {
      if buf[pos] == TagEnd {
        SkipStops(buf, pos + 1, depth - 1);
      } else if buf[pos] == TagObject {
        SkipStops(buf, SkipItem(buf, pos), depth + 1);
      } else {
        SkipStops(buf, SkipItem(buf, pos), depth);
      }
    }
  }

  /** One property of a shortcut whose tag at `pos` is not 0x08: the entry
      and position after it, or `None` when the parse must abort. Nested
      objects are skipped and not stored; strings and integers are stored
      under their name, replacing an earlier value. */
  function PropertyStep(buf: seq<byte>, pos: nat, entry: Entry): (r: Option<EntryEnd>)
    requires pos < |buf| && buf[pos] != TagEnd
    ensures r.Some? ==> pos < r.value.next <= |buf|
  {
    var tag := buf[pos];
    var name := ReadCString(buf, pos + 1);
    if tag == TagObject then
      Some(EntryEnd(entry, Skip(buf, name.next, 1).next))
    else if tag == TagString then
      var value := ReadCString(buf, name.next);
      Some(EntryEnd(entry[name.text := value.text], value.next))
    else if tag == TagInt32 then
      if name.next + 4 > |buf| then None
      else
        var value := DecimalString(LeUint32(buf[name.next..name.next + 4]));
        Some(EntryEnd(entry[name.text := value], name.next + 4))
    else None
  }

  // Tag dispatch of one property, case by case, with the name already read.

  lemma PropertyObjectSkipped(buf: seq<byte>, pos: nat, entry: Entry, name: Cut)
    requires pos < |buf| && buf[pos] == TagObject && name == ReadCString(buf, pos + 1)
    ensures PropertyStep(buf, pos, entry) == Some(EntryEnd(entry, Skip(buf, name.next, 1).next))
  {
  }

  lemma PropertyStringStored(buf: seq<byte>, pos: nat, entry: Entry, name: Cut, value: Cut)
    requires pos < |buf| && buf[pos] == TagString && name == ReadCString(buf, pos + 1)
    requires value == ReadCString(buf, name.next)
    ensures PropertyStep(buf, pos, entry) == Some(EntryEnd(entry[name.text := value.text], value.next))
  {
  }

  lemma PropertyIntStored(buf: seq<byte>, pos: nat, entry: Entry, name: Cut)
    requires pos < |buf| && buf[pos] == TagInt32 && name == ReadCString(buf, pos + 1)
    requires name.next + 4 <= |buf|
    ensures PropertyStep(buf, pos, entry) ==
            Some(EntryEnd(entry[name.text := DecimalString(LeUint32(buf[name.next..name.next + 4]))], name.next + 4))
  {
  }

  lemma PropertyIntTruncated(buf: seq<byte>, pos: nat, entry: Entry, name: Cut)
    requires pos < |buf| && buf[pos] == TagInt32 && name == ReadCString(buf, pos + 1)
    requires name.next + 4 > |buf|
    ensures PropertyStep(buf, pos, entry) == None
  {
  }

  lemma PropertyUnknownTag(buf: seq<byte>, pos: nat, entry: Entry)
    requires pos < |buf| && buf[pos] != TagObject && buf[pos] != TagString && buf[pos] != TagInt32 && buf[pos] != TagEnd
    ensures PropertyStep(buf, pos, entry) == None
  {
  }

  /** The property loop of one shortcut, starting from the properties
      gathered so far; `None` aborts the whole parse. */
  function ParseProps(buf: seq<byte>, pos: nat, entry: Entry): (r: Option<EntryEnd>)
    requires pos <= |buf|
    ensures r.Some? ==> pos <= r.value.next <= |buf|
    decreases |buf| - pos
  {
    if pos == |buf| then Some(EntryEnd(entry, pos))
    else if buf[pos] == TagEnd then Some(EntryEnd(entry, pos + 1))
    else
      match PropertyStep(buf, pos, entry)
      case None => None
      case Some(step) => ParseProps(buf, step.next, step.entry)
  }

  /** The shortcut loop, starting from the shortcuts gathered so far. */
  function ParseEntries(buf: seq<byte>, pos: nat, acc: Registry): (r: Option<Registry>)
    requires pos <= |buf|
    ensures r.Some? ==> forall k :: k in acc ==> k in r.value
    decreases |buf| - pos
  {
    if pos == |buf| || buf[pos] == TagEnd then Some(acc)
    else
      var index := ReadCString(buf, pos);
      if index.text == [] then
        if index.next < |buf| && buf[index.next] == TagEnd then Some(acc)
        else ParseEntries(buf, index.next, acc)
      else
        match ParseProps(buf, index.next, map[])
        case None => None
        case Some(props) => ParseEntries(buf, props.next, acc[index.text := props.entry])
  }

  // The two loops, one iteration at a time.

  lemma PropsContinue(buf: seq<byte>, pos: nat, entry: Entry, after: Entry, next: nat)
    requires pos < |buf| && buf[pos] != TagEnd && PropertyStep(buf, pos, entry) == Some(EntryEnd(after, next))
    ensures ParseProps(buf, pos, entry) == ParseProps(buf, next, after)
  {
  }

  lemma PropsAborted(buf: seq<byte>, pos: nat, entry: Entry)
    requires pos < |buf| && buf[pos] != TagEnd && PropertyStep(buf, pos, entry) == None
    ensures ParseProps(buf, pos, entry) == None
  {
  }

  /** The 0x08 that closes a shortcut; the shortcut loop goes on at `next`. */
  lemma PropsClosed(buf: seq<byte>, pos: nat, entry: Entry, next: nat)
    requires pos < |buf| && buf[pos] == TagEnd && next == pos + 1
    ensures ParseProps(buf, pos, entry) == Some(EntryEnd(entry, next))
  {
  }

  lemma PropsAtEnd(buf: seq<byte>, pos: nat, entry: Entry)
    requires pos == |buf|
    ensures ParseProps(buf, pos, entry) == Some(EntryEnd(entry, pos))
  {
  }

  /** A shortcut whose index ends before `q` and whose properties are read up
      to `next`. */
  lemma EntryStored(buf: seq<byte>, pos: nat, acc: Registry, index: Str, q: nat, entry: Entry, next: nat)
    requires pos < |buf| && buf[pos] != TagEnd && ReadCString(buf, pos) == Cut(index, q) && index != []
    requires ParseProps(buf, q, map[]) == Some(EntryEnd(entry, next))
    ensures ParseEntries(buf, pos, acc) == ParseEntries(buf, next, acc[index := entry])
  {
  }

  lemma EntryAborted(buf: seq<byte>, pos: nat, acc: Registry, index: Str, q: nat)
    requires pos < |buf| && buf[pos] != TagEnd && ReadCString(buf, pos) == Cut(index, q) && index != []
    requires ParseProps(buf, q, map[]) == None
    ensures ParseEntries(buf, pos, acc) == None
  {
  }

  lemma EntriesClosed(buf: seq<byte>, pos: nat, acc: Registry)
    requires pos <= |buf| && (pos == |buf| || buf[pos] == TagEnd)
    ensures ParseEntries(buf, pos, acc) == Some(acc)
  {
  }

  /** Decoding a whole shortcuts.vdf file; only a file with the right header
      (`HeaderOk`, below) can be accepted. */
  function ParseShortcuts(buf: seq<byte>): (r: Option<Registry>)
    ensures r.Some? ==> HeaderOk(buf)
  {
    if |buf| < 1 || buf[0] != TagObject then None
    else
      var root := ReadCString(buf, 1);
      if !EqualsIgnoreCase(root.text, ShortcutsKey) || root.next >= |buf| then None
      else if buf[root.next] != TagObject then None
      else
        ReadCStringMeaning(buf, 1);
        assert root.text == buf[1..10] && root.next == 11;
        ParseEntries(buf, root.next + 1, map[])
  }

  /** The header a file must start with, at fixed offsets: tag 0x00, the nine
      bytes of "shortcuts" in any letter case, their 0x00 terminator, and the
      0x00 tag of the shortcut collection. */
  predicate HeaderOk(buf: seq<byte>) {
    && |buf| >= 12
    && buf[0] == TagObject
    && EqualsIgnoreCase(buf[1..10], ShortcutsKey)
    && buf[10] == 0
    && buf[11] == TagObject
  }

  lemma KeyHasNoNul(s: Str)
    requires EqualsIgnoreCase(s, ShortcutsKey)
    ensures NoNul(s)
  {
    forall i | 0 <= i < |s| ensures s[i] != 0 {
      assert AsciiUpper(s[i]) == AsciiUpper(ShortcutsKey[i]);
    }
  }

  /** A file is accepted exactly when its header is right and the shortcut
      loop that follows it does not abort; everything else is `null`. */
  lemma HeaderDecides(buf: seq<byte>)
    ensures ParseShortcuts(buf) == if HeaderOk(buf) then ParseEntries(buf, 12, map[]) else None
  {
    if |buf| >= 1 && buf[0] == TagObject {
      var root := ReadCString(buf, 1);
      if HeaderOk(buf) {
        KeyHasNoNul(buf[1..10]);
        forall i | 0 <= i < 10 ensures buf[1 + i] == (buf[1..10] + [0])[i] {
          if i < 9 { assert buf[1..10][i] == buf[1 + i]; }
        }
        CStringAt(buf, 1, buf[1..10], 11);
      } else if EqualsIgnoreCase(root.text, ShortcutsKey) && root.next < |buf| {
        ReadCStringMeaning(buf, 1);
        assert root.text == buf[1..10];
        assert root.next == 11;
      }
    }
  }

  /** An empty index re-reads the byte after its terminator as the start of
      the next index, unless that byte ends the collection. */
  lemma EmptyIndexRereads(buf: seq<byte>, pos: nat, acc: Registry)
    requires pos < |buf| && buf[pos] == 0
    ensures pos + 1 < |buf| && buf[pos + 1] == TagEnd ==> ParseEntries(buf, pos, acc) == Some(acc)
    ensures pos + 1 < |buf| && buf[pos + 1] != TagEnd ==> ParseEntries(buf, pos, acc) == ParseEntries(buf, pos + 1, acc)
    ensures pos + 1 == |buf| ==> ParseEntries(buf, pos, acc) == Some(acc)
  {
    assert ReadCString(buf, pos) == Cut([], pos + 1);
  }
}
