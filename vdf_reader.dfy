/** The decoder as the plugin runs it: a reader over the file's bytes whose
    position is advanced by each read and moved back by `Seek(-1)`, and the
    three parsing methods that drive it. Each method is proved to compute
    what the reference decoder in module VdfSpec computes. */
module VdfReader {
  import opened VdfTypes
  import opened Numbers
  import opened VdfSpec

  /** A `BinaryReader` over a `FileStream` whose contents are `buf`. */
  class ByteReader {
    const buf: seq<byte>
    var pos: nat

    ghost predicate Valid()
      reads this
    {
      pos <= |buf|
    }

    constructor (data: seq<byte>)
      ensures Valid() && buf == data && pos == 0
    {
      buf := data;
      pos := 0;
    }

    /** `ReadByte()`; every call site first checks that a byte remains. */
    method ReadByte() returns (b: byte)
      requires Valid() && pos < |buf|
      modifies this
      ensures Valid() && pos == old(pos) + 1 && b == buf[old(pos)]
    {
      b := buf[pos];
      pos := pos + 1;
    }

    /** `BaseStream.Seek(-1, SeekOrigin.Current)`, always right after a `ReadByte`. */
    method SeekBack()
      requires Valid() && pos > 0
      modifies this
      ensures Valid() && pos == old(pos) - 1
    {
      pos := pos - 1;
    }

    /** `ReadBytes(count)`: up to `count` bytes, fewer at the end of the stream. */
    method ReadBytes(count: nat) returns (bytes: seq<byte>)
      requires Valid()
      modifies this
      ensures Valid() && pos == Min(old(pos) + count, |buf|)
      ensures bytes == buf[old(pos)..pos]
    {
      var stop := Min(pos + count, |buf|);
      bytes := buf[pos..stop];
      pos := stop;
    }
  }

  /** Reads bytes into a list until a 0x00 (consumed) or the end of the stream. */
  method ReadNullTerminatedString(reader: ByteReader) returns (s: Str)
    requires reader.Valid()
    modifies reader
    ensures reader.Valid()
    ensures Cut(s, reader.pos) == ReadCString(reader.buf, old(reader.pos))
  {
    var bytes: seq<byte> := [];
    ghost var start := reader.pos;
    while reader.pos < |reader.buf|
      invariant reader.Valid() && start <= reader.pos
      invariant bytes == reader.buf[start..reader.pos]
      invariant NulFrom(reader.buf, start) == NulFrom(reader.buf, reader.pos)
      decreases |reader.buf| - reader.pos
    {
      var b := reader.ReadByte();
      if b == 0 {
        return bytes;
      }
      bytes := bytes + [b];
    }
    s := bytes;
  }

  /** Consumes a nested object whose tag and name have been read, keeping
      nothing. An unbalanced object at the end of the stream is only logged. */
  method SkipObject(reader: ByteReader)
    requires reader.Valid()
    modifies reader
    ensures reader.Valid()
    ensures reader.pos == Skip(reader.buf, old(reader.pos), 1).next
  {
    var depth: nat := 1;
    while reader.pos < |reader.buf| && depth > 0
      invariant reader.Valid()
      invariant Skip(reader.buf, reader.pos, depth) == Skip(reader.buf, old(reader.pos), 1)
      decreases |reader.buf| - reader.pos
    {
      ghost var here := reader.pos;
      var typeByte := reader.ReadByte();
      if typeByte != TagEnd {
        var _ := ReadNullTerminatedString(reader);
        if typeByte == TagObject {
          depth := depth + 1;
        } else if typeByte == TagString {
          var _ := ReadNullTerminatedString(reader);
        } else if typeByte == TagInt32 {
          var _ := reader.ReadBytes(4);
        }
        assert reader.pos == SkipItem(reader.buf, here);
        if typeByte == TagObject {
          SkipInto(reader.buf, here, depth - 1);
        } else {
          SkipOver(reader.buf, here, depth);
        }
      } else {
        depth := depth - 1;
        SkipClosed(reader.buf, here, depth, reader.pos);
      }
    }
  }

  /** The property loop of one shortcut: reads tagged properties until 0x08
      or the end of the stream. `None` is the decoder's abort: the caller
      returns `null` for the whole file. */
  method ReadProperties(reader: ByteReader) returns (props: Option<Entry>)
    requires reader.Valid()
    modifies reader
    ensures reader.Valid()
    ensures props.None? <==> ParseProps(reader.buf, old(reader.pos), map[]).None?
    ensures props.Some? ==> ParseProps(reader.buf, old(reader.pos), map[]) == Some(EntryEnd(props.value, reader.pos))
  {
    ghost var start := reader.pos;
    var currentShortcut: Entry := map[];
    while reader.pos < |reader.buf|
      invariant reader.Valid() && start <= reader.pos
      invariant ParseProps(reader.buf, reader.pos, currentShortcut) == ParseProps(reader.buf, start, map[])
      decreases |reader.buf| - reader.pos
    {
      ghost var here, before := reader.pos, currentShortcut;
      var propertyType := reader.ReadByte();
      if propertyType == TagEnd {
        PropsClosed(reader.buf, here, before, reader.pos);
        return Some(currentShortcut);
      }
      var propertyName := ReadNullTerminatedString(reader);
      ghost var name := Cut(propertyName, reader.pos);
      var propertyValue: Option<Str> := None;
      if propertyType == TagObject {
        SkipObject(reader);
        PropertyObjectSkipped(reader.buf, here, before, name);
      } else if propertyType == TagString {
        var value := ReadNullTerminatedString(reader);
        PropertyStringStored(reader.buf, here, before, name, Cut(value, reader.pos));
        propertyValue := Some(value);
      } else if propertyType == TagInt32 {
        if reader.pos + 4 > |reader.buf| {
          PropertyIntTruncated(reader.buf, here, before, name);
          PropsAborted(reader.buf, here, before);
          return None;
        }
        var intBytes := reader.ReadBytes(4);
        PropertyIntStored(reader.buf, here, before, name);
        propertyValue := Some(DecimalString(LeUint32(intBytes)));
      } else {
        PropertyUnknownTag(reader.buf, here, before);
        PropsAborted(reader.buf, here, before);
        return None;
      }
      if propertyType != TagObject && propertyValue.Some? {
        currentShortcut := currentShortcut[propertyName := propertyValue.value];
      }
      PropsContinue(reader.buf, here, before, currentShortcut, reader.pos);
    }
    PropsAtEnd(reader.buf, reader.pos, currentShortcut);
    return Some(currentShortcut);
  }

  /** The whole decoder over the bytes of one shortcuts.vdf file. */
  method ParseShortcutsVdf(data: seq<byte>) returns (r: Option<Registry>)
    ensures r == ParseShortcuts(data)
  {
    var reader := new ByteReader(data);
    if |data| < 1 {
      return None;
    }
    var firstByte := reader.ReadByte();
    if firstByte != TagObject {
      return None;
    }
    var rootKey := ReadNullTerminatedString(reader);
    if !EqualsIgnoreCase(rootKey, ShortcutsKey) {
      return None;
    }
    if reader.pos >= |data| {
      return None;
    }
    var shortcutsObjectTypeByte := reader.ReadByte();
    if shortcutsObjectTypeByte != TagObject {
      return None;
    }

    var shortcuts: Registry := map[];
    ghost var target := ParseShortcuts(data);
    assert ParseEntries(data, reader.pos, shortcuts) == target;
    while reader.pos < |data|
      invariant reader.Valid() && reader.buf == data
      invariant ParseEntries(data, reader.pos, shortcuts) == target
      decreases |data| - reader.pos
    {
      ghost var entryStart := reader.pos;
      var nextByte := reader.ReadByte();
      if nextByte == TagEnd {
        EntriesClosed(data, entryStart, shortcuts);
        break;
      }
      reader.SeekBack();
      var shortcutIndex := ReadNullTerminatedString(reader);
      assert ReadCString(data, entryStart) == Cut(shortcutIndex, reader.pos);
      ghost var propsStart := reader.pos;
      if shortcutIndex == [] {
        if reader.pos < |data| {
          var checkByte := reader.ReadByte();
          if checkByte == TagEnd {
            assert target == Some(shortcuts);
            break;
          }
          reader.SeekBack();
        }
        continue;
      }

      var currentShortcut := ReadProperties(reader);
      if currentShortcut.None? {
        EntryAborted(data, entryStart, shortcuts, shortcutIndex, propsStart);
        return None;
      }
      EntryStored(data, entryStart, shortcuts, shortcutIndex, propsStart, currentShortcut.value, reader.pos);
      shortcuts := shortcuts[shortcutIndex := currentShortcut.value];
    }
    return Some(shortcuts);
  }
}
