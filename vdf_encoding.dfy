/** Well-formed shortcuts.vdf files, how they are laid out in bytes, and what
    the decoder recovers from them: every such file decodes to the shortcuts
    it encodes, whatever follows its final 0x08, with the last write winning
    for repeated names and indices and nested objects left out. */
module VdfEncoding {
  import opened VdfTypes
  import opened Numbers
  import opened VdfSpec

  /** A property as a file holds it: a string, a 32-bit integer, or a nested
      object of further properties. */
  datatype Property =
    | Text(name: Str, text: Str)
    | Number(name: Str, number: uint32)
    | Object(name: Str, body: seq<Property>)

  /** One shortcut under its index. */
  datatype Shortcut = Shortcut(index: Str, props: seq<Property>)

  function EncodeProperty(p: Property): Str
    decreases p, 1
  {
    match p
    case Text(name, text) => [TagString] + name + [0] + (text + [0])
    case Number(name, number) => [TagInt32] + name + [0] + LeBytes(number, 4)
    case Object(name, body) => [TagObject] + name + [0] + (EncodeProps(body) + [TagEnd])
  }

  function EncodeProps(ps: seq<Property>): Str
    decreases ps, 0
  {
    if ps == [] then [] else EncodeProperty(ps[0]) + EncodeProps(ps[1..])
  }

  function EncodeShortcut(e: Shortcut): Str {
    e.index + [0] + (EncodeProps(e.props) + [TagEnd])
  }

  function EncodeShortcuts(es: seq<Shortcut>): Str {
    if es == [] then [] else EncodeShortcut(es[0]) + EncodeShortcuts(es[1..])
  }

  /** 0x00 "shortcuts" 0x00 0x00: the root object and the collection's tag. */
  const Header: Str := [TagObject] + ShortcutsKey + [0] + [TagObject]

  function Encode(doc: seq<Shortcut>): Str {
    Header + EncodeShortcuts(doc) + [TagEnd]
  }

  /** Names and strings hold no 0x00 byte. */
  predicate WellFormedProperty(p: Property)
    decreases p, 1
  {
    match p
    case Text(name, text) => NoNul(name) && NoNul(text)
    case Number(name, _) => NoNul(name)
    case Object(name, body) => NoNul(name) && WellFormedProps(body)
  }

  predicate WellFormedProps(ps: seq<Property>)
    decreases ps, 0
  {
    ps != [] ==> WellFormedProperty(ps[0]) && WellFormedProps(ps[1..])
  }

  /** An index is a non-empty string that does not start with the 0x08 end tag. */
  predicate WellFormedShortcut(e: Shortcut) {
    NoNul(e.index) && e.index != [] && e.index[0] != TagEnd && WellFormedProps(e.props)
  }

  predicate WellFormed(doc: seq<Shortcut>) {
    forall i :: 0 <= i < |doc| ==> WellFormedShortcut(doc[i])
  }

  // What a decoder keeps of well-formed content.

  /** What a property leaves in its shortcut's dictionary. */
  function Store(entry: Entry, p: Property): Entry {
    match p
    case Text(name, text) => entry[name := text]
    case Number(name, number) => entry[name := DecimalString(number)]
    case Object(_, _) => entry
  }

  function StoreAll(entry: Entry, ps: seq<Property>): Entry
    decreases ps
  {
    if ps == [] then entry else StoreAll(Store(entry, ps[0]), ps[1..])
  }

  function Collect(acc: Registry, es: seq<Shortcut>): Registry
    decreases es
  {
    if es == [] then acc else Collect(acc[es[0].index := StoreAll(map[], es[0].props)], es[1..])
  }

  // Last write wins: what a name or an index ends up holding, read off the
  // sequence from its end.

  /** The value `p` stores under `k`, if any: only strings and integers are stored. */
  function StoredValue(p: Property, k: Str): Option<Str> {
    match p
    case Text(name, text) => if name == k then Some(text) else None
    case Number(name, number) => if name == k then Some(DecimalString(number)) else None
    case Object(_, _) => None
  }

  /** The value of the last property of `ps` that stores something under `k`. */
  function LastValue(ps: seq<Property>, k: Str): Option<Str>
    decreases |ps|
  {
    if ps == [] then None
    else if StoredValue(ps[|ps| - 1], k).Some? then StoredValue(ps[|ps| - 1], k)
    else LastValue(ps[..|ps| - 1], k)
  }

  lemma {:induction false} StoreAllSnoc(entry: Entry, ps: seq<Property>, p: Property)
    ensures StoreAll(entry, ps + [p]) == Store(StoreAll(entry, ps), p)
    decreases ps
  {
    if ps != [] {
      assert (ps + [p])[1..] == ps[1..] + [p];
      StoreAllSnoc(Store(entry, ps[0]), ps[1..], p);
    } else {
      assert StoreAll(Store(entry, p), []) == Store(entry, p);
    }
  }

  /** A name is in a shortcut's dictionary exactly when it was there before
      or some string or integer property stores it, and it holds the value of
      the last such property. Names of nested objects are never added. */
  lemma {:induction false} StoreAllLastWins(entry: Entry, ps: seq<Property>, k: Str)
    ensures k in StoreAll(entry, ps) <==> LastValue(ps, k).Some? || k in entry
    ensures k in StoreAll(entry, ps) ==>
      StoreAll(entry, ps)[k] == if LastValue(ps, k).Some? then LastValue(ps, k).value else entry[k]
    decreases |ps|
  {
    if ps != [] {
      var init, p := ps[..|ps| - 1], ps[|ps| - 1];
      assert init + [p] == ps;
      StoreAllSnoc(entry, init, p);
      StoreAllLastWins(entry, init, k);
    }
  }

  /** The last shortcut of `es` under index `k`. */
  function LastShortcut(es: seq<Shortcut>, k: Str): Option<Shortcut>
    decreases |es|
  {
    if es == [] then None
    else if es[|es| - 1].index == k then Some(es[|es| - 1])
    else LastShortcut(es[..|es| - 1], k)
  }

  lemma {:induction false} CollectSnoc(acc: Registry, es: seq<Shortcut>, e: Shortcut)
    ensures Collect(acc, es + [e]) == Collect(acc, es)[e.index := StoreAll(map[], e.props)]
    decreases es
  {
    if es != [] {
      assert (es + [e])[1..] == es[1..] + [e];
      CollectSnoc(acc[es[0].index := StoreAll(map[], es[0].props)], es[1..], e);
    } else {
      assert Collect(acc[e.index := StoreAll(map[], e.props)], []) == acc[e.index := StoreAll(map[], e.props)];
    }
  }

  /** An index is in the registry exactly when it was there before or some
      shortcut has it, and it holds the properties of the last such shortcut. */
  lemma {:induction false} CollectLastWins(acc: Registry, es: seq<Shortcut>, k: Str)
    ensures k in Collect(acc, es) <==> LastShortcut(es, k).Some? || k in acc
    ensures k in Collect(acc, es) ==>
      Collect(acc, es)[k] == if LastShortcut(es, k).Some? then StoreAll(map[], LastShortcut(es, k).value.props) else acc[k]
    decreases |es|
  {
    if es != [] {
      var init, e := es[..|es| - 1], es[|es| - 1];
      assert init + [e] == es;
      CollectSnoc(acc, init, e);
      CollectLastWins(acc, init, k);
    }
  }

  // Reading the pieces of an encoding back, one layout at a time. The
  // positions a lemma speaks of are passed to it, together with how they
  // are computed, so that its conclusions are about the caller's own terms.

  /** A tag, a name and its 0x00 at `pos`; what follows starts at `q`. */
  lemma TaggedNameAt(buf: seq<byte>, pos: nat, tag: byte, name: Str, rest: Str, q: nat)
    requires NoNul(name) && q == pos + |name| + 2
    requires At(buf, pos, [tag] + name + [0] + rest)
    ensures pos < |buf| && buf[pos] == tag
    ensures ReadCString(buf, pos + 1) == Cut(name, q)
    ensures At(buf, q, rest)
  {
    assert [tag] + name + [0] + rest == [tag] + ((name + [0]) + rest);
    AtConcat(buf, pos, [tag], (name + [0]) + rest, pos + 1);
    AtConcat(buf, pos + 1, name + [0], rest, q);
    AtByte(buf, pos, [tag], 0, pos);
    CStringAt(buf, pos + 1, name, q);
  }

  /** A nested object at `pos`: its contents run from `q` to `r`, where its 0x08 is. */
  lemma ObjectAt(buf: seq<byte>, pos: nat, name: Str, inner: Str, q: nat, r: nat)
    requires NoNul(name) && q == pos + |name| + 2 && r == q + |inner|
    requires At(buf, pos, [TagObject] + name + [0] + (inner + [TagEnd]))
    ensures pos < |buf| && buf[pos] == TagObject
    ensures ReadCString(buf, pos + 1) == Cut(name, q)
    ensures At(buf, q, inner)
    ensures r < |buf| && buf[r] == TagEnd
  {
    TaggedNameAt(buf, pos, TagObject, name, inner + [TagEnd], q);
    AtConcat(buf, q, inner, [TagEnd], r);
    AtByte(buf, r, [TagEnd], 0, r);
  }

  lemma SkipTextAt(buf: seq<byte>, pos: nat, name: Str, text: Str, depth: nat, next: nat)
    requires NoNul(name) && NoNul(text) && depth > 0 && next == pos + |name| + |text| + 3
    requires At(buf, pos, [TagString] + name + [0] + (text + [0]))
    ensures Skip(buf, pos, depth) == Skip(buf, next, depth)
  {
    var q := pos + |name| + 2;
    TaggedNameAt(buf, pos, TagString, name, text + [0], q);
    CStringAt(buf, q, text, next);
    assert SkipItem(buf, pos) == next;
    SkipOver(buf, pos, depth);
  }

  lemma SkipNumberAt(buf: seq<byte>, pos: nat, name: Str, bytes: Str, depth: nat, next: nat)
    requires NoNul(name) && |bytes| == 4 && depth > 0 && next == pos + |name| + 6
    requires At(buf, pos, [TagInt32] + name + [0] + bytes)
    ensures Skip(buf, pos, depth) == Skip(buf, next, depth)
  {
    TaggedNameAt(buf, pos, TagInt32, name, bytes, pos + |name| + 2);
    assert SkipItem(buf, pos) == next;
    SkipOver(buf, pos, depth);
  }

  /** A nested object's contents are skipped as a whole, at any depth. */
  lemma {:induction false} SkipEncodedProperty(buf: seq<byte>, pos: nat, p: Property, depth: nat, next: nat)
    requires WellFormedProperty(p) && At(buf, pos, EncodeProperty(p)) && depth > 0
    requires next == pos + |EncodeProperty(p)|
    ensures Skip(buf, pos, depth) == Skip(buf, next, depth)
    decreases p, 1
  {
    match p
    case Text(name, text) =>
      SkipTextAt(buf, pos, name, text, depth, next);
    case Number(name, number) =>
      SkipNumberAt(buf, pos, name, LeBytes(number, 4), depth, next);
    case Object(name, body) =>
      var eb := EncodeProps(body);
      var q := pos + |name| + 2;
      var r := q + |eb|;
      assert EncodeProperty(p) == [TagObject] + name + [0] + (eb + [TagEnd]);
      ObjectAt(buf, pos, name, eb, q, r);
      assert SkipItem(buf, pos) == q;
      SkipInto(buf, pos, depth);
      SkipEncodedProps(buf, q, body, depth + 1, r);
      SkipClosed(buf, r, depth, next);
  }

  lemma {:induction false} SkipEncodedProps(buf: seq<byte>, pos: nat, ps: seq<Property>, depth: nat, next: nat)
    requires WellFormedProps(ps) && At(buf, pos, EncodeProps(ps)) && depth > 0
    requires next == pos + |EncodeProps(ps)|
    ensures Skip(buf, pos, depth) == Skip(buf, next, depth)
    decreases ps, 0
  {
    if ps != [] {
      var e := EncodeProperty(ps[0]);
      var tail := EncodeProps(ps[1..]);
      var mid := pos + |e|;
      assert EncodeProps(ps) == e + tail;
      AtConcat(buf, pos, e, tail, mid);
      SkipEncodedProperty(buf, pos, ps[0], depth, mid);
      SkipEncodedProps(buf, mid, ps[1..], depth, next);
    } else {
      assert next == pos;
    }
  }

  /** `SkipObject` on a well-formed nested object, whose tag and name have
      been read: it stops just after the 0x08 that closes the object. */
  lemma SkipsWellFormedObject(buf: seq<byte>, pos: nat, body: seq<Property>)
    requires WellFormedProps(body) && At(buf, pos, EncodeProps(body) + [TagEnd])
    ensures Skip(buf, pos, 1) == SkipEnd(pos + |EncodeProps(body)| + 1, 0)
  {
    var r := pos + |EncodeProps(body)|;
    AtConcat(buf, pos, EncodeProps(body), [TagEnd], r);
    AtByte(buf, r, [TagEnd], 0, r);
    SkipEncodedProps(buf, pos, body, 1, r);
    SkipClosed(buf, r, 0, r + 1);
    assert Skip(buf, r + 1, 0) == SkipEnd(r + 1, 0);
  }

  lemma TextDecodedAt(buf: seq<byte>, pos: nat, name: Str, text: Str, entry: Entry, next: nat)
    requires NoNul(name) && NoNul(text) && next == pos + |name| + |text| + 3
    requires At(buf, pos, [TagString] + name + [0] + (text + [0]))
    ensures pos < |buf| && buf[pos] != TagEnd
    ensures PropertyStep(buf, pos, entry) == Some(EntryEnd(entry[name := text], next))
  {
    var q := pos + |name| + 2;
    TaggedNameAt(buf, pos, TagString, name, text + [0], q);
    CStringAt(buf, q, text, next);
    PropertyStringStored(buf, pos, entry, Cut(name, q), Cut(text, next));
  }

  lemma NumberDecodedAt(buf: seq<byte>, pos: nat, name: Str, number: uint32, entry: Entry, next: nat)
    requires NoNul(name) && next == pos + |name| + 6
    requires At(buf, pos, [TagInt32] + name + [0] + LeBytes(number, 4))
    ensures pos < |buf| && buf[pos] != TagEnd
    ensures PropertyStep(buf, pos, entry) == Some(EntryEnd(entry[name := DecimalString(number)], next))
  {
    var q := pos + |name| + 2;
    TaggedNameAt(buf, pos, TagInt32, name, LeBytes(number, 4), q);
    LeValueOfBytes(number, 4);
    AtSlice(buf, q, LeBytes(number, 4), q + 4);
    PropertyIntStored(buf, pos, entry, Cut(name, q));
    assert q + 4 == next;
  }

  lemma ObjectSkippedTo(buf: seq<byte>, pos: nat, entry: Entry, name: Cut, next: nat)
    requires pos < |buf| && buf[pos] == TagObject && name == ReadCString(buf, pos + 1)
    requires Skip(buf, name.next, 1).next == next
    ensures PropertyStep(buf, pos, entry) == Some(EntryEnd(entry, next))
  {
    PropertyObjectSkipped(buf, pos, entry, name);
  }

  /** One encoded property is decoded into exactly what `Store` keeps. */
  lemma PropertyDecoded(buf: seq<byte>, pos: nat, p: Property, entry: Entry, next: nat)
    requires WellFormedProperty(p) && At(buf, pos, EncodeProperty(p))
    requires next == pos + |EncodeProperty(p)|
    ensures pos < |buf| && buf[pos] != TagEnd
    ensures PropertyStep(buf, pos, entry) == Some(EntryEnd(Store(entry, p), next))
  {
    match p
    case Text(name, text) =>
      TextDecodedAt(buf, pos, name, text, entry, next);
    case Number(name, number) =>
      NumberDecodedAt(buf, pos, name, number, entry, next);
    case Object(name, body) =>
      var eb := EncodeProps(body);
      var q := pos + |name| + 2;
      assert EncodeProperty(p) == [TagObject] + name + [0] + (eb + [TagEnd]);
      TaggedNameAt(buf, pos, TagObject, name, eb + [TagEnd], q);
      SkipsWellFormedObject(buf, q, body);
      ObjectSkippedTo(buf, pos, entry, Cut(name, q), next);
  }

  lemma {:induction false} PropsDecoded(buf: seq<byte>, pos: nat, ps: seq<Property>, entry: Entry, next: nat)
    requires WellFormedProps(ps) && At(buf, pos, EncodeProps(ps))
    requires next == pos + |EncodeProps(ps)|
    ensures ParseProps(buf, pos, entry) == ParseProps(buf, next, StoreAll(entry, ps))
    decreases ps
  {
    if ps != [] {
      var e := EncodeProperty(ps[0]);
      var tail := EncodeProps(ps[1..]);
      var mid := pos + |e|;
      var after := Store(entry, ps[0]);
      assert EncodeProps(ps) == e + tail;
      AtConcat(buf, pos, e, tail, mid);
      PropertyDecoded(buf, pos, ps[0], entry, mid);
      PropsContinue(buf, pos, entry, after, mid);
      PropsDecoded(buf, mid, ps[1..], after, next);
      assert StoreAll(entry, ps) == StoreAll(after, ps[1..]);
    } else {
      assert next == pos && StoreAll(entry, ps) == entry;
    }
  }

  /** The index of a shortcut and its terminator; what follows starts at `q`. */
  lemma IndexAt(buf: seq<byte>, pos: nat, index: Str, rest: Str, q: nat)
    requires NoNul(index) && index != [] && index[0] != TagEnd && q == pos + |index| + 1
    requires At(buf, pos, index + [0] + rest)
    ensures pos < |buf| && buf[pos] != TagEnd
    ensures ReadCString(buf, pos) == Cut(index, q)
    ensures At(buf, q, rest)
  {
    AtConcat(buf, pos, index + [0], rest, q);
    AtByte(buf, pos, index + [0], 0, pos);
    CStringAt(buf, pos, index, q);
  }

  /** One encoded shortcut adds exactly its stored properties under its index. */
  lemma ShortcutDecoded(buf: seq<byte>, pos: nat, e: Shortcut, acc: Registry, next: nat)
    requires WellFormedShortcut(e) && At(buf, pos, EncodeShortcut(e))
    requires next == pos + |EncodeShortcut(e)|
    ensures ParseEntries(buf, pos, acc) == ParseEntries(buf, next, acc[e.index := StoreAll(map[], e.props)])
  {
    var ep := EncodeProps(e.props);
    var q := pos + |e.index| + 1;
    var r := q + |ep|;
    var entry := StoreAll(map[], e.props);
    IndexAt(buf, pos, e.index, ep + [TagEnd], q);
    AtConcat(buf, q, ep, [TagEnd], r);
    AtByte(buf, r, [TagEnd], 0, r);
    PropsDecoded(buf, q, e.props, map[], r);
    PropsClosed(buf, r, entry, next);
    EntryStored(buf, pos, acc, e.index, q, entry, next);
  }

  lemma {:induction false} ShortcutsDecoded(buf: seq<byte>, pos: nat, es: seq<Shortcut>, acc: Registry, next: nat)
    requires WellFormed(es) && At(buf, pos, EncodeShortcuts(es))
    requires next == pos + |EncodeShortcuts(es)|
    ensures ParseEntries(buf, pos, acc) == ParseEntries(buf, next, Collect(acc, es))
    decreases es
  {
    if es != [] {
      var e := EncodeShortcut(es[0]);
      var tail := EncodeShortcuts(es[1..]);
      var mid := pos + |e|;
      var after := acc[es[0].index := StoreAll(map[], es[0].props)];
      assert EncodeShortcuts(es) == e + tail;
      AtConcat(buf, pos, e, tail, mid);
      ShortcutDecoded(buf, pos, es[0], acc, mid);
      assert WellFormed(es[1..]) by {
        forall i | 0 <= i < |es[1..]| ensures WellFormedShortcut(es[1..][i]) {
          assert es[1..][i] == es[i + 1];
        }
      }
      ShortcutsDecoded(buf, mid, es[1..], after, next);
      assert Collect(acc, es) == Collect(after, es[1..]);
    } else {
      assert next == pos && Collect(acc, es) == acc;
    }
  }

  /** A file that starts with the header is decoded by the shortcut loop from offset 12. */
  lemma HeaderAt(buf: seq<byte>)
    requires At(buf, 0, Header)
    ensures ParseShortcuts(buf) == ParseEntries(buf, 12, map[])
  {
    AtByte(buf, 0, Header, 0, 0);
    AtByte(buf, 0, Header, 10, 10);
    AtByte(buf, 0, Header, 11, 11);
    assert buf[1..10] == ShortcutsKey by {
      forall i | 0 <= i < 9 ensures buf[1..10][i] == ShortcutsKey[i] {
        AtByte(buf, 0, Header, i + 1, i + 1);
      }
    }
    HeaderDecides(buf);
  }

  /** Header and complete shortcuts: the shortcut loop reaches `pos`, the end of them. */
  lemma PrefixDecoded(buf: seq<byte>, doc: seq<Shortcut>, rest: Str, pos: nat)
    requires WellFormed(doc) && At(buf, 0, Header + EncodeShortcuts(doc) + rest)
    requires pos == 12 + |EncodeShortcuts(doc)|
    ensures At(buf, pos, rest)
    ensures ParseShortcuts(buf) == ParseEntries(buf, pos, Collect(map[], doc))
  {
    var es := EncodeShortcuts(doc);
    AtConcat(buf, 0, Header + es, rest, pos);
    AtConcat(buf, 0, Header, es, 12);
    HeaderAt(buf);
    ShortcutsDecoded(buf, 12, doc, map[], pos);
  }

  /** The round trip: a file that begins with the encoding of well-formed
      shortcuts decodes to them, whatever follows the final 0x08. */
  lemma RoundTrip(buf: seq<byte>, doc: seq<Shortcut>)
    requires WellFormed(doc) && At(buf, 0, Encode(doc))
    ensures ParseShortcuts(buf) == Some(Collect(map[], doc))
  {
    var pos := 12 + |EncodeShortcuts(doc)|;
    PrefixDecoded(buf, doc, [TagEnd], pos);
    AtByte(buf, pos, [TagEnd], 0, pos);
    EntriesClosed(buf, pos, Collect(map[], doc));
  }

  /** The smallest file, 0x00 "shortcuts" 0x00 0x00 0x08, is an empty collection,
      and nothing after its final 0x08 is read. */
  lemma EmptyCollection(trailer: Str)
    ensures ParseShortcuts(Header + [TagEnd] + trailer) == Some(map[])
  {
    var buf := Header + [TagEnd] + trailer;
    assert Encode([]) == Header + [TagEnd];
    forall i | 0 <= i < 13 ensures buf[0 + i] == ByteOf(Encode([]), i) {
      assert buf[i] == (Header + [TagEnd])[i];
    }
    RoundTrip(buf, []);
  }

  /** A file that ends after complete shortcuts, without the final 0x08,
      still yields those shortcuts. */
  lemma MissingFinalEnd(doc: seq<Shortcut>)
    requires WellFormed(doc)
    ensures ParseShortcuts(Header + EncodeShortcuts(doc)) == Some(Collect(map[], doc))
  {
    var buf := Header + EncodeShortcuts(doc);
    var pos := 12 + |EncodeShortcuts(doc)|;
    assert buf + [] == buf;
    assert At(buf, 0, buf + []);
    PrefixDecoded(buf, doc, [], pos);
    EntriesClosed(buf, pos, Collect(map[], doc));
  }

  /** The first byte of encoded shortcuts is the first byte of the first index. */
  lemma ShortcutsStartWithIndex(es: seq<Shortcut>)
    requires es != [] && WellFormedShortcut(es[0])
    ensures |EncodeShortcuts(es)| > 0 && EncodeShortcuts(es)[0] == es[0].index[0]
  {
    assert EncodeShortcuts(es) == es[0].index + ([0] + (EncodeProps(es[0].props) + [TagEnd])) + EncodeShortcuts(es[1..]);
  }

  /** An empty index (a lone 0x00) between shortcuts adds nothing and loses
      nothing: the byte after it is read again as the start of the next index,
      so the shortcuts on both sides are all decoded, in order. When nothing
      follows but the final 0x08, that 0x08 ends the collection, and whatever
      comes after it is not read. */
  lemma EmptyIndexBetween(buf: seq<byte>, before: seq<Shortcut>, after: seq<Shortcut>)
    requires WellFormed(before) && WellFormed(after)
    requires At(buf, 0, Header + EncodeShortcuts(before) + ([0] + (EncodeShortcuts(after) + [TagEnd])))
    ensures ParseShortcuts(buf) == Some(Collect(Collect(map[], before), after))
  {
    var acc := Collect(map[], before);
    var later := EncodeShortcuts(after);
    var pos := 12 + |EncodeShortcuts(before)|;
    var start := pos + 1;
    var last := start + |later|;
    PrefixDecoded(buf, before, [0] + (later + [TagEnd]), pos);
    AtConcat(buf, pos, [0], later + [TagEnd], start);
    AtConcat(buf, start, later, [TagEnd], last);
    AtByte(buf, pos, [0], 0, pos);
    AtByte(buf, last, [TagEnd], 0, last);
    EmptyIndexRereads(buf, pos, acc);
    if after == [] {
      assert last == start && Collect(acc, after) == acc;
    } else {
      ShortcutsStartWithIndex(after);
      AtByte(buf, start, later, 0, start);
      ShortcutsDecoded(buf, start, after, acc, last);
      EntriesClosed(buf, last, Collect(acc, after));
    }
  }

  /** An empty index that is the last thing in the file ends the collection. */
  lemma EmptyIndexAtEnd(doc: seq<Shortcut>)
    requires WellFormed(doc)
    ensures ParseShortcuts(Header + EncodeShortcuts(doc) + [0]) == Some(Collect(map[], doc))
  {
    var buf := Header + EncodeShortcuts(doc) + [0];
    var pos := 12 + |EncodeShortcuts(doc)|;
    assert At(buf, 0, buf);
    PrefixDecoded(buf, doc, [0], pos);
    AtByte(buf, pos, [0], 0, pos);
    EmptyIndexRereads(buf, pos, Collect(map[], doc));
  }

  /** A shortcut whose index and first properties are laid out at `pos`: its
      index is read, ending before `q`, and those properties are decoded up
      to `t`, where `rest` begins. */
  lemma PartialShortcutAt(buf: seq<byte>, pos: nat, index: Str, ps: seq<Property>, rest: Str, q: nat, t: nat)
    requires NoNul(index) && index != [] && index[0] != TagEnd && WellFormedProps(ps)
    requires At(buf, pos, index + [0] + (EncodeProps(ps) + rest))
    requires q == pos + |index| + 1 && t == q + |EncodeProps(ps)|
    ensures pos < |buf| && buf[pos] != TagEnd
    ensures ReadCString(buf, pos) == Cut(index, q)
    ensures ParseProps(buf, q, map[]) == ParseProps(buf, t, StoreAll(map[], ps))
    ensures At(buf, t, rest)
  {
    IndexAt(buf, pos, index, EncodeProps(ps) + rest, q);
    AtConcat(buf, q, EncodeProps(ps), rest, t);
    PropsDecoded(buf, q, ps, map[], t);
  }

  /** A file that ends inside a shortcut, after some of its properties,
      yields the earlier shortcuts and the properties read so far. */
  lemma CutInsideShortcut(doc: seq<Shortcut>, e: Shortcut)
    requires WellFormed(doc) && WellFormedShortcut(e)
    ensures ParseShortcuts(Header + EncodeShortcuts(doc) + (e.index + [0] + EncodeProps(e.props)))
            == Some(Collect(map[], doc)[e.index := StoreAll(map[], e.props)])
  {
    var ep := EncodeProps(e.props);
    var tail := e.index + [0] + (ep + []);
    var buf := Header + EncodeShortcuts(doc) + tail;
    assert ep + [] == ep;
    assert buf == Header + EncodeShortcuts(doc) + (e.index + [0] + ep);
    var pos := 12 + |EncodeShortcuts(doc)|;
    var q := pos + |e.index| + 1;
    var t := q + |ep|;
    var acc := Collect(map[], doc);
    var entry := StoreAll(map[], e.props);
    assert At(buf, 0, buf);
    PrefixDecoded(buf, doc, tail, pos);
    PartialShortcutAt(buf, pos, e.index, e.props, [], q, t);
    PropsAtEnd(buf, t, entry);
    EntryStored(buf, pos, acc, e.index, q, entry, t);
    EntriesClosed(buf, t, acc[e.index := entry]);
  }

  /** A file that ends inside a string value, before its 0x00, yields the
      earlier shortcuts and a partial one whose last property holds the
      bytes of the value read so far. */
  lemma CutInsideText(doc: seq<Shortcut>, e: Shortcut, name: Str, partial: Str)
    requires WellFormed(doc) && WellFormedShortcut(e) && NoNul(name) && NoNul(partial)
    ensures ParseShortcuts(Header + EncodeShortcuts(doc) + (e.index + [0] + (EncodeProps(e.props) + ([TagString] + name + [0] + partial))))
            == Some(Collect(map[], doc)[e.index := StoreAll(map[], e.props)[name := partial]])
  {
    var more := [TagString] + name + [0] + partial;
    var tail := e.index + [0] + (EncodeProps(e.props) + more);
    var buf := Header + EncodeShortcuts(doc) + tail;
    var pos := 12 + |EncodeShortcuts(doc)|;
    var q := pos + |e.index| + 1;
    var t := q + |EncodeProps(e.props)|;
    var r := t + |name| + 2;
    var end := |buf|;
    var acc := Collect(map[], doc);
    var entry := StoreAll(map[], e.props);
    assert At(buf, 0, buf);
    PrefixDecoded(buf, doc, tail, pos);
    PartialShortcutAt(buf, pos, e.index, e.props, more, q, t);
    TaggedNameAt(buf, t, TagString, name, partial, r);
    assert end == r + |partial|;
    forall j | r <= j < end ensures buf[j] != 0 {
      AtByte(buf, r, partial, j - r, j);
    }
    NulFromIs(buf, r, end);
    AtSlice(buf, r, partial, end);
    assert ReadCString(buf, r) == Cut(partial, end);
    PropertyStringStored(buf, t, entry, Cut(name, r), Cut(partial, end));
    PropsContinue(buf, t, entry, entry[name := partial], end);
    PropsAtEnd(buf, end, entry[name := partial]);
    EntryStored(buf, pos, acc, e.index, q, entry[name := partial], end);
    EntriesClosed(buf, end, acc[e.index := entry[name := partial]]);
  }

  /** A property tag other than 0x00, 0x01, 0x02 and 0x08 aborts the whole
      file, whatever was decoded before it and whatever follows it. */
  lemma UnknownTagAborts(buf: seq<byte>, doc: seq<Shortcut>, e: Shortcut, tag: byte)
    requires WellFormed(doc) && WellFormedShortcut(e)
    requires tag != TagObject && tag != TagString && tag != TagInt32 && tag != TagEnd
    requires At(buf, 0, Header + EncodeShortcuts(doc) + (e.index + [0] + (EncodeProps(e.props) + [tag])))
    ensures ParseShortcuts(buf) == None
  {
    var pos := 12 + |EncodeShortcuts(doc)|;
    var q := pos + |e.index| + 1;
    var t := q + |EncodeProps(e.props)|;
    var entry := StoreAll(map[], e.props);
    PrefixDecoded(buf, doc, e.index + [0] + (EncodeProps(e.props) + [tag]), pos);
    PartialShortcutAt(buf, pos, e.index, e.props, [tag], q, t);
    AtByte(buf, t, [tag], 0, t);
    PropertyUnknownTag(buf, t, entry);
    PropsAborted(buf, t, entry);
    EntryAborted(buf, pos, Collect(map[], doc), e.index, q);
  }

  /** An integer property with fewer than four bytes left after its name
      aborts the whole file. */
  lemma ShortIntAborts(buf: seq<byte>, doc: seq<Shortcut>, e: Shortcut, name: Str)
    requires WellFormed(doc) && WellFormedShortcut(e) && NoNul(name)
    requires var prefix := Header + EncodeShortcuts(doc) + (e.index + [0] + (EncodeProps(e.props) + ([TagInt32] + name + [0])));
      At(buf, 0, prefix) && |buf| < |prefix| + 4
    ensures ParseShortcuts(buf) == None
  {
    var field := [TagInt32] + name + [0];
    var pos := 12 + |EncodeShortcuts(doc)|;
    var q := pos + |e.index| + 1;
    var t := q + |EncodeProps(e.props)|;
    var u := t + |name| + 2;
    var entry := StoreAll(map[], e.props);
    PrefixDecoded(buf, doc, e.index + [0] + (EncodeProps(e.props) + field), pos);
    PartialShortcutAt(buf, pos, e.index, e.props, field, q, t);
    assert field + [] == field;
    TaggedNameAt(buf, t, TagInt32, name, [], u);
    assert u + 4 > |buf|;
    PropertyIntTruncated(buf, t, entry, Cut(name, u));
    PropsAborted(buf, t, entry);
    EntryAborted(buf, pos, Collect(map[], doc), e.index, q);
  }
}
