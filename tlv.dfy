/** BER-TLV decoding and tag search (ITU-T X.690 sections 8.1.2 and 8.1.3, as
    profiled by EMV 4.3 Book 3 Annex B).

    A buffer is decoded into one tree of tagged objects. The specification
    functions below work on absolute positions in the buffer being decoded;
    a position is valid only while it stays inside that buffer, and every
    read the source would make past the end of its buffer is a failure here. */
module Tlv {
  import opened Bytes

  /** The class of an object: the top two bits of its first identifier octet. */
  datatype TagClass = Universal | Application | ContextSpecific | Private

  function ClassOf(b: byte): (c: TagClass)
    ensures c == Universal <==> b < 0x40
    ensures c == Application <==> 0x40 <= b < 0x80
    ensures c == ContextSpecific <==> 0x80 <= b < 0xC0
    ensures c == Private <==> 0xC0 <= b
  {
    if b < 0x40 then Universal
    else if b < 0x80 then Application
    else if b < 0xC0 then ContextSpecific
    else Private
  }

  /** Bit 0x20 of the first identifier octet: the object holds other objects.
      In each class, that is the upper half of its quarter of the octets. */
  function IsConstructed(b: byte): (c: bool)
    ensures c <==> 0x20 <= b < 0x40 || 0x60 <= b < 0x80 || 0xA0 <= b < 0xC0 || 0xE0 <= b
  {
    b % 0x40 >= 0x20
  }

  /** A decoded object. A primitive object owns a copy of its value octets,
      a constructed one its ordered children. `tag` is the identifier octets
      read as one big-endian unsigned int. */
  datatype Tlv =
    | Leaf(tag: nat, cls: TagClass, value: seq<byte>)
    | Node(tag: nat, cls: TagClass, children: seq<Tlv>)

  /** What the identifier and length octets of one object say; `size` is the
      number of octets they occupy. */
  datatype Header = Header(tag: nat, cls: TagClass, constructed: bool, length: nat, size: nat)

  // ---------------------------------------------------------------------
  // Identifier and length octets
  // ---------------------------------------------------------------------

  /** The index just past a run of octets with bit 0x80 set that starts at
      `i`, together with the octet that ends the run. */
  function ContinuationEnd(d: seq<byte>, i: nat): (e: Option<nat>)
    ensures e.Some? ==> i < e.value <= |d|
    decreases |d| - i
  {
    if i >= |d| then None
    else if d[i] >= 128 then ContinuationEnd(d, i + 1)
    else Some(i + 1)
  }

  /** The index just past the identifier octets that start at `at`: one
      octet, unless its low five bits are all set, in which case the octets
      that follow belong to the tag up to and including the first one whose
      bit 0x80 is clear. */
  function TagEnd(d: seq<byte>, at: nat): (e: Option<nat>)
    ensures e.Some? ==> at < e.value <= |d|
  {
    if at >= |d| then None
    else if d[at] % 32 != 31 then Some(at + 1)
    else ContinuationEnd(d, at + 1)
  }

  /** The length octets that start at `at`: the declared length and the index
      just past them. The short form is one octet below 0x80; otherwise the
      low seven bits count the octets that follow, read big-endian into a
      32-bit unsigned int. */
  function ParseLength(d: seq<byte>, at: nat): (r: Option<(nat, nat)>)
    ensures r.Some? ==> at < r.value.1 <= |d| && r.value.0 < WORD
  {
    if at >= |d| then None
    else if d[at] < 128 then Some((d[at], at + 1))
    else
      var count := d[at] - 128;
      if count > |d| - (at + 1) then None
      else Some((BigEndian(d[at + 1..at + 1 + count]) % WORD, at + 1 + count))
  }

  /** The identifier and length octets of the object that starts at `at`. */
  function ParseHeader(d: seq<byte>, at: nat): (h: Option<Header>)
    ensures h.Some? ==> 2 <= h.value.size <= |d| - at
  {
    match TagEnd(d, at)
    case None => None
    case Some(te) =>
      match ParseLength(d, te)
      case None => None
      case Some((len, end)) =>
        Some(Header(BigEndian(d[at..te]) % WORD, ClassOf(d[at]), IsConstructed(d[at]), len, end - at))
  }

  /** A continuation run ends at the first octet with bit 0x80 clear, and
      there is no end exactly when every remaining octet has the bit set. */
  lemma {:induction false} ContinuationRun(d: seq<byte>, i: nat)
    ensures ContinuationEnd(d, i).Some? ==>
      var e := ContinuationEnd(d, i).value;
      d[e - 1] < 128 && forall k :: i <= k < e - 1 ==> d[k] >= 128
    ensures ContinuationEnd(d, i).None? <==> forall k :: i <= k < |d| ==> d[k] >= 128
    decreases |d| - i
  {
    if i < |d| && d[i] >= 128 {
      ContinuationRun(d, i + 1);
    }
  }

  /** The identifier octets of tlv.c:45-60: a low-five-bits value other than
      0x1F means a one-octet tag; otherwise the tag runs through the octets
      with bit 0x80 set and ends with the first one that has it clear; the
      tag is incomplete when the buffer ends first. */
  lemma IdentifierOctets(d: seq<byte>, at: nat)
    requires at < |d|
    ensures d[at] % 32 != 31 ==> TagEnd(d, at) == Some(at + 1)
    ensures d[at] % 32 == 31 && TagEnd(d, at).Some? ==>
      var e := TagEnd(d, at).value;
      at + 2 <= e && d[e - 1] < 128 && forall k :: at < k < e - 1 ==> d[k] >= 128
    ensures TagEnd(d, at).None? <==> d[at] % 32 == 31 && forall k :: at < k < |d| ==> d[k] >= 128
  {
    ContinuationRun(d, at + 1);
  }

  // ---------------------------------------------------------------------
  // Decoding
  // ---------------------------------------------------------------------

  /** The object that `d` encodes. Fewer than two octets, identifier or length
      octets that run past the buffer, and a declared length longer than what
      follows the length octets all give no object. A constructed object's
      children are decoded from the rest of the buffer up to its end, and any
      child that cannot be decoded makes the whole decode fail. What is
      decoded fits after a header of at least two octets: a value of at
      most `|d| - 2` octets, or children of at least two octets each. */
  function Parse(d: seq<byte>): (r: Option<Tlv>)
    ensures r.Some? && r.value.Leaf? ==> 2 + |r.value.value| <= |d|
    ensures r.Some? && r.value.Node? ==> 2 + 2 * |r.value.children| <= |d|
    decreases |d|, 0
  {
    if |d| < 2 then None
    else match ParseHeader(d, 0)
      case None => None
      case Some(h) =>
        if h.length > |d| - h.size then None
        else if h.constructed then
          match ParseChildren(d, h.size)
          case None => None
          case Some(cs) => Some(Node(h.tag, h.cls, cs))
        else Some(Leaf(h.tag, h.cls, d[h.size..h.size + h.length]))
  }

  /** The children found from `pos` to the end of `d`, in order; each takes
      at least two octets. */
  function ParseChildren(d: seq<byte>, pos: nat): (r: Option<seq<Tlv>>)
    requires pos <= |d|
    ensures r.Some? ==> 2 * |r.value| <= |d| - pos
    decreases |d| - pos, 2
  {
    if pos == |d| then Some([])
    else match ParseChild(d, pos)
      case None => None
      case Some((c, end)) => Prepend([c], ParseChildren(d, end))
  }

  /** The child that starts at `pos`, with the index just past it: it is
      delimited by its own identifier and length octets and decoded from
      exactly that slice. */
  function ParseChild(d: seq<byte>, pos: nat): (r: Option<(Tlv, nat)>)
    requires pos < |d|
    ensures r.Some? ==> pos + 2 <= r.value.1 <= |d|
    decreases |d| - pos, 1
  {
    match ParseHeader(d, pos)
    case None => None
    case Some(h) =>
      var end := pos + h.size + h.length;
      if end > |d| then None
      else match Parse(d[pos..end])
        case None => None
        case Some(c) => Some((c, end))
  }

  /** `r` with `cs` put in front of the children it holds. */
  function Prepend(cs: seq<Tlv>, r: Option<seq<Tlv>>): Option<seq<Tlv>>
  {
    match r
    case None => None
    case Some(rest) => Some(cs + rest)
  }

  /** What a decoded object says about its octets (tlv.c:36-78, 121-140):
      at least two octets; class and constructed bit from the first octet;
      the tag and declared length from the header, which fits the buffer;
      a primitive value that is exactly the `length` octets after the
      header. */
  lemma DecodedObject(d: seq<byte>)
    ensures |d| < 2 ==> Parse(d).None?
    ensures Parse(d).Some? ==>
      var t := Parse(d).value;
      ParseHeader(d, 0).Some? &&
      var h := ParseHeader(d, 0).value;
      t.tag == h.tag && t.cls == ClassOf(d[0]) && (t.Node? <==> IsConstructed(d[0])) &&
      h.size + h.length <= |d| &&
      (t.Leaf? ==> t.value == d[h.size..h.size + h.length])
  {
  }

  /** The octets `d[from..to]` span exactly one child's identifier, length
      and value octets, and `c` is what they decode to. */
  predicate SliceHolds(d: seq<byte>, from: nat, to: nat, c: Tlv)
  {
    from < to <= |d| && ParseHeader(d, from).Some? &&
    from + ParseHeader(d, from).value.size + ParseHeader(d, from).value.length == to &&
    Parse(d[from..to]) == Some(c)
  }

  /** The positions where the children found from `pos` start, followed by
      the position where the last one ends. */
  function Cuts(d: seq<byte>, pos: nat): seq<nat>
    requires pos <= |d|
    decreases |d| - pos
  {
    if pos == |d| then [pos]
    else match ParseChild(d, pos)
      case None => [pos]
      case Some((_, end)) => [pos] + Cuts(d, end)
  }

  /** `cuts` splits `d` into consecutive slices, the i-th holding `cs[i]`,
      the last of them ending where `d` ends. */
  predicate Tiles(d: seq<byte>, cuts: seq<nat>, cs: seq<Tlv>)
  {
    |cuts| == |cs| + 1 && cuts[|cs|] == |d| &&
    forall i :: 0 <= i < |cs| ==> SliceHolds(d, cuts[i], cuts[i + 1], cs[i])
  }

  /** The children of a constructed object are the decodings of consecutive
      slices in buffer order, each spanning one child's header and value,
      and together the slices run from `pos` to the end of the buffer
      (tlv.c:92-119). */
  lemma {:induction false} ChildrenTile(d: seq<byte>, pos: nat)
    requires pos <= |d| && ParseChildren(d, pos).Some?
    ensures Cuts(d, pos)[0] == pos && Tiles(d, Cuts(d, pos), ParseChildren(d, pos).value)
    decreases |d| - pos
  {
    if pos < |d| {
      var (c, end) := ParseChild(d, pos).value;
      ChildrenTile(d, end);
      ChildSlice(d, pos);
      TileCons(d, pos, end, c, Cuts(d, end), ParseChildren(d, end).value);
    }
  }

  /** The child found at `pos` is what the slice up to its end holds. */
  lemma ChildSlice(d: seq<byte>, pos: nat)
    requires pos < |d| && ParseChild(d, pos).Some?
    ensures SliceHolds(d, pos, ParseChild(d, pos).value.1, ParseChild(d, pos).value.0)
  {
  }

  /** A slice holding `c` in front of a tiling extends it by one. */
  lemma TileCons(d: seq<byte>, pos: nat, end: nat, c: Tlv, cuts: seq<nat>, cs: seq<Tlv>)
    requires SliceHolds(d, pos, end, c) && Tiles(d, cuts, cs) && cuts[0] == end
    ensures Tiles(d, [pos] + cuts, [c] + cs)
  {
    var cuts', cs' := [pos] + cuts, [c] + cs;
    forall i | 0 <= i < |cs'|
      ensures SliceHolds(d, cuts'[i], cuts'[i + 1], cs'[i])
    {
      if i > 0 {
        assert cs'[i] == cs[i - 1] && cuts'[i] == cuts[i - 1] && cuts'[i + 1] == cuts[i];
      }
    }
  }

  // ---------------------------------------------------------------------
  // The decoder as the source runs it: a byte cursor over the buffer
  // ---------------------------------------------------------------------

  /** tlvParseData: decodes `data` with a cursor `pindex`, accumulating the tag
      and the long-form length octet by octet in 32-bit unsigned arithmetic,
      and decoding each child from the slice its own header delimits. The
      buffer length is a uint8_t in the source. */
  method ParseData(data: seq<byte>) returns (r: Option<Tlv>)
    requires |data| < 256
    ensures r == Parse(data)
    decreases |data|, 0
  {
    var length := |data|;
    if length < 2 {
      return None;
    }
    var oclass := ClassOf(data[0]);
    var constructed := IsConstructed(data[0]);
    var identifier := ReadTag(data);
    if identifier.None? {
      return None;
    }
    var tag := identifier.value.0;
    var pindex := identifier.value.1;

    var lengthOctets := ReadLength(data, pindex);
    if lengthOctets.None? {
      return None;
    }
    var declared := lengthOctets.value.0;
    pindex := lengthOctets.value.1;
    assert ParseHeader(data, 0) == Some(Header(tag, oclass, constructed, declared, pindex));

    if declared > length - pindex {
      return None;
    }

    if constructed {
      var children := ParseChildrenData(data, pindex);
      if children.None? {
        return None;
      }
      return Some(Node(tag, oclass, children.value));
    } else {
      var value := data[pindex..pindex + declared];
      return Some(Leaf(tag, oclass, value));
    }
  }

  /** The child loop of tlvParseData: from `start` to the end of the buffer,
      each child is delimited by skipping its identifier octets and reading
      its length, then decoded from that slice and appended to the list. */
  method ParseChildrenData(data: seq<byte>, start: nat) returns (r: Option<seq<Tlv>>)
    requires 2 <= start <= |data| < 256
    ensures r == ParseChildren(data, start)
    decreases |data| - start, 1
  {
    var length := |data|;
    var pindex := start;
    var children: seq<Tlv> := [];
    PrependNothing(ParseChildren(data, start));
    while pindex < length
      invariant start <= pindex <= length
      invariant ParseChildren(data, start) == Prepend(children, ParseChildren(data, pindex))
      decreases length - pindex
    {
      var rstart := pindex;
      var tagEnd := SkipTag(data, rstart);
      if tagEnd.None? {
        assert ParseChildren(data, rstart) == None;
        return None;
      }
      var childLength := ReadLength(data, tagEnd.value);
      if childLength.None? {
        assert ParseChildren(data, rstart) == None;
        return None;
      }
      var rlen := childLength.value.0;
      pindex := childLength.value.1;
      if rlen > length - pindex {
        assert ParseChildren(data, rstart) == None;
        return None;
      }
      pindex := pindex + rlen;
      var child := ParseData(data[rstart..pindex]);
      if child.None? {
        // the source stores NULL here, which ends the visible child list
        ChildFails(data, rstart, tagEnd.value, childLength.value, pindex);
        return None;
      }
      ChildStep(data, rstart, tagEnd.value, childLength.value, pindex, child.value);
      PrependTwice(children, [child.value], ParseChildren(data, pindex));
      children := children + [child.value];
    }
    assert children + [] == children;
    return Some(children);
  }

  /** One turn of the child loop: a child delimited by its header and decoded
      from its slice is the first of the children found from `rstart`. */
  lemma ChildStep(data: seq<byte>, rstart: nat, tagEnd: nat, len: (nat, nat), end: nat, child: Tlv)
    requires rstart < end <= |data|
    requires TagEnd(data, rstart) == Some(tagEnd)
    requires ParseLength(data, tagEnd) == Some(len)
    requires end == len.1 + len.0
    requires Parse(data[rstart..end]) == Some(child)
    ensures ParseChildren(data, rstart) == Prepend([child], ParseChildren(data, end))
  {
    assert ParseChild(data, rstart) == Some((child, end)) by {
      HeaderFromParts(data, rstart, tagEnd, len);
      ChildFromHeader(data, rstart, ParseHeader(data, rstart).value, child);
    }
    ChildrenStep(data, rstart);
  }

  /** ParseChildren, one child at a time. */
  lemma ChildrenStep(d: seq<byte>, pos: nat)
    requires pos < |d|
    ensures ParseChild(d, pos).Some? ==>
      ParseChildren(d, pos) == Prepend([ParseChild(d, pos).value.0], ParseChildren(d, ParseChild(d, pos).value.1))
  {
  }

  /** The header at `at` is made of the tag and length octets found there. */
  lemma HeaderFromParts(data: seq<byte>, at: nat, tagEnd: nat, len: (nat, nat))
    requires TagEnd(data, at) == Some(tagEnd)
    requires ParseLength(data, tagEnd) == Some(len)
    ensures ParseHeader(data, at).Some?
    ensures ParseHeader(data, at).value.length == len.0
    ensures at + ParseHeader(data, at).value.size == len.1
  {
  }

  /** The header at `at` as the identifier and length octets found there
      spell it. */
  lemma HeaderOfParts(d: seq<byte>, at: nat, te: nat, len: nat, end: nat)
    requires TagEnd(d, at) == Some(te)
    requires ParseLength(d, te) == Some((len, end))
    ensures ParseHeader(d, at) ==
      Some(Header(BigEndian(d[at..te]) % WORD, ClassOf(d[at]), IsConstructed(d[at]), len, end - at))
  {
  }

  /** The header at `at`, given what its identifier octets are read as. */
  lemma HeaderIs(d: seq<byte>, at: nat, te: nat, len: nat, end: nat, tag: nat, cls: TagClass, constructed: bool)
    requires TagEnd(d, at) == Some(te)
    requires ParseLength(d, te) == Some((len, end))
    requires BigEndian(d[at..te]) % WORD == tag
    requires ClassOf(d[at]) == cls && IsConstructed(d[at]) == constructed
    ensures ParseHeader(d, at) == Some(Header(tag, cls, constructed, len, end - at))
  {
    HeaderOfParts(d, at, te, len, end);
  }

  // ---------------------------------------------------------------------
  // Locality: an object's decoding reads only its own octets
  // ---------------------------------------------------------------------

  lemma {:induction false} ContinuationEndWithin(d: seq<byte>, off: nat, w: seq<byte>, i: nat, e: nat)
    requires At(d, off, w) && ContinuationEnd(w, i) == Some(e)
    ensures ContinuationEnd(d, off + i) == Some(off + e)
    decreases |w| - i
  {
    AtIndex(d, off, w, i);
    if w[i] >= 128 {
      ContinuationEndWithin(d, off, w, i + 1, e);
    }
  }

  /** Identifier octets that end inside `w` end at the same place wherever
      `w` sits. */
  lemma TagEndWithin(d: seq<byte>, off: nat, w: seq<byte>, te: nat)
    requires At(d, off, w) && TagEnd(w, 0) == Some(te)
    ensures TagEnd(d, off) == Some(off + te)
  {
    AtIndex(d, off, w, 0);
    if w[0] % 32 == 31 {
      ContinuationEndWithin(d, off, w, 1, te);
    }
  }

  /** Length octets that end inside `w` are read the same wherever `w` sits. */
  lemma ParseLengthWithin(d: seq<byte>, off: nat, w: seq<byte>, at: nat, len: nat, end: nat)
    requires At(d, off, w) && ParseLength(w, at) == Some((len, end))
    ensures ParseLength(d, off + at) == Some((len, off + end))
  {
    AtIndex(d, off, w, at);
    if w[at] >= 128 {
      var count := w[at] - 128;
      AtSlice(d, off, w, at + 1, at + 1 + count);
    }
  }

  /** A header that ends inside `w` is read the same wherever `w` sits. */
  lemma HeaderWithin(d: seq<byte>, off: nat, w: seq<byte>)
    requires At(d, off, w) && ParseHeader(w, 0).Some?
    ensures ParseHeader(d, off) == ParseHeader(w, 0)
  {
    var te := TagEnd(w, 0).value;
    var (len, end) := ParseLength(w, te).value;
    TagEndWithin(d, off, w, te);
    ParseLengthWithin(d, off, w, te, len, end);
    AtSlice(d, off, w, 0, te);
    AtIndex(d, off, w, 0);
    HeaderOfParts(d, off, off + te, len, off + end);
  }

  /** `w` holds exactly one object, `c`, whose header `h` spans all of `w`
      with its value. */
  predicate Frames(w: seq<byte>, h: Header, c: Tlv)
  {
    ParseHeader(w, 0) == Some(h) && h.size + h.length == |w| && Parse(w) == Some(c)
  }

  /** Octets `w` that frame a child, laid at `pos`, are found there. */
  lemma ChildWithin(d: seq<byte>, pos: nat, w: seq<byte>, h: Header, c: Tlv)
    requires At(d, pos, w) && Frames(w, h, c)
    ensures pos < |d| && ParseChild(d, pos) == Some((c, pos + |w|))
  {
    HeaderWithin(d, pos, w);
    ChildFromHeader(d, pos, h, c);
  }

  lemma ChildFromHeader(d: seq<byte>, pos: nat, h: Header, c: Tlv)
    requires pos < |d| && ParseHeader(d, pos) == Some(h)
    requires pos + h.size + h.length <= |d|
    requires Parse(d[pos..pos + h.size + h.length]) == Some(c)
    ensures ParseChild(d, pos) == Some((c, pos + h.size + h.length))
  {
  }

  /** Each of the strings `ws` frames the child in `cs` at the same index,
      under the header in `hs` at that index. */
  predicate AllFrame(ws: seq<seq<byte>>, hs: seq<Header>, cs: seq<Tlv>)
    decreases cs
  {
    |ws| == |hs| == |cs| &&
    (cs == [] || (Frames(ws[0], hs[0], cs[0]) && AllFrame(ws[1..], hs[1..], cs[1..])))
  }

  /** Strings that frame the children `cs`, laid end to end from `pos` to the
      end of the buffer, are decoded as exactly those children: the converse
      of ChildrenTile. */
  lemma {:induction false} ChildrenOfWords(d: seq<byte>, pos: nat, ws: seq<seq<byte>>, hs: seq<Header>, cs: seq<Tlv>)
    requires pos <= |d| && d[pos..] == Flatten(ws) && AllFrame(ws, hs, cs)
    ensures ParseChildren(d, pos) == Some(cs)
    decreases cs
  {
    if cs == [] {
      assert |d[pos..]| == 0;
    } else {
      var end := FirstWord(d, pos, ws, hs, cs);
      ChildrenOfWords(d, end, ws[1..], hs[1..], cs[1..]);
      FirstChild(d, pos, end, cs);
    }
  }

  /** The first of the framing strings is found as the first child, and the
      others follow from where it ends. */
  lemma FirstWord(d: seq<byte>, pos: nat, ws: seq<seq<byte>>, hs: seq<Header>, cs: seq<Tlv>) returns (end: nat)
    requires cs != [] && pos <= |d| && d[pos..] == Flatten(ws) && AllFrame(ws, hs, cs)
    ensures pos < end <= |d| && ParseChild(d, pos) == Some((cs[0], end))
    ensures d[end..] == Flatten(ws[1..]) && AllFrame(ws[1..], hs[1..], cs[1..])
  {
    FlattenSplit(d, pos, ws);
    ChildWithin(d, pos, ws[0], hs[0], cs[0]);
    end := pos + |ws[0]|;
  }

  /** The child at `pos`, ahead of the children from where it ends, is the
      first of the children from `pos`. */
  lemma FirstChild(d: seq<byte>, pos: nat, end: nat, cs: seq<Tlv>)
    requires pos < |d| && cs != []
    requires ParseChild(d, pos) == Some((cs[0], end))
    requires ParseChildren(d, end) == Some(cs[1..])
    ensures ParseChildren(d, pos) == Some(cs)
  {
    assert [cs[0]] + cs[1..] == cs;
  }

  /** A constructed header spanning all of `w`, followed by strings that frame
      the children `cs`, decodes as the node holding them. */
  lemma NodeOfWords(w: seq<byte>, h: Header, ws: seq<seq<byte>>, hs: seq<Header>, cs: seq<Tlv>)
    requires |w| >= 2 && ParseHeader(w, 0) == Some(h) && h.constructed
    requires h.size + h.length == |w|
    requires w[h.size..] == Flatten(ws) && AllFrame(ws, hs, cs)
    ensures Parse(w) == Some(Node(h.tag, h.cls, cs))
  {
    ChildrenOfWords(w, h.size, ws, hs, cs);
    NodeFromHeader(w, h, cs);
  }

  /** A primitive header spanning all of `w` with its value decodes as a leaf
      holding the value octets. */
  lemma LeafFromHeader(w: seq<byte>, h: Header)
    requires |w| >= 2 && ParseHeader(w, 0) == Some(h) && !h.constructed
    requires h.size + h.length == |w|
    ensures Parse(w) == Some(Leaf(h.tag, h.cls, w[h.size..h.size + h.length]))
  {
  }

  /** A constructed header spanning all of `w` with its value decodes as a
      node holding the children decoded after it. */
  lemma NodeFromHeader(w: seq<byte>, h: Header, cs: seq<Tlv>)
    requires |w| >= 2 && ParseHeader(w, 0) == Some(h) && h.constructed
    requires h.size + h.length == |w|
    requires ParseChildren(w, h.size) == Some(cs)
    ensures Parse(w) == Some(Node(h.tag, h.cls, cs))
  {
  }

  /** A child that cannot be decoded from its slice leaves no children at all. */
  lemma ChildFails(data: seq<byte>, rstart: nat, tagEnd: nat, len: (nat, nat), end: nat)
    requires rstart < end <= |data|
    requires TagEnd(data, rstart) == Some(tagEnd)
    requires ParseLength(data, tagEnd) == Some(len)
    requires end == len.1 + len.0
    requires Parse(data[rstart..end]) == None
    ensures ParseChildren(data, rstart) == None
  {
  }

  lemma PrependNothing(r: Option<seq<Tlv>>)
    ensures Prepend([], r) == r
  {
    if r.Some? {
      assert [] + r.value == r.value;
    }
  }

  lemma PrependTwice(a: seq<Tlv>, b: seq<Tlv>, r: Option<seq<Tlv>>)
    ensures Prepend(a, Prepend(b, r)) == Prepend(a + b, r)
  {
    if r.Some? {
      assert a + (b + r.value) == (a + b) + r.value;
    }
  }

  /** Reads the identifier octets at the start of `data` into a 32-bit
      unsigned tag, `tag = (tag << 8) + octet`, and returns it with the index
      just past them. */
  method ReadTag(data: seq<byte>) returns (r: Option<(nat, nat)>)
    requires |data| >= 2
    ensures r.None? <==> TagEnd(data, 0).None?
    ensures r.Some? ==> r.value == (BigEndian(data[..TagEnd(data, 0).value]) % WORD, TagEnd(data, 0).value)
  {
    var length := |data|;
    var pindex := 0;
    var tag: nat := data[pindex];
    pindex := pindex + 1;
    assert data[..1] == [] + [data[0]];
    if tag % 32 == 31 {
      // a further tag octet follows while bit 0x80 is set
      while data[pindex] >= 128
        invariant 1 <= pindex < length
        invariant tag == BigEndian(data[..pindex]) % WORD
        invariant ContinuationEnd(data, pindex) == TagEnd(data, 0)
        decreases length - pindex
      {
        Word32Step(data[..pindex], data[pindex]);
        assert data[..pindex + 1] == data[..pindex] + [data[pindex]];
        tag := (tag * 256 + data[pindex]) % WORD;
        pindex := pindex + 1;
        if pindex >= length {
          // the source tests `pindex > length`, one read too late
          return None;
        }
      }
      // the last tag octet, with bit 0x80 clear
      Word32Step(data[..pindex], data[pindex]);
      assert data[..pindex + 1] == data[..pindex] + [data[pindex]];
      tag := (tag * 256 + data[pindex]) % WORD;
      pindex := pindex + 1;
    }
    return Some((tag, pindex));
  }

  /** Skips the identifier octets that start at `at`, as the child loop of
      tlvParseData does before it reads the child's length. */
  method SkipTag(data: seq<byte>, at: nat) returns (e: Option<nat>)
    ensures e == TagEnd(data, at)
  {
    if at >= |data| {
      return None;
    }
    var pindex := at + 1;
    if data[at] % 32 == 31 {
      while pindex < |data| && data[pindex] >= 128
        invariant at < pindex <= |data|
        invariant ContinuationEnd(data, pindex) == TagEnd(data, at)
        decreases |data| - pindex
      {
        pindex := pindex + 1;
      }
      if pindex >= |data| {
        return None;
      }
      pindex := pindex + 1;
    }
    return Some(pindex);
  }

  /** Reads the length octets that start at `at`; the long form is
      accumulated as `len = (len << 8) + octet` on an unsigned int. */
  method ReadLength(data: seq<byte>, at: nat) returns (r: Option<(nat, nat)>)
    ensures r == ParseLength(data, at)
  {
    if at >= |data| {
      return None;
    }
    var pindex := at;
    if data[pindex] < 128 {
      return Some((data[pindex], pindex + 1));
    }
    var count := data[pindex] - 128;
    pindex := pindex + 1;
    if count > |data| - pindex {
      return None;
    }
    var len := 0;
    for i := pindex to pindex + count
      invariant len == BigEndian(data[pindex..i]) % WORD
    {
      Word32Step(data[pindex..i], data[i]);
      assert data[pindex..i + 1] == data[pindex..i] + [data[i]];
      len := (len * 256 + data[i]) % WORD;
    }
    return Some((len, pindex + count));
  }

  // ---------------------------------------------------------------------
  // Tag search (tlvObjectLookForTag)
  // ---------------------------------------------------------------------

  /** The first object with `tag` in a pre-order, left-to-right walk of the
      tree; an absent tree has none. */
  function LookForTag(obj: Option<Tlv>, tag: nat): (r: Option<Tlv>)
    ensures r.Some? ==> r.value.tag == tag
  {
    match obj
    case None => None
    case Some(t) => Search(t, tag)
  }

  function Search(t: Tlv, tag: nat): (r: Option<Tlv>)
    ensures r.Some? ==> r.value.tag == tag
  {
    if t.tag == tag then Some(t)
    else match t
      case Leaf(_, _, _) => None
      case Node(_, _, cs) => SearchChildren(cs, tag)
  }

  function SearchChildren(cs: seq<Tlv>, tag: nat): (r: Option<Tlv>)
    ensures r.Some? ==> r.value.tag == tag
  {
    if cs == [] then None
    else match Search(cs[0], tag)
      case Some(found) => Some(found)
      case None => SearchChildren(cs[1..], tag)
  }

  /** The nodes of a tree in pre-order: a node, then its children's subtrees
      from left to right. */
  function PreOrder(t: Tlv): (s: seq<Tlv>)
    ensures |s| >= 1 && s[0] == t
  {
    match t
    case Leaf(_, _, _) => [t]
    case Node(_, _, cs) => [t] + PreOrderAll(cs)
  }

  function PreOrderAll(cs: seq<Tlv>): seq<Tlv>
  {
    if cs == [] then [] else PreOrder(cs[0]) + PreOrderAll(cs[1..])
  }

  /** The first element of `s` with `tag`. */
  function FirstWithTag(s: seq<Tlv>, tag: nat): (r: Option<Tlv>)
    ensures r.Some? ==> r.value in s && r.value.tag == tag
    ensures r.None? <==> forall i :: 0 <= i < |s| ==> s[i].tag != tag
  {
    if s == [] then None
    else if s[0].tag == tag then Some(s[0])
    else FirstWithTag(s[1..], tag)
  }

  /** The element found is the one at the first index that has the tag. */
  lemma {:induction false} FirstWithTagIsFirst(s: seq<Tlv>, tag: nat)
    requires FirstWithTag(s, tag).Some?
    ensures exists i :: 0 <= i < |s| && s[i] == FirstWithTag(s, tag).value
                        && forall j :: 0 <= j < i ==> s[j].tag != tag
  {
    if s[0].tag == tag {
      assert s[0] == FirstWithTag(s, tag).value;
    } else {
      FirstWithTagIsFirst(s[1..], tag);
      var i :| 0 <= i < |s[1..]| && s[1..][i] == FirstWithTag(s[1..], tag).value
               && forall j :: 0 <= j < i ==> s[1..][j].tag != tag;
      assert forall j :: 0 <= j < i + 1 ==> s[j].tag != tag by {
        forall j | 0 <= j < i + 1 ensures s[j].tag != tag {
          if j > 0 { assert s[j] == s[1..][j - 1]; }
        }
      }
      assert s[i + 1] == FirstWithTag(s, tag).value;
    }
  }

  lemma {:induction false} FirstWithTagAppend(a: seq<Tlv>, b: seq<Tlv>, tag: nat)
    ensures FirstWithTag(a + b, tag) == if FirstWithTag(a, tag).Some? then FirstWithTag(a, tag) else FirstWithTag(b, tag)
  {
    if a != [] {
      assert (a + b)[1..] == a[1..] + b;
      FirstWithTagAppend(a[1..], b, tag);
    } else {
      assert a + b == b;
    }
  }

  /** tlvObjectLookForTag returns the first node of the pre-order walk that
      has the tag: a matching node comes before its descendants, and the
      children of a constructed node are searched left to right. */
  lemma {:induction false} SearchIsFirstInPreOrder(t: Tlv, tag: nat)
    ensures Search(t, tag) == FirstWithTag(PreOrder(t), tag)
    decreases t, 1
  {
    match t
    case Leaf(_, _, _) =>
    case Node(_, _, cs) =>
      SearchChildrenIsFirstInPreOrder(cs, tag);
      FirstWithTagAppend([t], PreOrderAll(cs), tag);
  }

  lemma {:induction false} SearchChildrenIsFirstInPreOrder(cs: seq<Tlv>, tag: nat)
    ensures SearchChildren(cs, tag) == FirstWithTag(PreOrderAll(cs), tag)
    decreases cs, 0
  {
    if cs != [] {
      SearchIsFirstInPreOrder(cs[0], tag);
      SearchChildrenIsFirstInPreOrder(cs[1..], tag);
      FirstWithTagAppend(PreOrder(cs[0]), PreOrderAll(cs[1..]), tag);
    }
  }

  /** The search finds nothing exactly when no node of the tree has the tag,
      and a node that has the tag is returned itself, before any descendant. */
  lemma SearchFindsAny(t: Tlv, tag: nat)
    ensures Search(t, tag).None? <==> forall i :: 0 <= i < |PreOrder(t)| ==> PreOrder(t)[i].tag != tag
    ensures t.tag == tag ==> Search(t, tag) == Some(t)
  {
    SearchIsFirstInPreOrder(t, tag);
  }

  // ---------------------------------------------------------------------
  // Bounds checks of tlvParseData as written
  // ---------------------------------------------------------------------

  /** The identifier loop of tlv.c:50-56 after it has consumed the
      continuation octet at `pindex`: it gives up only when the incremented
      cursor is past `length`, and otherwise reads the octet at the new
      cursor. */
  function TagStepAsWritten(pindex: nat, length: nat): (next: Option<nat>)
    ensures next.Some? ==> next.value <= length
    ensures next == Some(length) <==> pindex + 1 == length
  {
    if pindex + 1 > length then None else Some(pindex + 1)
  }

  /** In the two-octet buffer 1F 81 the loop consumes 81 at index 1 and goes
      on to read index 2, one past the end. */
  lemma TagStepAsWrittenOverreads()
    ensures [0x1F, 0x81][0] % 32 == 31 && [0x1F, 0x81][1] >= 0x80
    ensures TagStepAsWritten(1, |[0x1F, 0x81]|) == Some(|[0x1F, 0x81]|)
  {
  }

  /** Decoding, which stops before that read, rejects the unfinished tag. */
  lemma UnfinishedTagRejected()
    ensures TagEnd([0x1F, 0x81], 0).None?
    ensures Parse([0x1F, 0x81]).None?
  {
    IdentifierOctets([0x1F, 0x81], 0);
  }

  /** The test of tlv.c:74 as written: `length - pindex` is an int, converted
      to unsigned int for the comparison with the declared length. While
      the cursor is inside the buffer this is the intended test; once it is
      past the end the difference wraps to nearly 2^32. */
  function LengthCheckAsWritten(declared: nat, length: byte, pindex: nat): (rejects: bool)
    ensures pindex <= length ==> (rejects <==> declared > length - pindex)
    ensures length < pindex < length + WORD ==> (rejects <==> declared > WORD + length - pindex)
  {
    declared > (length - pindex) % WORD
  }

  /** In the buffer 04 82 the long form announces two length octets that are
      not there: tlv.c:68-70 reads indices 2 and 3 and leaves the cursor at
      4, past the end of both octets, and the test of tlv.c:74 then lets
      almost any declared length through. */
  lemma LengthCheckAsWrittenPasses(declared: nat)
    requires declared < WORD - 2
    ensures var d: seq<byte> := [0x04, 0x82]; 2 + d[1] % 0x80 == 4 > |d|
    ensures !LengthCheckAsWritten(declared, 2, 4)
  {
  }

  /** Decoding, which checks the count against the octets that remain,
      rejects that buffer. */
  lemma MissingLengthOctetsRejected()
    ensures ParseLength([0x04, 0x82], 1).None?
    ensures Parse([0x04, 0x82]).None?
  {
  }

  /** A tag that fills the whole buffer leaves no length octet. In 5F 24
      the loop of tlv.c:50 is not entered, since 24 has bit 0x80 clear;
      tlv.c:60 consumes 24 and tlv.c:63 reads index 2, one past the end. An
      octet there below 0x80 is taken as the declared length and moves the
      cursor to 3, so `length - pindex` is -1, which as an unsigned int is
      the largest one, and the test of tlv.c:74 lets that length through.
      The tag BF 0C of an FCI proprietary template takes the same path. The
      bound of tlv.c:53 does not help: it sits in the loop that is skipped. */
  lemma LengthOctetAsWrittenOverreads(octet: byte)
    requires octet < 0x80
    ensures var d: seq<byte> := [0x5F, 0x24]; d[0] % 32 == 31 && d[1] < 0x80
    ensures var e: seq<byte> := [0xBF, 0x0C]; e[0] % 32 == 31 && e[1] < 0x80
    ensures !LengthCheckAsWritten(octet, 2, 3)
  {
  }

  /** Decoding finds the tag's end at the end of the buffer, has no length
      octet to read there, and rejects both buffers. */
  lemma MissingLengthOctetRejected()
    ensures TagEnd([0x5F, 0x24], 0) == Some(2) && ParseLength([0x5F, 0x24], 2).None?
    ensures ParseHeader([0x5F, 0x24], 0).None? && Parse([0x5F, 0x24]).None?
    ensures ParseHeader([0xBF, 0x0C], 0).None? && Parse([0xBF, 0x0C]).None?
  {
  }

  /** Template 70 whose child 61 declares one octet more than its own child
      5A leaves it. */
  const Overrun: seq<byte> := [0x70, 0x07, 0x61, 0x03, 0x5A, 0x02, 0x11, 0x22, 0x00]

  /** The child loop of tlv.c:94-116 as written, for a child that starts at
      `rstart` and whose length octets end at `afterLength` with the value
      `rlen`: the cursor moves on by `rlen` with no test against `length`,
      and the child is handed the octets from `rstart` up to the cursor. Both
      are uint8_t; the result is the new cursor and the octet count handed.
      Without wrap-around these are the end of the child and its size. */
  function ChildExtentAsWritten(rstart: byte, afterLength: nat, rlen: nat): (r: (byte, byte))
    ensures rstart <= afterLength + rlen < 256 ==> r == (afterLength + rlen, afterLength + rlen - rstart)
  {
    var next := (afterLength + rlen) % 256;
    (next, (next - rstart) % 256)
  }

  /** On `Overrun` the source never reads past index 8, yet decodes a tree
      the octets do not spell: child 61 is handed the five octets
      `Overrun[2..7]`; inside them grandchild 5A is handed four octets from
      index 2, one past the five, and in memory these are `5A 02 11 22`,
      taking 22 from the template's next child, which is then `22 00`: a
      constructed object whose header fills its slice, so that its child
      array is left without its terminator (`EmptyNodeUnterminatedAsWritten`). */
  lemma ChildOverrunAsWritten()
    ensures ChildExtentAsWritten(2, 4, 3) == (7, 5)
    ensures ChildExtentAsWritten(2, 4, 2) == (6, 4) && 2 + 4 > |Overrun[2..7]|
    ensures Parse(Overrun[4..8]) == Some(Leaf(0x5A, Application, [0x11, 0x22]))
    ensures ChildExtentAsWritten(7, 9, 0) == (9, 2)
    ensures ParseHeader(Overrun[7..9], 0) == Some(Header(0x22, Universal, true, 0, |Overrun[7..9]|))
  {
    var g := Overrun[4..8];
    assert g == [0x5A, 0x02, 0x11, 0x22];
    assert ParseHeader(g, 0) == Some(Header(0x5A, Application, false, 2, 2)) by {
      OneOctet(g, 0);
    }
    assert g[2..4] == [0x11, 0x22];
    assert Parse(g) == Some(Leaf(0x5A, Application, [0x11, 0x22]));
    var n := Overrun[7..9];
    assert n == [0x22, 0x00];
    assert ParseHeader(n, 0) == Some(Header(0x22, Universal, true, 0, 2)) by {
      OneOctet(n, 0);
    }
  }

  /** Decoding, where a child must end inside the buffer it was found in,
      rejects `Overrun`: grandchild 5A would end at index 6 of a five-octet
      child. */
  lemma OverrunningChildRejected()
    ensures ParseChild(Overrun[2..7], 2).None?
    ensures Parse(Overrun).None?
  {
    var c := Overrun[2..7];
    assert c == [0x61, 0x03, 0x5A, 0x02, 0x11];
    assert ParseHeader(c, 2).value.size + ParseHeader(c, 2).value.length == 4;
    assert ParseChild(Overrun, 2).None? by {
      assert ParseHeader(Overrun, 2).value.size + ParseHeader(Overrun, 2).value.length == 5;
      assert ParseHeader(c, 0).Some?;
    }
  }
  /** tlv.c:85 allocates one slot for a node's children, and the NULL that
      ends the array is written only at tlv.c:118, after a child, inside the
      loop of tlv.c:92. A constructed object whose header takes up its whole
      buffer never enters that loop, so the slot stays unset, and
      tlvObjectLookForTag (tlv.c:155) reads it as the address of a child. In
      70 00, A5 00 and BF 0C 00 the header is constructed and ends at the
      end of the buffer. */
  lemma EmptyNodeUnterminatedAsWritten()
    ensures var d: seq<byte> := [0x70, 0x00];
      ParseHeader(d, 0) == Some(Header(0x70, Application, true, 0, |d|))
    ensures var d: seq<byte> := [0xA5, 0x00];
      ParseHeader(d, 0) == Some(Header(0xA5, ContextSpecific, true, 0, |d|))
    ensures var d: seq<byte> := [0xBF, 0x0C, 0x00];
      ParseHeader(d, 0) == Some(Header(0xBF0C, ContextSpecific, true, 0, |d|))
  {
    OneOctet([0x70, 0x00], 0);
    OneOctet([0xA5, 0x00], 0);
    var f: seq<byte> := [0xBF, 0x0C, 0x00];
    assert f[..2] == [0xBF, 0x0C] && f[..2][..1] == [0xBF];
    assert BigEndian(f[..2]) == 0xBF0C by {
      OneOctet(f, 0);
    }
    assert f[0..2] == f[..2];
  }

  /** Decoding gives an object with no content no children: an empty list,
      which a search passes over. */
  lemma EmptyNodeHasNoChildren()
    ensures Parse([0x70, 0x00]) == Some(Node(0x70, Application, []))
    ensures Parse([0xA5, 0x00]) == Some(Node(0xA5, ContextSpecific, []))
    ensures Parse([0xBF, 0x0C, 0x00]) == Some(Node(0xBF0C, ContextSpecific, []))
    ensures LookForTag(Parse([0xBF, 0x0C, 0x00]), 0x6F) == None
  {
    EmptyNodeUnterminatedAsWritten();
  }


  /** A one-octet tag is that octet. */
  lemma OneOctet(d: seq<byte>, at: nat)
    requires at < |d|
    ensures BigEndian(d[at..at + 1]) == d[at]
  {
    assert d[at..at + 1][..0] == [];
  }
}
