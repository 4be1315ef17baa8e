/** A reference BER-TLV encoder, the inverse of the decoder: every well-formed
    tree is decoded back from its encoding, and no proper prefix of an
    encoding decodes at all. The source has no encoder; this one exists to
    state what the decoder recovers. */
module TlvEncoding {
  import opened Bytes
  import opened Tlv

  /** Identifier octets: the tag's minimal big-endian digits. */
  function Identifier(t: Tlv): seq<byte>
  {
    Digits(t.tag)
  }

  /** Definite-length octets (ITU-T X.690 section 8.1.3): short form below
      0x80, otherwise a count octet and the big-endian digits of the length
      taken as a 32-bit unsigned int. */
  function LengthOctets(n: nat): (o: seq<byte>)
    ensures 1 <= |o| <= 5
  {
    if n < 128 then [n]
    else
      var ds := Digits(n % WORD);
      [128 + |ds|] + ds
  }

  /** The value octets: a primitive object's value, or the encodings of a
      constructed object's children one after the other. */
  function Content(t: Tlv): seq<byte>
    decreases t, 0
  {
    match t
    case Leaf(_, _, v) => v
    case Node(_, _, cs) => Flatten(Encodings(cs))
  }

  function Encode(t: Tlv): (e: seq<byte>)
    ensures |e| >= 2
    decreases t, 1
  {
    Identifier(t) + LengthOctets(|Content(t)|) + Content(t)
  }

  /** The encodings of `cs`, one per child. */
  function Encodings(cs: seq<Tlv>): (ws: seq<seq<byte>>)
    ensures |ws| == |cs|
    decreases cs
  {
    if cs == [] then [] else [Encode(cs[0])] + Encodings(cs[1..])
  }

  /** The headers the encodings of `cs` start with. */
  function Headers(cs: seq<Tlv>): (hs: seq<Header>)
    ensures |hs| == |cs|
  {
    if cs == [] then [] else [HeaderOf(cs[0])] + Headers(cs[1..])
  }

  /** A valid identifier: one octet whose low five bits are not all set, or
      such an octet with all five set, continuation octets with bit 0x80 set
      and a final octet with it clear. */
  predicate ValidIdentifier(o: seq<byte>)
  {
    |o| >= 1 &&
    if |o| == 1 then o[0] % 32 != 31
    else o[0] % 32 == 31 && o[|o| - 1] < 128 && forall k :: 1 <= k < |o| - 1 ==> o[k] >= 128
  }

  /** A tree that some octet string encodes: each object has a valid header,
      and so do all of its descendants. */
  predicate WellFormed(t: Tlv)
    decreases t, 1
  {
    HeaderFits(t) && (t.Node? ==> AllWellFormed(t.children))
  }

  predicate AllWellFormed(cs: seq<Tlv>)
    decreases cs, 0
  {
    cs == [] || (WellFormed(cs[0]) && AllWellFormed(cs[1..]))
  }

  /** The object's own header can be written: its tag fits an unsigned int
      and is a valid identifier whose first octet carries the object's class
      and has the constructed bit exactly for a node, and its value length
      fits an unsigned int. */
  predicate HeaderFits(t: Tlv)
  {
    && IdentifierFits(t.tag, t.cls, t.Node?)
    && |Content(t)| < WORD
  }

  predicate IdentifierFits(tag: nat, cls: TagClass, constructed: bool)
  {
    && tag < WORD
    && ValidIdentifier(Digits(tag))
    && ClassOf(Digits(tag)[0]) == cls
    && (IsConstructed(Digits(tag)[0]) <==> constructed)
  }

  // ---------------------------------------------------------------------
  // The header of an encoding
  // ---------------------------------------------------------------------

  /** Valid identifier octets are read as exactly those octets. */
  lemma {:induction false} ContinuationEndOf(o: seq<byte>, i: nat)
    requires 1 <= i < |o| && o[|o| - 1] < 128
    requires forall k :: i <= k < |o| - 1 ==> o[k] >= 128
    ensures ContinuationEnd(o, i) == Some(|o|)
    decreases |o| - i
  {
    if i < |o| - 1 {
      ContinuationEndOf(o, i + 1);
    }
  }

  /** The identifier octets of an object whose header fits: they are read
      back as its tag, with its class and kind in the first octet. */
  lemma IdentifierOf(t: Tlv)
    requires HeaderFits(t)
    ensures TagEnd(Identifier(t), 0) == Some(|Identifier(t)|)
    ensures BigEndian(Identifier(t)) % WORD == t.tag
    ensures ClassOf(Identifier(t)[0]) == t.cls
    ensures IsConstructed(Identifier(t)[0]) <==> t.Node?
  {
    var id := Identifier(t);
    if |id| > 1 {
      ContinuationEndOf(id, 1);
    }
  }

  /** Length octets are read back as the length they encode. */
  lemma LengthOf(n: nat)
    requires n < WORD
    ensures ParseLength(LengthOctets(n), 0) == Some((n, |LengthOctets(n)|))
  {
    var o := LengthOctets(n);
    if n >= 128 {
      assert o[1..1 + |Digits(n)|] == Digits(n);
    }
  }

  /** Identifier octets followed by length octets are read as one header. */
  lemma HeaderOfOctets(w: seq<byte>, id: seq<byte>, lo: seq<byte>, tag: nat, cls: TagClass, constructed: bool, n: nat)
    requires |id| >= 1 && TagEnd(id, 0) == Some(|id|)
    requires BigEndian(id) % WORD == tag
    requires ClassOf(id[0]) == cls && (IsConstructed(id[0]) <==> constructed)
    requires ParseLength(lo, 0) == Some((n, |lo|))
    requires At(w, 0, id) && At(w, |id|, lo)
    ensures ParseHeader(w, 0) == Some(Header(tag, cls, constructed, n, |id| + |lo|))
  {
    IdentifierWithin(w, id, tag, cls, constructed);
    ParseLengthWithin(w, |id|, lo, 0, n, |lo|);
    HeaderIs(w, 0, |id|, n, |id| + |lo|, tag, cls, constructed);
  }

  /** Identifier octets at the start of a buffer are read there as they are
      read on their own. */
  lemma IdentifierWithin(w: seq<byte>, id: seq<byte>, tag: nat, cls: TagClass, constructed: bool)
    requires |id| >= 1 && TagEnd(id, 0) == Some(|id|)
    requires BigEndian(id) % WORD == tag
    requires ClassOf(id[0]) == cls && (IsConstructed(id[0]) <==> constructed)
    requires At(w, 0, id)
    ensures TagEnd(w, 0) == Some(|id|) && BigEndian(w[0..|id|]) % WORD == tag
    ensures ClassOf(w[0]) == cls && IsConstructed(w[0]) == constructed
  {
    TagEndWithin(w, 0, id, |id|);
    AtIndex(w, 0, id, 0);
    assert w[0..|id|] == id;
  }

  /** An encoding starts with its identifier octets, then its length octets. */
  lemma EncodedParts(t: Tlv)
    ensures At(Encode(t), 0, Identifier(t))
    ensures At(Encode(t), |Identifier(t)|, LengthOctets(|Content(t)|))
  {
    var id, lo, e := Identifier(t), LengthOctets(|Content(t)|), Encode(t);
    assert e[..|id|] == id;
    assert e[|id|..|id| + |lo|] == lo;
  }

  /** The header an encoding starts with: the object's tag, class, kind and
      value length, spanning its identifier and length octets. */
  function HeaderOf(t: Tlv): Header
  {
    Header(t.tag, t.cls, t.Node?, |Content(t)|, |Identifier(t)| + |LengthOctets(|Content(t)|)|)
  }

  /** The header at the start of an encoding is the object's own, and it
      spans everything but the value octets. */
  lemma EncodedHeader(t: Tlv)
    requires HeaderFits(t)
    ensures ParseHeader(Encode(t), 0) == Some(HeaderOf(t))
    ensures HeaderOf(t).size + HeaderOf(t).length == |Encode(t)|
    ensures Encode(t)[HeaderOf(t).size..] == Content(t)
  {
    var id, lo := Identifier(t), LengthOctets(|Content(t)|);
    IdentifierOf(t);
    LengthOf(|Content(t)|);
    EncodedParts(t);
    HeaderOfOctets(Encode(t), id, lo, t.tag, t.cls, t.Node?, |Content(t)|);
    assert Encode(t)[|id| + |lo|..] == Content(t);
  }

  // ---------------------------------------------------------------------
  // Round trip
  // ---------------------------------------------------------------------

  /** Decoding inverts encoding. */
  lemma {:induction false} ParseEncode(t: Tlv)
    requires WellFormed(t)
    ensures Parse(Encode(t)) == Some(t)
    decreases t, 1
  {
    var h := HeaderOf(t);
    EncodedHeader(t);
    match t
    case Leaf(_, _, v) =>
      LeafFromHeader(Encode(t), h);
      SliceToEnd(Encode(t), h.size, h.size + h.length);
    case Node(_, _, cs) =>
      EncodedFramesAll(cs);
      NodeOfWords(Encode(t), h, Encodings(cs), Headers(cs), cs);
  }

  lemma SliceToEnd(s: seq<byte>, i: nat, j: nat)
    requires i <= j == |s|
    ensures s[i..j] == s[i..]
  {
  }

  /** The encodings of well-formed children frame those children. */
  lemma {:induction false} EncodedFramesAll(cs: seq<Tlv>)
    requires AllWellFormed(cs)
    ensures AllFrame(Encodings(cs), Headers(cs), cs)
    decreases cs, 0
  {
    if cs != [] {
      EncodedFrames(cs[0]);
      EncodedFramesAll(cs[1..]);
      assert Encodings(cs)[1..] == Encodings(cs[1..]);
      assert Headers(cs)[1..] == Headers(cs[1..]);
    }
  }

  /** The encoding of a well-formed object frames exactly that object. */
  lemma {:induction false} EncodedFrames(c: Tlv)
    requires WellFormed(c)
    ensures Frames(Encode(c), HeaderOf(c), c)
    decreases c, 2
  {
    EncodedHeader(c);
    ParseEncode(c);
  }

  // ---------------------------------------------------------------------
  // Truncation
  // ---------------------------------------------------------------------

  /** A well-formed encoding cut short anywhere fails to decode: the cut
      falls in the identifier, in the length octets, or before the declared
      value ends. */
  lemma TruncatedFails(t: Tlv, k: nat)
    requires HeaderFits(t) && k < |Encode(t)|
    ensures Parse(Encode(t)[..k]) == None
  {
    var id, lo := Identifier(t), LengthOctets(|Content(t)|);
    if k >= 2 {
      if k >= |id| + |lo| {
        TruncatedValue(t, k);
      } else if k >= |id| {
        TruncatedLength(t, k);
      } else {
        TruncatedIdentifier(t, k);
      }
    }
  }

  /** An occurrence that ends before `k` survives cutting the buffer at `k`. */
  lemma AtPrefix(d: seq<byte>, k: nat, at: nat, s: seq<byte>)
    requires At(d, at, s) && at + |s| <= k <= |d|
    ensures At(d[..k], at, s)
  {
    assert d[..k][at..at + |s|] == d[at..at + |s|];
  }

  /** A cut after the header leaves fewer value octets than it declares. */
  lemma TruncatedValue(t: Tlv, k: nat)
    requires HeaderFits(t)
    requires |Identifier(t)| + |LengthOctets(|Content(t)|)| <= k < |Encode(t)|
    ensures Parse(Encode(t)[..k]) == None
  {
    var id, lo := Identifier(t), LengthOctets(|Content(t)|);
    IdentifierOf(t);
    LengthOf(|Content(t)|);
    EncodedParts(t);
    AtPrefix(Encode(t), k, 0, id);
    AtPrefix(Encode(t), k, |id|, lo);
    HeaderOfOctets(Encode(t)[..k], id, lo, t.tag, t.cls, t.Node?, |Content(t)|);
  }

  /** A cut inside the length octets leaves them incomplete. */
  lemma TruncatedLength(t: Tlv, k: nat)
    requires HeaderFits(t)
    requires |Identifier(t)| <= k < |Identifier(t)| + |LengthOctets(|Content(t)|)|
    ensures ParseHeader(Encode(t)[..k], 0).None?
  {
    var id, lo := Identifier(t), LengthOctets(|Content(t)|);
    var d := Encode(t)[..k];
    IdentifierOf(t);
    EncodedParts(t);
    AtPrefix(Encode(t), k, 0, id);
    TagEndWithin(d, 0, id, |id|);
    if k > |id| {
      AtIndex(Encode(t), |id|, lo, 0);
      assert d[|id|] == lo[0];
    }
  }

  /** A cut inside the identifier octets leaves the tag unterminated. */
  lemma TruncatedIdentifier(t: Tlv, k: nat)
    requires HeaderFits(t) && 2 <= k < |Identifier(t)|
    ensures ParseHeader(Encode(t)[..k], 0).None?
  {
    var id := Identifier(t);
    var d := Encode(t)[..k];
    EncodedParts(t);
    forall j | 0 <= j < |d|
      ensures d[j] == id[j]
    {
      AtIndex(Encode(t), 0, id, j);
    }
    IdentifierOctets(d, 0);
  }
}
