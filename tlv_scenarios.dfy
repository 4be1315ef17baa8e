/** Decodings of the card responses the terminal workflow handles. */
module TlvScenarios {
  import opened Bytes
  import opened Tlv

  /** "2PAY.SYS.DDF01", the name of the payment system environment. */
  const DfName: seq<byte> := [0x32, 0x50, 0x41, 0x59, 0x2E, 0x53, 0x59, 0x53, 0x2E, 0x44, 0x44, 0x46, 0x30, 0x31]

  /** The data of the answer to SELECT "2PAY.SYS.DDF01": a template 6F
      holding the DF name under tag 84. */
  const SelectAnswer: seq<byte> := [0x6F, 0x10, 0x84, 0x0E] + DfName

  /** The answer to SELECT decodes to template 6F, of the application class,
      with its single context-specific child 84 holding the 14-octet name. */
  lemma SelectAnswerDecodes()
    ensures Parse(SelectAnswer) == Some(Node(0x6F, Application, [Leaf(0x84, ContextSpecific, DfName)]))
    ensures LookForTag(Parse(SelectAnswer), 0x84) == Some(Leaf(0x84, ContextSpecific, DfName))
  {
    var d := SelectAnswer;
    var child := d[2..18];
    OneOctet(d, 0);
    OneOctet(child, 0);
    assert ParseHeader(d, 0) == Some(Header(0x6F, Application, true, 16, 2));
    assert ParseHeader(d, 2) == Some(Header(0x84, ContextSpecific, false, 14, 2));
    assert d[4..] == DfName;
    assert child[2..16] == d[4..18] == DfName;
    assert Parse(d[2..18]) == Some(Leaf(0x84, ContextSpecific, DfName));
    assert ParseChild(d, 2) == Some((Leaf(0x84, ContextSpecific, DfName), 18));
    assert ParseChildren(d, 18) == Some([]);
    assert [Leaf(0x84, ContextSpecific, DfName)] + [] == [Leaf(0x84, ContextSpecific, DfName)];
    assert ParseChildren(d, 2) == Some([Leaf(0x84, ContextSpecific, DfName)]);
    var cs := [Leaf(0x84, ContextSpecific, DfName)];
    assert SearchChildren(cs, 0x84) == Some(cs[0]);
  }

  /** Two octets of a tag read big-endian. */
  lemma TwoOctets(d: seq<byte>, at: nat)
    requires at + 2 <= |d|
    ensures BigEndian(d[at..at + 2]) == d[at] as int * 256 + d[at + 1] as int
  {
    var s := d[at..at + 2];
    assert s[..1] == d[at..at + 1] && s[1] == d[at + 1];
    OneOctet(d, at);
  }

  const Pan: seq<byte> := [0x41, 0x11, 0x11, 0x11, 0x11, 0x11, 0x11, 0x11]

  /** A card number 5A followed by an expiry date 5F24, side by side with no
      template around them. */
  const BareRecord: seq<byte> := [0x5A, 0x08] + Pan + [0x5F, 0x24, 0x02, 0x25, 0x12]

  /** Only the first object of a buffer is decoded, and octets after it are
      ignored: the card number is found, the expiry date that follows it is
      not. */
  lemma BareRecordKeepsFirstObject()
    ensures Parse(BareRecord) == Some(Leaf(0x5A, Application, Pan))
    ensures LookForTag(Parse(BareRecord), 0x5A) == Some(Leaf(0x5A, Application, Pan))
    ensures LookForTag(Parse(BareRecord), 0x5F24) == None
  {
    var d := BareRecord;
    OneOctet(d, 0);
    assert ParseHeader(d, 0) == Some(Header(0x5A, Application, false, 8, 2));
    assert d[2..10] == Pan;
  }

  /** A record template 70 that declares three octets of content but is
      followed by more objects in the same buffer. */
  const Template: seq<byte> := [0x70, 0x03, 0x5A, 0x01, 0x11, 0x5F, 0x24, 0x02, 0x25, 0x12]

  const TemplatePan := Leaf(0x5A, Application, [0x11])
  const TemplateExpiry := Leaf(0x5F24, Application, [0x25, 0x12])

  /** The card number inside the template's declared content. */
  lemma TemplatePanChild()
    ensures ParseChild(Template, 2) == Some((TemplatePan, 5))
  {
    var d := Template;
    var w := d[2..5];
    assert w == [0x5A, 0x01, 0x11];
    OneOctet(w, 0);
    OneOctet(d, 2);
    assert ParseHeader(w, 0) == Some(Header(0x5A, Application, false, 1, 2));
    assert w[2..3] == [0x11];
    assert Parse(w) == Some(TemplatePan);
    assert ParseHeader(d, 2) == Some(Header(0x5A, Application, false, 1, 2));
  }

  /** The expiry date after the template's declared content, with its
      two-octet tag. */
  lemma TemplateExpiryChild()
    ensures ParseChild(Template, 5) == Some((TemplateExpiry, 10))
  {
    var d := Template;
    var w := d[5..10];
    assert w == [0x5F, 0x24, 0x02, 0x25, 0x12];
    TwoOctets(w, 0);
    assert TagEnd(w, 0) == Some(2);
    assert ParseHeader(w, 0) == Some(Header(0x5F24, Application, false, 2, 3));
    assert w[3..5] == [0x25, 0x12];
    assert Parse(w) == Some(TemplateExpiry);
    HeaderWithin(d, 5, w);
  }

  /** The children of a constructed object are read up to the end of the
      buffer, not up to the object's declared length: the expiry date after
      the template's three octets becomes its second child. */
  lemma TemplateReadsToBufferEnd()
    ensures Parse(Template) == Some(Node(0x70, Application, [TemplatePan, TemplateExpiry]))
    ensures LookForTag(Parse(Template), 0x5F24) == Some(TemplateExpiry)
  {
    var d := Template;
    var cs := [TemplatePan, TemplateExpiry];
    OneOctet(d, 0);
    assert ParseHeader(d, 0) == Some(Header(0x70, Application, true, 3, 2));
    TemplateChildren();
    assert SearchChildren(cs, 0x5F24) == Some(TemplateExpiry);
  }

  lemma TemplateChildren()
    ensures ParseChildren(Template, 2) == Some([TemplatePan, TemplateExpiry])
  {
    var d := Template;
    TemplatePanChild();
    TemplateExpiryChild();
    assert ParseChildren(d, 10) == Some([]);
    assert [TemplateExpiry] + [] == [TemplateExpiry];
    assert ParseChildren(d, 5) == Some([TemplateExpiry]);
    assert [TemplatePan] + [TemplateExpiry] == [TemplatePan, TemplateExpiry];
  }

  /** A record template 70 sent with the indefinite length form: length
      octet 80, its content ended by the two end-of-contents octets 00 00. */
  const Indefinite: seq<byte> := [0x70, 0x80, 0x5A, 0x01, 0x11, 0x00, 0x00]

  /** What the end-of-contents octets decode to when read as an object. */
  const EndOfContents := Leaf(0x00, Universal, [])

  /** The length octet 80 is read as the long form with no octets after it,
      that is as the definite length 0, and the template's children are
      then read to the end of the buffer: the end-of-contents octets become
      a second child, a primitive object with tag 0 and no value. */
  lemma IndefiniteLengthReadAsZero()
    ensures ParseLength(Indefinite, 1) == Some((0, 2))
    ensures Parse(Indefinite) == Some(Node(0x70, Application, [TemplatePan, EndOfContents]))
  {
    var d := Indefinite;
    assert d[2..2] == [];
    OneOctet(d, 0);
    assert ParseHeader(d, 0) == Some(Header(0x70, Application, true, 0, 2));
    IndefiniteChildren();
  }

  lemma IndefiniteChildren()
    ensures ParseChildren(Indefinite, 2) == Some([TemplatePan, EndOfContents])
  {
    var d := Indefinite;
    IndefinitePanChild();
    EndOfContentsChild();
    assert ParseChildren(d, 7) == Some([]);
    assert [EndOfContents] + [] == [EndOfContents];
    assert ParseChildren(d, 5) == Some([EndOfContents]);
    assert [TemplatePan] + [EndOfContents] == [TemplatePan, EndOfContents];
  }

  lemma IndefinitePanChild()
    ensures ParseChild(Indefinite, 2) == Some((TemplatePan, 5))
  {
    var d := Indefinite;
    var w := d[2..5];
    assert w == [0x5A, 0x01, 0x11];
    OneOctet(w, 0);
    OneOctet(d, 2);
    assert ParseHeader(w, 0) == Some(Header(0x5A, Application, false, 1, 2));
    assert w[2..3] == [0x11];
    assert Parse(w) == Some(TemplatePan);
    assert ParseHeader(d, 2) == Some(Header(0x5A, Application, false, 1, 2));
  }

  /** The end-of-contents octets read as one more child. */
  lemma EndOfContentsChild()
    ensures ParseChild(Indefinite, 5) == Some((EndOfContents, 7))
  {
    var d := Indefinite;
    var e := d[5..7];
    assert e == [0x00, 0x00];
    OneOctet(e, 0);
    OneOctet(d, 5);
    assert ParseHeader(e, 0) == Some(Header(0x00, Universal, false, 0, 2));
    assert e[2..2] == [];
    assert Parse(e) == Some(EndOfContents);
    assert ParseHeader(d, 5) == Some(Header(0x00, Universal, false, 0, 2));
  }
}
