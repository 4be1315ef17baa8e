/** The three layers together, on the exchange that selects the payment
    system environment "2PAY.SYS.DDF01". */
module Workflow {
  import opened Bytes
  import opened Tlv
  import opened TlvScenarios
  import opened Serial
  import opened Apdu

  /** SELECT by name, first occurrence, with Le = 00. */
  const SelectPse := Command(0x00, 0xA4, 0x04, 0x00, DfName, Some(0x00))

  /** The SELECT command is laid out as `40 01 00 A4 04 00 0E`, the name and
      `00`, and sent whole inside a command frame. */
  lemma SelectCommandOctets()
    ensures Envelope(SelectPse) == [0x40, 0x01, 0x00, 0xA4, 0x04, 0x00, 0x0E] + DfName + [0x00]
    ensures CommandFrame(Envelope(SelectPse)[..|Envelope(SelectPse)| % 256]) ==
            [TermCommand, 22] + Envelope(SelectPse)
  {
    SelectEnvelope();
    EnvelopeSentWhole(SelectPse);
  }

  lemma SelectEnvelope()
    ensures Envelope(SelectPse) == [0x40, 0x01, 0x00, 0xA4, 0x04, 0x00, 0x0E] + DfName + [0x00]
  {
    var b := [0x40, 0x01, 0x00, 0xA4, 0x04, 0x00, 0x0E] + DfName + [0x00];
    assert b[..6] == Exchange + [0x00, 0xA4, 0x04, 0x00];
    assert b[7..21] == DfName;
    EnvelopeFromParts(b, SelectPse);
  }

  /** The reader's answer to SELECT, however it is split into chunks, is a
      success whose data decodes to template 6F holding the name under
      tag 84. */
  lemma SelectAnswerEndToEnd(cs: seq<seq<byte>>, rest: seq<ReadResult>)
    requires cs != [] && |cs[0]| >= 2
    requires Flatten(cs) == [TermOk, 20] + SelectAnswer + [Sw1Ok, Sw2Ok]
    ensures var a := Respond(Await(AsReads(cs) + rest, BufferSize), BufferSize);
      IsSuccess(a) && a.data == Some(SelectAnswer) &&
      Parse(a.data.value) == Some(Node(0x6F, Application, [Leaf(0x84, ContextSpecific, DfName)]))
  {
    ResponseReassembled(cs, rest, SelectAnswer, Sw1Ok, Sw2Ok, BufferSize);
    SelectAnswerDecodes();
  }
}
