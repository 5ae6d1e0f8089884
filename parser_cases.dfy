/**
 * The command lines of the repository's parser tests, derived from the
 * general lemmas about the two parsers rather than by evaluating them.
 */
module ParserCases {
  import opened Wrappers
  import opened JsText
  import opened Commands

  /** "send Janek :: Cześć!" sends "Cześć!" to "Janek". */
  lemma SendCommand(text: string)
    requires text == "send Janek :: Cześć!"
    ensures ParseSend(text) == Some(SendInstruction("Janek", "Cześć!"))
  {
    SendCommandShape(text);
    SendSplitsAtFirstSeparator(text, 11);
    SendCommandParts(text);
  }

  lemma SendCommandParts(text: string)
    requires text == "send Janek :: Cześć!"
    ensures Trim(text[4..11]) == "Janek" && Trim(text[13..]) == "Cześć!"
  {
    ConversationPart(text);
    MessagePart(text);
  }

  lemma ConversationPart(text: string)
    requires text == "send Janek :: Cześć!"
    ensures Trim(text[4..11]) == "Janek"
  {
    TrimOfWsPaddedSlice(text, 4, 5, 10, 11);
    TrimOfUnpadded(text[5..10]);
    assert text[5..10] == "Janek";
  }

  lemma MessagePart(text: string)
    requires text == "send Janek :: Cześć!"
    ensures Trim(text[13..]) == "Cześć!"
  {
    TrimOfWsPrefixedSuffix(text, 13, 14);
    TrimOfUnpadded(text[14..]);
    assert text[14..] == "Cześć!";
  }

  lemma SendCommandShape(text: string)
    requires text == "send Janek :: Cześć!"
    ensures |text| > 5 && HasKeyword(Send, text) && IsWs(text[4])
    ensures NoLineTerminator(text, 5, |text|)
    ensures 11 + 2 <= |text| && text[11] == ':' && text[11 + 1] == ':'
    ensures forall k :: 5 <= k < 11 ==> !(text[k] == ':' && text[k + 1] == ':')
    ensures exists k :: 5 <= k < 11 && !IsWs(text[k])
    ensures exists k :: 11 + 2 <= k < |text| && !IsWs(text[k])
  {
    assert !IsWs(text[5]) && !IsWs(text[14]);
  }

  /** "read Janek :: 3" reads the last 3 messages of "Janek". */
  lemma ReadCommandWithLimit(text: string)
    requires text == "read Janek :: 3"
    ensures ParseRead(text) == Some(ReadInstruction("Janek", 3))
  {
    ReadCommandWithLimitShape(text);
    ReadSplitsAtLimit(text, 11);
    ReadCommandWithLimitParts(text);
    DigitsOfThree(text[13 + WsRun(text, 13)..]);
  }

  lemma ReadCommandWithLimitParts(text: string)
    requires text == "read Janek :: 3"
    ensures Trim(text[4..11]) == "Janek"
    ensures text[13 + WsRun(text, 13)..] == "3"
  {
    TrimOfWsPaddedSlice(text, 4, 5, 10, 11);
    TrimOfUnpadded(text[5..10]);
    assert text[5..10] == "Janek";
    assert WsRun(text, 13) == 1;
  }

  lemma DigitsOfThree(d: string)
    requires d == "3"
    ensures DigitsValue(d) == 3
  {
    assert d[..0] == [];
  }

  lemma ReadCommandWithLimitShape(text: string)
    requires text == "read Janek :: 3"
    ensures |text| > 5 && HasKeyword(Read, text) && IsWs(text[4])
    ensures NoLineTerminator(text, 5, |text|)
    ensures 11 + 2 <= |text| && text[11] == ':' && text[11 + 1] == ':' && WsThenDigits(text, 11 + 2)
    ensures exists k :: 5 <= k < 11 && !IsWs(text[k])
  {
    assert !IsWs(text[5]);
    assert AllWs(text, 13, 14) && AllDigits(text, 14, |text|);
  }

  /** "read Janek" reads the last 5 messages of "Janek". */
  lemma ReadCommandWithoutLimit(text: string)
    requires text == "read Janek"
    ensures ParseRead(text) == Some(ReadInstruction("Janek", 5))
  {
    ReadCommandWithoutLimitShape(text);
    ReadWithoutLimit(text);
    TrimOfWsPrefixedSuffix(text, 4, 5);
    TrimOfUnpadded(text[5..]);
    assert text[5..] == "Janek";
  }

  lemma ReadCommandWithoutLimitShape(text: string)
    requires text == "read Janek"
    ensures |text| > 5 && HasKeyword(Read, text) && IsWs(text[4])
    ensures NoLineTerminator(text, 5, |text|)
    ensures exists k :: 5 <= k < |text| && !IsWs(text[k])
    ensures forall j :: 5 <= j && j + 2 <= |text| && text[j] == ':' && text[j + 1] == ':' ==> !WsThenDigits(text, j + 2)
  {
    assert !IsWs(text[5]);
  }

  /** "hello" is neither a send nor a read command. */
  lemma OtherMessageIsNoCommand(text: string)
    requires text == "hello"
    ensures ParseSend(text).None? && ParseRead(text).None?
  {
    assert !SameCI(text[0], Keyword(Send)[0]) && !SameCI(text[0], Keyword(Read)[0]);
    ParseSendSpec(text);
    ParseReadSpec(text);
  }
}
