/** Envelopes: ten fields, six of them lists of addresses. */
module Envelopes {
  import opened Octets
  import opened Nom
  import opened Strings

  datatype Address = Address(name: NString, adl: NString, mailbox: NString, host: NString)

  datatype Envelope = Envelope(
    date: NString, subject: NString,
    from: seq<Address>, sender: seq<Address>, replyTo: seq<Address>,
    recipients: seq<Address>, cc: seq<Address>, bcc: seq<Address>,
    inReplyTo: NString, messageId: NString)

  type Lists = (seq<Address>, seq<Address>, seq<Address>)

  predicate GoodAddress(a: Address) {
    GoodNString(a.name) && GoodNString(a.adl) && GoodNString(a.mailbox) && GoodNString(a.host)
  }

  predicate GoodAddresses(list: seq<Address>) {
    forall k | 0 <= k < |list| :: GoodAddress(list[k])
  }

  predicate GoodEnvelope(e: Envelope) {
    && GoodNString(e.date) && GoodNString(e.subject)
    && GoodAddresses(e.from) && GoodAddresses(e.sender) && GoodAddresses(e.replyTo)
    && GoodAddresses(e.recipients) && GoodAddresses(e.cc) && GoodAddresses(e.bcc)
    && GoodNString(e.inReplyTo) && GoodNString(e.messageId)
  }

  // ----- The grammar -----

  ghost predicate NStringsText(s: (NString, NString), i: Wire, rest: Wire) {
    PairText(GoodNStringText, GoodNStringText, s.0, s.1, i, rest)
  }

  ghost predicate AddressFieldsText(a: Address, i: Wire, rest: Wire) {
    PairText(NStringsText, NStringsText, (a.name, a.adl), (a.mailbox, a.host), i, rest)
  }

  ghost predicate AddressText(a: Address, i: Wire, rest: Wire) {
    EnclosedText(AddressFieldsText, a, i, rest)
  }

  ghost predicate AddressRow(list: seq<Address>, i: Wire, rest: Wire) {
    list != [] && RowText(AddressText, list, i, rest)
  }

  /** Addresses in parentheses with nothing between them, or NIL in any case of letters. */
  ghost predicate AddressesText(list: seq<Address>, i: Wire, rest: Wire) {
    if list == [] then WordText("NIL", i, rest) else EnclosedText(AddressRow, list, i, rest)
  }

  ghost predicate ListsText(s: Lists, i: Wire, rest: Wire) {
    TripleText(AddressesText, AddressesText, AddressesText, s.0, s.1, s.2, i, rest)
  }

  ghost predicate AllListsText(s: (Lists, Lists), i: Wire, rest: Wire) {
    PairText(ListsText, ListsText, s.0, s.1, i, rest)
  }

  ghost predicate EnvelopeFieldsText(e: Envelope, i: Wire, rest: Wire) {
    TripleText(NStringsText, AllListsText, NStringsText,
      (e.date, e.subject),
      ((e.from, e.sender, e.replyTo), (e.recipients, e.cc, e.bcc)),
      (e.inReplyTo, e.messageId), i, rest)
  }

  ghost predicate EnvelopeText(e: Envelope, i: Wire, rest: Wire) {
    EnclosedText(EnvelopeFieldsText, e, i, rest)
  }

  // ----- Writing -----

  function PutNStrings(a: NString, b: NString, rest: Wire): Wire {
    PutNString(a, Byte(SP, PutNString(b, rest)))
  }

  function PutAddress(a: Address, rest: Wire): Wire {
    Byte(LPAREN, PutNStrings(a.name, a.adl, Byte(SP, PutNStrings(a.mailbox, a.host, Byte(RPAREN, rest)))))
  }

  /** The addresses from index `k` on, with nothing between them. */
  function PutAddressesFrom(list: seq<Address>, k: nat, rest: Wire): Wire
    requires k <= |list|
    decreases |list| - k
  {
    if k == |list| then rest else PutAddress(list[k], PutAddressesFrom(list, k + 1, rest))
  }

  function PutAddresses(list: seq<Address>, rest: Wire): Wire {
    if list == [] then Text("NIL", rest)
    else Byte(LPAREN, PutAddressesFrom(list, 0, Byte(RPAREN, rest)))
  }

  function PutLists(a: seq<Address>, b: seq<Address>, c: seq<Address>, rest: Wire): Wire {
    PutAddresses(a, Byte(SP, PutAddresses(b, Byte(SP, PutAddresses(c, rest)))))
  }

  function PutEnvelopeFields(e: Envelope, rest: Wire): Wire {
    PutNStrings(e.date, e.subject, Byte(SP,
      PutLists(e.from, e.sender, e.replyTo, Byte(SP,
      PutLists(e.recipients, e.cc, e.bcc, Byte(SP,
      PutNStrings(e.inReplyTo, e.messageId, rest)))))))
  }

  function PutEnvelope(e: Envelope, rest: Wire): Wire {
    Byte(LPAREN, PutEnvelopeFields(e, Byte(RPAREN, rest)))
  }

  // ----- Reading -----

  function ReadNStrings(i: Wire): (r: Outcome<(NString, NString)>)
    ensures r.Consumes(i)
  {
    Pair(ReadNString, ReadNString, i)
  }

  function ReadAddressFields(i: Wire): (r: Outcome<Address>)
    ensures r.Consumes(i)
  {
    var (rest, ((name, adl), (mailbox, host))) :- Pair(ReadNStrings, ReadNStrings, i);
    Ok(rest, Address(name, adl, mailbox, host))
  }

  function ReadAddress(i: Wire): (r: Outcome<Address>)
    ensures r.Consumes(i)
  {
    Enclosed(ReadAddressFields, i)
  }

  function ReadAddressList(i: Wire): (r: Outcome<seq<Address>>)
    ensures r.Consumes(i)
  {
    Many1(ReadAddress, i)
  }

  function ReadAddresses(i: Wire): (r: Outcome<seq<Address>>)
    ensures r.Consumes(i)
  {
    Alt(Enclosed(ReadAddressList, i), ReadNil(i).Map(_ => []))
  }

  function ReadLists(i: Wire): (r: Outcome<Lists>)
    ensures r.Consumes(i)
  {
    Triple(ReadAddresses, ReadAddresses, ReadAddresses, i)
  }

  function ReadAllLists(i: Wire): (r: Outcome<(Lists, Lists)>)
    ensures r.Consumes(i)
  {
    Pair(ReadLists, ReadLists, i)
  }

  function ReadEnvelopeFields(i: Wire): (r: Outcome<Envelope>)
    ensures r.Consumes(i)
  {
    var (rest, ((date, subject), ((from, sender, replyTo), (recipients, cc, bcc)), (inReplyTo, messageId)))
      :- Triple(ReadNStrings, ReadAllLists, ReadNStrings, i);
    Ok(rest, Envelope(date, subject, from, sender, replyTo, recipients, cc, bcc, inReplyTo, messageId))
  }

  function ReadEnvelope(i: Wire): (r: Outcome<Envelope>)
    ensures r.Consumes(i)
  {
    Enclosed(ReadEnvelopeFields, i)
  }

  // ----- Every text is read -----

  lemma NStringsRead()
    ensures Reads(ReadNStrings, NStringsText, More)
  {
    GoodStringsRead();
    forall s, i, rest {:trigger NStringsText(s, i, rest)} | NStringsText(s, i, rest) && More(rest)
      ensures ReadNStrings(i) == Ok(rest, s)
    {
      PairTextReads(ReadNString, ReadNString, GoodNStringText, GoodNStringText, More, More, s.0, s.1, i, rest);
    }
  }

  lemma AddressFieldsRead()
    ensures Reads(ReadAddressFields, AddressFieldsText, More)
  {
    NStringsRead();
    forall a, i, rest {:trigger AddressFieldsText(a, i, rest)} | AddressFieldsText(a, i, rest) && More(rest)
      ensures ReadAddressFields(i) == Ok(rest, a)
    {
      PairTextReads(ReadNStrings, ReadNStrings, NStringsText, NStringsText, More, More,
        (a.name, a.adl), (a.mailbox, a.host), i, rest);
    }
  }

  lemma AddressReads()
    ensures Reads(ReadAddress, AddressText, Anything)
  {
    AddressFieldsRead();
    forall a, i, rest {:trigger AddressText(a, i, rest)} | AddressText(a, i, rest)
      ensures ReadAddress(i) == Ok(rest, a)
    {
      EnclosedTextReads(ReadAddressFields, AddressFieldsText, More, a, i, rest);
    }
  }

  predicate Closes(rest: Wire) {
    rest.Byte? && rest.head == RPAREN
  }

  lemma AddressListReads()
    ensures Reads(ReadAddressList, AddressRow, Closes)
  {
    AddressReads();
    forall list, i, rest {:trigger AddressRow(list, i, rest)} | AddressRow(list, i, rest) && Closes(rest)
      ensures ReadAddressList(i) == Ok(rest, list)
    {
      RowTextReads(ReadAddress, AddressText, list, i, rest);
    }
  }

  lemma {:induction false} NilAddressesRead(list: seq<Address>, i: Wire, rest: Wire)
    requires list == [] && WordText("NIL", i, rest)
    ensures ReadAddresses(i) == Ok(rest, list)
  {
    WordIsNoString(i, rest);
    TagIsWord("NIL", i, rest);
  }

  lemma AddressesRead()
    ensures Reads(ReadAddresses, AddressesText, Anything)
  {
    AddressListReads();
    forall list, i, rest {:trigger AddressesText(list, i, rest)} | AddressesText(list, i, rest)
      ensures ReadAddresses(i) == Ok(rest, list)
    {
      if list == [] {
        NilAddressesRead(list, i, rest);
      } else {
        EnclosedTextReads(ReadAddressList, AddressRow, Closes, list, i, rest);
      }
    }
  }

  lemma ListsRead()
    ensures Reads(ReadLists, ListsText, Anything)
  {
    AddressesRead();
    forall s, i, rest {:trigger ListsText(s, i, rest)} | ListsText(s, i, rest) ensures ReadLists(i) == Ok(rest, s) {
      TripleTextReads(ReadAddresses, ReadAddresses, ReadAddresses, AddressesText, AddressesText, AddressesText,
        Anything, Anything, Anything, s.0, s.1, s.2, i, rest);
    }
  }

  lemma AllListsRead()
    ensures Reads(ReadAllLists, AllListsText, Anything)
  {
    ListsRead();
    forall s, i, rest {:trigger AllListsText(s, i, rest)} | AllListsText(s, i, rest)
      ensures ReadAllLists(i) == Ok(rest, s)
    {
      PairTextReads(ReadLists, ReadLists, ListsText, ListsText, Anything, Anything, s.0, s.1, i, rest);
    }
  }

  lemma EnvelopeFieldsRead()
    ensures Reads(ReadEnvelopeFields, EnvelopeFieldsText, More)
  {
    NStringsRead();
    AllListsRead();
    forall e, i, rest {:trigger EnvelopeFieldsText(e, i, rest)} | EnvelopeFieldsText(e, i, rest) && More(rest)
      ensures ReadEnvelopeFields(i) == Ok(rest, e)
    {
      TripleTextReads(ReadNStrings, ReadAllLists, ReadNStrings, NStringsText, AllListsText, NStringsText,
        More, Anything, More, (e.date, e.subject),
        ((e.from, e.sender, e.replyTo), (e.recipients, e.cc, e.bcc)), (e.inReplyTo, e.messageId), i, rest);
    }
  }

  lemma EnvelopeReads()
    ensures Reads(ReadEnvelope, EnvelopeText, Anything)
  {
    EnvelopeFieldsRead();
    forall e, i, rest {:trigger EnvelopeText(e, i, rest)} | EnvelopeText(e, i, rest)
      ensures ReadEnvelope(i) == Ok(rest, e)
    {
      EnclosedTextReads(ReadEnvelopeFields, EnvelopeFieldsText, More, e, i, rest);
    }
  }

  // ----- What is written is a text -----

  lemma PutGoodNStringIsText(s: NString, rest: Wire)
    requires GoodNString(s)
    ensures GoodNStringText(s, PutNString(s, rest), rest)
  {
    PutNStringIsText(s, rest);
  }

  lemma PutNStringsIsText(a: NString, b: NString, rest: Wire)
    requires GoodNString(a) && GoodNString(b)
    ensures NStringsText((a, b), PutNStrings(a, b, rest), rest)
  {
    PutGoodNStringIsText(b, rest);
    PutGoodNStringIsText(a, Byte(SP, PutNString(b, rest)));
  }

  lemma PutAddressIsText(a: Address, rest: Wire)
    requires GoodAddress(a)
    ensures AddressText(a, PutAddress(a, rest), rest)
  {
    var j := PutNStrings(a.mailbox, a.host, Byte(RPAREN, rest));
    PutNStringsIsText(a.mailbox, a.host, Byte(RPAREN, rest));
    PutNStringsIsText(a.name, a.adl, Byte(SP, j));
  }

  function AddressesFrom(list: seq<Address>, rest: Wire): nat -> Wire {
    (m: nat) => if m <= |list| then PutAddressesFrom(list, m, rest) else rest
  }

  lemma {:induction false} AddressStands(list: seq<Address>, m: nat, rest: Wire)
    requires GoodAddresses(list) && m < |list|
    ensures AddressText(list[m], AddressesFrom(list, rest)(m), AddressesFrom(list, rest)(m + 1))
  {
    PutAddressIsText(list[m], PutAddressesFrom(list, m + 1, rest));
  }

  lemma {:induction false} AddressesStand(list: seq<Address>, rest: Wire) returns (text: nat -> Wire)
    requires GoodAddresses(list)
    ensures StandsInRow(AddressText, list, text)
    ensures text(0) == PutAddressesFrom(list, 0, rest) && text(|list|) == rest
  {
    text := AddressesFrom(list, rest);
    forall m: nat {:trigger list[m]} | m < |list| ensures AddressText(list[m], text(m), text(m + 1)) {
      AddressStands(list, m, rest);
    }
  }

  lemma {:induction false} PutAddressesIsText(list: seq<Address>, rest: Wire)
    requires GoodAddresses(list)
    ensures AddressesText(list, PutAddresses(list, rest), rest)
  {
    if list == [] {
      TextIsWord("NIL", rest);
    } else {
      var text := AddressesStand(list, Byte(RPAREN, rest));
    }
  }

  lemma PutListsIsText(a: seq<Address>, b: seq<Address>, c: seq<Address>, rest: Wire)
    requires GoodAddresses(a) && GoodAddresses(b) && GoodAddresses(c)
    ensures ListsText((a, b, c), PutLists(a, b, c, rest), rest)
  {
    var k := PutAddresses(c, rest);
    var j := PutAddresses(b, Byte(SP, k));
    PutAddressesIsText(c, rest);
    PutAddressesIsText(b, Byte(SP, k));
    PutAddressesIsText(a, Byte(SP, j));
  }

  lemma PutEnvelopeFieldsIsText(e: Envelope, rest: Wire)
    requires GoodEnvelope(e)
    ensures EnvelopeFieldsText(e, PutEnvelopeFields(e, rest), rest)
  {
    var k := PutNStrings(e.inReplyTo, e.messageId, rest);
    var l := PutLists(e.recipients, e.cc, e.bcc, Byte(SP, k));
    var j := PutLists(e.from, e.sender, e.replyTo, Byte(SP, l));
    PutNStringsIsText(e.inReplyTo, e.messageId, rest);
    PutListsIsText(e.recipients, e.cc, e.bcc, Byte(SP, k));
    PutListsIsText(e.from, e.sender, e.replyTo, Byte(SP, l));
    assert AllListsText(((e.from, e.sender, e.replyTo), (e.recipients, e.cc, e.bcc)), j, Byte(SP, k));
    PutNStringsIsText(e.date, e.subject, Byte(SP, j));
  }

  lemma PutEnvelopeIsText(e: Envelope, rest: Wire)
    requires GoodEnvelope(e)
    ensures EnvelopeText(e, PutEnvelope(e, rest), rest)
  {
    PutEnvelopeFieldsIsText(e, Byte(RPAREN, rest));
  }

  lemma EnvelopeRoundTrip(e: Envelope, rest: Wire)
    requires GoodEnvelope(e)
    ensures ReadEnvelope(PutEnvelope(e, rest)) == Ok(rest, e)
  {
    PutEnvelopeIsText(e, rest);
    EnvelopeReads();
  }

  // ----- Only texts are read -----

  lemma NStringsAreTexts()
    ensures Accepts(ReadNStrings, NStringsText)
  {
    GoodStringsAreTexts();
    forall i {:trigger ReadNStrings(i)} ensures var r := ReadNStrings(i); r.Ok? ==> NStringsText(r.value, i, r.rest) {
      PairIsText(ReadNString, ReadNString, GoodNStringText, GoodNStringText, i);
    }
  }

  lemma AddressFieldsAreTexts()
    ensures Accepts(ReadAddressFields, AddressFieldsText)
  {
    NStringsAreTexts();
    forall i {:trigger ReadAddressFields(i)}
      ensures var r := ReadAddressFields(i); r.Ok? ==> AddressFieldsText(r.value, i, r.rest)
    {
      PairIsText(ReadNStrings, ReadNStrings, NStringsText, NStringsText, i);
    }
  }

  lemma AddressListsAreTexts()
    ensures Accepts(ReadAddressList, AddressRow)
  {
    AddressFieldsAreTexts();
    forall i {:trigger ReadAddress(i)} ensures var r := ReadAddress(i); r.Ok? ==> AddressText(r.value, i, r.rest) {
      EnclosedIsText(ReadAddressFields, AddressFieldsText, i);
    }
    forall i {:trigger ReadAddressList(i)}
      ensures var r := ReadAddressList(i); r.Ok? ==> AddressRow(r.value, i, r.rest)
    {
      RowIsText(ReadAddress, AddressText, i);
    }
  }

  lemma AddressesAreTexts()
    ensures Accepts(ReadAddresses, AddressesText)
  {
    AddressListsAreTexts();
    forall i {:trigger ReadAddresses(i)} ensures var r := ReadAddresses(i); r.Ok? ==> AddressesText(r.value, i, r.rest) {
      EnclosedIsText(ReadAddressList, AddressRow, i);
      TagTakesWord("NIL", i);
    }
  }

  lemma ListsAreTexts()
    ensures Accepts(ReadLists, ListsText)
  {
    AddressesAreTexts();
    forall i {:trigger ReadLists(i)} ensures var r := ReadLists(i); r.Ok? ==> ListsText(r.value, i, r.rest) {
      TripleIsText(ReadAddresses, ReadAddresses, ReadAddresses, AddressesText, AddressesText, AddressesText, i);
    }
  }

  lemma AllListsAreTexts()
    ensures Accepts(ReadAllLists, AllListsText)
  {
    ListsAreTexts();
    forall i {:trigger ReadAllLists(i)} ensures var r := ReadAllLists(i); r.Ok? ==> AllListsText(r.value, i, r.rest) {
      PairIsText(ReadLists, ReadLists, ListsText, ListsText, i);
    }
  }

  lemma EnvelopeFieldsAreTexts()
    ensures Accepts(ReadEnvelopeFields, EnvelopeFieldsText)
  {
    NStringsAreTexts();
    AllListsAreTexts();
    forall i {:trigger ReadEnvelopeFields(i)}
      ensures var r := ReadEnvelopeFields(i); r.Ok? ==> EnvelopeFieldsText(r.value, i, r.rest)
    {
      TripleIsText(ReadNStrings, ReadAllLists, ReadNStrings, NStringsText, AllListsText, NStringsText, i);
    }
  }

  lemma EnvelopesAreTexts()
    ensures Accepts(ReadEnvelope, EnvelopeText)
  {
    EnvelopeFieldsAreTexts();
    forall i {:trigger ReadEnvelope(i)} ensures var r := ReadEnvelope(i); r.Ok? ==> EnvelopeText(r.value, i, r.rest) {
      EnclosedIsText(ReadEnvelopeFields, EnvelopeFieldsText, i);
    }
  }

  /** The language of envelopes: one is read from exactly its texts, whatever follows. */
  lemma EnvelopeGrammar(e: Envelope, i: Wire, rest: Wire)
    ensures ReadEnvelope(i) == Ok(rest, e) <==> EnvelopeText(e, i, rest)
  {
    EnvelopeReads();
    EnvelopesAreTexts();
  }

  // ----- What is read is legal -----

  predicate GoodNStrings(s: (NString, NString)) {
    GoodNString(s.0) && GoodNString(s.1)
  }

  predicate GoodLists(s: Lists) {
    GoodAddresses(s.0) && GoodAddresses(s.1) && GoodAddresses(s.2)
  }

  lemma NStringSound()
    ensures Sound(ReadNString, GoodNString)
  {
    forall i {:trigger ReadNString(i)} ensures ReadNString(i).Ok? ==> GoodNString(ReadNString(i).value) {
      NStringIsGood(i);
    }
  }

  lemma NStringsSound()
    ensures Sound(ReadNStrings, GoodNStrings)
  {
    NStringSound();
    forall i {:trigger ReadNStrings(i)} ensures ReadNStrings(i).Ok? ==> GoodNStrings(ReadNStrings(i).value) {
      PairSound(ReadNString, ReadNString, i, GoodNString, GoodNString);
    }
  }

  lemma AddressFieldsSound()
    ensures Sound(ReadAddressFields, GoodAddress)
  {
    NStringsSound();
    forall i {:trigger ReadAddressFields(i)}
      ensures ReadAddressFields(i).Ok? ==> GoodAddress(ReadAddressFields(i).value)
    {
      PairSound(ReadNStrings, ReadNStrings, i, GoodNStrings, GoodNStrings);
    }
  }

  lemma AddressSound()
    ensures Sound(ReadAddress, GoodAddress)
  {
    AddressFieldsSound();
    forall i {:trigger ReadAddress(i)} ensures ReadAddress(i).Ok? ==> GoodAddress(ReadAddress(i).value) {
      EnclosedSound(ReadAddressFields, i, GoodAddress);
    }
  }

  lemma AddressListSound()
    ensures Sound(ReadAddressList, GoodAddresses)
  {
    AddressSound();
    forall i {:trigger ReadAddressList(i)}
      ensures ReadAddressList(i).Ok? ==> GoodAddresses(ReadAddressList(i).value)
    {
      if ReadAddress(i).Ok? {
        ManyMoreSound(ReadAddress, ReadAddress(i).rest, [ReadAddress(i).value], GoodAddress);
      }
    }
  }

  lemma AddressesSound()
    ensures Sound(ReadAddresses, GoodAddresses)
  {
    AddressListSound();
    forall i {:trigger ReadAddresses(i)} ensures ReadAddresses(i).Ok? ==> GoodAddresses(ReadAddresses(i).value) {
      EnclosedSound(ReadAddressList, i, GoodAddresses);
    }
  }

  lemma ListsSound()
    ensures Sound(ReadLists, GoodLists)
  {
    AddressesSound();
    forall i {:trigger ReadLists(i)} ensures ReadLists(i).Ok? ==> GoodLists(ReadLists(i).value) {
      TripleSound(ReadAddresses, ReadAddresses, ReadAddresses, i, GoodAddresses, GoodAddresses, GoodAddresses);
    }
  }

  predicate GoodAllLists(s: (Lists, Lists)) {
    GoodLists(s.0) && GoodLists(s.1)
  }

  lemma AllListsSound()
    ensures Sound(ReadAllLists, GoodAllLists)
  {
    ListsSound();
    forall i {:trigger ReadAllLists(i)} ensures ReadAllLists(i).Ok? ==> GoodAllLists(ReadAllLists(i).value) {
      PairSound(ReadLists, ReadLists, i, GoodLists, GoodLists);
    }
  }

  lemma EnvelopeFieldsSound()
    ensures Sound(ReadEnvelopeFields, GoodEnvelope)
  {
    NStringsSound();
    AllListsSound();
    forall i {:trigger ReadEnvelopeFields(i)}
      ensures ReadEnvelopeFields(i).Ok? ==> GoodEnvelope(ReadEnvelopeFields(i).value)
    {
      TripleSound(ReadNStrings, ReadAllLists, ReadNStrings, i, GoodNStrings, GoodAllLists, GoodNStrings);
    }
  }

  /** Every envelope that is read is legal. */
  lemma EnvelopeIsGood(i: Wire)
    ensures ReadEnvelope(i).Ok? ==> GoodEnvelope(ReadEnvelope(i).value)
  {
    EnvelopeFieldsSound();
    EnclosedSound(ReadEnvelopeFields, i, GoodEnvelope);
  }
}
