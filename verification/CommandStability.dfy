/** Commands as they arrive: what was read, refused or failed stays so when more bytes arrive. */
module CommandStability {
  import opened Octets
  import opened Nom
  import opened Strings
  import opened SequenceCodec
  import opened Search
  import opened Commands

  lemma {:induction false} MapStable<T, U>(before: Outcome<T>, after: Outcome<T>, f: T -> U, q: Wire)
    requires Extends(before, after, q)
    ensures Extends(before.Map(f), after.Map(f), q)
  {
  }

  lemma {:induction false} AStringsStable()
    ensures Stable(ReadAString)
  {
    forall i, q {:trigger ReadAString(Join(i, q))} ensures Extends(ReadAString(i), ReadAString(Join(i, q)), q) {
      AStringStable(i, q);
    }
  }

  lemma {:induction false} MailboxStable(i: Wire, q: Wire)
    ensures Extends(ReadMailbox(i), ReadMailbox(Join(i, q)), q)
  {
    AStringStable(i, q);
    MapStable(ReadAString(i), ReadAString(Join(i, q)), MailboxFrom, q);
  }

  lemma {:induction false} MailboxesStable()
    ensures Stable(ReadMailbox)
  {
    forall i, q {:trigger ReadMailbox(Join(i, q))} ensures Extends(ReadMailbox(i), ReadMailbox(Join(i, q)), q) {
      MailboxStable(i, q);
    }
  }

  lemma {:induction false} SetsStable()
    ensures Stable(ReadSequenceSet)
  {
    forall i, q {:trigger ReadSequenceSet(Join(i, q))}
      ensures Extends(ReadSequenceSet(i), ReadSequenceSet(Join(i, q)), q)
    {
      SequenceSetStable(i, q);
    }
  }

  lemma {:induction false} CharsetStable(i: Wire, q: Wire)
    ensures Extends(ReadCharset(i), ReadCharset(Join(i, q)), q)
  {
    AtomStable(i, q);
    QuotedStable(i, q);
  }

  lemma {:induction false} CharsetArgumentStable(i: Wire, q: Wire)
    ensures Extends(ReadCharsetArgument(i), ReadCharsetArgument(Join(i, q)), q)
  {
    CharStable(SP, i, q);
    if Char(SP, i).Ok? {
      TagStable("CHARSET", i.tail, q);
      if TagNoCase("CHARSET", i.tail).Ok? {
        forall j, w {:trigger ReadCharset(Join(j, w))} ensures Extends(ReadCharset(j), ReadCharset(Join(j, w)), w) {
          CharsetStable(j, w);
        }
        BehindStable(ReadCharset, TagNoCase("CHARSET", i.tail).rest, q);
      }
    }
  }

  lemma {:induction false} CriteriaStable()
    ensures Stable(ReadCriteria)
  {
    SearchKeyStable(SEARCH_LEVELS);
    forall i, q {:trigger ReadCriteria(Join(i, q))} ensures Extends(ReadCriteria(i), ReadCriteria(Join(i, q)), q) {
      SeparatedList1Stable(SP, KeyReader(SEARCH_LEVELS), i, q);
    }
  }

  lemma {:induction false} SearchStable(i: Wire, q: Wire)
    ensures Extends(ReadSearch(i), ReadSearch(Join(i, q)), q)
  {
    CharsetArgumentStable(i, q);
    OptStable(ReadCharsetArgument(i), ReadCharsetArgument(Join(i, q)), i, q);
    var first := Opt(ReadCharsetArgument(i), i);
    if first.Ok? {
      CriteriaStable();
      BehindStable(ReadCriteria, first.rest, q);
    }
  }

  lemma {:induction false} LoginStable(i: Wire, q: Wire)
    ensures Extends(ReadLogin(i), ReadLogin(Join(i, q)), q)
  {
    CharStable(SP, i, q);
    if Char(SP, i).Ok? {
      AStringsStable();
      PairStable(ReadAString, ReadAString, i.tail, q);
    }
  }

  lemma {:induction false} RenameStable(i: Wire, q: Wire)
    ensures Extends(ReadRename(i), ReadRename(Join(i, q)), q)
  {
    MailboxesStable();
    PairStable(ReadMailbox, ReadMailbox, i, q);
  }

  lemma {:induction false} SetAndMailboxStable(i: Wire, q: Wire)
    ensures Extends(ReadSetAndMailbox(i), ReadSetAndMailbox(Join(i, q)), q)
  {
    CharStable(SP, i, q);
    if Char(SP, i).Ok? {
      SetsStable();
      MailboxesStable();
      PairStable(ReadSequenceSet, ReadMailbox, i.tail, q);
    }
  }

  lemma {:induction false} CopyStable(i: Wire, q: Wire)
    ensures Extends(ReadCopy(i), ReadCopy(Join(i, q)), q)
  {
    SetAndMailboxStable(i, q);
  }

  lemma {:induction false} MoveStable(i: Wire, q: Wire)
    ensures Extends(ReadMove(i), ReadMove(Join(i, q)), q)
  {
    SetAndMailboxStable(i, q);
  }

  lemma {:induction false} ArgumentsStable(v: Verb, i: Wire, q: Wire)
    requires !v.UidVerb?
    ensures Extends(ReadArgumentsOf(v, i), ReadArgumentsOf(v, Join(i, q)), q)
  {
    match v
    case BareVerb(_) =>
    case MailboxVerb(_) => MailboxStable(i, q);
    case LoginVerb => LoginStable(i, q);
    case RenameVerb => RenameStable(i, q);
    case ExpungeUidVerb => SequenceSetStable(i, q);
    case CopyVerb => CopyStable(i, q);
    case SearchVerb => SearchStable(i, q);
    case MoveVerb => MoveStable(i, q);
  }

  lemma {:induction false} PlainStable(v: Verb, i: Wire, q: Wire)
    requires !v.UidVerb?
    ensures Extends(ReadPlain(v, i), ReadPlain(v, Join(i, q)), q)
  {
    TagStable(Lead(v), i, q);
    if TagNoCase(Lead(v), i).Ok? {
      ArgumentsStable(v, TagNoCase(Lead(v), i).rest, q);
    }
  }

  lemma {:induction false} UidFormsStable(i: Wire, q: Wire)
    ensures Extends(ReadUidForms(i), ReadUidForms(Join(i, q)), q)
  {
    var j := Join(i, q);
    PlainStable(CopyVerb, i, q);
    PlainStable(SearchVerb, i, q);
    PlainStable(MoveVerb, i, q);
    var o, o' := Alt(ReadPlain(SearchVerb, i), ReadPlain(MoveVerb, i)), Alt(ReadPlain(SearchVerb, j), ReadPlain(MoveVerb, j));
    AltStable(ReadPlain(SearchVerb, i), ReadPlain(SearchVerb, j), ReadPlain(MoveVerb, i), ReadPlain(MoveVerb, j), q);
    AltStable(ReadPlain(CopyVerb, i), ReadPlain(CopyVerb, j), o, o', q);
    MapStable(Alt(ReadPlain(CopyVerb, i), o), Alt(ReadPlain(CopyVerb, j), o'), WithUid, q);
  }

  lemma {:induction false} VerbStable(v: Verb, i: Wire, q: Wire)
    ensures Extends(ReadVerb(v, i), ReadVerb(v, Join(i, q)), q)
  {
    if v.UidVerb? {
      TagStable(Lead(v), i, q);
      if TagNoCase(Lead(v), i).Ok? {
        var i1 := TagNoCase(Lead(v), i).rest;
        CharStable(SP, i1, q);
        if Char(SP, i1).Ok? {
          UidFormsStable(i1.tail, q);
        }
      }
    } else {
      PlainStable(v, i, q);
    }
  }

  lemma {:induction false} BodyStable(i: Wire, q: Wire)
    ensures Extends(ReadCommandBody(i), ReadCommandBody(Join(i, q)), q)
  {
    var verbs := Alternatives();
    forall m {:trigger verbs[m]} | 0 <= m < |verbs|
      ensures Extends(ReadVerb(verbs[m], i), ReadVerb(verbs[m], Join(i, q)), q)
    {
      VerbStable(verbs[m], i, q);
    }
    FirstOfStable(ReadVerb, verbs, 0, i, q);
  }

  /** A command that was read is read the same with more bytes behind it, an error stays an error,
      and a failure other than a request for literal data stays the same failure. */
  lemma {:induction false} CommandStable(i: Wire, q: Wire)
    ensures Extends(ReadCommand(i), ReadCommand(Join(i, q)), q)
  {
    TakeWhile1Stable(IsTagChar, i, q);
    if ReadTag(i).Ok? {
      var i1 := ReadTag(i).rest;
      CharStable(SP, i1, q);
      if Char(SP, i1).Ok? {
        BodyStable(i1.tail, q);
        if ReadCommandBody(i1.tail).Ok? {
          CrlfStable(ReadCommandBody(i1.tail).rest, q);
        }
      }
    }
  }
}
