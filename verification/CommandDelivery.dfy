/** From commands at the client to commands at the server, through encoder, connection,
    Fragmentizer and decoder. */
module CommandDelivery {
  import opened Octets
  import opened Nom
  import opened Strings
  import opened Contexts
  import opened Agreement
  import opened FragmentizerModel
  import opened Deliveries
  import opened Commands
  import opened CommandReading
  import opened EncodingCommand
  import opened Requests
  import opened CommandRequests
  import CommandStability

  datatype CommandDecodeError = MoreNeeded | LiteralAt(tag: bytes, length: nat, mode: LiteralMode) | Failed

  /** A request for literal data is reported together with the tag of the command. */
  function DecodeCommand(s: bytes): Decoded<Command, CommandDecodeError> {
    var i := Feed(s, End);
    match ReadCommand(i)
    case Ok(rest, c) => DecodeOk(Bytes(rest), c)
    case Incomplete => DecodeErr(MoreNeeded)
    case Error => DecodeErr(Failed)
    case Failure(kind) =>
      if kind.LiteralFound? then DecodeErr(LiteralAt(ReadTag(i).value, kind.length, kind.mode))
      else DecodeErr(Failed)
  }

  /** What encoding the commands one after the other gives. */
  ghost predicate EncodeAll(ms: Messages, cs: seq<Command>) {
    |ms| == |cs| && forall k {:trigger ms[k]} | 0 <= k < |ms| :: Encodes(ms[k], cs[k])
  }

  lemma {:induction false} NothingLeft(rest: Wire)
    ensures Bytes(rest) == [] <==> rest == End
  {
  }

  /** The bytes decode to the command, and to no other one, within the limit on nesting. */
  lemma {:induction false} DecodesBack(m: seq<Fragment>, c: Command, x: Command)
    requires Encodes(m, c) && Announceable(m)
    ensures DecodeCommand(DataOf(m)) == DecodeOk([], c) <==> ShallowBody(c.body) && NamedIn(c.body)
    ensures NamedIn(c.body) && DecodeCommand(DataOf(m)) == DecodeOk([], x) ==> x == c
  {
    var i := Feed(DataOf(m), End);
    if ReadCommand(i).Ok? {
      NothingLeft(ReadCommand(i).rest);
    }
    assert Bytes(End) == [];
    if NamedIn(c.body) {
      CommandReads(c, i, End);
    }
  }

  /** When a message is complete at the server, decoding it gives the command that the client
      encoded, exactly if the message is within the server's size limit and not poisoned, the
      criteria are within the limit on nesting, and INBOX is named as such; and it never gives
      another command. */
  lemma {:induction false} CommandArrives(
      cs: seq<Command>, ms: Messages, limit: Option<nat>, ops: seq<Op>, q: bytes, x: Command) returns (i: nat)
    requires EncodeAll(ms, cs) && Delivers(ms, ops, q)
    requires Run(Initial(limit), ops).0.parser.None?
    ensures i < |cs|
    ensures Run(Initial(limit), ops).1 == InfosOf(ms, i + 1)
    ensures var decoded := DecodeMessage(Run(Initial(limit), ops).0, DecodeCommand);
            && (decoded == Decoded(cs[i])
                <==> (&& !(limit.Some? && limit.value < |DataOf(ms[i])|)
                      && !PoisonedIn(Initial(limit), false, ops)
                      && ShallowBody(cs[i].body) && NamedIn(cs[i].body)))
            && (NamedIn(cs[i].body) && decoded == Decoded(x) ==> x == cs[i])
  {
    i := DeliveredMessage(ms, limit, ops, q);
    var m := ms[i];
    assert Encodes(m, cs[i]) && Announceable(m);
    DecodesBack(m, cs[i], x);
    DecodesOnlyWholeMessages(limit, ops, DecodeCommand, cs[i]);
    DecodesOnlyWholeMessages(limit, ops, DecodeCommand, x);
  }

  // ----- Parts of commands -----

  lemma {:induction false} SizeOfJoin(w: Wire, more: Wire)
    ensures Size(Join(w, more)) == Size(w) + Size(more)
  {
    if w.Byte? {
      SizeOfJoin(w.tail, more);
    }
  }

  /** Without its last bytes, a command that would be read is neither read nor refused: more bytes
      are needed, or the data of a literal, which the tag of the command goes with. */
  lemma {:induction false} CutCommand(i: Wire, q: Wire, c: Command, rest: Wire)
    requires ReadCommand(Join(i, q)) == Ok(rest, c) && Size(rest) < Size(q)
    ensures var r := ReadCommand(i);
            || r.Incomplete?
            || (r.Failure? && r.kind.LiteralFound? && ReadTag(i).Ok? && ReadTag(i).value == c.tag)
  {
    CommandStability.CommandStable(i, q);
    TakeWhile1Stable(IsTagChar, i, q);
    if ReadCommand(i).Ok? {
      SizeOfJoin(ReadCommand(i).rest, q);
    }
  }

  lemma {:induction false} JoinFed(a: bytes, k: nat, b: Wire)
    requires k <= |a|
    ensures Join(FeedFrom(a, k, End), b) == FeedFrom(a, k, b)
    decreases |a| - k
  {
    if k < |a| {
      JoinFed(a, k + 1, b);
    }
  }

  /** No part of a command decodes to anything, or is refused. */
  lemma {:induction false} PartOfCommand(c: Command, s: bytes, k: nat)
    requires DecodeCommand(s) == DecodeOk([], c) && k < |s|
    ensures var r := DecodeCommand(s[..k]);
            r.DecodeErr? && (r.error.MoreNeeded? || (r.error.LiteralAt? && r.error.tag == c.tag))
  {
    var a, b := s[..k], s[k..];
    var i, q := Feed(a, End), Feed(b, End);
    assert a + b == s;
    FeedConcat(a, b, End);
    JoinFed(a, 0, q);
    NothingLeft(ReadCommand(Feed(s, End)).rest);
    assert b[0..] == b && q.Byte?;
    CutCommand(i, q, c, End);
  }

  /** The decoder asks for literal data exactly when the bytes are those of a command up to the
      announcement of a literal in place of a string, and it reports the command's tag and what
      was announced. */
  lemma {:induction false} LiteralRequests(s: bytes, tag: bytes, n: nat, mode: LiteralMode)
    ensures DecodeCommand(s) == DecodeErr(LiteralAt(tag, n, mode)) <==> CommandCut(tag, Ask(n, mode), Feed(s, End))
  {
    var i, a := Feed(s, End), Ask(n, mode);
    CommandRequested(tag, a, i);
    assert ReadCommand(i).Failure? && ReadCommand(i).kind.LiteralFound? ==> ReadTag(i).Ok?;
  }
}
