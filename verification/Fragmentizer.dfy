/** The Fragmentizer and its two sub-parsers as objects, proved against the state machine. */
module Fragmentizers {
  import opened Octets
  import opened Announcements
  import opened Fragments
  import opened FragmentizerModel

  class LineParser {
    var start: nat
    var end: nat
    var latestByte: LatestByte

    constructor (start: nat)
      ensures Position() == AtLine(start, start, Other)
    {
      this.start, this.end, this.latestByte := start, start, Other;
    }

    function Position(): Parser
      reads this
    {
      AtLine(start, end, latestByte)
    }

    method Parse(unprocessed: bytes) returns (count: nat, parsedLine: Option<FragmentInfo>)
      modifies this
      ensures ParseNext(old(Position()), unprocessed, 0) == (count, Position(), parsedLine)
    {
      count, parsedLine := 0, None;
      while count < |unprocessed|
        invariant count <= |unprocessed|
        invariant parsedLine == None
        invariant LfFrom(unprocessed, 0) == LfFrom(unprocessed, count)
        invariant start == old(start) && end == old(end) + count
        invariant latestByte == RunOver(old(latestByte), unprocessed, 0, count)
      {
        var next := unprocessed[count];
        count := count + 1;
        end := end + 1;
        if next == LF {
          parsedLine := Some(Line(start, end, AnnouncementAt(latestByte), EndingAt(latestByte)));
          latestByte := Other;
          break;
        }
        latestByte := Advance(latestByte, next);
      }
    }
  }

  class LiteralParser {
    var start: nat
    var end: nat
    var remaining: nat

    constructor (start: nat, length: nat)
      ensures Position() == AtLiteral(start, start, length)
    {
      this.start, this.end, this.remaining := start, start, length;
    }

    function Position(): Parser
      reads this
    {
      AtLiteral(start, end, remaining)
    }

    method Parse(unprocessed: bytes) returns (count: nat, parsedLiteral: Option<FragmentInfo>)
      modifies this
      ensures ParseNext(old(Position()), unprocessed, 0) == (count, Position(), parsedLiteral)
    {
      if |unprocessed| < remaining {
        count := |unprocessed|;
        end := end + count;
        remaining := remaining - count;
        parsedLiteral := None;
      } else {
        count := remaining;
        end := end + count;
        remaining := 0;
        parsedLiteral := Some(Literal(start, end));
      }
    }
  }

  /** The stages of a step, put together. */
  lemma ProgressIs(
      st: State, current: State, count: nat, parsed: State, fragment: Option<FragmentInfo>, dequeued: State,
      next: State)
    requires WithinLimit(st) && current == Continue(st)
    requires parsed.parser.Some? && parsed == current.(parser := parsed.parser)
    requires ParseNext(current.parser.value, current.unparsed, 0) == (count, parsed.parser.value, fragment)
    requires dequeued == Dequeue(parsed, count)
    requires next == dequeued.(parser := if fragment.Some? then After(fragment.value) else parsed.parser)
    ensures FragmentizerModel.Progress(st) == (next, fragment)
  {
  }

  datatype ActiveParser = NoParser | LineOf(line: LineParser) | LiteralOf(literal: LiteralParser)

  class Fragmentizer {
    var unparsedBuffer: bytes
    var maxMessageSize: Option<nat>
    var maxMessageSizeExceeded: bool
    var messagePoisoned: bool
    var messageBuffer: bytes
    var parser: ActiveParser

    ghost function Repr(): set<object>
      reads this
    {
      {this} + match parser
               case NoParser => {}
               case LineOf(line) => {line}
               case LiteralOf(literal) => {literal}
    }

    ghost function Position(): Option<Parser>
      reads Repr()
    {
      match parser
      case NoParser => None
      case LineOf(line) => Some(line.Position())
      case LiteralOf(literal) => Some(literal.Position())
    }

    ghost function Abstract(): State
      reads Repr()
    {
      State(unparsedBuffer, maxMessageSize, maxMessageSizeExceeded, messagePoisoned, messageBuffer, Position())
    }

    constructor (maxMessageSize: nat)
      ensures Abstract() == Initial(Some(maxMessageSize))
      ensures fresh(Repr())
    {
      unparsedBuffer := [];
      this.maxMessageSize := Some(maxMessageSize);
      maxMessageSizeExceeded, messagePoisoned := false, false;
      messageBuffer := [];
      var line := new LineParser(0);
      parser := LineOf(line);
    }

    constructor WithoutMaxMessageSize()
      ensures Abstract() == Initial(None)
      ensures fresh(Repr())
    {
      unparsedBuffer := [];
      maxMessageSize := None;
      maxMessageSizeExceeded, messagePoisoned := false, false;
      messageBuffer := [];
      var line := new LineParser(0);
      parser := LineOf(line);
    }

    /** Continues parsing until the next fragment is found or all bytes are used up. */
    method Progress() returns (fragment: Option<FragmentInfo>)
      requires WithinLimit(Abstract())
      modifies Repr()
      ensures fresh(Repr() - old(Repr()))
      ensures FragmentizerModel.Progress(old(Abstract())) == (Abstract(), fragment)
    {
      ghost var st := Abstract();
      StartNext();
      ghost var current := Abstract();
      var count;
      count, fragment := ParseUnparsed();
      ghost var parsed := Abstract();
      DequeueParsedBytes(count);
      ghost var dequeued := Abstract();
      ExpectAfter(fragment);
      ProgressIs(st, current, count, parsed, fragment, dequeued, Abstract());
    }

    /** Makes sure that there is a parser: a complete message gives way to the next one. */
    method StartNext()
      modifies this
      ensures fresh(Repr() - old(Repr()))
      ensures Abstract() == Continue(old(Abstract()))
    {
      if parser.NoParser? {
        ClearMessage();
      }
    }

    /** Lets the active parser go over the unparsed bytes, which stay where they are. */
    method ParseUnparsed() returns (count: nat, fragment: Option<FragmentInfo>)
      requires Position().Some?
      modifies Repr() - {this}
      ensures Position().Some?
      ensures Abstract() == old(Abstract()).(parser := Position())
      ensures ParseNext(old(Position().value), unparsedBuffer, 0) == (count, Position().value, fragment)
    {
      match parser {
        case LineOf(line) => count, fragment := line.Parse(unparsedBuffer);
        case LiteralOf(literal) => count, fragment := literal.Parse(unparsedBuffer);
      }
    }

    /** Installs the parser for what follows a fragment, if there is one. */
    method ExpectAfter(fragment: Option<FragmentInfo>)
      modifies this
      ensures fresh(Repr() - old(Repr()))
      ensures Abstract() == old(Abstract()).(
        parser := if fragment.Some? then After(fragment.value) else old(Abstract()).parser)
    {
      match fragment {
        case None =>
        case Some(Line(_, _, None, _)) =>
          parser := NoParser;
        case Some(Line(_, end, Some(a), _)) =>
          var literal := new LiteralParser(end, a.length);
          parser := LiteralOf(literal);
        case Some(Literal(_, end)) =>
          var line := new LineParser(end);
          parser := LineOf(line);
      }
    }

    method EnqueueBytes(data: bytes)
      modifies this
      ensures parser == old(parser)
      ensures Abstract() == Enqueue(old(Abstract()), data)
    {
      unparsedBuffer := unparsedBuffer + data;
    }

    method SkipMessage()
      modifies this
      ensures fresh(Repr() - {this})
      ensures Abstract() == Skip(old(Abstract()))
    {
      ClearMessage();
    }

    method PoisonMessage()
      modifies this
      ensures parser == old(parser)
      ensures Abstract() == Poison(old(Abstract()))
    {
      messagePoisoned := true;
    }

    method IsMessageComplete() returns (complete: bool)
      ensures complete <==> Abstract().parser.None?
    {
      complete := parser.NoParser?;
    }

    /** The bytes of a fragment of the current message. Whatever calls led here, they are the
        bytes that were enqueued between its positions, as far as the limit kept them. */
    method FragmentBytes(fragment: FragmentInfo) returns (data: bytes)
      requires fragment.start <= fragment.end
      ensures data == StoredBytes(Abstract(), fragment)
      ensures forall calls: seq<Op> |
        && Abstract() == FragmentizerModel.Run(Initial(maxMessageSize), calls).0
        && fragment.end <= |MessageOf(maxMessageSize, calls)| ::
          CutFrom(data, fragment, Enqueued(calls), |DoneOf(maxMessageSize, calls)|, maxMessageSize)
    {
      forall calls: seq<Op> |
        && Abstract() == FragmentizerModel.Run(Initial(maxMessageSize), calls).0
        && fragment.end <= |MessageOf(maxMessageSize, calls)|
        ensures CutFrom(StoredBytes(Abstract(), fragment), fragment, Enqueued(calls),
                        |DoneOf(maxMessageSize, calls)|, maxMessageSize)
      {
        StoredIsStream(maxMessageSize, calls, fragment);
      }
      var start := if fragment.start < |messageBuffer| then fragment.start else |messageBuffer|;
      var end := if fragment.end < |messageBuffer| then fragment.end else |messageBuffer|;
      data := messageBuffer[start..end];
    }

    /** Makes progress while draining: `all` is what there was to report to begin with. */
    method ProgressTowards(ghost all: seq<FragmentInfo>, ghost reported: seq<FragmentInfo>)
      returns (fragment: Option<FragmentInfo>, ghost st: State)
      requires WithinLimit(Abstract())
      requires reported + Coming(Abstract()) == all
      modifies Repr()
      ensures fresh(Repr() - old(Repr()))
      ensures st == Abstract() && WithinLimit(st)
      ensures match fragment
              case None => reported == all && Coming(st) == [] && UsedUp(st.unparsed)
              case Some(f) =>
                && reported + [f] + Coming(st) == all
                && (|| |st.unparsed| < old(|unparsedBuffer|)
                    || (|st.unparsed| == old(|unparsedBuffer|) && Rank(st.parser) < old(Rank(Position()))))
    {
      DrainStep(Abstract(), reported);
      fragment := Progress();
      st := Abstract();
    }

    /** Reports fragments until more bytes are needed. */
    method ProgressAll() returns (fragments: seq<FragmentInfo>)
      requires WithinLimit(Abstract())
      modifies Repr()
      ensures fresh(Repr() - old(Repr()))
      ensures fragments == Coming(old(Abstract()))
      ensures Coming(Abstract()) == [] && UsedUp(unparsedBuffer) && WithinLimit(Abstract())
    {
      fragments := [];
      ghost var st := Abstract();
      ghost var all := Coming(st);
      while true
        invariant st == Abstract() && WithinLimit(st)
        invariant fresh(Repr() - old(Repr()))
        invariant fragments + Coming(st) == all
        decreases |st.unparsed|, Rank(st.parser)
      {
        var fragment;
        fragment, st := ProgressTowards(all, fragments);
        if fragment.None? {
          break;
        }
        fragments := fragments + [fragment.value];
      }
    }

    method ClearMessage()
      modifies this
      ensures fresh(Repr() - {this})
      ensures Abstract() == Skip(old(Abstract()))
    {
      maxMessageSizeExceeded, messagePoisoned := false, false;
      messageBuffer := [];
      var line := new LineParser(0);
      parser := LineOf(line);
    }

    method DequeueParsedBytes(count: nat)
      requires WithinLimit(Abstract())
      requires count <= |unparsedBuffer|
      modifies this
      ensures parser == old(parser)
      ensures Abstract() == Dequeue(old(Abstract()), count)
    {
      var parsed := unparsedBuffer[..count];
      unparsedBuffer := unparsedBuffer[count..];
      var remainingSize :=
        if maxMessageSize.Some? then Some(maxMessageSize.value - |messageBuffer|) else None;
      if remainingSize.Some? && remainingSize.value < count {
        messageBuffer := messageBuffer + parsed[..remainingSize.value];
        maxMessageSizeExceeded := true;
      } else {
        messageBuffer := messageBuffer + parsed;
      }
    }
  }

  /** The tag of a message, on best effort: what stands before the first space of the first
      line, if that is a tag. */
  method ParseTag(message: bytes) returns (tag: Option<bytes>)
    ensures tag == TagOf(message)
  {
    var i := 0;
    while true
      invariant i <= |message|
      invariant forall j | 0 <= j < i :: message[j] != SP && message[j] != LF
      decreases |message| - i
    {
      if i == |message| {
        NoTag(message, i);
        return None;
      }
      if message[i] == SP {
        break;
      }
      if message[i] == LF {
        NoTag(message, i);
        return None;
      }
      i := i + 1;
    }
    TagOfMeaning(message, i);
    tag := if i > 0 && ValidTag(message[..i]) then Some(message[..i]) else None;
  }
}
