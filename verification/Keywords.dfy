/** The keywords of search keys, and what follows each of them. */
module Keywords {
  import opened Octets
  import opened Nom

  datatype Keyword =
    | ALL | ANSWERED | BCC | BEFORE | BODY | CC | DELETED | FLAGGED | FROM | KEYWORD | NEW | OLD
    | ON | RECENT | SEEN | SINCE | SUBJECT | TEXT | TO | UNANSWERED | UNDELETED | UNFLAGGED
    | UNKEYWORD | UNSEEN | DRAFT | HEADER | LARGER | NOT | OR | SENTBEFORE | SENTON | SENTSINCE
    | SMALLER | UID | UNDRAFT

  ghost predicate UpperCase(text: string) {
    forall j | 0 <= j < |text| :: 'A' <= text[j] <= 'Z'
  }

  function Name(kw: Keyword): (name: string)
    ensures name != ""
  {
    match kw
    case ALL => "ALL"
    case ANSWERED => "ANSWERED"
    case BCC => "BCC"
    case BEFORE => "BEFORE"
    case BODY => "BODY"
    case CC => "CC"
    case DELETED => "DELETED"
    case FLAGGED => "FLAGGED"
    case FROM => "FROM"
    case KEYWORD => "KEYWORD"
    case NEW => "NEW"
    case OLD => "OLD"
    case ON => "ON"
    case RECENT => "RECENT"
    case SEEN => "SEEN"
    case SINCE => "SINCE"
    case SUBJECT => "SUBJECT"
    case TEXT => "TEXT"
    case TO => "TO"
    case UNANSWERED => "UNANSWERED"
    case UNDELETED => "UNDELETED"
    case UNFLAGGED => "UNFLAGGED"
    case UNKEYWORD => "UNKEYWORD"
    case UNSEEN => "UNSEEN"
    case DRAFT => "DRAFT"
    case HEADER => "HEADER"
    case LARGER => "LARGER"
    case NOT => "NOT"
    case OR => "OR"
    case SENTBEFORE => "SENTBEFORE"
    case SENTON => "SENTON"
    case SENTSINCE => "SENTSINCE"
    case SMALLER => "SMALLER"
    case UID => "UID"
    case UNDRAFT => "UNDRAFT"
  }

  const KEYWORDS: nat := 35

  /** The keywords in the order in which they are tried. */
  function KeywordAt(n: nat): Keyword
    requires n < KEYWORDS
  {
    match n
    case 0 => ALL
    case 1 => ANSWERED
    case 2 => BCC
    case 3 => BEFORE
    case 4 => BODY
    case 5 => CC
    case 6 => DELETED
    case 7 => FLAGGED
    case 8 => FROM
    case 9 => KEYWORD
    case 10 => NEW
    case 11 => OLD
    case 12 => ON
    case 13 => RECENT
    case 14 => SEEN
    case 15 => SINCE
    case 16 => SUBJECT
    case 17 => TEXT
    case 18 => TO
    case 19 => UNANSWERED
    case 20 => UNDELETED
    case 21 => UNFLAGGED
    case 22 => UNKEYWORD
    case 23 => UNSEEN
    case 24 => DRAFT
    case 25 => HEADER
    case 26 => LARGER
    case 27 => NOT
    case 28 => OR
    case 29 => SENTBEFORE
    case 30 => SENTON
    case 31 => SENTSINCE
    case 32 => SMALLER
    case 33 => UID
    case _ => UNDRAFT
  }

  function Position(kw: Keyword): (n: nat)
    ensures n < KEYWORDS
  {
    match kw
    case ALL => 0
    case ANSWERED => 1
    case BCC => 2
    case BEFORE => 3
    case BODY => 4
    case CC => 5
    case DELETED => 6
    case FLAGGED => 7
    case FROM => 8
    case KEYWORD => 9
    case NEW => 10
    case OLD => 11
    case ON => 12
    case RECENT => 13
    case SEEN => 14
    case SINCE => 15
    case SUBJECT => 16
    case TEXT => 17
    case TO => 18
    case UNANSWERED => 19
    case UNDELETED => 20
    case UNFLAGGED => 21
    case UNKEYWORD => 22
    case UNSEEN => 23
    case DRAFT => 24
    case HEADER => 25
    case LARGER => 26
    case NOT => 27
    case OR => 28
    case SENTBEFORE => 29
    case SENTON => 30
    case SENTSINCE => 31
    case SMALLER => 32
    case UID => 33
    case UNDRAFT => 34
  }

  lemma PositionOfKeyword(n: nat)
    requires n < KEYWORDS
    ensures Position(KeywordAt(n)) == n
  {
  }

  lemma {:induction false} KeywordAtPosition(kw: Keyword)
    ensures KeywordAt(Position(kw)) == kw
  {
  }

  /** Each keyword stands at one position. */
  ghost predicate StandsAt(kw: Keyword, at: nat) {
    at < KEYWORDS && forall n: nat | n < KEYWORDS :: KeywordAt(n) == kw <==> n == at
  }

  lemma Positions(kw: Keyword)
    ensures StandsAt(kw, Position(kw))
  {
    KeywordAtPosition(kw);
    forall n: nat | n < KEYWORDS && KeywordAt(n) == kw ensures n == Position(kw) {
      PositionOfKeyword(n);
    }
  }

  /** What follows a keyword. */
  datatype Shape =
    | NoArgument | AStringArgument | DateArgument | AtomArgument | NumberArgument
    | HeaderArguments | KeyArgument | TwoKeys | SetArgument

  function ShapeOf(kw: Keyword): Shape {
    match kw
    case BCC | BODY | CC | FROM | SUBJECT | TEXT | TO => AStringArgument
    case BEFORE | ON | SINCE | SENTBEFORE | SENTON | SENTSINCE => DateArgument
    case KEYWORD | UNKEYWORD => AtomArgument
    case LARGER | SMALLER => NumberArgument
    case HEADER => HeaderArguments
    case NOT => KeyArgument
    case OR => TwoKeys
    case UID => SetArgument
    case _ => NoArgument
  }

  /** The keyword that a text beginning with a keyword begins with. */
  function Spelled(text: string): Keyword
    requires |text| >= 2
  {
    match text[0]
    case 'A' => if text[1] == 'L' then ALL else ANSWERED
    case 'B' => if text[1] == 'C' then BCC else if text[1] == 'E' then BEFORE else BODY
    case 'C' => CC
    case 'D' => if text[1] == 'E' then DELETED else DRAFT
    case 'F' => if text[1] == 'L' then FLAGGED else FROM
    case 'H' => HEADER
    case 'K' => KEYWORD
    case 'L' => LARGER
    case 'N' => if text[1] == 'E' then NEW else NOT
    case 'O' => if text[1] == 'L' then OLD else if text[1] == 'N' then ON else OR
    case 'R' => RECENT
    case 'T' => if text[1] == 'E' then TEXT else TO
    case 'S' =>
      if text[1] == 'U' then SUBJECT
      else if text[1] == 'M' then SMALLER
      else if text[1] == 'I' then SINCE
      else if |text| == 2 || text[2] == 'E' then SEEN
      else if |text| <= 4 then SENTON
      else if text[4] == 'B' then SENTBEFORE
      else if text[4] == 'O' then SENTON
      else SENTSINCE
    case _ =>
      if text[1] == 'I' || |text| <= 3 then UID
      else if text[2] == 'A' then UNANSWERED
      else if text[2] == 'F' then UNFLAGGED
      else if text[2] == 'K' then UNKEYWORD
      else if text[2] == 'S' then UNSEEN
      else if text[3] == 'E' then UNDELETED
      else UNDRAFT
  }

  /** A text begins with a name, as far as it takes to tell the keywords apart. */
  predicate Begins(text: string, name: string) {
    && 2 <= |name| <= |text|
    && text[0] == name[0] && text[1] == name[1]
    && (|name| > 2 ==> text[2] == name[2])
    && (|name| > 3 ==> text[3] == name[3])
    && (|name| > 4 ==> text[4] == name[4])
  }

  lemma FlagIsSpelled(kw: Keyword, text: string)
    requires ShapeOf(kw) == NoArgument && Begins(text, Name(kw))
    ensures Spelled(text) == kw
  {
  }

  lemma TextWordIsSpelled(kw: Keyword, text: string)
    requires ShapeOf(kw) in {AStringArgument, DateArgument} && Begins(text, Name(kw))
    ensures Spelled(text) == kw
  {
  }

  lemma WordIsSpelled(kw: Keyword, text: string)
    requires ShapeOf(kw) !in {NoArgument, AStringArgument, DateArgument} && Begins(text, Name(kw))
    ensures Spelled(text) == kw
  {
  }

  lemma NameIsSpelled(kw: Keyword, text: string)
    requires |Name(kw)| <= |text|
    requires forall j | 0 <= j < |Name(kw)| :: text[j] == Name(kw)[j]
    ensures |text| >= 2 && Spelled(text) == kw
  {
    NameIsLong(kw);
    if ShapeOf(kw) == NoArgument {
      FlagIsSpelled(kw, text);
    } else if ShapeOf(kw) in {AStringArgument, DateArgument} {
      TextWordIsSpelled(kw, text);
    } else {
      WordIsSpelled(kw, text);
    }
  }

  lemma NameIsLong(kw: Keyword)
    ensures |Name(kw)| >= 2
  {
  }

  lemma FlagIsUpperCase(kw: Keyword)
    requires ShapeOf(kw) == NoArgument
    ensures UpperCase(Name(kw))
  {
  }

  lemma WordIsUpperCase(kw: Keyword)
    requires ShapeOf(kw) != NoArgument
    ensures UpperCase(Name(kw))
  {
  }

  lemma NameIsUpperCase(kw: Keyword)
    ensures UpperCase(Name(kw))
  {
    if ShapeOf(kw) == NoArgument {
      FlagIsUpperCase(kw);
    } else {
      WordIsUpperCase(kw);
    }
  }

  lemma UpperCaseHead(t: string, i: Wire, w: Wire)
    requires t != "" && UpperCase(t)
    requires WordText(t, i, w)
    ensures i.Byte? && (0x41 <= i.head <= 0x5A || 0x61 <= i.head <= 0x7A)
  {
    var s :| Spells(s, t) && i == Feed(s, w);
    assert 'A' <= t[0] <= 'Z' && SameLetter(s[0], Octet(t[0]));
  }

  lemma UpperCaseRejects(t: string, i: Wire)
    requires t != "" && UpperCase(t)
    requires i.Byte? && i.head < 0x41
    ensures TagNoCase(t, i) == Error
  {
    assert 'A' <= t[0] <= 'Z';
  }

  lemma NoClash(x: string, y: string)
    requires UpperCase(x) && UpperCase(y)
    requires !Clash(x, y)
    ensures forall j | 0 <= j < |x| && j < |y| :: x[j] == y[j]
  {
    forall j | 0 <= j < |x| && j < |y| ensures x[j] == y[j] {
      assert LowerCase(Octet(x[j])) == LowerCase(Octet(y[j]));
    }
  }

  lemma Spelling(a: Keyword, b: Keyword, x: string, y: string)
    requires x == Name(a) && y == Name(b)
    requires |x| <= |y| && forall j | 0 <= j < |x| :: x[j] == y[j]
    ensures a == b
  {
    NameIsSpelled(a, y);
    NameIsSpelled(b, y);
  }

  /** No keyword is a prefix of another. */
  lemma KeywordsClash(a: Keyword, b: Keyword)
    requires a != b
    ensures Clash(Name(a), Name(b))
  {
    var x, y := Name(a), Name(b);
    NameIsUpperCase(a);
    NameIsUpperCase(b);
    if !Clash(x, y) {
      NoClash(x, y);
      if |x| <= |y| {
        Spelling(a, b, x, y);
      } else {
        Spelling(b, a, y, x);
      }
    }
  }
}
