/** Quoting and unquoting by successive global replace passes. */
module Quoting {
  import opened Octets

  const ESCAPED_BACKSLASH: bytes := [BACKSLASH, BACKSLASH]
  const ESCAPED_DQUOTE: bytes := [BACKSLASH, DQUOTE]

  /** Replaces the non-overlapping occurrences of `pat`, found left to right. */
  function Replace(s: bytes, pat: bytes, sub: bytes): bytes
    requires pat != []
  {
    if |s| < |pat| then s
    else if s[..|pat|] == pat then sub + Replace(s[|pat|..], pat, sub)
    else [s[0]] + Replace(s[1..], pat, sub)
  }

  function Contains(s: bytes, pat: bytes): bool
    requires pat != []
  {
    |pat| <= |s| && (s[..|pat|] == pat || Contains(s[1..], pat))
  }

  function EscapeQuoted(s: bytes): bytes {
    Replace(Replace(s, [BACKSLASH], ESCAPED_BACKSLASH), [DQUOTE], ESCAPED_DQUOTE)
  }

  function UnescapeQuoted(e: bytes): bytes {
    Replace(Replace(e, ESCAPED_BACKSLASH, [BACKSLASH]), ESCAPED_DQUOTE, [DQUOTE])
  }

  /** Reference definition: one pass, one byte at a time. */
  function Escape(s: bytes): bytes {
    if s == [] then []
    else (if IsQuotedSpecials(s[0]) then [BACKSLASH, s[0]] else [s[0]]) + Escape(s[1..])
  }

  /** The body of a quoted string: plain bytes, and specials behind a backslash. */
  predicate WellFormed(e: bytes) {
    e == []
    || (!IsQuotedSpecials(e[0]) && WellFormed(e[1..]))
    || (e[0] == BACKSLASH && |e| >= 2 && IsQuotedSpecials(e[1]) && WellFormed(e[2..]))
  }

  /** Reference definition: a single left-to-right pass over a well-formed body. */
  function Unescape(e: bytes): bytes
    requires WellFormed(e)
  {
    if e == [] then []
    else if e[0] == BACKSLASH then [e[1]] + Unescape(e[2..])
    else [e[0]] + Unescape(e[1..])
  }

  // ----- One replace pass, one token at a time -----

  lemma ReplaceStep(s: bytes, pat: bytes, sub: bytes, b: byte)
    requires pat != []
    requires !(pat[0] == b && |pat| <= |s| + 1 && pat[1..] == s[..|pat| - 1])
    ensures Replace([b] + s, pat, sub) == [b] + Replace(s, pat, sub)
  {
    if |pat| <= |s| + 1 {
      assert ([b] + s)[..|pat|] == [b] + s[..|pat| - 1];
      assert pat == [pat[0]] + pat[1..];
    }
    assert ([b] + s)[1..] == s;
    if |s| + 1 < |pat| {
      assert Replace(s, pat, sub) == s;
    }
  }

  lemma ReplaceHit(s: bytes, pat: bytes, sub: bytes)
    requires pat != []
    ensures Replace(pat + s, pat, sub) == sub + Replace(s, pat, sub)
  {
    assert (pat + s)[..|pat|] == pat && (pat + s)[|pat|..] == s;
  }

  lemma {:induction false} ReplaceAbsent(s: bytes, pat: bytes, sub: bytes)
    requires pat != []
    requires !Contains(s, pat)
    ensures Replace(s, pat, sub) == s
  {
    if |pat| <= |s| {
      ReplaceAbsent(s[1..], pat, sub);
    }
  }

  /** The two global passes escape each byte on its own. */
  lemma {:induction false} EscapeIsBytewise(s: bytes)
    ensures EscapeQuoted(s) == Escape(s)
  {
    if s != [] {
      var b, t := s[0], s[1..];
      assert s == [b] + t;
      EscapeIsBytewise(t);
      var once := Replace(t, [BACKSLASH], ESCAPED_BACKSLASH);
      if b == BACKSLASH {
        ReplaceHit(t, [BACKSLASH], ESCAPED_BACKSLASH);
        assert ESCAPED_BACKSLASH + once == [BACKSLASH] + ([BACKSLASH] + once);
        ReplaceStep([BACKSLASH] + once, [DQUOTE], ESCAPED_DQUOTE, BACKSLASH);
        ReplaceStep(once, [DQUOTE], ESCAPED_DQUOTE, BACKSLASH);
      } else {
        ReplaceStep(t, [BACKSLASH], ESCAPED_BACKSLASH, b);
        if b == DQUOTE {
          ReplaceHit(once, [DQUOTE], ESCAPED_DQUOTE);
        } else {
          ReplaceStep(once, [DQUOTE], ESCAPED_DQUOTE, b);
        }
      }
    }
  }

  lemma {:induction false} EscapeIsWellFormed(s: bytes)
    ensures WellFormed(Escape(s))
    ensures Unescape(Escape(s)) == s
  {
    if s != [] {
      EscapeIsWellFormed(s[1..]);
      var k := if IsQuotedSpecials(s[0]) then 2 else 1;
      assert Escape(s)[k..] == Escape(s[1..]);
    }
  }

  /** After the first unescape pass a backslash stands before a double quote only
      where the body had that pair, so the second pass cannot misread it. */
  lemma {:induction false} FirstPassHead(e: bytes)
    requires WellFormed(e)
    ensures var once := Replace(e, ESCAPED_BACKSLASH, [BACKSLASH]);
            once != [] ==> once[0] != DQUOTE
  {
    if e != [] && |e| >= 2 && e[..2] != ESCAPED_BACKSLASH {
      assert e == [e[0]] + e[1..];
    }
  }

  /** On a well-formed body the two global passes equal the left-to-right pass. */
  lemma {:induction false} UnescapeIsSinglePass(e: bytes)
    requires WellFormed(e)
    ensures UnescapeQuoted(e) == Unescape(e)
  {
    if e == [] {
    } else if e[0] == BACKSLASH {
      var t := e[2..];
      UnescapeIsSinglePass(t);
      FirstPassHead(t);
      var once := Replace(t, ESCAPED_BACKSLASH, [BACKSLASH]);
      if e[1] == BACKSLASH {
        assert e == ESCAPED_BACKSLASH + t;
        ReplaceHit(t, ESCAPED_BACKSLASH, [BACKSLASH]);
        ReplaceStep(once, ESCAPED_DQUOTE, [DQUOTE], BACKSLASH);
      } else {
        assert e == [BACKSLASH] + ([DQUOTE] + t);
        ReplaceStep([DQUOTE] + t, ESCAPED_BACKSLASH, [BACKSLASH], BACKSLASH);
        ReplaceStep(t, ESCAPED_BACKSLASH, [BACKSLASH], DQUOTE);
        assert [BACKSLASH] + ([DQUOTE] + once) == ESCAPED_DQUOTE + once;
        ReplaceHit(once, ESCAPED_DQUOTE, [DQUOTE]);
      }
    } else {
      var t := e[1..];
      assert e == [e[0]] + t;
      UnescapeIsSinglePass(t);
      ReplaceStep(t, ESCAPED_BACKSLASH, [BACKSLASH], e[0]);
      ReplaceStep(Replace(t, ESCAPED_BACKSLASH, [BACKSLASH]), ESCAPED_DQUOTE, [DQUOTE], e[0]);
    }
  }

  lemma {:induction false} EscapeOfUnescape(e: bytes)
    requires WellFormed(e)
    ensures Escape(Unescape(e)) == e
  {
    if e != [] {
      var k := if e[0] == BACKSLASH then 2 else 1;
      EscapeOfUnescape(e[k..]);
      assert Unescape(e)[1..] == Unescape(e[k..]);
      assert e == e[..k] + e[k..];
    }
  }

  /** Every string survives quoting and unquoting. */
  lemma UnescapeOfEscape(s: bytes)
    ensures WellFormed(EscapeQuoted(s))
    ensures UnescapeQuoted(EscapeQuoted(s)) == s
  {
    EscapeIsBytewise(s);
    EscapeIsWellFormed(s);
    UnescapeIsSinglePass(Escape(s));
  }

  /** Exactly the well-formed bodies survive unquoting and quoting. */
  lemma EscapeInvertsUnescape(e: bytes)
    ensures WellFormed(e) <==> EscapeQuoted(UnescapeQuoted(e)) == e
  {
    if WellFormed(e) {
      UnescapeIsSinglePass(e);
      EscapeIsBytewise(Unescape(e));
      EscapeOfUnescape(e);
    }
    UnescapeOfEscape(UnescapeQuoted(e));
  }

  // ----- The functions as written, with their early-outs -----

  method EscapeQuotedInPasses(unescaped: bytes) returns (escaped: bytes)
    ensures escaped == Escape(unescaped)
  {
    escaped := unescaped;
    if Contains(escaped, [BACKSLASH]) {
      escaped := Replace(escaped, [BACKSLASH], ESCAPED_BACKSLASH);
    } else {
      ReplaceAbsent(escaped, [BACKSLASH], ESCAPED_BACKSLASH);
    }
    if Contains(escaped, [DQUOTE]) {
      escaped := Replace(escaped, [DQUOTE], ESCAPED_DQUOTE);
    } else {
      ReplaceAbsent(escaped, [DQUOTE], ESCAPED_DQUOTE);
    }
    EscapeIsBytewise(unescaped);
  }

  method UnescapeQuotedInPasses(escaped: bytes) returns (unescaped: bytes)
    ensures unescaped == UnescapeQuoted(escaped)
    ensures WellFormed(escaped) ==> unescaped == Unescape(escaped)
  {
    unescaped := escaped;
    if Contains(unescaped, ESCAPED_BACKSLASH) {
      unescaped := Replace(unescaped, ESCAPED_BACKSLASH, [BACKSLASH]);
    } else {
      ReplaceAbsent(unescaped, ESCAPED_BACKSLASH, [BACKSLASH]);
    }
    if Contains(unescaped, ESCAPED_DQUOTE) {
      unescaped := Replace(unescaped, ESCAPED_DQUOTE, [DQUOTE]);
    } else {
      ReplaceAbsent(unescaped, ESCAPED_DQUOTE, [DQUOTE]);
    }
    if WellFormed(escaped) {
      UnescapeIsSinglePass(escaped);
    }
  }
}
