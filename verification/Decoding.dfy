/** Single steps of the decoder. */
module Decoding {
  import opened Text
  import opened Json

  lemma NoSkip(s: string)
    requires s != [] ==> !IsSpace(s[0])
    ensures SkipSpace(s) == s
  {
  }

  lemma Uncons(c: char, s: string)
    ensures ([c] + s)[0] == c && ([c] + s)[1..] == s
    ensures !IsSpace(c) ==> SkipSpace([c] + s) == [c] + s
    ensures At([c] + s, c)
  {
  }

  lemma StringStep(body: string, t: string, rest: string)
    requires ParseString(body) == Some((t, rest))
    ensures ParseValue(['\"'] + body) == Some((RStr(t), rest))
  {
    hide ParseString;
    Uncons('\"', body);
  }

  lemma NumberHead(t: string)
    requires ValidNumber(t)
    ensures t != "" && (t[0] == '-' || IsDigit(t[0]))
  {
    assert !ValidNumber([]);
    if t != "" {
      BadStaysBad(t[1..]);
    }
  }

  lemma LiteralRoundTrip(r: Raw, rest: string)
    requires r.RNull? || r.RBool?
    ensures ParseValue(Print(r) + rest) == Some((r, rest))
  {
    var s := Print(r) + rest;
    NoSkip(s);
    if r == RBool(false) {
      assert s[0] == 'f' && s[..5] == "false" && s[5..] == rest;
    } else if r == RBool(true) {
      assert s[0] == 't' && s[..4] == "true" && s[4..] == rest;
    } else {
      assert s[..4] == "null" && s[4..] == rest;
    }
  }

  lemma NumberRoundTrip(t: string, rest: string)
    requires ValidNumber(t) && Ends(NumberAfter(NStart, t), rest)
    ensures ParseValue(t + rest) == Some((RNum(t), rest))
  {
    NumberHead(t);
    var s := t + rest;
    NoSkip(s);
    assert s[0] == t[0];
    MunchStops(NStart, t, rest);
    assert s[..|t|] == t && s[|t|..] == rest;
  }

  lemma RegroupList(head: string, more: string, rest: string)
    ensures head + "," + more + rest == head + ([','] + (more + rest))
  {
  }
}
