/** HTML escaping as five replacements, one after the other. */
module EscapeHtml {

  function ReplaceAll(s: string, c: char, repl: string): string {
    if s == "" then "" else (if s[0] == c then repl else [s[0]]) + ReplaceAll(s[1..], c, repl)
  }

  function Escape(s: string): string {
    var s1 := ReplaceAll(s, '&', "&amp;");
    var s2 := ReplaceAll(s1, '<', "&lt;");
    var s3 := ReplaceAll(s2, '>', "&gt;");
    var s4 := ReplaceAll(s3, '"', "&quot;");
    ReplaceAll(s4, '\'', "&#39;")
  }

  /** The replacement of one character. */
  function Entity(c: char): string {
    match c
    case '&' => "&amp;"
    case '<' => "&lt;"
    case '>' => "&gt;"
    case '"' => "&quot;"
    case '\'' => "&#39;"
    case _ => [c]
  }

  function EscapeEach(s: string): string {
    if s == "" then "" else Entity(s[0]) + EscapeEach(s[1..])
  }

  lemma {:induction false} ReplaceConcat(a: string, b: string, c: char, repl: string)
    ensures ReplaceAll(a + b, c, repl) == ReplaceAll(a, c, repl) + ReplaceAll(b, c, repl)
  {
    if a == "" {
      assert a + b == b;
    } else {
      assert (a + b)[0] == a[0] && (a + b)[1..] == a[1..] + b;
      ReplaceConcat(a[1..], b, c, repl);
    }
  }

  lemma {:induction false} ReplaceNothing(s: string, c: char, repl: string)
    requires c !in s
    ensures ReplaceAll(s, c, repl) == s
  {
    if s != "" {
      assert s[0] in s && forall x :: x in s[1..] ==> x in s;
      ReplaceNothing(s[1..], c, repl);
    }
  }

  lemma ReplaceChar(x: char, c: char, repl: string)
    ensures ReplaceAll([x], c, repl) == if x == c then repl else [x]
  {
  }

  lemma EscapeConcat(a: string, b: string)
    ensures Escape(a + b) == Escape(a) + Escape(b)
  {
    var a1, b1 := ReplaceAll(a, '&', "&amp;"), ReplaceAll(b, '&', "&amp;");
    var a2, b2 := ReplaceAll(a1, '<', "&lt;"), ReplaceAll(b1, '<', "&lt;");
    var a3, b3 := ReplaceAll(a2, '>', "&gt;"), ReplaceAll(b2, '>', "&gt;");
    var a4, b4 := ReplaceAll(a3, '"', "&quot;"), ReplaceAll(b3, '"', "&quot;");
    ReplaceConcat(a, b, '&', "&amp;");
    ReplaceConcat(a1, b1, '<', "&lt;");
    ReplaceConcat(a2, b2, '>', "&gt;");
    ReplaceConcat(a3, b3, '"', "&quot;");
    ReplaceConcat(a4, b4, '\'', "&#39;");
  }

  lemma EntityHoldsNoOther(c: char, x: char)
    requires x in {'<', '>', '"', '\''} && c != x
    ensures x !in Entity(c)
  {
  }

  /** One step of the chain after the first: a character already replaced stays, its own replacement applies. */
  lemma ReplaceStep(c: char, s: string, x: char, done: bool)
    requires x in {'<', '>', '"', '\''} && s == (if done then Entity(c) else [c]) && (done ==> c != x)
    ensures ReplaceAll(s, x, Entity(x)) == if done || c == x then Entity(c) else [c]
  {
    if done {
      EntityHoldsNoOther(c, x);
      ReplaceNothing(s, x, Entity(x));
    } else {
      ReplaceChar(c, x, Entity(x));
    }
  }

  lemma EscapeChar(c: char)
    ensures Escape([c]) == Entity(c)
  {
    var s1 := ReplaceAll([c], '&', "&amp;");
    ReplaceChar(c, '&', "&amp;");
    var s2 := ReplaceAll(s1, '<', "&lt;");
    ReplaceStep(c, s1, '<', c == '&');
    var s3 := ReplaceAll(s2, '>', "&gt;");
    ReplaceStep(c, s2, '>', c in {'&', '<'});
    var s4 := ReplaceAll(s3, '"', "&quot;");
    ReplaceStep(c, s3, '"', c in {'&', '<', '>'});
    ReplaceStep(c, s4, '\'', c in {'&', '<', '>', '"'});
  }

  /** The five replacements in this order do what replacing every character at once does. */
  lemma {:induction false} EscapeIsSimultaneous(s: string)
    ensures Escape(s) == EscapeEach(s)
  {
    if s != "" {
      assert s == [s[0]] + s[1..];
      EscapeConcat([s[0]], s[1..]);
      EscapeChar(s[0]);
      EscapeIsSimultaneous(s[1..]);
    }
  }

  const ENTITIES: set<string> := {"&amp;", "&lt;", "&gt;", "&quot;", "&#39;"}

  /** Every ampersand of `s` is the start of one of the five entities. */
  ghost predicate OnlyEntities(s: string) {
    forall i :: 0 <= i < |s| && s[i] == '&' ==> exists e :: e in ENTITIES && e <= s[i..]
  }

  lemma {:induction false} EntityIsSafe(c: char, rest: string)
    requires OnlyEntities(rest)
    ensures OnlyEntities(Entity(c) + rest)
    ensures forall x :: x in Entity(c) ==> x != '<' && x != '>' && x != '"' && x != '\''
  {
    var e := Entity(c);
    var s := e + rest;
    forall i | 0 <= i < |s| && s[i] == '&'
      ensures exists x :: x in ENTITIES && x <= s[i..]
    {
      if i < |e| {
        assert i == 0 && e in ENTITIES && s[0..] == s;
      } else {
        assert s[i..] == rest[i - |e|..];
        var x :| x in ENTITIES && x <= rest[i - |e|..];
      }
    }
  }

  /** The output holds no angle bracket and no quote, and no ampersand outside an entity. */
  lemma {:induction false} OutputIsInert(s: string)
    ensures forall x :: x in Escape(s) ==> x != '<' && x != '>' && x != '"' && x != '\''
    ensures OnlyEntities(Escape(s))
  {
    EscapeIsSimultaneous(s);
    if s != "" {
      EscapeIsSimultaneous(s[1..]);
      OutputIsInert(s[1..]);
      EntityIsSafe(s[0], EscapeEach(s[1..]));
    }
  }

  function Unescape(s: string): string
    decreases |s|
  {
    if s == "" then ""
    else if "&amp;" <= s then "&" + Unescape(s[5..])
    else if "&lt;" <= s then "<" + Unescape(s[4..])
    else if "&gt;" <= s then ">" + Unescape(s[4..])
    else if "&quot;" <= s then "\"" + Unescape(s[6..])
    else if "&#39;" <= s then "'" + Unescape(s[5..])
    else [s[0]] + Unescape(s[1..])
  }

  lemma UnescapeEntity(c: char, rest: string)
    ensures Unescape(Entity(c) + rest) == [c] + Unescape(rest)
  {
    var e := Entity(c);
    var s := e + rest;
    assert s[|e|..] == rest && s[..|e|] == e;
    assert c != '&' && |e| == 1 ==> s[0] != '&';
    if |e| > 1 {
      assert s[1] == e[1] && s[2] == e[2];
    }
  }

  /** Unescaping gives back every string. */
  lemma {:induction false} RoundTrip(s: string)
    ensures Unescape(Escape(s)) == s
  {
    EscapeIsSimultaneous(s);
    if s != "" {
      EscapeIsSimultaneous(s[1..]);
      RoundTrip(s[1..]);
      UnescapeEntity(s[0], EscapeEach(s[1..]));
    }
  }

  /** So no two strings share an escaped form. */
  lemma EscapeIsInjective(a: string, b: string)
    requires Escape(a) == Escape(b)
    ensures a == b
  {
    RoundTrip(a);
    RoundTrip(b);
  }
}
