/** gcode_parser.py: one line of G-code becomes a map from command letter to number.
    The three string services the parser takes from its host (`str.find`, `str.split`
    with a separator, `str.strip` without one) are defined here with the contracts that
    pin them down; `float(...)` stays a parameter, a partial parse that either yields a
    number or fails. */
module GcodeParser {
  import opened Base

  type Text = seq<char>

  // ---------------------------------------------------------------------------
  // String services

  /** `s.find(c)`: the index of the first c in s, or -1. */
  function Find(s: Text, c: char): (r: int)
    ensures -1 <= r < |s|
    ensures r == -1 <==> c !in s
    ensures r >= 0 ==> s[r] == c && c !in s[..r]
  {
    if |s| == 0 then -1
    else if s[0] == c then 0
    else
      var k := Find(s[1..], c);
      assert s[1..] == s[..][1..];
      if k == -1 then -1
      else
        assert s[..k + 1] == [s[0]] + s[1..][..k];
        k + 1
  }

  /** An index holding the first c is what Find returns. */
  lemma {:induction false} FindIs(s: Text, c: char, i: nat)
    requires i < |s| && s[i] == c && c !in s[..i]
    ensures Find(s, c) == i
  {
    if i > 0 {
      assert s[0] in s[..i];
      assert s[1..][..i - 1] == s[..i][1..];
      FindIs(s[1..], c, i - 1);
    }
  }

  /** The pieces joined back together with the separator between neighbours. */
  function Join(pieces: seq<Text>, sep: char): (r: Text)
    requires |pieces| > 0
  {
    if |pieces| == 1 then pieces[0] else pieces[0] + [sep] + Join(pieces[1..], sep)
  }

  /** `s.split(sep)` for a single-character separator: the maximal runs between
      separators, empty ones included, so there is always at least one piece. */
  function Split(s: Text, sep: char): (r: seq<Text>)
    ensures |r| > 0 && Join(r, sep) == s
    ensures forall k :: 0 <= k < |r| ==> sep !in r[k]
    decreases |s|
  {
    var i := Find(s, sep);
    if i == -1 then [s]
    else
      var rest := Split(s[i + 1..], sep);
      assert s == s[..i] + [sep] + s[i + 1..];
      [s[..i]] + rest
  }

  /** Every character of a piece is a character of s. */
  lemma {:induction false} SplitChars(s: Text, sep: char)
    ensures forall k, m :: 0 <= k < |Split(s, sep)| && 0 <= m < |Split(s, sep)[k]| ==> Split(s, sep)[k][m] in s
    decreases |s|
  {
    var i := Find(s, sep);
    if i != -1 {
      var rest := Split(s[i + 1..], sep);
      SplitChars(s[i + 1..], sep);
      assert Split(s, sep) == [s[..i]] + rest;
      forall k, m | 0 <= k < |Split(s, sep)| && 0 <= m < |Split(s, sep)[k]| ensures Split(s, sep)[k][m] in s {
        if k == 0 {
          assert s[..i][m] == s[m];
        } else {
          assert Split(s, sep)[k] == rest[k - 1];
          assert rest[k - 1][m] in s[i + 1..];
        }
      }
    }
  }

  /** The splitting is the only one: any separator-free pieces that join to s are
      Split(s). */
  lemma {:induction false} SplitUnique(s: Text, sep: char, pieces: seq<Text>)
    requires |pieces| > 0 && Join(pieces, sep) == s
    requires forall k :: 0 <= k < |pieces| ==> sep !in pieces[k]
    ensures pieces == Split(s, sep)
    decreases |s|
  {
    if |pieces| == 1 {
      assert sep !in s;
    } else {
      var p := pieces[0];
      var tail := Join(pieces[1..], sep);
      assert s == p + [sep] + tail;
      assert s[..|p|] == p && s[|p|] == sep;
      FindIs(s, sep, |p|);
      assert s[|p| + 1..] == tail;
      SplitUnique(tail, sep, pieces[1..]);
      assert pieces == [p] + pieces[1..];
    }
  }

  /** The characters `str.strip()` removes: those Python classes as white space. */
  predicate Whitespace(c: char) {
    c == ' ' || c == '\t' || c == '\n' || c == '\r' || c == '\U{0B}' || c == '\U{0C}'
    || ('\U{1C}' <= c <= '\U{1F}') || c == '\U{85}' || c == '\U{A0}' || c == '\U{1680}'
    || ('\U{2000}' <= c <= '\U{200A}') || c == '\U{2028}' || c == '\U{2029}'
    || c == '\U{202F}' || c == '\U{205F}' || c == '\U{3000}'
  }

  /** `s.lstrip()`: s without its leading white space. */
  function StripLeft(s: Text): Text
  {
    if |s| > 0 && Whitespace(s[0]) then StripLeft(s[1..]) else s
  }

  /** `s.rstrip()`: s without its trailing white space. */
  function StripRight(s: Text): Text
  {
    if |s| > 0 && Whitespace(s[|s| - 1]) then StripRight(s[..|s| - 1]) else s
  }

  /** `s.strip()`: s without its leading and trailing white space. */
  function Strip(s: Text): Text
  {
    StripRight(StripLeft(s))
  }

  /** StripLeft drops a white-space prefix and stops at the first other character. */
  lemma {:induction false} StripLeftSpec(s: Text)
    ensures var r := StripLeft(s);
      && |r| <= |s| && r == s[|s| - |r|..]
      && (forall k :: 0 <= k < |s| - |r| ==> Whitespace(s[k]))
      && (|r| > 0 ==> !Whitespace(r[0]))
  {
    if |s| > 0 && Whitespace(s[0]) {
      StripLeftSpec(s[1..]);
    }
  }

  /** StripRight drops a white-space suffix and stops at the last other character. */
  lemma {:induction false} StripRightSpec(s: Text)
    ensures var r := StripRight(s);
      && |r| <= |s| && r == s[..|r|]
      && (forall k :: |r| <= k < |s| ==> Whitespace(s[k]))
      && (|r| > 0 ==> !Whitespace(r[|r| - 1]))
  {
    if |s| > 0 && Whitespace(s[|s| - 1]) {
      StripRightSpec(s[..|s| - 1]);
    }
  }

  /** Strip(s) is the stretch of s between a white-space prefix and a white-space
      suffix that starts and ends with other characters; it is empty exactly when s is
      all white space. */
  lemma StripSpec(s: Text)
    ensures var r := Strip(s); var i := |s| - |StripLeft(s)|;
      && 0 <= i && i + |r| <= |s| && r == s[i..i + |r|]
      && (forall k :: 0 <= k < i ==> Whitespace(s[k]))
      && (forall k :: i + |r| <= k < |s| ==> Whitespace(s[k]))
      && (|r| > 0 ==> !Whitespace(r[0]) && !Whitespace(r[|r| - 1]))
      && (|r| == 0 <==> forall k :: 0 <= k < |s| ==> Whitespace(s[k]))
  {
    var l := StripLeft(s);
    StripLeftSpec(s);
    StripRightSpec(l);
    var r := Strip(s);
    var i := |s| - |l|;
    assert r == l[..|r|];
    forall k | i + |r| <= k < |s| ensures Whitespace(s[k]) {
      assert s[k] == l[k - i];
    }
    if |r| > 0 {
      assert r[0] == l[0];
    }
  }

  /** Stripping twice changes nothing more. */
  lemma StripIdempotent(s: Text)
    ensures Strip(Strip(s)) == Strip(s)
  {
    var r := Strip(s);
    StripSpec(s);
    if |r| > 0 {
      assert StripLeft(r) == r;
      assert StripRight(r) == r;
    }
  }

  // ---------------------------------------------------------------------------
  // The parser

  /** `float(...)`: a partial parse of a number. */
  type NumberParser = Text -> Option<real>

  /** A command letter: 'A' through 'Z'. */
  predicate Letter(c: char) {
    'A' <= c <= 'Z'
  }

  /** One space-separated token: nothing if it strips to empty, a ParseError if it
      does not start with a capital letter, a ValueError if its rest is not a number,
      else the letter and the number. */
  function ParseWord(token: Text, parse: NumberParser): Result<Option<(char, real)>>
  {
    var l := Strip(token);
    if |l| == 0 then Success(None)
    else if l[0] < 'A' || l[0] > 'Z' then Failure(ParseError)
    else match parse(l[1..])
      case None => Failure(ValueError)
      case Some(v) => Success(Some((l[0], v)))
  }

  /** The four outcomes of a token. */
  lemma WordCases(token: Text, parse: NumberParser)
    ensures var r := ParseWord(token, parse);
      && (r == Success(None) <==> |Strip(token)| == 0)
      && (r == Failure(ParseError) <==> |Strip(token)| > 0 && !Letter(Strip(token)[0]))
      && (r == Failure(ValueError) <==> |Strip(token)| > 0 && Letter(Strip(token)[0]) && parse(Strip(token)[1..]).None?)
      && (r.Success? && r.value.Some? <==> |Strip(token)| > 0 && Letter(Strip(token)[0]) && parse(Strip(token)[1..]).Some?)
      && (r.Success? && r.value.Some? ==>
            r.value.value == (Strip(token)[0], parse(Strip(token)[1..]).value))
  {
  }

  /** The tokens read left to right into `out`, stopping at the first bad one. */
  function Collect(tokens: seq<Text>, parse: NumberParser, out: map<char, real>): Result<map<char, real>>
  {
    if |tokens| == 0 then Success(out)
    else
      var w := ParseWord(tokens[0], parse);
      if w.Failure? then Failure(w.error) else Collect(tokens[1..], parse, Record(out, w.value))
  }

  /** `out[cmd] = val` for a word, nothing for a blank token. */
  function Record(out: map<char, real>, w: Option<(char, real)>): map<char, real>
  {
    if w.Some? then out[w.value.0 := w.value.1] else out
  }

  /** The line up to its first ';'. */
  function Uncommented(line: Text): (r: Text)
    ensures ';' !in r
    ensures r <= line
    ensures ';' in line ==> line[|r|] == ';'
  {
    var comment := Find(line, ';');
    if comment > -1 then line[..comment] else line
  }

  /** `parse(line)` as a value. */
  function ParseLine(line: Text, parse: NumberParser): Result<map<char, real>>
  {
    Collect(Split(Uncommented(line), ' '), parse, map[])
  }

  /** `parse(line)`: the loop over the space-separated tokens of the uncommented line. */
  method Parse(line: Text, parse: NumberParser) returns (r: Result<map<char, real>>)
    ensures r == ParseLine(line, parse)
  {
    var text := line;
    var comment := Find(text, ';');
    if comment > -1 {
      text := text[..comment];
    }
    var out := map[];
    var ls := Split(text, ' ');
    for i := 0 to |ls|
      invariant Collect(ls, parse, map[]) == Collect(ls[i..], parse, out)
    {
      assert ls[i..][1..] == ls[i + 1..];
      ghost var w, before := ParseWord(ls[i], parse), out;
      var l := Strip(ls[i]);
      if |l| > 0 {
        var cmd := l[0];
        if cmd < 'A' || cmd > 'Z' {
          assert w == Failure(ParseError);
          return Failure(ParseError);
        }
        var val := parse(l[1..]);
        if val.None? {
          assert w == Failure(ValueError);
          return Failure(ValueError);
        }
        assert w == Success(Some((cmd, val.value)));
        out := out[cmd := val.value];
      } else {
        assert w == Success(None);
      }
      assert out == Record(before, w.value);
    }
    return Success(out);
  }

  // ---------------------------------------------------------------------------
  // Properties

  /** Whatever follows the first ';' has no effect. */
  lemma CommentIgnored(code: Text, comment: Text, parse: NumberParser)
    requires ';' !in code
    ensures ParseLine(code + [';'] + comment, parse) == ParseLine(code, parse)
  {
    var line := code + [';'] + comment;
    assert line[|code|] == ';';
    assert line[..|code|] == code;
    FindIs(line, ';', |code|);
  }

  /** Tokens that all strip to nothing leave the accumulated map as it is. */
  lemma {:induction false} BlankTokens(tokens: seq<Text>, parse: NumberParser, out: map<char, real>)
    requires forall k :: 0 <= k < |tokens| ==> |Strip(tokens[k])| == 0
    ensures Collect(tokens, parse, out) == Success(out)
  {
    if |tokens| > 0 {
      BlankTokens(tokens[1..], parse, out);
    }
  }

  /** A line that is white space up to its comment (or empty, or a comment only) gives
      the empty map. */
  lemma BlankLine(line: Text, parse: NumberParser)
    requires forall c :: c in Uncommented(line) ==> Whitespace(c)
    ensures ParseLine(line, parse) == Success(map[])
  {
    var ls := Split(Uncommented(line), ' ');
    SplitChars(Uncommented(line), ' ');
    forall k | 0 <= k < |ls| ensures |Strip(ls[k])| == 0 {
      forall m | 0 <= m < |ls[k]| ensures Whitespace(ls[k][m]) {
        assert ls[k][m] in Uncommented(line);
      }
      StripSpec(ls[k]);
    }
    BlankTokens(ls, parse, map[]);
  }

  /** Every token is blank or a capital letter followed by a number. */
  predicate AllWords(tokens: seq<Text>, parse: NumberParser) {
    forall k :: 0 <= k < |tokens| ==> ParseWord(tokens[k], parse).Success?
  }

  /** The tokens are read into a map exactly when every one of them is blank or a
      well-formed word. */
  lemma {:induction false} CollectSucceeds(tokens: seq<Text>, parse: NumberParser, out: map<char, real>)
    ensures Collect(tokens, parse, out).Success? <==> AllWords(tokens, parse)
  {
    if |tokens| > 0 {
      var w := ParseWord(tokens[0], parse);
      if w.Success? {
        var next := Record(out, w.value);
        CollectSucceeds(tokens[1..], parse, next);
        assert forall k :: 1 <= k < |tokens| ==> tokens[1..][k - 1] == tokens[k];
      }
    }
  }

  /** A failure is the failure of the first token that is not blank or well-formed: a
      ParseError when that token does not start with a capital letter, a ValueError
      when its number does not parse. */
  lemma {:induction false} CollectFailsAt(tokens: seq<Text>, parse: NumberParser, out: map<char, real>, i: nat)
    requires i < |tokens| && ParseWord(tokens[i], parse).Failure?
    requires forall k :: 0 <= k < i ==> ParseWord(tokens[k], parse).Success?
    ensures Collect(tokens, parse, out) == Failure(ParseWord(tokens[i], parse).error)
  {
    var w := ParseWord(tokens[0], parse);
    if i > 0 {
      assert w.Success?;
      var next := Record(out, w.value);
      assert Collect(tokens, parse, out) == Collect(tokens[1..], parse, next);
      assert forall k :: 0 <= k < i - 1 ==> tokens[1..][k] == tokens[k + 1];
      CollectFailsAt(tokens[1..], parse, next, i - 1);
    }
  }

  /** The number of the last token with command letter c, if any: the value a map that
      keeps the latest word per letter holds for c. */
  function LastValue(tokens: seq<Text>, parse: NumberParser, c: char): (r: Option<real>)
  {
    if |tokens| == 0 then None
    else
      var w := ParseWord(tokens[|tokens| - 1], parse);
      if w.Success? && w.value.Some? && w.value.value.0 == c then Some(w.value.value.1)
      else LastValue(tokens[..|tokens| - 1], parse, c)
  }

  /** Read from the front, the last value is the rest's last value if the rest has
      one, else the first token's. */
  lemma {:induction false} LastValueFront(tokens: seq<Text>, parse: NumberParser, c: char)
    requires |tokens| > 0
    ensures LastValue(tokens, parse, c) ==
      var w := ParseWord(tokens[0], parse);
      var rest := LastValue(tokens[1..], parse, c);
      if rest.Some? then rest
      else if w.Success? && w.value.Some? && w.value.value.0 == c then Some(w.value.value.1)
      else None
    decreases |tokens|
  {
    var n := |tokens|;
    if n > 1 {
      assert tokens[1..][..n - 2] == tokens[..n - 1][1..];
      assert tokens[1..][n - 2] == tokens[n - 1];
      LastValueFront(tokens[..n - 1], parse, c);
    } else {
      assert tokens[..0] == [];
    }
  }

  /** When the tokens are read into a map, each letter maps to the number of its last
      token, and letters without a token keep the value they had. */
  lemma {:induction false} CollectLastWins(tokens: seq<Text>, parse: NumberParser, out: map<char, real>, m: map<char, real>)
    requires Collect(tokens, parse, out) == Success(m)
    ensures forall c :: c in m <==> c in out || LastValue(tokens, parse, c).Some?
    ensures forall c :: c in m ==>
      m[c] == (if LastValue(tokens, parse, c).Some? then LastValue(tokens, parse, c).value else out[c])
  {
    if |tokens| > 0 {
      var w := ParseWord(tokens[0], parse);
      var next := Record(out, w.value);
      CollectLastWins(tokens[1..], parse, next, m);
      forall c ensures LastValue(tokens, parse, c) ==
        (if LastValue(tokens[1..], parse, c).Some? then LastValue(tokens[1..], parse, c)
         else if w.value.Some? && w.value.value.0 == c then Some(w.value.value.1) else None)
      {
        LastValueFront(tokens, parse, c);
      }
    }
  }

  /** A parsed line maps exactly the letters that begin some token, each to the number
      of the last token beginning with it; every key is a capital letter. */
  lemma ParsedLine(line: Text, parse: NumberParser, m: map<char, real>)
    requires ParseLine(line, parse) == Success(m)
    ensures forall c :: c in m <==> LastValue(Split(Uncommented(line), ' '), parse, c).Some?
    ensures forall c :: c in m ==> Letter(c) && m[c] == LastValue(Split(Uncommented(line), ' '), parse, c).value
  {
    var ls := Split(Uncommented(line), ' ');
    CollectLastWins(ls, parse, map[], m);
    forall c | c in m ensures Letter(c) {
      LastValueLetter(ls, parse, c);
    }
  }

  /** Only capital letters are ever given a value. */
  lemma {:induction false} LastValueLetter(tokens: seq<Text>, parse: NumberParser, c: char)
    requires LastValue(tokens, parse, c).Some?
    ensures Letter(c)
  {
    var n := |tokens|;
    var w := ParseWord(tokens[n - 1], parse);
    if !(w.Success? && w.value.Some? && w.value.value.0 == c) {
      LastValueLetter(tokens[..n - 1], parse, c);
    }
  }

  /** The line parses exactly when every space-separated token of its uncommented part
      is blank or a capital letter followed by a number. */
  lemma LineSucceeds(line: Text, parse: NumberParser)
    ensures ParseLine(line, parse).Success? <==> AllWords(Split(Uncommented(line), ' '), parse)
  {
    var ls := Split(Uncommented(line), ' ');
    CollectSucceeds(ls, parse, map[]);
    assert ParseLine(line, parse) == Collect(ls, parse, map[]);
  }
}
