/**
 Every way section 11.6.1 of RFC 9110 lets a list of challenges be spelled, and
 what the scanner makes of it: values bare or quoted, any character of a quoted
 one escaped, blanks around `=`, any blanks and commas between the parts, and
 credentials in between.
 */
module Spellings {
  import opened Challenges

  // --- spelling --------------------------------------------------------------

  /** `text` is `value` as a quoted string holds it (section 5.6.4): any character may be escaped,
      quotes and backslashes must be. */
  predicate Quotes(text: string, value: string)
    decreases |text|
  {
    if value == "" then text == ""
    else
      || (text != "" && text[0] == value[0] && text[0] != '"' && text[0] != '\\' && Quotes(text[1..], value[1..]))
      || (|text| > 1 && text[0] == '\\' && text[1] == value[0] && Quotes(text[2..], value[1..]))
  }

  /** One part of a header: a scheme, a parameter, or a credential that is padded with `=`. */
  datatype Part =
    | Scheme(name: string)
    | Bare(name: string, before: string, after: string, value: string)
    | Quoted(name: string, before: string, after: string, text: string, value: string)
    | Credential(token: string, padding: nat)

  function Equals(n: nat): string {
    if n == 0 then "" else "=" + Equals(n - 1)
  }

  function Spelled(p: Part): string {
    match p
    case Scheme(name) => name
    case Bare(name, before, after, value) => name + (before + ("=" + (after + value)))
    case Quoted(name, before, after, text, _) => name + (before + ("=" + (after + ("\"" + (text + "\"")))))
    case Credential(token, padding) => token + Equals(padding)
  }

  predicate Blanks(s: string) {
    forall i :: 0 <= i < |s| ==> Blank(s[i])
  }

  /** What may stand between two parts. */
  predicate Gap(s: string) {
    forall i :: 0 <= i < |s| ==> Blank(s[i]) || s[i] == ','
  }

  /** A part that can be spelled; a parameter belongs to a challenge that was begun. */
  predicate Sound(p: Part, begun: bool) {
    match p
    case Scheme(name) => Token(name)
    case Bare(name, before, after, value) => Token(name) && Blanks(before) && Blanks(after) && Token(value) && begun
    case Quoted(name, before, after, text, value) =>
      Token(name) && Blanks(before) && Blanks(after) && Quotes(text, value) && begun
    case Credential(token, padding) => Token(token) && padding >= 2
  }

  /** What a part adds to the list of challenges. */
  function Adds(p: Part, out: seq<Challenge>): seq<Challenge>
    requires Sound(p, out != [])
  {
    match p
    case Scheme(name) => out + [Challenge(name, [])]
    case Bare(name, _, _, value) => AddParam(out, Param(name, value))
    case Quoted(name, _, _, _, value) => AddParam(out, Param(name, value))
    case Credential(_, _) => out
  }

  /** The parts in turn, each followed by its gap. */
  datatype Piece = Piece(part: Part, gap: string)

  function Text(pieces: seq<Piece>): string {
    if pieces == [] then "" else Spelled(pieces[0].part) + (pieces[0].gap + Text(pieces[1..]))
  }

  predicate WellSpelled(pieces: seq<Piece>, begun: bool)
    decreases |pieces|
  {
    pieces != [] ==>
      && Sound(pieces[0].part, begun) && Gap(pieces[0].gap) && (|pieces| > 1 ==> pieces[0].gap != "")
      && WellSpelled(pieces[1..], begun || pieces[0].part.Scheme?)
  }

  /** The list the parts spell out. */
  function Meaning(pieces: seq<Piece>, out: seq<Challenge>): seq<Challenge>
    requires WellSpelled(pieces, out != [])
    decreases |pieces|
  {
    if pieces == [] then out else Meaning(pieces[1..], Adds(pieces[0].part, out))
  }

  // --- reading it back -------------------------------------------------------

  lemma {:induction false} DropsBlanks(b: string, rest: string)
    requires Blanks(b) && (rest == "" || !Blank(rest[0]))
    ensures DropBlanks(b + rest) == rest
  {
    if b == "" {
      assert b + rest == rest;
    } else {
      assert (b + rest)[1..] == b[1..] + rest;
      DropsBlanks(b[1..], rest);
    }
  }

  lemma {:induction false} UnquoteQuoted(text: string, value: string, rest: string)
    requires Quotes(text, value)
    ensures Unquote(text + ("\"" + rest)) == (value, rest)
    decreases |text|
  {
    var s := text + ("\"" + rest);
    if value == "" {
      assert s == "\"" + rest && s[1..] == rest;
    } else if text[0] != '\\' {
      assert s[1..] == text[1..] + ("\"" + rest);
      UnquoteQuoted(text[1..], value[1..], rest);
      assert value == [value[0]] + value[1..];
    } else {
      assert s[2..] == text[2..] + ("\"" + rest) && s[1] == text[1];
      UnquoteQuoted(text[2..], value[1..], rest);
      assert value == [value[0]] + value[1..];
    }
  }

  /** A quoted string that is not closed runs to the end, and a backslash at the very end is
      taken as it is. */
  lemma {:induction false} UnquoteOpen(text: string, value: string)
    requires Quotes(text, value)
    ensures Unquote(text) == (value, "") && Unquote(text + "\\") == (value + "\\", "")
    decreases |text|
  {
    if value == "" {
      assert text + "\\" == "\\" && value + "\\" == "\\";
      assert "\\"[1..] == "" && Unquote("") == ("", "");
      assert ['\\'] + "" == "\\" && Unquote("\\") == (['\\'] + "", "");
    } else if text[0] != '\\' {
      assert (text + "\\")[1..] == text[1..] + "\\";
      UnquoteOpen(text[1..], value[1..]);
      assert value == [value[0]] + value[1..] && value + "\\" == [value[0]] + (value[1..] + "\\");
    } else {
      assert (text + "\\")[2..] == text[2..] + "\\" && (text + "\\")[1] == text[1];
      UnquoteOpen(text[2..], value[1..]);
      assert value == [value[0]] + value[1..] && value + "\\" == [value[0]] + (value[1..] + "\\");
    }
  }

  predicate Ends(rest: string) {
    rest == "" || Blank(rest[0]) || rest[0] == ','
  }

  /** A name, blanks, `=`, and what is left from there. */
  lemma ParameterBegins(name: string, before: string, after: string, tail: string, out: seq<Challenge>)
    requires Token(name) && Blanks(before) && Blanks(after) && out != []
    requires tail != "" && !Blank(tail[0]) && tail[0] != '='
    ensures var r := Challenges.Value(tail);
            Parse(name + (before + ("=" + (after + tail))), out) == Parse(r.1, AddParam(out, Param(name, r.0)))
  {
    hide Challenges.Value, AddParam, Token;
    var more := "=" + (after + tail);
    var s := name + (before + more);
    NamesHead(name, before + more);
    TokenScanned(name, before + more);
    assert s[|name|..] == before + more && s[..|name|] == name;
    DropsBlanks(before, more);
    assert more[1..] == after + tail;
    DropsBlanks(after, tail);
    ParseWord(s, |name|, out);
    assert more[1] == (after + tail)[0] && (after + tail)[0] != '=';
  }

  lemma NamesHead(name: string, rest: string)
    requires Token(name)
    ensures name + rest != "" && (name + rest)[0] == name[0] && !Delimiter(name[0])
    ensures forall i :: 0 <= i < |name| ==> !Delimiter(name[i])
  {
  }

  lemma ReadBare(p: Part, rest: string, out: seq<Challenge>)
    requires p.Bare? && Sound(p, out != []) && Ends(rest)
    ensures Parse(Spelled(p) + rest, out) == Parse(rest, Adds(p, out))
  {
    hide TokenLength, AddParam, Parse;
    var tail := p.value + rest;
    NamesHead(p.value, rest);
    TokenScanned(p.value, rest);
    assert tail[..|p.value|] == p.value && tail[|p.value|..] == rest;
    ParameterBegins(p.name, p.before, p.after, tail, out);
    assert Spelled(p) + rest == p.name + (p.before + ("=" + (p.after + tail)));
  }

  lemma ReadQuotedPart(p: Part, rest: string, out: seq<Challenge>)
    requires p.Quoted? && Sound(p, out != []) && Ends(rest)
    ensures Parse(Spelled(p) + rest, out) == Parse(rest, Adds(p, out))
  {
    hide AddParam, Parse, Unquote, Quotes, Token;
    var inner := p.text + ("\"" + rest);
    var tail := "\"" + inner;
    assert tail[1..] == inner;
    UnquoteQuoted(p.text, p.value, rest);
    ParameterBegins(p.name, p.before, p.after, tail, out);
    assert Spelled(p) + rest == p.name + (p.before + ("=" + (p.after + tail)));
  }

  lemma {:induction false} DropsEquals(n: nat, rest: string)
    requires rest == "" || rest[0] != '='
    ensures DropEquals(Equals(n) + rest) == rest && |Equals(n)| == n && (n > 0 ==> Equals(n)[0] == '=')
    ensures n > 1 ==> Equals(n)[1] == '='
  {
    if n == 0 {
      assert Equals(n) + rest == rest;
    } else {
      DropsEquals(n - 1, rest);
      assert (Equals(n) + rest)[1..] == Equals(n - 1) + rest;
    }
  }

  /** What is made of a credential, a token padded with `n` equals signs, within a challenge: it
      is passed over if and only if it has two of them, or one and nothing after it. With one
      and a comma after it, it is taken for a parameter of no text; with none, for a scheme. */
  lemma CredentialExactly(token: string, n: nat, rest: string, out: seq<Challenge>)
    requires Token(token) && out != [] && (rest == "" || rest[0] == ',')
    ensures Parse(token + (Equals(n) + rest), out) ==
            if n >= 2 || (n == 1 && rest == "") then Parse(rest, out)
            else if n == 1 then Parse(rest, AddParam(out, Param(token, "")))
            else Parse(rest, out + [Challenge(token, [])])
  {
    hide AddParam, TokenLength, Token, Parse;
    var more := Equals(n) + rest;
    var s := token + more;
    DropsEquals(n, rest);
    NamesHead(token, more);
    assert more == "" || Delimiter(more[0]);
    TokenScanned(token, more);
    assert s[|token|..] == more && s[..|token|] == token;
    assert DropBlanks(more) == more;
    ParseWord(s, |token|, out);
    if n == 0 {
      assert more == rest;
    } else if n == 1 {
      assert Equals(1) == "=" by {
        assert Equals(0) == "";
      }
      assert more[1..] == rest;
      NoText(rest);
    }
  }

  lemma NoText(rest: string)
    requires rest == "" || rest[0] == ','
    ensures DropBlanks(rest) == rest && Challenges.Value(rest) == ("", rest)
  {
  }

  lemma ReadCredential(p: Part, rest: string, out: seq<Challenge>)
    requires p.Credential? && Sound(p, out != []) && Ends(rest)
    ensures Parse(Spelled(p) + rest, out) == Parse(rest, out)
  {
    hide TokenLength, Token, Parse;
    var more := Equals(p.padding) + rest;
    var s := p.token + more;
    assert Spelled(p) + rest == s;
    DropsEquals(p.padding, rest);
    NamesHead(p.token, more);
    TokenScanned(p.token, more);
    assert s[|p.token|..] == more && s[..|p.token|] == p.token;
    assert DropBlanks(more) == more && more[1] == Equals(p.padding)[1];
    ParseWord(s, |p.token|, out);
  }

  lemma {:induction false} ReadGap(gap: string, rest: string, out: seq<Challenge>)
    requires Gap(gap)
    ensures Parse(gap + rest, out) == Parse(rest, out)
  {
    if gap == "" {
      assert gap + rest == rest;
    } else {
      assert (gap + rest)[1..] == gap[1..] + rest;
      ReadGap(gap[1..], rest, out);
    }
  }

  /** Behind a scheme comes the end, a comma, or the beginning of another part. */
  lemma {:induction false} SchemeFollows(gap: string, rest: string)
    requires Gap(gap) && (rest == "" || !Delimiter(rest[0])) && (gap == "" ==> rest == "")
    ensures Follows(gap + rest)
  {
    hide TokenLength;
    if gap == "" {
      assert gap + rest == "";
    } else if Blank(gap[0]) {
      assert (gap + rest)[1..] == gap[1..] + rest;
      if gap[1..] == "" {
        assert gap[1..] + rest == rest && DropBlanks(rest) == rest;
        assert DropBlanks(gap + rest) == DropBlanks(rest);
      } else {
        SchemeFollows(gap[1..], rest);
      }
    }
  }

  lemma TextBegins(pieces: seq<Piece>, begun: bool)
    requires WellSpelled(pieces, begun)
    ensures Text(pieces) == "" || !Delimiter(Text(pieces)[0])
  {
    if pieces != [] {
      var p := pieces[0].part;
      var name := match p
        case Scheme(n) => n
        case Bare(n, _, _, _) => n
        case Quoted(n, _, _, _, _) => n
        case Credential(n, _) => n;
      assert Token(name) && Spelled(p)[0] == name[0];
    }
  }

  /** However the parts are spelled, the scanner reads what they mean. */
  lemma {:induction false} ReadsBack(pieces: seq<Piece>, out: seq<Challenge>)
    requires WellSpelled(pieces, out != [])
    ensures Parse(Text(pieces), out) == Meaning(pieces, out)
    decreases |pieces|
  {
    hide Parse, Spelled, Sound, Adds;
    if pieces == [] {
      ParseNothing(out);
    } else {
      var p, gap, more := pieces[0].part, pieces[0].gap, Text(pieces[1..]);
      var out' := Adds(p, out);
      AddsBegun(p, out);
      TextBegins(pieces[1..], out' != []);
      ReadPart(p, gap, more, out);
      ReadGap(gap, more, out');
      ReadsBack(pieces[1..], out');
    }
  }

  lemma AddsBegun(p: Part, out: seq<Challenge>)
    requires Sound(p, out != [])
    ensures Adds(p, out) != [] <==> out != [] || p.Scheme?
  {
  }

  lemma ReadPart(p: Part, gap: string, more: string, out: seq<Challenge>)
    requires Sound(p, out != []) && Gap(gap) && (more == "" || !Delimiter(more[0])) && (gap == "" ==> more == "")
    ensures Parse(Spelled(p) + (gap + more), out) == Parse(gap + more, Adds(p, out))
  {
    hide Parse, Follows;
    var rest := gap + more;
    assert gap != "" ==> rest[0] == gap[0];
    match p
    case Scheme(name) =>
      SchemeFollows(gap, more);
      ParseScheme(name, rest, out);
    case Bare(_, _, _, _) => ReadBare(p, rest, out);
    case Quoted(_, _, _, _, _) => ReadQuotedPart(p, rest, out);
    case Credential(_, _) => ReadCredential(p, rest, out);
  }

  /** Blanks and commas before the first part are nothing, and so is a stray quote or `=`. */
  lemma StraysAreSkipped(c: char, rest: string, out: seq<Challenge>)
    requires Delimiter(c)
    ensures Parse([c] + rest, out) == Parse(rest, out)
  {
    assert ([c] + rest)[1..] == rest;
  }

  // --- what a token may hold -------------------------------------------------

  /** The characters of a token (section 5.6.2 of RFC 9110). */
  predicate TokenChar(c: char) {
    'a' <= c <= 'z' || 'A' <= c <= 'Z' || '0' <= c <= '9' || c in "!#$%&'*+-.^_`|~"
  }

  /** The scan stops at five characters and no other, so every token is read whole. */
  lemma DelimitersExactly(c: char)
    ensures Delimiter(c) <==> c in {' ', '\t', ',', '=', '"'}
    ensures TokenChar(c) ==> !Delimiter(c)
  {
  }
}
