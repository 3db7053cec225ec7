/**
 The scanner for `WWW-Authenticate` values. Each challenge is a scheme and the
 parameters after it; commas separate one from the next. A header is a `string`
 whose characters stand for the bytes the source scans.
 */
module Challenges {

  datatype Param = Param(name: string, value: string)
  datatype Challenge = Challenge(scheme: string, params: seq<Param>)

  predicate Blank(c: char) {
    c == ' ' || c == '\t'
  }

  predicate Delimiter(c: char) {
    Blank(c) || c == ',' || c == '=' || c == '"'
  }

  predicate Token(s: string) {
    s != "" && forall i :: 0 <= i < |s| ==> !Delimiter(s[i])
  }

  // --- the scan, on what is left of the header -------------------------------

  function TokenLength(s: string): (n: nat)
    ensures n <= |s|
  {
    if s == "" || Delimiter(s[0]) then 0 else 1 + TokenLength(s[1..])
  }

  function DropBlanks(s: string): (t: string)
    ensures |t| <= |s|
  {
    if s != "" && Blank(s[0]) then DropBlanks(s[1..]) else s
  }

  function DropEquals(s: string): (t: string)
    ensures |t| <= |s| && (s != "" && s[0] == '=' ==> |t| < |s|)
  {
    if s != "" && s[0] == '=' then DropEquals(s[1..]) else s
  }

  /** The text up to the closing quote, its escapes undone, and what follows it. */
  function Unquote(s: string): (r: (string, string))
    ensures |r.1| <= |s|
  {
    if s == "" then ("", "")
    else if s[0] == '"' then ("", s[1..])
    else if s[0] == '\\' && |s| > 1 then
      var r := Unquote(s[2..]);
      ([s[1]] + r.0, r.1)
    else
      var r := Unquote(s[1..]);
      ([s[0]] + r.0, r.1)
  }

  function AddParam(out: seq<Challenge>, p: Param): seq<Challenge>
    requires out != []
  {
    var last := out[|out| - 1];
    out[..|out| - 1] + [last.(params := last.params + [p])]
  }

  function Value(s: string): (r: (string, string))
    ensures |r.1| <= |s|
  {
    if s != "" && s[0] == '"' then Unquote(s[1..])
    else (s[..TokenLength(s)], s[TokenLength(s)..])
  }

  function Parse(s: string, out: seq<Challenge>): seq<Challenge>
    decreases |s|
  {
    if s == "" then out
    else if Blank(s[0]) || s[0] == ',' then Parse(s[1..], out)
    else
      var n := TokenLength(s);
      if n == 0 then Parse(s[1..], out)
      else
        var after := DropBlanks(s[n..]);
        if after == "" || after[0] != '=' then Parse(s[n..], out + [Challenge(s[..n], [])])
        else if out == [] || |after| == 1 || after[1] == '=' then Parse(DropEquals(after), out)
        else
          var r := Value(DropBlanks(after[1..]));
          Parse(r.1, AddParam(out, Param(s[..n], r.0)))
  }

  // --- the program's own loops -----------------------------------------------

  method TokenEnd(b: string, from: nat) returns (i: nat)
    requires from <= |b|
    ensures i == from + TokenLength(b[from..])
  {
    i := from;
    while i < |b| && !Delimiter(b[i])
      invariant from <= i <= |b|
      invariant from + TokenLength(b[from..]) == i + TokenLength(b[i..])
    {
      assert b[i..][1..] == b[i + 1..];
      i := i + 1;
    }
  }

  method SkipBlanks(b: string, from: nat) returns (i: nat)
    requires from <= |b|
    ensures from <= i <= |b| && b[i..] == DropBlanks(b[from..])
  {
    i := from;
    while i < |b| && Blank(b[i])
      invariant from <= i <= |b|
      invariant DropBlanks(b[from..]) == DropBlanks(b[i..])
    {
      assert b[i..][1..] == b[i + 1..];
      i := i + 1;
    }
  }

  method SkipEquals(b: string, from: nat) returns (i: nat)
    requires from <= |b|
    ensures from <= i <= |b| && b[i..] == DropEquals(b[from..])
  {
    i := from;
    while i < |b| && b[i] == '='
      invariant from <= i <= |b|
      invariant DropEquals(b[from..]) == DropEquals(b[i..])
    {
      assert b[i..][1..] == b[i + 1..];
      i := i + 1;
    }
  }

  /** What is left of the header at index `i`; a quote that never closes leaves it past the end. */
  function Left(b: string, i: nat): string {
    if i <= |b| then b[i..] else ""
  }

  /** The quoted text whose opening quote was just passed. */
  method ReadQuoted(b: string, from: nat) returns (v: string, i: nat)
    requires from <= |b|
    ensures from <= i && (v, Left(b, i)) == Unquote(b[from..])
  {
    hide Unquote;
    v, i := "", from;
    while i < |b| && b[i] != '"'
      invariant from <= i <= |b|
      invariant Unquote(b[from..]).0 == v + Unquote(b[i..]).0
      invariant Unquote(b[from..]).1 == Unquote(b[i..]).1
    {
      UnquoteOne(b, i);
      if b[i] == '\\' && i + 1 < |b| {
        i := i + 1;
      }
      v := v + [b[i]];
      i := i + 1;
    }
    UnquoteEnd(b, i);
    assert v + "" == v;
    i := i + 1;
  }

  lemma UnquoteOne(b: string, i: nat)
    requires i < |b| && b[i] != '"'
    ensures var k := if b[i] == '\\' && i + 1 < |b| then i + 1 else i;
            Unquote(b[i..]).0 == [b[k]] + Unquote(b[k + 1..]).0 && Unquote(b[i..]).1 == Unquote(b[k + 1..]).1
  {
    assert b[i..][1..] == b[i + 1..];
    assert i + 1 < |b| ==> b[i..][2..] == b[i + 2..];
  }

  lemma UnquoteEnd(b: string, i: nat)
    requires i <= |b| && (i < |b| ==> b[i] == '"')
    ensures Unquote(b[i..]) == ("", Left(b, i + 1))
  {
    assert i < |b| ==> b[i..][1..] == b[i + 1..];
  }

  method ReadValue(b: string, from: nat) returns (v: string, i: nat)
    requires from <= |b|
    ensures from <= i && (v, Left(b, i)) == Value(b[from..])
  {
    hide TokenLength, Unquote;
    ghost var rest := b[from..];
    if from < |b| && b[from] == '"' {
      assert rest[1..] == b[from + 1..];
      v, i := ReadQuoted(b, from + 1);
    } else {
      i := TokenEnd(b, from);
      v := b[from..i];
      assert rest[..i - from] == v && rest[i - from..] == b[i..];
    }
  }

  lemma ParseSkip(s: string, out: seq<Challenge>)
    requires s != "" && (Blank(s[0]) || s[0] == ',' || TokenLength(s) == 0)
    ensures Parse(s, out) == Parse(s[1..], out)
  {
  }

  lemma ParseWord(s: string, n: nat, out: seq<Challenge>)
    requires n == TokenLength(s) > 0
    ensures var after := DropBlanks(s[n..]);
            Parse(s, out) ==
              if after == "" || after[0] != '=' then Parse(s[n..], out + [Challenge(s[..n], [])])
              else if out == [] || |after| == 1 || after[1] == '=' then Parse(DropEquals(after), out)
              else Parse(Value(DropBlanks(after[1..])).1, AddParam(out, Param(s[..n], Value(DropBlanks(after[1..])).0)))
  {
  }

  /** The value after the `=` at `j`, blanks before it skipped. */
  method ReadParam(b: string, j: nat) returns (value: string, i: nat)
    requires j < |b|
    ensures j < i && (value, Left(b, i)) == Value(DropBlanks(b[j..][1..]))
  {
    hide DropBlanks, Value, Left;
    assert b[j..][1..] == b[j + 1..];
    var k := SkipBlanks(b, j + 1);
    value, i := ReadValue(b, k);
  }

  /** Split a header into its challenges. Every index stays in bounds and the scan ends on
      every input; on one that was written from a list of challenges it gives the list back. */
  method ReadChallenges(header: string) returns (out: seq<Challenge>)
    ensures out == Parse(header, [])
    ensures forall list :: Writable(list) && header == Written(list) ==> out == list
  {
    hide TokenLength, DropBlanks, DropEquals, Value, AddParam, Parse, Writable, Written;
    var b := header;
    out := [];
    var i := 0;
    assert b[0..] == b;
    while i < |b|
      invariant Parse(Left(b, i), out) == Parse(header, [])
      decreases |b| - i
    {
      ghost var rest := b[i..];
      var end := TokenEnd(b, i);
      if Blank(b[i]) || b[i] == ',' || end == i {
        ParseSkip(rest, out);
        assert rest[1..] == b[i + 1..];
        i := i + 1;
        continue;
      }
      var word := b[i..end];
      assert rest[..end - i] == word && rest[end - i..] == b[end..];
      ParseWord(rest, end - i, out);
      var j := SkipBlanks(b, end);
      if j >= |b| || b[j] != '=' {
        out := out + [Challenge(word, [])];
        i := end;
      } else if out == [] || j + 1 >= |b| || b[j + 1] == '=' {
        i := SkipEquals(b, j);
      } else {
        var value;
        value, i := ReadParam(b, j);
        out := AddParam(out, Param(word, value));
      }
    }
    assert Left(b, i) == "";
    ParseNothing(out);
    forall list | Writable(list) && header == Written(list) ensures out == list {
      RoundTrip(list);
    }
  }

  // --- writing ---------------------------------------------------------------

  /** A quoted string's text (section 5.6.4 of RFC 9110): quotes and backslashes escaped. */
  function Escaped(v: string): string {
    if v == "" then ""
    else (if v[0] == '"' || v[0] == '\\' then ['\\', v[0]] else [v[0]]) + Escaped(v[1..])
  }

  function WrittenParam(p: Param): string {
    p.name + "=\"" + Escaped(p.value) + "\""
  }

  function WrittenParams(ps: seq<Param>, before: string): string {
    if ps == [] then "" else before + WrittenParam(ps[0]) + WrittenParams(ps[1..], ", ")
  }

  /** The list as a header (section 11.6.1 of RFC 9110). */
  function Written(list: seq<Challenge>): string {
    if list == [] then ""
    else list[0].scheme + WrittenParams(list[0].params, " ") + (if |list| == 1 then "" else ", " + Written(list[1..]))
  }

  predicate Writable(list: seq<Challenge>) {
    forall c :: c in list ==> Token(c.scheme) && forall p :: p in c.params ==> Token(p.name)
  }

  // --- reading back what was written -----------------------------------------

  lemma {:induction false} TokenScanned(t: string, rest: string)
    requires (forall i :: 0 <= i < |t| ==> !Delimiter(t[i])) && (rest == "" || Delimiter(rest[0]))
    ensures TokenLength(t + rest) == |t|
  {
    if t == "" {
      assert t + rest == rest;
    } else {
      assert (t + rest)[1..] == t[1..] + rest;
      TokenScanned(t[1..], rest);
    }
  }

  lemma {:induction false} UnquoteEscaped(v: string, rest: string)
    ensures Unquote(Escaped(v) + "\"" + rest) == (v, rest)
  {
    var s := Escaped(v) + "\"" + rest;
    if v == "" {
      assert s == "\"" + rest;
      assert s[1..] == rest;
    } else {
      UnquoteEscaped(v[1..], rest);
      var tail := Escaped(v[1..]) + "\"" + rest;
      if v[0] == '"' || v[0] == '\\' {
        assert s == ['\\', v[0]] + tail;
        assert s[2..] == tail;
      } else {
        assert s == [v[0]] + tail;
        assert s[1..] == tail;
      }
      assert v == [v[0]] + v[1..];
    }
  }

  lemma ParseParam(p: Param, rest: string, out: seq<Challenge>)
    requires Token(p.name) && out != []
    ensures Parse(WrittenParam(p) + rest, out) == Parse(rest, AddParam(out, p))
  {
    hide TokenLength, Unquote, Escaped, AddParam;
    var s := WrittenParam(p) + rest;
    var quoted := Escaped(p.value) + "\"" + rest;
    var after := "=\"" + quoted;
    assert s == p.name + after;
    TokenScanned(p.name, after);
    assert s[|p.name|..] == after && s[..|p.name|] == p.name;
    assert DropBlanks(after) == after && after[1..] == "\"" + quoted;
    assert DropBlanks("\"" + quoted) == "\"" + quoted && ("\"" + quoted)[1..] == quoted;
    UnquoteEscaped(p.value, rest);
  }

  /** What follows a scheme that is not a parameter's `=`. */
  predicate Follows(rest: string) {
    (rest == "" || Delimiter(rest[0])) && (DropBlanks(rest) == "" || DropBlanks(rest)[0] != '=')
  }

  lemma ParseScheme(scheme: string, rest: string, out: seq<Challenge>)
    requires Token(scheme) && Follows(rest)
    ensures Parse(scheme + rest, out) == Parse(rest, out + [Challenge(scheme, [])])
  {
    hide TokenLength;
    var s := scheme + rest;
    TokenScanned(scheme, rest);
    assert s[|scheme|..] == rest && s[..|scheme|] == scheme;
  }

  lemma ParseSeparator(before: string, rest: string, out: seq<Challenge>)
    requires before == " " || before == ", "
    ensures Parse(before + rest, out) == Parse(rest, out)
  {
    assert (before + rest)[1..] == before[1..] + rest;
    if before == ", " {
      assert (" " + rest)[1..] == rest;
    } else {
      assert before[1..] + rest == rest;
    }
  }

  lemma {:induction false} ParseParams(ps: seq<Param>, before: string, rest: string, out: seq<Challenge>, c: Challenge)
    requires before == " " || before == ", "
    requires forall p :: p in ps ==> Token(p.name)
    ensures Parse(WrittenParams(ps, before) + rest, out + [c]) == Parse(rest, out + [c.(params := c.params + ps)])
    decreases |ps|
  {
    hide Parse, WrittenParam;
    if ps == [] {
      assert WrittenParams(ps, before) + rest == rest;
      assert c.params + ps == c.params;
    } else {
      var more := WrittenParams(ps[1..], ", ") + rest;
      var c' := c.(params := c.params + [ps[0]]);
      assert WrittenParams(ps, before) + rest == before + (WrittenParam(ps[0]) + more);
      ParseSeparator(before, WrittenParam(ps[0]) + more, out + [c]);
      ParseParam(ps[0], more, out + [c]);
      assert AddParam(out + [c], ps[0]) == out + [c'];
      ParseParams(ps[1..], ", ", rest, out, c');
      assert c'.params + ps[1..] == c.params + ps;
    }
  }

  lemma ParamsFollow(ps: seq<Param>, rest: string)
    requires (forall p :: p in ps ==> Token(p.name)) && (rest == "" || rest[0] == ',')
    ensures Follows(WrittenParams(ps, " ") + rest)
  {
    var s := WrittenParams(ps, " ") + rest;
    if ps == [] {
      assert s == rest;
    } else {
      var name := ps[0].name;
      assert ps[0] in ps;
      assert s[0] == ' ' && s[1] == name[0] && !Delimiter(name[0]);
      assert s[1..][0] == name[0];
    }
  }

  lemma ParseChallenge(c: Challenge, rest: string, out: seq<Challenge>)
    requires Token(c.scheme) && (forall p :: p in c.params ==> Token(p.name)) && (rest == "" || rest[0] == ',')
    ensures Parse(c.scheme + (WrittenParams(c.params, " ") + rest), out) == Parse(rest, out + [c])
  {
    hide Parse, WrittenParams, Follows, Token;
    var c0 := Challenge(c.scheme, []);
    ParamsFollow(c.params, rest);
    ParseScheme(c.scheme, WrittenParams(c.params, " ") + rest, out);
    ParseParams(c.params, " ", rest, out, c0);
    assert c0.params + c.params == c.params;
  }

  lemma {:induction false} ParseWritten(list: seq<Challenge>, out: seq<Challenge>)
    requires Writable(list)
    ensures Parse(Written(list), out) == out + list
    decreases |list|
  {
    hide Parse, WrittenParams, Token;
    if list == [] {
      ParseNothing(out);
      assert out + list == out;
    } else {
      var c := list[0];
      var more := Written(list[1..]);
      var rest := if |list| == 1 then "" else ", " + more;
      assert c in list;
      ParseChallenge(c, rest, out);
      assert Written(list) == c.scheme + (WrittenParams(c.params, " ") + rest);
      ParseWritten(list[1..], out + [c]);
      assert out + [c] + list[1..] == out + list;
      if |list| > 1 {
        ParseSeparator(", ", more, out + [c]);
      }
    }
  }

  lemma ParseNothing(out: seq<Challenge>)
    ensures Parse("", out) == out
  {
  }

  /** Parsing what was written gives the list back, whatever text the parameters hold. */
  lemma RoundTrip(list: seq<Challenge>)
    requires Writable(list)
    ensures Parse(Written(list), []) == list
  {
    ParseWritten(list, []);
    assert [] + list == list;
  }
}
