/**
 JSON values, and the pointers the validator writes into its messages and reads
 out of a `$ref` (RFC 6901).
 */
module Pointers {
  import opened Wrappers

  datatype Number = Int(i: int) | Float(r: real)

  datatype Value =
    | Null
    | Bool(b: bool)
    | Num(n: Number)
    | Str(s: string)
    | Arr(items: seq<Value>)
    | Obj(fields: map<string, Value>)

  datatype Segment = Key(k: string) | Index(i: nat)

  /** The node a path leads to, step by step. */
  function Lookup(v: Value, path: seq<Segment>): Option<Value>
    decreases |path|
  {
    if path == [] then Some(v)
    else
      match (path[0], v)
      case (Key(k), Obj(fields)) => if k in fields then Lookup(fields[k], path[1..]) else None
      case (Index(i), Arr(items)) => if i < |items| then Lookup(items[i], path[1..]) else None
      case _ => None
  }

  // --- escaping --------------------------------------------------------------

  /** `s.replace(c, sub)`. */
  function ReplaceChar(s: string, c: char, sub: string): string {
    if s == "" then "" else (if s[0] == c then sub else [s[0]]) + ReplaceChar(s[1..], c, sub)
  }

  /** `s.replace(pat, sub)` for a two-character pattern. */
  function ReplacePair(s: string, a: char, b: char, sub: char): string {
    if |s| < 2 then s
    else if s[0] == a && s[1] == b then [sub] + ReplacePair(s[2..], a, b, sub)
    else [s[0]] + ReplacePair(s[1..], a, b, sub)
  }

  function Escape(k: string): string {
    ReplaceChar(ReplaceChar(k, '~', "~0"), '/', "~1")
  }

  function Unescape(seg: string): string {
    ReplacePair(ReplacePair(seg, '~', '1', '/'), '~', '0', '~')
  }

  /** Every tilde is followed by something other than a one. */
  predicate Guarded(s: string) {
    s == "" || ((s[0] == '~' ==> |s| > 1 && s[1] != '1') && Guarded(s[1..]))
  }

  lemma {:induction false} ReplaceSlashBack(s: string)
    requires Guarded(s)
    ensures ReplacePair(ReplaceChar(s, '/', "~1"), '~', '1', '/') == s
  {
    if s == "" {
    } else {
      var rest := ReplaceChar(s[1..], '/', "~1");
      ReplaceSlashBack(s[1..]);
      if s[0] == '/' {
        assert ReplaceChar(s, '/', "~1") == "~1" + rest;
        assert ("~1" + rest)[2..] == rest;
      } else {
        var t := [s[0]] + rest;
        assert ReplaceChar(s, '/', "~1") == t && t[1..] == rest;
        if |t| > 1 {
          ReplaceStarts(s[1..], '/', "~1");
        } else {
          ReplaceKeepsEmpty(s[1..], '/', "~1");
        }
      }
      assert s == [s[0]] + s[1..];
    }
  }

  lemma ReplaceKeepsEmpty(s: string, c: char, sub: string)
    requires sub != "" && ReplaceChar(s, c, sub) == ""
    ensures s == ""
  {
  }

  lemma ReplaceStarts(s: string, c: char, sub: string)
    requires sub != "" && ReplaceChar(s, c, sub) != ""
    ensures s != "" && ReplaceChar(s, c, sub)[0] == if s[0] == c then sub[0] else s[0]
  {
  }

  lemma {:induction false} ReplaceTildeBack(s: string)
    ensures ReplacePair(ReplaceChar(s, '~', "~0"), '~', '0', '~') == s
  {
    if s == "" {
    } else {
      var rest := ReplaceChar(s[1..], '~', "~0");
      ReplaceTildeBack(s[1..]);
      if s[0] == '~' {
        assert ReplaceChar(s, '~', "~0") == "~0" + rest;
        assert ("~0" + rest)[2..] == rest;
      } else {
        assert ReplaceChar(s, '~', "~0") == [s[0]] + rest;
        assert ([s[0]] + rest)[1..] == rest;
        if rest == "" {
          ReplaceKeepsEmpty(s[1..], '~', "~0");
        }
      }
      assert s == [s[0]] + s[1..];
    }
  }

  lemma {:induction false} TildesGuarded(s: string)
    ensures Guarded(ReplaceChar(s, '~', "~0"))
  {
    if s == "" {
    } else {
      TildesGuarded(s[1..]);
      var t, rest := ReplaceChar(s, '~', "~0"), ReplaceChar(s[1..], '~', "~0");
      if s[0] == '~' {
        assert t[1..] == "0" + rest && ("0" + rest)[1..] == rest;
      } else {
        assert t[1..] == rest;
      }
    }
  }

  lemma UnescapeInverts(k: string)
    ensures Unescape(Escape(k)) == k
  {
    hide ReplaceChar, ReplacePair;
    TildesGuarded(k);
    ReplaceSlashBack(ReplaceChar(k, '~', "~0"));
    ReplaceTildeBack(k);
  }

  lemma {:induction false} EscapeHasNoSlash(k: string)
    ensures '/' !in Escape(k) && (Escape(k) == "" <==> k == "")
  {
    NoSlashLeft(ReplaceChar(k, '~', "~0"));
    if k != "" {
      assert ReplaceChar(k, '~', "~0") != "";
    }
  }

  lemma {:induction false} NoSlashLeft(s: string)
    ensures '/' !in ReplaceChar(s, '/', "~1") && (ReplaceChar(s, '/', "~1") == "" <==> s == "")
  {
    if s == "" {
    } else {
      NoSlashLeft(s[1..]);
    }
  }

  // --- array indexes ---------------------------------------------------------

  const USIZE_MAX: nat := 0xffff_ffff_ffff_ffff

  predicate Digit(c: char) {
    '0' <= c <= '9'
  }

  function Decimal(n: nat): string {
    if n < 10 then ['0' + n as char] else Decimal(n / 10) + ['0' + (n % 10) as char]
  }

  predicate AllDigits(s: string) {
    forall i :: 0 <= i < |s| ==> Digit(s[i])
  }

  function DigitsValue(s: string): nat
    requires AllDigits(s)
  {
    if s == "" then 0
    else
      assert Digit(s[|s| - 1]);
      DigitsValue(s[..|s| - 1]) * 10 + (s[|s| - 1] as int - '0' as int)
  }

  /** `str::parse::<usize>`: digits, after a plus sign if there is one, that fit the word. */
  function ParseIndex(s: string): Option<nat> {
    var digits := if s != "" && s[0] == '+' then s[1..] else s;
    if digits == "" || !AllDigits(digits) then None
    else if DigitsValue(digits) > USIZE_MAX then None
    else Some(DigitsValue(digits))
  }

  lemma {:induction false} DecimalDigits(n: nat)
    ensures Decimal(n) != "" && (forall i :: 0 <= i < |Decimal(n)| ==> Digit(Decimal(n)[i]))
    ensures DigitsValue(Decimal(n)) == n
  {
    if n >= 10 {
      DecimalDigits(n / 10);
      var d := Decimal(n);
      assert d[..|d| - 1] == Decimal(n / 10);
    } else {
      assert Decimal(n)[..0] == "";
    }
  }

  lemma ParseDecimal(n: nat)
    requires n <= USIZE_MAX
    ensures ParseIndex(Decimal(n)) == Some(n) && '/' !in Decimal(n) && Decimal(n) != ""
    ensures Unescape(Decimal(n)) == Decimal(n)
  {
    DecimalDigits(n);
    NothingToUnescape(Decimal(n), '1', '/');
    NothingToUnescape(Decimal(n), '0', '~');
  }

  lemma {:induction false} NothingToUnescape(s: string, b: char, sub: char)
    requires forall i :: 0 <= i < |s| ==> Digit(s[i])
    ensures ReplacePair(s, '~', b, sub) == s
  {
    if |s| >= 2 {
      NothingToUnescape(s[1..], b, sub);
      assert s == [s[0]] + s[1..];
    }
  }

  // --- writing and resolving pointers ----------------------------------------

  function Text(seg: Segment): string {
    match seg
    case Key(k) => Escape(k)
    case Index(i) => Decimal(i)
  }

  /** The pointer of a path as the validator builds it, segment by segment. */
  function Pointer(path: seq<Segment>): (p: string)
    ensures path != [] ==> p != "" && p[0] == '/'
  {
    if path == [] then "" else "/" + Text(path[0]) + Pointer(path[1..])
  }

  /** How a message shows a pointer. */
  function Shown(pointer: string): string {
    if pointer == "" then "/" else pointer
  }

  function Split(s: string): (r: seq<string>)
    ensures r != []
  {
    if s == "" then [""]
    else
      var r := Split(s[1..]);
      if s[0] == '/' then [""] + r else [[s[0]] + r[0]] + r[1..]
  }

  function TrimSlashes(s: string): string {
    if s != "" && s[0] == '/' then TrimSlashes(s[1..]) else s
  }

  /** Follow texts from a node: a member by its name, an item by its index. */
  function Follow(cur: Value, texts: seq<string>): Option<Value>
    decreases |texts|
  {
    if texts == [] then Some(cur)
    else
      var seg := Unescape(texts[0]);
      match cur
      case Obj(fields) => if seg in fields then Follow(fields[seg], texts[1..]) else None
      case Arr(items) =>
        var i := ParseIndex(seg);
        if i.Some? && i.value < |items| then Follow(items[i.value], texts[1..]) else None
      case _ => None
  }

  function ResolveRef(root: Value, r: string): Option<Value> {
    if r == "" || r[0] != '#' then None
    else if |r| == 1 then Some(root)
    else Follow(root, Split(TrimSlashes(r[1..])))
  }

  /** The same, with the cursor the program moves. */
  method Resolve(root: Value, r: string) returns (found: Option<Value>)
    ensures found == ResolveRef(root, r)
  {
    if r == "" || r[0] != '#' {
      return None;
    }
    if |r| == 1 {
      return Some(root);
    }
    var texts := Split(TrimSlashes(r[1..]));
    var cur := root;
    assert texts[0..] == texts;
    for k := 0 to |texts|
      invariant Follow(root, texts) == Follow(cur, texts[k..])
    {
      assert texts[k..][1..] == texts[k + 1..];
      var seg := Unescape(texts[k]);
      match cur {
        case Obj(fields) =>
          if seg !in fields {
            return None;
          }
          cur := fields[seg];
        case Arr(items) =>
          var i := ParseIndex(seg);
          if i.None? || i.value >= |items| {
            return None;
          }
          cur := items[i.value];
        case _ => return None;
      }
    }
    return Some(cur);
  }

  // --- what a pointer resolves to --------------------------------------------

  function Texts(path: seq<Segment>): (r: seq<string>)
    ensures |r| == |path|
  {
    if path == [] then [] else [Text(path[0])] + Texts(path[1..])
  }

  /** Indexes fit the machine word, as those of an array in memory do. */
  predicate Fits(path: seq<Segment>) {
    forall i :: 0 <= i < |path| && path[i].Index? ==> path[i].i <= USIZE_MAX
  }

  /** The path without the empty keys it starts with, all of them but one if it has no others. */
  function Stripped(path: seq<Segment>): (r: seq<Segment>)
    ensures path != [] ==> r != [] && (r[0] == Key("") ==> |r| == 1)
  {
    if |path| > 1 && path[0] == Key("") then Stripped(path[1..]) else path
  }

  lemma TextShape(seg: Segment)
    ensures '/' !in Text(seg) && (Text(seg) == "" <==> seg == Key(""))
  {
    match seg
    case Key(k) => EscapeHasNoSlash(k);
    case Index(i) => DecimalDigits(i);
  }

  lemma {:induction false} SplitText(t: string, rest: string)
    requires '/' !in t && (rest == "" || rest[0] == '/')
    ensures Split(t + rest) == if rest == "" then [t] else [t] + Split(rest[1..])
  {
    if t == "" {
      assert t + rest == rest;
    } else {
      assert (t + rest)[1..] == t[1..] + rest;
      assert t[0] in t && t == [t[0]] + t[1..];
      SplitText(t[1..], rest);
    }
  }

  lemma PointerStep(path: seq<Segment>)
    ensures Pointer([]) == ""
    ensures path != [] ==>
              var p := Pointer(path);
              p != "" && p[0] == '/' && p[1..] == Text(path[0]) + Pointer(path[1..])
  {
    hide Text;
  }

  lemma {:induction false} SplitPointer(path: seq<Segment>)
    requires path != []
    ensures Split(Pointer(path)[1..]) == Texts(path)
    decreases |path|
  {
    hide Text, Split, Pointer;
    var t, rest := Text(path[0]), Pointer(path[1..]);
    TextShape(path[0]);
    PointerStep(path);
    SplitText(t, rest);
    if |path| > 1 {
      SplitPointer(path[1..]);
    }
  }

  lemma TrimOne(s: string)
    ensures TrimSlashes(s) == if s != "" && s[0] == '/' then TrimSlashes(s[1..]) else s
  {
  }

  lemma {:induction false} TrimPointer(path: seq<Segment>)
    requires path != []
    ensures TrimSlashes(Pointer(path)) == Pointer(Stripped(path))[1..]
    decreases |path|
  {
    hide Text, TrimSlashes, Pointer;
    var t, rest := Text(path[0]), Pointer(path[1..]);
    TextShape(path[0]);
    PointerStep(path);
    TrimOne(Pointer(path));
    if path[0] != Key("") {
      assert (t + rest)[0] == t[0] && t[0] in t;
      TrimOne(t + rest);
    } else {
      assert t + rest == rest;
      if |path| > 1 {
        TrimPointer(path[1..]);
      } else {
        TrimOne(rest);
      }
    }
  }

  /** What a written pointer resolves to, whatever the path: what its texts lead to once the
      leading slashes were trimmed. */
  lemma PointerResolvesStripped(root: Value, path: seq<Segment>)
    requires path != []
    ensures ResolveRef(root, "#" + Pointer(path)) == Follow(root, Texts(Stripped(path)))
  {
    hide Pointer, Split, TrimSlashes, Follow;
    var r := "#" + Pointer(path);
    assert r[1..] == Pointer(path);
    TrimPointer(path);
    SplitPointer(Stripped(path));
  }

  /** Following the texts of a path that leads somewhere leads there. */
  lemma {:induction false} FollowTexts(v: Value, path: seq<Segment>)
    requires Fits(path) && Lookup(v, path).Some?
    ensures Follow(v, Texts(path)) == Lookup(v, path)
    decreases |path|
  {
    hide Unescape, Escape, Decimal, ParseIndex;
    if path == [] {
    } else {
      assert Texts(path)[1..] == Texts(path[1..]);
      match path[0] {
        case Key(k) =>
          UnescapeInverts(k);
          FollowTexts(v.fields[k], path[1..]);
        case Index(i) =>
          ParseDecimal(i);
          FollowTexts(v.items[i], path[1..]);
      }
    }
  }

  // --- the paths whose pointers come back ------------------------------------

  /** Not two segments or more of which the first is the empty key. */
  predicate Returns(path: seq<Segment>) {
    |path| > 1 ==> path[0] != Key("")
  }

  /** A document that is nothing but the path. */
  function Nest(path: seq<Segment>): Value {
    if path == [] then Null
    else match path[0]
      case Key(k) => Obj(map[k := Nest(path[1..])])
      case Index(i) => Arr(seq(i, _ => Null) + [Nest(path[1..])])
  }

  lemma {:induction false} NestLookup(path: seq<Segment>)
    ensures Lookup(Nest(path), path) == Some(Null)
  {
    if path == [] {
    } else {
      NestLookup(path[1..]);
    }
  }

  ghost predicate ComesBack(path: seq<Segment>) {
    forall root :: Lookup(root, path).Some? ==> ResolveRef(root, "#" + Pointer(path)) == Lookup(root, path)
  }

  lemma PointerComesBack(root: Value, path: seq<Segment>)
    requires Fits(path) && Returns(path) && Lookup(root, path).Some?
    ensures ResolveRef(root, "#" + Pointer(path)) == Lookup(root, path)
  {
    if path == [] {
      assert "#" + Pointer(path) == "#";
    } else {
      PointerResolvesStripped(root, path);
      FollowTexts(root, path);
    }
  }

  /** The pointer of a path resolves back to the node, in every document that has it, exactly
      when the path does not start with an empty key it goes on from. */
  lemma PointerComesBackExactly(path: seq<Segment>)
    requires Fits(path)
    ensures ComesBack(path) <==> Returns(path)
  {
    if Returns(path) {
      forall root | Lookup(root, path).Some? ensures ResolveRef(root, "#" + Pointer(path)) == Lookup(root, path) {
        PointerComesBack(root, path);
      }
    } else {
      PointerLost(path);
    }
  }

  lemma PointerLost(path: seq<Segment>)
    requires Fits(path) && !Returns(path)
    ensures !ComesBack(path)
  {
    hide Unescape, Escape, Decimal, ParseIndex;
    var root, p := Nest(path), Stripped(path);
    NestLookup(path);
    PointerResolvesStripped(root, path);
    assert root == Obj(map["" := Nest(path[1..])]);
    var text := Texts(p)[0];
    assert text == Text(p[0]);
    match p[0]
    case Key(k) =>
      UnescapeInverts(k);
      if k == "" {
        assert p == [Key("")];
        assert Follow(root.fields[""], Texts(p)[1..]) == Some(Nest(path[1..]));
      }
    case Index(i) => IndexIsNoKey(i);
  }

  lemma IndexIsNoKey(i: nat)
    ensures Unescape(Decimal(i)) != ""
  {
    DecimalDigits(i);
    NothingToUnescape(Decimal(i), '1', '/');
    NothingToUnescape(Decimal(i), '0', '~');
  }

  // --- what escaping and indexes are, to the letter --------------------------

  /** A character as a pointer holds it (section 3 of RFC 6901). */
  function EscapedChar(c: char): string {
    if c == '~' then "~0" else if c == '/' then "~1" else [c]
  }

  /** Escaping goes character by character. */
  lemma {:induction false} EscapeByChar(k: string)
    ensures Escape(k) == if k == "" then "" else EscapedChar(k[0]) + Escape(k[1..])
  {
    if k != "" {
      var rest := ReplaceChar(k[1..], '~', "~0");
      if k[0] == '~' {
        assert ReplaceChar(k, '~', "~0") == "~0" + rest;
        assert ("~0" + rest)[1..] == "0" + rest && ("0" + rest)[1..] == rest;
        assert ReplaceChar("0" + rest, '/', "~1") == "0" + ReplaceChar(rest, '/', "~1");
      } else {
        assert ReplaceChar(k, '~', "~0") == [k[0]] + rest;
        assert ([k[0]] + rest)[1..] == rest;
      }
    }
  }

  function Zeros(n: nat): string {
    if n == 0 then "" else Zeros(n - 1) + "0"
  }

  lemma {:induction false} ZerosValue(z: nat)
    ensures |Zeros(z)| == z && AllDigits(Zeros(z)) && DigitsValue(Zeros(z)) == 0
  {
    if z == 0 {
    } else {
      ZerosValue(z - 1);
      AnotherZero(Zeros(z - 1));
    }
  }

  lemma AnotherZero(s: string)
    requires AllDigits(s)
    ensures AllDigits(s + "0") && DigitsValue(s + "0") == DigitsValue(s) * 10
  {
    var t := s + "0";
    assert t[..|t| - 1] == s && t[|t| - 1] == '0';
    assert AllDigits(t);
  }

  lemma {:induction false} ZerosThen(z: nat, d: string)
    requires forall i :: 0 <= i < |d| ==> Digit(d[i])
    ensures forall i :: 0 <= i < |Zeros(z) + d| ==> Digit((Zeros(z) + d)[i])
    ensures DigitsValue(Zeros(z) + d) == DigitsValue(d)
    decreases |d|
  {
    ZerosValue(z);
    var s := Zeros(z) + d;
    if d == "" {
      assert s == Zeros(z);
    } else {
      var init := d[..|d| - 1];
      ZerosThen(z, init);
      assert s[..|s| - 1] == Zeros(z) + init && s[|s| - 1] == d[|d| - 1];
    }
  }

  predicate SpelledWith(d: string, z: nat, n: nat) {
    d == Zeros(z) + Decimal(n)
  }

  lemma OneDigit(c: char)
    requires Digit(c)
    ensures DigitsValue([c]) == c as int - '0' as int && SpelledWith([c], 0, DigitsValue([c]))
  {
    assert [c][..0] == "" && [c][0] == c;
    assert Decimal(c as int - '0' as int) == [c] && Zeros(0) + [c] == [c];
  }

  lemma OneMoreDigit(init: string, c: char, z: nat, v: nat)
    requires Digit(c) && SpelledWith(init, z, v)
    ensures var n := v * 10 + (c as int - '0' as int);
            SpelledWith(init + [c], if v == 0 then z + 1 else z, n)
  {
    var digit := c as int - '0' as int;
    var n := v * 10 + digit;
    if v == 0 {
      assert Decimal(0) == "0" && Decimal(digit) == [c];
      assert init == Zeros(z + 1);
    } else {
      assert n / 10 == v && n % 10 == digit;
      assert Decimal(n) == Decimal(v) + [c];
      assert init + [c] == Zeros(z) + (Decimal(v) + [c]);
    }
  }

  /** Digits spell a number in one way, but for zeros before it. */
  lemma {:induction false} DigitsSpell(d: string)
    requires d != "" && forall i :: 0 <= i < |d| ==> Digit(d[i])
    ensures exists z: nat :: SpelledWith(d, z, DigitsValue(d))
    decreases |d|
  {
    hide SpelledWith, Decimal, Zeros;
    var init, c := d[..|d| - 1], d[|d| - 1];
    assert d == init + [c] && Digit(c);
    if init == "" {
      assert d == [c];
      OneDigit(c);
    } else {
      DigitsSpell(init);
      var z: nat :| SpelledWith(init, z, DigitsValue(init));
      OneMoreDigit(init, c, z, DigitsValue(init));
      assert DigitsValue(d) == DigitsValue(init) * 10 + (c as int - '0' as int);
    }
  }

  lemma IndexDigits(s: string)
    requires ParseIndex(s).Some?
    ensures var d := if s != "" && s[0] == '+' then s[1..] else s;
            d != "" && AllDigits(d) && ParseIndex(s).value == DigitsValue(d)
  {
  }

  /** What reads as the index `n`: its decimal, after any zeros, after a plus sign or none. */
  predicate SpellsIndex(s: string, plus: string, z: nat, n: nat) {
    plus in {"", "+"} && s == plus + (Zeros(z) + Decimal(n))
  }

  lemma IndexExactly(s: string, n: nat)
    ensures ParseIndex(s) == Some(n) <==> n <= USIZE_MAX && exists plus, z :: SpellsIndex(s, plus, z, n)
  {
    if ParseIndex(s) == Some(n) {
      var plus := if s != "" && s[0] == '+' then "+" else "";
      var d := if s != "" && s[0] == '+' then s[1..] else s;
      IndexDigits(s);
      assert s == plus + d;
      DigitsSpell(d);
      var z: nat :| SpelledWith(d, z, n);
      assert SpellsIndex(s, plus, z, n);
    }
    if n <= USIZE_MAX {
      forall plus, z | SpellsIndex(s, plus, z, n) ensures ParseIndex(s) == Some(n) {
        IndexReads(s, plus, z, n);
      }
    }
  }

  lemma IndexReads(s: string, plus: string, z: nat, n: nat)
    requires n <= USIZE_MAX && SpellsIndex(s, plus, z, n)
    ensures ParseIndex(s) == Some(n)
  {
    var d := Zeros(z) + Decimal(n);
    DecimalDigits(n);
    ZerosThen(z, Decimal(n));
    assert d != "" && Digit(d[0]) && d[0] != '+';
    if plus == "+" {
      assert s[0] == '+' && s[1..] == d;
    } else {
      assert s == d;
    }
  }

  /** Only what begins with `#` is a local reference. */
  lemma NotLocal(root: Value, r: string)
    ensures r == "" || r[0] != '#' ==> ResolveRef(root, r) == None
  {
  }
}
